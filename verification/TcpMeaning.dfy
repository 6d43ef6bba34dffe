/** What goes over the wire (tcp.c), byte for byte: encoded characters, and quoted tokens. */
module TcpMeaning {
  import opened Bytes
  import opened TcpUtf8
  import opened TcpQuote

  // --- characters -------------------------------------------------------------------------------------------------------------

  /** HOW A BYTE IS SENT: zero as C0 80, one up to 7F as it is, and a greater one as two bytes, of which the first is C0 with the upper two
      bits and the second is 80 with the lower six. */
  lemma EncodeMeans(c: byte, s: seq<byte>)
    ensures Encode([]) == []
    ensures c == 0 ==> Encode([c] + s) == [0xC0, 0x80] + Encode(s)
    ensures 1 <= c <= 0x7F ==> Encode([c] + s) == [c] + Encode(s)
    ensures c > 0x7F ==> Encode([c] + s) == [0xC0 + c / 64, 0x80 + c % 64] + Encode(s)
  {
    assert ([c] + s)[1..] == s;
  }

  /** The same in bits. */
  lemma BitsMean(b: bv8)
    ensures (b as int) / 64 == (b >> 6) as int && (b as int) % 64 == (b & 0x3F) as int
    ensures 0xC0 + (b as int) / 64 == (0xC0 | (b >> 6)) as int && 0x80 + (b as int) % 64 == (0x80 | (b & 0x3F)) as int
  {
  }

  /** The bytes that take two. */
  function Doubles(s: seq<byte>): nat {
    if s == [] then 0 else (if s[0] == 0 || s[0] > 0x7F then 1 else 0) + Doubles(s[1..])
  }

  /** NO ZERO IS EVER ON THE WIRE, and each byte takes one or two. */
  lemma {:induction false} NoZeroSent(s: seq<byte>)
    ensures 0 !in Encode(s)
    ensures |Encode(s)| == |s| + Doubles(s)
    decreases |s|
  {
    if s != [] {
      NoZeroSent(s[1..]);
    }
  }

  /** What is read back: one byte below 80, two from C0 to DF, three from E0 on, of which the low eight bits stay. */
  lemma DecodeMeans(a: byte, b: byte, c: byte, s: seq<byte>)
    requires Whole(s)
    ensures Whole([]) && Decode([]) == []
    ensures a < 0x80 ==> Whole([a] + s) && Decode([a] + s) == [a] + Decode(s)
    ensures 0x80 <= a < 0xE0 ==> Whole([a, b] + s) && Decode([a, b] + s) == [((a as int - 0xC0) * 64 + b as int - 0x80) % 256] + Decode(s)
    ensures a >= 0xE0 ==>
              Whole([a, b, c] + s)
              && Decode([a, b, c] + s) == [((a as int - 0xE0) * 4096 + (b as int - 0x80) * 64 + c as int - 0x80) % 256] + Decode(s)
    ensures (0x80 <= a ==> !Whole([a])) && (a >= 0xE0 ==> !Whole([a, b]))
  {
    if a < 0x80 {
      WholeSplit([a], s);
    } else if a < 0xE0 {
      WholeSplit([a, b], s);
    } else {
      WholeSplit([a, b, c], s);
    }
  }

  // --- tokens -----------------------------------------------------------------------------------------------------------------

  /** A backslash before each backslash and each quotation mark. */
  function Escaped(s: seq<byte>): seq<byte> {
    if s == [] then []
    else (if s[0] == 92 || s[0] == 34 then [92, s[0]] else [s[0]]) + Escaped(s[1..])
  }

  lemma {:induction false} OpenMeans(s: seq<byte>)
    ensures Body(s, true) == Escaped(s) + [34]
    decreases |s|
  {
    if s != [] {
      OpenMeans(s[1..]);
    }
  }

  lemma {:induction false} ClosedMeans(a: seq<byte>, b: seq<byte>)
    requires 32 !in a && (b != [] ==> b[0] == 32)
    ensures Body(a + b, false) == Escaped(a) + if b == [] then [] else [34] + Escaped(b) + [34]
    decreases |a|
  {
    if a == [] {
      assert a + b == b;
      if b != [] {
        OpenMeans(b[1..]);
        assert Escaped(b) == [32] + Escaped(b[1..]);
      }
    } else {
      assert (a + b)[1..] == a[1..] + b;
      ClosedMeans(a[1..], b);
    }
  }

  /** HOW A TOKEN IS QUOTED: two quotation marks when it is empty; otherwise with a backslash before each backslash and quotation mark, and
      with quotation marks around all from the first blank on. */
  lemma QuotedMeans(a: seq<byte>, b: seq<byte>)
    requires 32 !in a && (b != [] ==> b[0] == 32)
    ensures Quoted([]) == [34, 34]
    ensures a + b != [] ==> Quoted(a + b) == Escaped(a) + if b == [] then [] else [34] + Escaped(b) + [34]
  {
    ClosedMeans(a, b);
  }

  /** HOW A TOKEN IS TAKEN APART: a backslash keeps the byte behind it, a quotation mark is left out and opens or closes, a blank ends the
      token unless it is quoted, and any other byte is kept. */
  lemma ScanMeans(c: byte, t: seq<byte>, open: bool)
    ensures Scan([], open) == ([], 0) && Scan([92], open) == ([], 1)
    ensures Scan([92, c] + t, open) == ([c] + Scan(t, open).0, 2 + Scan(t, open).1)
    ensures Scan([34] + t, open) == (Scan(t, !open).0, 1 + Scan(t, !open).1)
    ensures Scan([32] + t, open) == if open then ([32] + Scan(t, open).0, 1 + Scan(t, open).1) else ([], 1)
    ensures c !in [32, 34, 92] ==> Scan([c] + t, open) == ([c] + Scan(t, open).0, 1 + Scan(t, open).1)
  {
    ScanEscaped(c, t, open);
    ScanQuote(t, open);
    if open {
      ScanPlain(32, t, open);
    } else {
      assert ([32] + t)[0] == 32;
    }
    if c !in [32, 34, 92] {
      ScanPlain(c, t, open);
    }
  }

  /** A list: its tokens, quoted, and one blank between two of them. */
  lemma JoinedMeans(a: seq<byte>, b: seq<byte>, more: seq<seq<byte>>)
    ensures Joined([]) == [] && Joined([a]) == Quoted(a)
    ensures Joined([a, b] + more) == Quoted(a) + [32] + Joined([b] + more)
  {
    assert ([a, b] + more)[1..] == [b] + more;
  }
}

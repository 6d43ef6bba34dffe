/** What a record file holds, byte for byte (rio.c): compressed characters, and the marks behind them. */
module RioMeaning {
  import opened Bytes
  import opened RioCodec
  import opened RioBuffer
  import opened RioGet

  // --- compression ------------------------------------------------------------------------------------------------------------

  /** A digit or a decimal point. */
  predicate DigitOrPoint(c: byte) {
    48 <= c <= 57 || c == 46
  }

  /** A digit counts as much as it says, a decimal point ten. */
  function Worth(c: byte): int
    requires DigitOrPoint(c)
  {
    if c == 46 then 10 else c as int - 48
  }

  /** So many blanks. */
  function Spaces(n: nat): seq<byte> {
    seq(n, _ => 32)
  }

  lemma RunOfSpaces(n: nat, t: seq<byte>)
    requires t != [] ==> t[0] != 32
    ensures Run(Spaces(n) + t) == if n <= 248 then n else 248
  {
    var s := Spaces(n) + t;
    var m := Run(s);
    assert s[..m] == Blanks(m);
    assert m < |s| && m < n ==> s[m] == 32;
    assert forall i :: 0 <= i < m ==> s[i] == s[..m][i] == 32;
    assert t != [] ==> s[n] == t[0];
  }

  /** HOW A RECORD IS COMPRESSED, character by character: a run of blanks becomes 0xF9 and its length, but one or two blanks stay as they are
      and no more than 248 are taken at a time; two digits or points become one byte; anything else stays. */
  lemma CompressMeans(s: seq<byte>, t: seq<byte>, n: nat, plain: bool)
    requires t != [] ==> t[0] != 32
    ensures Compress([], plain) == []
    ensures 3 <= n <= 248 ==> Compress(Spaces(n) + t, plain) == [0xF9, n] + Compress(t, plain)
    ensures n > 248 ==> Compress(Spaces(n) + t, plain) == [0xF9, 248] + Compress(Spaces(n - 248) + t, plain)
    ensures 1 <= n <= 2 ==> Compress(Spaces(n) + t, plain) == Spaces(n) + Compress(t, plain)
    ensures |s| >= 2 && DigitOrPoint(s[0]) && DigitOrPoint(s[1]) && !plain ==>
              Compress(s, plain) == [128 + 11 * Worth(s[0]) + Worth(s[1])] + Compress(s[2..], plain)
    ensures s != [] && s[0] != 32 && (plain || |s| < 2 || !DigitOrPoint(s[0]) || !DigitOrPoint(s[1])) ==>
              Compress(s, plain) == [s[0]] + Compress(s[1..], plain)
  {
    if n > 0 {
      RunOfSpaces(n, t);
      var u := Spaces(n) + t;
      var k := Run(u);
      assert u[k..] == Spaces(n - k) + t;
      assert Spaces(0) + t == t;
      assert k <= 2 ==> RunBytes(k) == Spaces(k);
    }
  }

  /** The byte for two digits or points. */
  function PairByte(s: seq<byte>, i: nat): int
    requires i + 1 < |s| && DigitOrPoint(s[i]) && DigitOrPoint(s[i + 1])
  {
    128 + 11 * Worth(s[i]) + Worth(s[i + 1])
  }

  /** A record of digits and points only takes half as many bytes; an odd one at the end is left as it is. */
  lemma {:induction false} DigitsHalve(s: seq<byte>)
    requires forall i :: 0 <= i < |s| ==> DigitOrPoint(s[i])
    ensures var c := Compress(s, false);
            && |c| == (|s| + 1) / 2
            && (forall i :: 0 <= i < |s| / 2 ==> c[i] == PairByte(s, 2 * i))
            && (|s| % 2 == 1 ==> c[|s| / 2] == s[|s| - 1])
    decreases |s|
  {
    hide Compress, PairByte;
    CompressMeans(s, [], 0, false);
    if |s| >= 2 {
      var t := s[2..];
      DigitsHalve(t);
      var c, d := Compress(s, false), Compress(t, false);
      PairIs(s);
      assert c == [PairByte(s, 0)] + d;
      forall i | 0 <= i < |s| / 2
        ensures c[i] == PairByte(s, 2 * i)
      {
        if i > 0 {
          assert c[i] == d[i - 1];
          PairFrom(s, 2 * i);
        }
      }
    } else if |s| == 1 {
      CompressMeans([], [], 0, false);
      assert s[1..] == [];
    }
  }

  lemma PairIs(s: seq<byte>)
    requires |s| >= 2 && DigitOrPoint(s[0]) && DigitOrPoint(s[1])
    ensures PairByte(s, 0) == 128 + 11 * Worth(s[0]) + Worth(s[1])
  {
  }

  lemma PairFrom(s: seq<byte>, i: nat)
    requires 2 <= i < |s| - 1 && DigitOrPoint(s[i]) && DigitOrPoint(s[i + 1])
    ensures PairByte(s, i) == PairByte(s[2..], i - 2)
  {
  }

  // --- what is written --------------------------------------------------------------------------------------------------------

  /** WHAT A PUT WRITES: the record, compressed or not, the byte 0xFA, and at the end of the file the byte 0xFB. */
  lemma PutMeans(rec: seq<byte>, unc: bool, plain: bool, npos: nat, fsiz: nat)
    ensures var c := if unc then rec else Compress(rec, plain);
            && Marked(rec, unc, plain) == c + [0xFA]
            && Written(rec, unc, plain, npos, fsiz) == if npos + |c| + 1 >= fsiz then c + [0xFA, 0xFB] else c + [0xFA]
  {
  }

  /** Bytes written at a place: they stand there, what was before and behind them stays, and a gap is filled with zeros. */
  lemma OverlayMeans(d: seq<byte>, pos: nat, bytes: seq<byte>, i: nat)
    ensures var v := Overlay(d, pos, bytes);
            && |v| == (if bytes == [] then |d| else if pos + |bytes| > |d| then pos + |bytes| else |d|)
            && (i < |v| ==> v[i] == if pos <= i < pos + |bytes| then bytes[i - pos] else if i < |d| then d[i] else 0)
  {
  }

  /** Bytes read at a place: as many as there are, up to n. */
  lemma PartMeans(d: seq<byte>, pos: nat, n: nat, i: nat)
    ensures var v := LoadedBytes(d, pos, n);
            && |v| == (if pos >= |d| then 0 else if |d| - pos < n then |d| - pos else n)
            && (i < |v| ==> v[i] == d[pos + i])
  {
  }

  // --- what is read -----------------------------------------------------------------------------------------------------------

  /** WHAT A BYTE OF A COMPRESSED RECORD SAYS: 0xF9 and a number stand for so many blanks, a byte from 128 to 248 for two digits or points,
      0xFA for the end, greater ones for an error, and all others for themselves. */
  lemma ExpandMeans(w: seq<byte>, i: nat, out: seq<byte>, recsize: nat, plain: bool, tail: int)
    requires i < |w|
    ensures var o := Expand(w, i, out, recsize, plain, tail);
            && (w[i] == 0xF9 && i + 1 < |w| && |out| + w[i + 1] <= recsize ==>
                  o == Expand(w, i + 2, out + Spaces(w[i + 1]), recsize, plain, tail))
            && (128 <= w[i] <= 248 && !plain && |out| + 2 <= recsize ==>
                  exists a, b: byte :: DigitOrPoint(a) && DigitOrPoint(b) && w[i] == 128 + 11 * Worth(a) + Worth(b)
                                       && o == Expand(w, i + 1, out + [a, b], recsize, plain, tail))
            && (w[i] == 0xFA ==> o == Got(out, i + 1))
            && (w[i] > 0xFA ==> o.Failed?)
            && (w[i] < 0xF9 && (plain || w[i] < 128) && |out| < recsize ==> o == Expand(w, i + 1, out + [w[i]], recsize, plain, tail))
  {
    if w[i] == 0xF9 && i + 1 < |w| {
      assert Blanks(w[i + 1]) == Spaces(w[i + 1]);
    }
    if 128 <= w[i] <= 248 && !plain && |out| + 2 <= recsize {
      var a, b := RioCodec.First(w[i]), RioCodec.Second(w[i]);
      assert DigitOrPoint(a) && DigitOrPoint(b) && w[i] == 128 + 11 * Worth(a) + Worth(b);
    }
  }

  /** WHAT A READ FINDS: nothing where there are no bytes, the end of the file at 0xFB, and a deleted record at 0xFF, as long as 0xFF goes on. */
  lemma ReadMeans(w: seq<byte>, recsize: nat, unc: bool, plain: bool, buffered: bool, n: nat)
    ensures w == [] ==> Read(w, recsize, unc, plain, buffered) == Failed(ERR_RANGE, 0)
    ensures w != [] && w[0] == 0xFB ==> Read(w, recsize, unc, plain, buffered) == AtEnd
    ensures 0 < n < |w| && (forall i :: 0 <= i < n ==> w[i] == 0xFF) && w[n] != 0xFF ==>
              Read(w, recsize, unc, plain, buffered) == Gone(n)
    ensures n < |w| && n <= recsize && (forall i :: 0 <= i < n ==> w[i] < if plain then 0xF9 else 0x80) && w[n] == 0xFA ==>
              Read(w, recsize, unc, plain, buffered) == Got(w[..n], n + 1)
  {
    if n < |w| {
      var m := DeletedFrom(w, 0);
      var l := Below(w, Limit(plain));
    }
  }
}

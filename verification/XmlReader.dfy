/** Scanning a text (xml.c, xmlparse): the loops over its characters, and the strings that they leave in the buffer. */
module XmlReader {
  import opened Bytes
  import opened XmlTags
  import opened XmlTree
  import opened XmlScan

  const OK := 0
  const SPACE := -1                     // the buffer is too small
  const SYNTAX := -2

  method FindSkip(input: seq<byte>, pos: nat) returns (p: nat)
    requires pos <= |input|
    ensures p == Skip(input, pos)
  {
    p := pos;
    while p < |input| && IsWhite(input[p])
      invariant pos <= p <= |input| && Skip(input, p) == Skip(input, pos)
    {
      p := p + 1;
    }
  }

  method FindDelims(input: seq<byte>, pos: nat) returns (p: nat)
    requires pos <= |input|
    ensures p == SkipDelims(input, pos)
  {
    p := pos;
    while p < |input| && IsDelim(input[p])
      invariant pos <= p <= |input| && SkipDelims(input, p) == SkipDelims(input, pos)
    {
      p := p + 1;
    }
  }

  method FindNameEnd(input: seq<byte>, pos: nat) returns (p: nat)
    requires pos <= |input|
    ensures p == NameEnd(input, pos)
  {
    p := pos;
    while p < |input| && IsNameChar(input[p])
      invariant pos <= p <= |input| && NameEnd(input, p) == NameEnd(input, pos)
    {
      p := p + 1;
    }
  }

  method NameAt(input: seq<byte>, i: nat) returns (l: Label)
    requires i < |input|
    ensures l == ReadName(input, i)
  {
    if !IsLower(input[i]) || i + 1 == |input| {
      return NoLabel;
    }
    var e := FindNameEnd(input, i + 1);
    l := if e == |input| then NoLabel else Label(e);
  }

  // --- characters -----------------------------------------------------------------------------------------------------------

  method NumberAt(input: seq<byte>, start: nat) returns (p: Piece)
    requires start < |input|
    ensures p == ReadNumber(input, start, Radix(input[start]), 0)
  {
    var base := if ToUpper(input[start]) == 120 then 16 else if input[start] == 48 then 8 else 10;
    var value: nat, i: nat := 0, start;
    while true
      invariant start <= i < |input| && 0 <= value
      invariant ReadNumber(input, i, base, value) == ReadNumber(input, start, base, 0)
      decreases |input| - i
    {
      var chr := input[i];
      if i + 1 == |input| {
        return NoPiece;
      }
      if IsDigit(chr) {
        value := value * base + (chr - 48);
      } else if chr == SEMI {
        return Piece(value % 256, i + 1);
      } else {
        return NoPiece;
      }
      i := i + 1;
    }
  }

  method MarkAt(input: seq<byte>, j: nat) returns (p: Piece)
    requires j < |input|
    ensures p == ReadMark(input, j)
  {
    var chr := input[j];
    if chr == 113 {
      p := if j + 5 < |input| && input[j + 1..j + 5] == [117, 111, 116, SEMI] then Piece(QUOT, j + 5) else NoPiece;
    } else if chr == 97 {
      if j + 4 >= |input| {
        return NoPiece;
      }
      if input[j + 1..j + 4] == [109, 112, SEMI] {
        p := Piece(AMP, j + 4);
      } else if j + 5 < |input| && input[j + 1..j + 5] == [112, 111, 115, SEMI] {
        p := Piece(APOS, j + 5);
      } else {
        p := NoPiece;
      }
    } else if chr != HASH {
      if chr == 108 {
        chr := LT;
      } else if chr == 103 {
        chr := GT;
      } else {
        return NoPiece;
      }
      p := if j + 3 < |input| && input[j + 1..j + 3] == [116, SEMI] then Piece(chr, j + 3) else NoPiece;
    } else if j + 1 < |input| {
      p := NumberAt(input, j + 1);
    } else {
      p := NoPiece;
    }
  }

  method CharAt(input: seq<byte>, i: nat) returns (p: Piece)
    requires i < |input|
    ensures p == ReadChar(input, i)
  {
    if i + 1 == |input| {
      p := NoPiece;
    } else if input[i] != AMP {
      p := Piece(input[i], i + 1);
    } else {
      p := MarkAt(input, i + 1);
    }
  }

  // --- strings into the buffer ----------------------------------------------------------------------------------------------

  function Behind(done: seq<byte>, t: Str): Str {
    if t.Str? then Str(done + t.bytes, t.end) else NoStr
  }

  lemma ReadStep(s: seq<byte>, i: nat, stop: Stop, p: Piece)
    requires i < |s| && !Stops(stop, s[i]) && p == ReadChar(s, i)
    ensures ReadStr(s, i, stop) == if p.Piece? then Behind([Kept(stop, p.c)], ReadStr(s, p.next, stop)) else NoStr
  {
  }

  lemma BehindBoth(a: seq<byte>, b: seq<byte>, t: Str)
    ensures Behind(a, Behind(b, t)) == Behind(a + b, t)
  {
    if t.Str? {
      assert a + (b + t.bytes) == a + b + t.bytes;
    }
  }

  /** Read a string into the buffer, from position at on, as long as there is room up to himark. */
  method StringInto(input: seq<byte>, start: nat, stop: Stop, text: array<byte>, at: nat, himark: nat) returns (rc: int, i: nat, lowmark: nat)
    requires start < |input| && at <= himark <= text.Length
    modifies text
    ensures rc == OK || rc == SPACE || rc == SYNTAX
    ensures rc == OK ==>
              && at <= lowmark <= himark && ReadStr(input, start, stop) == Str(text[at..lowmark], i)
              && text[..at] == old(text[..at])
    ensures rc != OK ==> match ReadStr(input, start, stop) case NoStr => true case Str(b, _) => at + |b| > himark
  {
    hide ReadStr, ReadChar;
    ghost var before := text[..at];
    ghost var done: seq<byte> := [];
    i, lowmark, rc := start, at, OK;
    ghost var whole := ReadStr(input, start, stop);
    assert whole == Behind([], whole) by {
      if whole.Str? {
        assert [] + whole.bytes == whole.bytes;
      }
    }
    while !Stops(stop, input[i])
      invariant start <= i < |input| && at <= lowmark <= himark && text[..lowmark] == before + done
      invariant whole == Behind(done, ReadStr(input, i, stop))
      decreases |input| - i
    {
      var p := CharAt(input, i);
      ReadStep(input, i, stop, p);
      if p.NoPiece? {
        return SYNTAX, i, lowmark;
      }
      PieceGoesOn(input, i, p);
      var c := Kept(stop, p.c);
      BehindBoth(done, [c], ReadStr(input, p.next, stop));
      if lowmark + 1 > himark {
        return SPACE, i, lowmark;
      }
      text[lowmark] := c;
      lowmark := lowmark + 1;
      done := done + [c];
      assert text[..lowmark] == before + done;
      i := p.next;
    }
    StopsHere(input, i, stop);
    assert text[at..lowmark] == text[..lowmark][at..] == done;
    assert text[..at] == text[..lowmark][..at];
  }

  lemma PieceGoesOn(s: seq<byte>, i: nat, p: Piece)
    requires i < |s| && p == ReadChar(s, i)
    ensures p.Piece? ==> i < p.next < |s|
  {
  }

  lemma StopsHere(s: seq<byte>, i: nat, stop: Stop)
    requires i < |s| && Stops(stop, s[i])
    ensures ReadStr(s, i, stop) == Str([], i)
  {
  }

  /** Read the value of an attribute into the buffer, with a zero behind it. */
  method ValueInto(input: seq<byte>, v: nat, text: array<byte>, at: nat, himark: nat) returns (rc: int, i: nat, lowmark: nat)
    requires v < |input| && at <= himark <= text.Length
    modifies text
    ensures rc == OK || rc == SPACE || rc == SYNTAX
    ensures rc == OK ==>
              && ReadValue(input, v).Str? && i == ReadValue(input, v).end && lowmark <= himark
              && lowmark == at + |ReadValue(input, v).bytes| + 1
              && text[..lowmark] == old(text[..at]) + ReadValue(input, v).bytes + [0]
    ensures rc != OK ==> match ReadValue(input, v) case NoStr => true case Str(b, _) => at + |b| + 1 > himark
  {
    hide ReadStr;
    ghost var before := text[..at];
    if input[v] == QUOT || input[v] == APOS {
      if v + 1 == |input| {
        return SYNTAX, v, at;
      }
      rc, i, lowmark := StringInto(input, v + 1, Quote(input[v]), text, at, himark);
      if rc == OK {
        i := i + 1;
        if i == |input| {
          return SYNTAX, i, lowmark;
        }
      }
    } else {
      rc, i, lowmark := StringInto(input, v, Bare, text, at, himark);
    }
    if rc == OK {
      if lowmark + 1 > himark {
        return SPACE, i, lowmark;
      }
      assert text[..lowmark] == text[..at] + text[at..lowmark];
      text[lowmark] := 0;
      lowmark := lowmark + 1;
      assert text[..lowmark] == text[..lowmark - 1] + [0];
    }
  }

  /** Read what follows the name of an attribute, which ends at position e: an equals sign and a value. */
  method AttrValueInto(input: seq<byte>, i: nat, e: nat, text: array<byte>, at: nat, himark: nat) returns (rc: int, next: nat, lowmark: nat)
    requires i < |input| && ReadName(input, i) == Label(e) && at <= himark <= text.Length
    modifies text
    ensures rc == OK || rc == SPACE || rc == SYNTAX
    ensures rc == OK ==> ReadAttr(input, i).AttrList?
    ensures rc == OK ==>
              var v := ReadAttr(input, i).attrs[0].value;
              && next == ReadAttr(input, i).next && lowmark == at + |v| + 1 <= himark
              && text[..lowmark] == old(text[..at]) + v + [0]
    ensures rc != OK ==> match ReadAttr(input, i) case NoAttrs => true case AttrList(a, _) => at + |a[0].value| + 1 > himark
  {
    hide ReadName, ReadValue;
    next, lowmark := i, at;
    var q := FindSkip(input, e);
    if q == |input| || input[q] != EQUALS || q + 1 == |input| {
      return SYNTAX, next, lowmark;
    }
    var v := FindSkip(input, q + 1);
    if v == |input| {
      return SYNTAX, next, lowmark;
    }
    var end;
    rc, end, lowmark := ValueInto(input, v, text, at, himark);
    if rc == OK {
      next := FindSkip(input, end);
      if next == |input| {
        rc := SYNTAX;
      }
    }
  }

  lemma {:induction false} DelimsRead(s: seq<byte>, i: nat, d: nat)
    requires i <= d < |s| && forall k :: i <= k < d ==> IsDelim(s[k])
    ensures ReadStr(s, i, Bracket) == Behind(s[i..d], ReadStr(s, d, Bracket))
    decreases d - i
  {
    if i < d {
      DelimsRead(s, i + 1, d);
      ReadStep(s, i, Bracket, Piece(s[i], i + 1));
      BehindBoth([s[i]], s[i + 1..d], ReadStr(s, d, Bracket));
      assert [s[i]] + s[i + 1..d] == s[i..d];
    } else {
      assert s[i..d] == [];
      var t := ReadStr(s, d, Bracket);
      if t.Str? {
        assert [] + t.bytes == t.bytes;
      }
    }
  }

  lemma {:induction false} DelimsOnly(s: seq<byte>, i: nat)
    requires i <= |s|
    ensures forall k :: i <= k < SkipDelims(s, i) ==> IsDelim(s[k])
    decreases |s| - i
  {
    if i < |s| && IsDelim(s[i]) {
      DelimsOnly(s, i + 1);
    }
  }

  /** What follows the attributes of an element. */
  method CloseAt(input: seq<byte>, r: nat, ghost tag: seq<byte>, ghost attrs: seq<Attr>) returns (rc: int, closed: bool, next: nat)
    requires r < |input|
    ensures rc == OK || rc == SYNTAX
    ensures ReadClose(input, tag, attrs, r) == if rc == OK then Start(tag, attrs, closed, next) else Bad
  {
    next, closed := r, false;
    if input[next] == SLASH {
      if next + 1 == |input| {
        return SYNTAX, closed, next;
      }
      next := FindSkip(input, next + 1);
      if next == |input| {
        return SYNTAX, closed, next;
      }
      closed := true;
    }
    if input[next] != GT {
      return SYNTAX, closed, next;
    }
    rc, next := OK, next + 1;
  }

  /** Where the name of a tag starts, and whether it is the end of an element. */
  method TagAt(input: seq<byte>, j: nat) returns (l: Label, endflag: bool)
    requires j <= |input|
    ensures l == TagStart(input, j) && (l.Label? ==> endflag == IsEnd(input, j))
  {
    if j == |input| {
      return NoLabel, false;
    }
    var p := FindSkip(input, j);
    if p == |input| {
      return NoLabel, false;
    }
    endflag := input[p] == SLASH;
    if endflag {
      if p + 1 == |input| {
        return NoLabel, endflag;
      }
      p := FindSkip(input, p + 1);
      if p == |input| {
        return NoLabel, endflag;
      }
    }
    l := Label(p);
  }

  /** Character data is the line ends that come first and what is read behind them. */
  lemma DataItem(s: seq<byte>, i: nat, d: nat)
    requires i <= |s| && d == SkipDelims(s, i) < |s| && s[d] != LT
    ensures ReadItem(s, i) == match ReadStr(s, d, Bracket)
                              case NoStr => Bad
                              case Str(b, e) => if s[e] == LT then Chars(s[i..d] + b, e) else Bad
  {
    hide ReadStr;
    DelimsOnly(s, i);
    DelimsRead(s, i, d);
  }

  method CopyDelims(input: seq<byte>, start: nat, d: nat, text: array<byte>, at: nat)
    requires start <= d <= |input| && at + (d - start) <= text.Length
    modifies text
    ensures text[..at + (d - start)] == old(text[..at]) + input[start..d]
  {
    var j := 0;
    while j < d - start
      invariant 0 <= j <= d - start && text[..at + j] == old(text[..at]) + input[start..start + j]
    {
      text[at + j] := input[start + j];
      j := j + 1;
    }
  }

  /** Read character data into the buffer, with a zero behind it; the line ends that come first are copied as they are. */
  method DataInto(input: seq<byte>, start: nat, d: nat, text: array<byte>, at: nat, himark: nat) returns (rc: int, i: nat, lowmark: nat)
    requires start <= |input| && d == SkipDelims(input, start) < |input| && input[d] != LT && at <= himark <= text.Length
    modifies text
    ensures rc == OK || rc == SPACE || rc == SYNTAX
    ensures rc == OK ==>
              && ReadItem(input, start).Chars? && i == ReadItem(input, start).next && lowmark <= himark
              && lowmark == at + |ReadItem(input, start).data| + 1
              && text[..lowmark] == old(text[..at]) + ReadItem(input, start).data + [0]
    ensures rc != OK ==> match ReadItem(input, start) case Chars(data, _) => at + |data| + 1 > himark case _ => ReadItem(input, start).Bad?
  {
    hide ReadStr, ReadItem, SkipDelims;
    ghost var before := text[..at];
    DataItem(input, start, d);
    if at + (d - start) > himark {
      return SPACE, start, at;
    }
    CopyDelims(input, start, d, text, at);
    rc, i, lowmark := StringInto(input, d, Bracket, text, at + (d - start), himark);
    if rc == OK {
      if input[i] != LT {
        return SYNTAX, i, lowmark;
      }
      if lowmark + 1 > himark {
        return SPACE, i, lowmark;
      }
      Joined(text[..lowmark], before, input[start..d], text[at + (d - start)..lowmark]);
      text[lowmark] := 0;
      lowmark := lowmark + 1;
      assert text[..lowmark] == text[..lowmark - 1] + [0];
    }
  }

  lemma Joined(t: seq<byte>, a: seq<byte>, b: seq<byte>, c: seq<byte>)
    requires |a| + |b| <= |t| && t[..|a| + |b|] == a + b && t[|a| + |b|..] == c
    ensures t == a + (b + c)
  {
  }
}

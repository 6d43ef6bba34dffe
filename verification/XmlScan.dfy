/** Reading the text form of a tree (xml.c, xmlparse): the characters, names, attributes and tags that a text is made of.
    A text must go on behind everything but the closing bracket of a tag. */
module XmlScan {
  import opened Bytes
  import opened XmlTags
  import opened XmlTree

  // --- blanks and names ---------------------------------------------------------------------------------------------------

  /** The first position from i on that is not a line end, a tab or a blank. */
  function Skip(s: seq<byte>, i: nat): (j: nat)
    requires i <= |s|
    ensures i <= j <= |s| && (j < |s| ==> !IsWhite(s[j]))
    decreases |s| - i
  {
    if i < |s| && IsWhite(s[i]) then Skip(s, i + 1) else i
  }

  /** The first position from i on that is not a line end. */
  function SkipDelims(s: seq<byte>, i: nat): (j: nat)
    requires i <= |s|
    ensures i <= j <= |s| && (j < |s| ==> !IsDelim(s[j]))
    decreases |s| - i
  {
    if i < |s| && IsDelim(s[i]) then SkipDelims(s, i + 1) else i
  }

  /** The first position from i on that is not part of a name. */
  function NameEnd(s: seq<byte>, i: nat): (j: nat)
    requires i <= |s|
    ensures i <= j <= |s| && (j < |s| ==> !IsNameChar(s[j]))
    ensures forall k :: i <= k < j ==> IsNameChar(s[k])
    decreases |s| - i
  {
    if i < |s| && IsNameChar(s[i]) then NameEnd(s, i + 1) else i
  }

  // --- characters -----------------------------------------------------------------------------------------------------------

  /** A character, and the position behind it. */
  datatype Piece = Piece(c: byte, next: nat) | NoPiece

  /** The base of a number that starts with this character; a letter would be made upper case before it is compared with x. */
  function Radix(c: byte): int {
    if ToUpper(c) == 120 then 16 else if c == 48 then 8 else 10
  }

  /** The number at position i, up to its semicolon, given its digits so far; letters are digits in base sixteen only. */
  function ReadNumber(s: seq<byte>, i: nat, base: int, value: nat): (p: Piece)
    requires i < |s| && base > 0
    ensures p.Piece? ==> i < p.next < |s|
    decreases |s| - i
  {
    if i + 1 == |s| then NoPiece
    else if IsDigit(s[i]) then ReadNumber(s, i + 1, base, value * base + (s[i] - 48))
    else if s[i] == SEMI then Piece(value % 256, i + 1)
    else NoPiece
  }

  /** What stands for a character behind an ampersand. */
  function ReadMark(s: seq<byte>, j: nat): (p: Piece)
    requires j < |s|
    ensures p.Piece? ==> j < p.next < |s|
  {
    if s[j] == 113 then
      if j + 5 < |s| && s[j + 1..j + 5] == [117, 111, 116, SEMI] then Piece(QUOT, j + 5) else NoPiece
    else if s[j] == 97 then
      if j + 4 >= |s| then NoPiece
      else if s[j + 1..j + 4] == [109, 112, SEMI] then Piece(AMP, j + 4)
      else if j + 5 < |s| && s[j + 1..j + 5] == [112, 111, 115, SEMI] then Piece(APOS, j + 5)
      else NoPiece
    else if s[j] == 108 || s[j] == 103 then
      if j + 3 < |s| && s[j + 1..j + 3] == [116, SEMI] then Piece(if s[j] == 108 then LT else GT, j + 3) else NoPiece
    else if s[j] == HASH then
      if j + 1 < |s| then ReadNumber(s, j + 1, Radix(s[j + 1]), 0) else NoPiece
    else NoPiece
  }

  /** A number written in base sixteen is refused: a letter is made upper case and then compared with a lower case x. */
  lemma HexRefused(s: seq<byte>, j: nat)
    requires j + 1 < |s| && s[j] == HASH && (s[j + 1] == 120 || s[j + 1] == 88)
    ensures ReadMark(s, j) == NoPiece
  {
  }

  function ReadChar(s: seq<byte>, i: nat): (p: Piece)
    requires i < |s|
    ensures p.Piece? ==> i < p.next < |s|
  {
    if i + 1 == |s| then NoPiece
    else if s[i] != AMP then Piece(s[i], i + 1)
    else ReadMark(s, i + 1)
  }

  // --- strings ------------------------------------------------------------------------------------------------------------

  /** What ends a string: a quotation mark, or for a value without one a blank, a bracket or a slash, or for data a bracket. */
  datatype Stop = Quote(mark: byte) | Bare | Bracket

  predicate Stops(stop: Stop, c: byte) {
    match stop
    case Quote(mark) => c == mark
    case Bare => IsWhite(c) || IsBracket(c) || c == SLASH
    case Bracket => IsBracket(c)
  }

  /** A zero would end a value, and becomes a blank. */
  function Kept(stop: Stop, c: byte): byte {
    if c == 0 && stop != Bracket then BLANK else c
  }

  /** A string, and the position of what ends it. */
  datatype Str = Str(bytes: seq<byte>, end: nat) | NoStr

  function Cons(c: byte, t: Str): Str {
    if t.Str? then Str([c] + t.bytes, t.end) else NoStr
  }

  function ReadStr(s: seq<byte>, i: nat, stop: Stop): (t: Str)
    requires i < |s|
    ensures t.Str? ==> i <= t.end < |s| && Stops(stop, s[t.end])
    decreases |s| - i
  {
    if Stops(stop, s[i]) then Str([], i)
    else
      var p := ReadChar(s, i);
      if p.Piece? then Cons(Kept(stop, p.c), ReadStr(s, p.next, stop)) else NoStr
  }

  /** No value holds a zero. */
  lemma {:induction false} NoZeros(s: seq<byte>, i: nat, stop: Stop)
    requires i < |s| && stop != Bracket
    ensures ReadStr(s, i, stop).Str? ==> 0 !in ReadStr(s, i, stop).bytes
    decreases |s| - i
  {
    var p := ReadChar(s, i);
    if !Stops(stop, s[i]) && p.Piece? {
      NoZeros(s, p.next, stop);
    }
  }

  // --- attributes ---------------------------------------------------------------------------------------------------------

  /** A name that starts at position i, and the position behind it. */
  datatype Label = Label(end: nat) | NoLabel

  function ReadName(s: seq<byte>, i: nat): (l: Label)
    requires i < |s|
    ensures l.Label? ==> i < l.end < |s| && IsName(s[i..l.end])
  {
    if !IsLower(s[i]) || i + 1 == |s| then NoLabel
    else
      var e := NameEnd(s, i + 1);
      if e == |s| then NoLabel else Label(e)
  }

  /** The value of an attribute from position v on, and the position behind it. */
  function ReadValue(s: seq<byte>, v: nat): (t: Str)
    requires v < |s|
    ensures t.Str? ==> v <= t.end < |s|
  {
    if s[v] == QUOT || s[v] == APOS then
      if v + 1 == |s| then NoStr
      else
        var t := ReadStr(s, v + 1, Quote(s[v]));
        if t.Str? && t.end + 1 < |s| then Str(t.bytes, t.end + 1) else NoStr
    else ReadStr(s, v, Bare)
  }

  /** The position of the value of an attribute whose name ends at e: behind an equals sign. */
  function ValueStart(s: seq<byte>, e: nat): (l: Label)
    requires e < |s|
    ensures l.Label? ==> e < l.end < |s|
  {
    var q := Skip(s, e);
    if q == |s| || s[q] != EQUALS || q + 1 == |s| then NoLabel
    else
      var v := Skip(s, q + 1);
      if v == |s| then NoLabel else Label(v)
  }

  datatype AttrList = AttrList(attrs: seq<Attr>, next: nat) | NoAttrs

  /** One attribute, and the position of what follows it. */
  function ReadAttr(s: seq<byte>, i: nat): (a: AttrList)
    requires i < |s|
    ensures a.AttrList? ==> |a.attrs| == 1 && i < a.next < |s|
  {
    var name := ReadName(s, i);
    if name.NoLabel? then NoAttrs
    else
      var start := ValueStart(s, name.end);
      if start.NoLabel? then NoAttrs
      else
        var t := ReadValue(s, start.end);
        if t.NoStr? then NoAttrs
        else
          var p := Skip(s, t.end);
          if p == |s| then NoAttrs else AttrList([Attr(s[i..name.end], t.bytes)], p)
  }

  function Prepend(a: seq<Attr>, more: AttrList): AttrList {
    if more.AttrList? then AttrList(a + more.attrs, more.next) else NoAttrs
  }

  /** All attributes from position i on. */
  function ReadAttrs(s: seq<byte>, i: nat): (a: AttrList)
    requires i < |s|
    ensures a.AttrList? ==> i <= a.next < |s| && !IsLower(s[a.next])
    decreases |s| - i
  {
    if !IsLower(s[i]) then AttrList([], i)
    else
      var a := ReadAttr(s, i);
      if a.AttrList? then Prepend(a.attrs, ReadAttrs(s, a.next)) else NoAttrs
  }

  // --- items --------------------------------------------------------------------------------------------------------------

  /** The start of an element, which may be all of it, the end of one, or character data. */
  datatype Item =
    | Start(tag: seq<byte>, attrs: seq<Attr>, closed: bool, next: nat)
    | End(tag: seq<byte>, next: nat)
    | Chars(data: seq<byte>, next: nat)
    | Bad

  /** What follows the attributes of an element at position r. */
  function ReadClose(s: seq<byte>, tag: seq<byte>, attrs: seq<Attr>, r: nat): (item: Item)
    requires r < |s|
    ensures item.Start? || item.Bad?
    ensures item.Start? ==> r < item.next <= |s| && item.tag == tag && item.attrs == attrs
  {
    if s[r] == SLASH then
      if r + 1 == |s| then Bad
      else
        var r2 := Skip(s, r + 1);
        if r2 == |s| || s[r2] != GT then Bad else Start(tag, attrs, true, r2 + 1)
    else if s[r] != GT then Bad
    else Start(tag, attrs, false, r + 1)
  }

  /** The name of a tag at position p, and what follows it, of the start or the end of an element. */
  function ReadTag(s: seq<byte>, p: nat, endflag: bool): (item: Item)
    requires p < |s|
    ensures item.Start? || item.End? ==> p < item.next <= |s|
    ensures !item.Chars?
  {
    var name := ReadName(s, p);
    if name.NoLabel? then Bad
    else
      var q := Skip(s, name.end);
      if q == |s| then Bad
      else if endflag then (if s[q] == GT then End(s[p..name.end], q + 1) else Bad)
      else
        var a := ReadAttrs(s, q);
        if a.AttrList? then ReadClose(s, s[p..name.end], a.attrs, a.next) else Bad
  }

  /** Whether a tag whose bracket is before position j is the end of an element, and where its name is. */
  function TagStart(s: seq<byte>, j: nat): (l: Label)
    requires j <= |s|
    ensures l.Label? ==> j <= l.end < |s|
  {
    if j == |s| then NoLabel
    else
      var p := Skip(s, j);
      if p == |s| then NoLabel
      else if s[p] != SLASH then Label(p)
      else if p + 1 == |s| then NoLabel
      else
        var p2 := Skip(s, p + 1);
        if p2 == |s| then NoLabel else Label(p2)
  }

  predicate IsEnd(s: seq<byte>, j: nat)
    requires j <= |s|
  {
    j < |s| && Skip(s, j) < |s| && s[Skip(s, j)] == SLASH
  }

  /** The item at position i. */
  function ReadItem(s: seq<byte>, i: nat): (item: Item)
    requires i <= |s| && SkipDelims(s, i) < |s|
    ensures !item.Bad? ==> i < item.next <= |s|
  {
    var d := SkipDelims(s, i);
    if s[d] == LT then
      var l := TagStart(s, d + 1);
      if l.Label? then ReadTag(s, l.end, IsEnd(s, d + 1)) else Bad
    else
      var t := ReadStr(s, i, Bracket);
      if t.Str? && s[t.end] == LT then Chars(t.bytes, t.end) else Bad
  }
}

/** Reading what has been written (xml.c): each part of a text form, scanned, gives back what it was made of. */
module XmlBack {
  import opened Bytes
  import opened XmlTags
  import opened XmlTree
  import opened XmlScan

  // --- characters ---------------------------------------------------------------------------------------------------------

  lemma DecimalStart(n: nat)
    ensures Decimal(n) != [] && IsDigit(Decimal(n)[0]) && (n > 0 ==> Decimal(n)[0] != 48)
  {
  }

  /** The digits of a number, read in base ten. */
  lemma {:induction false} DecimalBack(s: seq<byte>, i: nat, n: nat)
    requires Stands(s, i, Decimal(n)) && i + |Decimal(n)| < |s|
    ensures ReadNumber(s, i, 10, 0) == ReadNumber(s, i + |Decimal(n)|, 10, n)
    decreases n
  {
    if n < 10 {
      StandsAt(s, i, Decimal(n));
    } else {
      StandsSplit(s, i, Decimal(n / 10), [48 + n % 10]);
      StandsAt(s, i + |Decimal(n / 10)|, [48 + n % 10]);
      DecimalBack(s, i, n / 10);
    }
  }

  lemma NumberBack(s: seq<byte>, i: nat, c: byte)
    requires Stands(s, i, [AMP, HASH] + Decimal(c) + [SEMI])
    ensures i + 3 + |Decimal(c)| <= |s|
    ensures ReadChar(s, i) == if i + 3 + |Decimal(c)| < |s| then Piece(c, i + 3 + |Decimal(c)|) else NoPiece
  {
    StandsSplit(s, i, [AMP, HASH] + Decimal(c), [SEMI]);
    StandsSplit(s, i, [AMP, HASH], Decimal(c));
    StandsAt(s, i, [AMP, HASH]);
    StandsAt(s, i + 2, Decimal(c));
    StandsAt(s, i + 2 + |Decimal(c)|, [SEMI]);
    DecimalStart(c);
    var e := i + 2 + |Decimal(c)|;
    assert ReadChar(s, i) == ReadNumber(s, i + 2, Radix(s[i + 2]), 0);
    assert ReadNumber(s, e, 10, c) == if e + 1 < |s| then Piece(c, e + 1) else NoPiece;
    if c == 0 {
      assert Decimal(c) == [48];
      assert ReadNumber(s, i + 2, 8, 0) == ReadNumber(s, i + 3, 8, 0);
    } else {
      DecimalBack(s, i + 2, c);
    }
  }

  /** The characters that have names. */
  lemma NamedBack(s: seq<byte>, i: nat, c: byte)
    requires c == LT || c == GT || c == AMP || c == QUOT || c == APOS
    requires Stands(s, i, EscapeChar(c))
    ensures i + |EscapeChar(c)| <= |s|
    ensures ReadChar(s, i) == if i + |EscapeChar(c)| < |s| then Piece(c, i + |EscapeChar(c)|) else NoPiece
  {
    var e := EscapeChar(c);
    StandsAt(s, i, e);
    assert s[i + 2..i + |e|] == s[i..i + |e|][2..] == e[2..];
    if c == LT || c == GT {
      assert e[2..] == [116, SEMI];
    } else if c == QUOT {
      assert e[2..] == [117, 111, 116, SEMI];
    } else if c == AMP {
      assert e[2..] == [109, 112, SEMI];
    } else {
      assert e[2..] == [112, 111, 115, SEMI];
      assert s[i + 2] == e[2];
      assert s[i + 2..i + 5][0] == 112;
    }
  }

  /** An escaped character is read as the character, if something comes behind it. */
  lemma CharBack(s: seq<byte>, i: nat, c: byte)
    requires Stands(s, i, EscapeChar(c))
    ensures i + |EscapeChar(c)| <= |s|
    ensures ReadChar(s, i) == if i + |EscapeChar(c)| < |s| then Piece(c, i + |EscapeChar(c)|) else NoPiece
  {
    if c == LT || c == GT || c == AMP || c == QUOT || c == APOS {
      NamedBack(s, i, c);
    } else if c < 0x20 || c >= 0x7F {
      NumberBack(s, i, c);
    } else {
      StandsAt(s, i, EscapeChar(c));
    }
  }

  /** No stop is found in an escaped character. */
  lemma CharGoesOn(c: byte, stop: Stop)
    requires stop == Quote(QUOT) || stop == Bracket
    ensures EscapeChar(c) != [] && !Stops(stop, EscapeChar(c)[0]) && !IsDelim(EscapeChar(c)[0])
  {
  }

  // --- strings ------------------------------------------------------------------------------------------------------------

  lemma {:induction false} EscapeCons(s: seq<byte>)
    requires s != []
    ensures Escape(s) == EscapeChar(s[0]) + Escape(s[1..])
    decreases |s|
  {
    var n := |s| - 1;
    if n > 0 {
      EscapeCons(s[..n]);
      assert s[..n][1..] == s[1..][..n - 1];
      assert s[1..][n - 1] == s[n];
    } else {
      assert s == [s[0]];
    }
  }

  lemma EscapeNone()
    ensures Escape([]) == []
  {
  }

  /** An escaped string is read as the string. */
  lemma {:induction false} StrBack(s: seq<byte>, i: nat, v: seq<byte>, stop: Stop)
    requires stop == Quote(QUOT) || stop == Bracket
    requires Stands(s, i, Escape(v)) && i + |Escape(v)| < |s| && Stops(stop, s[i + |Escape(v)|])
    requires stop == Bracket || 0 !in v
    ensures ReadStr(s, i, stop) == Str(v, i + |Escape(v)|)
    decreases |v|
  {
    hide Escape, EscapeChar, ReadChar, Stands;
    if v == [] {
      EscapeNone();
    } else {
      EscapeCons(v);
      var e := EscapeChar(v[0]);
      StandsSplit(s, i, e, Escape(v[1..]));
      StandsAt(s, i, e);
      CharGoesOn(v[0], stop);
      CharBack(s, i, v[0]);
      StrBack(s, i + |e|, v[1..], stop);
      assert v == [v[0]] + v[1..];
    }
  }

  /** A string that nothing comes behind is not read. */
  lemma {:induction false} StrCut(s: seq<byte>, i: nat, v: seq<byte>)
    requires v != [] && Stands(s, i, Escape(v)) && i + |Escape(v)| == |s|
    ensures i < |s| && ReadStr(s, i, Bracket) == NoStr
    decreases |v|
  {
    hide Escape, EscapeChar, ReadChar, Stands;
    EscapeCons(v);
    var e := EscapeChar(v[0]);
    StandsSplit(s, i, e, Escape(v[1..]));
    StandsAt(s, i, e);
    CharGoesOn(v[0], Bracket);
    CharBack(s, i, v[0]);
    if |v| > 1 {
      EscapeCons(v[1..]);
      CharGoesOn(v[1], Bracket);
      StrCut(s, i + |e|, v[1..]);
    } else {
      EscapeNone();
    }
  }

  // --- names and attributes -----------------------------------------------------------------------------------------------

  lemma {:induction false} NameGoesOn(s: seq<byte>, i: nat, e: nat)
    requires i <= e < |s| && (forall k :: i <= k < e ==> IsNameChar(s[k])) && !IsNameChar(s[e])
    ensures NameEnd(s, i) == e
    decreases e - i
  {
    if i < e {
      NameGoesOn(s, i + 1, e);
    }
  }

  /** A name is read up to what is not part of a name. */
  lemma NameBack(s: seq<byte>, i: nat, tag: seq<byte>)
    requires IsName(tag) && Stands(s, i, tag) && i + |tag| < |s| && !IsNameChar(s[i + |tag|])
    ensures s[i] == tag[0] && ReadName(s, i) == Label(i + |tag|) && s[i..i + |tag|] == tag
  {
    forall k | i <= k < i + |tag|
      ensures s[k] == tag[k - i]
    {
      assert s[k] == s[i..i + |tag|][k - i];
    }
    NameGoesOn(s, i + 1, i + |tag|);
  }

  lemma {:induction false} AttrsCons(attrs: seq<Attr>)
    requires attrs != []
    ensures PrintAttrs(attrs) == PrintAttr(attrs[0]) + PrintAttrs(attrs[1..])
    decreases |attrs|
  {
    hide PrintAttr, PrintAttrs;
    var n := |attrs| - 1;
    AttrsLast(attrs);
    if n > 0 {
      AttrsCons(attrs[..n]);
      AttrsLast(attrs[1..]);
      assert attrs[..n][1..] == attrs[1..][..n - 1];
      assert attrs[1..][n - 1] == attrs[n];
    } else {
      AttrsLast([]);
      assert attrs[..0] == attrs[1..] == [];
    }
  }

  lemma AttrsLast(attrs: seq<Attr>)
    ensures attrs == [] ==> PrintAttrs(attrs) == []
    ensures attrs != [] ==> PrintAttrs(attrs) == PrintAttrs(attrs[..|attrs| - 1]) + PrintAttr(attrs[|attrs| - 1])
  {
  }

  /** The value of an attribute is read up to its second quotation mark. */
  lemma ValueBack(s: seq<byte>, i: nat, v: seq<byte>)
    requires 0 !in v && Stands(s, i, [EQUALS, QUOT] + Escape(v) + [QUOT]) && i + 3 + |Escape(v)| < |s|
    ensures ValueStart(s, i) == Label(i + 1) && ReadValue(s, i + 1) == Str(v, i + 3 + |Escape(v)|)
  {
    hide Escape, Stands, ReadStr;
    StandsSplit(s, i, [EQUALS, QUOT] + Escape(v), [QUOT]);
    StandsSplit(s, i, [EQUALS, QUOT], Escape(v));
    StandsAt(s, i, [EQUALS, QUOT]);
    StandsAt(s, i + 2 + |Escape(v)|, [QUOT]);
    StrBack(s, i + 2, v, Quote(QUOT));
  }

  lemma AttrFacts(a: Attr)
    requires AttrOk(a)
    ensures IsName(a.tag) && 0 !in a.value
  {
  }

  /** One attribute, which a blank comes before. */
  lemma AttrBack(s: seq<byte>, i: nat, a: Attr)
    requires AttrOk(a) && Stands(s, i, PrintAttr(a))
    requires i + |PrintAttr(a)| < |s| && Skip(s, i + |PrintAttr(a)|) < |s|
    ensures Skip(s, i) == i + 1 && IsLower(s[i + 1])
    ensures ReadAttr(s, i + 1) == AttrList([a], Skip(s, i + |PrintAttr(a)|))
  {
    hide Escape, Stands, ReadName, ReadValue, ValueStart, AttrOk;
    assert IsName(a.tag) && 0 !in a.value by {
      AttrFacts(a);
    }
    var rest := [EQUALS, QUOT] + Escape(a.value) + [QUOT];
    assert PrintAttr(a) == [BLANK] + a.tag + rest;
    StandsSplit(s, i, [BLANK] + a.tag, rest);
    StandsSplit(s, i, [BLANK], a.tag);
    StandsAt(s, i, [BLANK]);
    StandsAt(s, i + 1 + |a.tag|, rest);
    NameBack(s, i + 1, a.tag);
    ValueBack(s, i + 1 + |a.tag|, a.value);
  }

  /** All attributes, up to a bracket or a slash. */
  lemma {:induction false} AttrsBack(s: seq<byte>, i: nat, attrs: seq<Attr>)
    requires AttrsOk(attrs) && Stands(s, i, PrintAttrs(attrs)) && i + |PrintAttrs(attrs)| < |s|
    requires s[i + |PrintAttrs(attrs)|] == GT || s[i + |PrintAttrs(attrs)|] == SLASH
    ensures Skip(s, i) < |s| && ReadAttrs(s, Skip(s, i)) == AttrList(attrs, i + |PrintAttrs(attrs)|)
    decreases |attrs|
  {
    hide PrintAttr, PrintAttrs, ReadAttr, Stands, AttrOk;
    AttrsLast([]);
    if attrs != [] {
      AttrsCons(attrs);
      var x := PrintAttr(attrs[0]);
      StandsSplit(s, i, x, PrintAttrs(attrs[1..]));
      AttrsBack(s, i + |x|, attrs[1..]);
      AttrBack(s, i, attrs[0]);
      assert attrs == [attrs[0]] + attrs[1..];
    }
  }

  // --- items --------------------------------------------------------------------------------------------------------------

  lemma CloseBack(s: seq<byte>, tag: seq<byte>, attrs: seq<Attr>, r: nat, closed: bool)
    requires Stands(s, r, if closed then [SLASH, GT] else [GT])
    ensures r < |s| && ReadClose(s, tag, attrs, r) == Start(tag, attrs, closed, r + if closed then 2 else 1)
  {
    StandsAt(s, r, if closed then [SLASH, GT] else [GT]);
  }

  /** The first character behind a name is not part of a name. */
  lemma AfterName(attrs: seq<Attr>, x: seq<byte>)
    requires x != [] && (x[0] == GT || x[0] == SLASH)
    ensures PrintAttrs(attrs) + x != [] && !IsNameChar((PrintAttrs(attrs) + x)[0])
  {
    if attrs != [] {
      AttrsCons(attrs);
    }
  }

  /** The name and the attributes of a start. */
  lemma TagBack(s: seq<byte>, p: nat, tag: seq<byte>, attrs: seq<Attr>, closed: bool)
    requires IsName(tag) && AttrsOk(attrs) && Stands(s, p, tag + (PrintAttrs(attrs) + if closed then [SLASH, GT] else [GT]))
    ensures p < |s| && s[p] == tag[0]
    ensures ReadTag(s, p, false) == Start(tag, attrs, closed, p + |tag| + |PrintAttrs(attrs)| + if closed then 2 else 1)
  {
    hide PrintAttrs, ReadAttrs, ReadName, Stands, AttrOk, ReadClose;
    var x := if closed then [SLASH, GT] else [GT];
    var e := p + |tag|;
    StandsSplit(s, p, tag, PrintAttrs(attrs) + x);
    AfterName(attrs, x);
    StandsAt(s, e, PrintAttrs(attrs) + x);
    StandsSplit(s, e, PrintAttrs(attrs), x);
    StandsAt(s, e + |PrintAttrs(attrs)|, x);
    NameBack(s, p, tag);
    AttrsBack(s, e, attrs);
    CloseBack(s, tag, attrs, e + |PrintAttrs(attrs)|, closed);
  }

  /** The start of an element. */
  lemma StartBack(s: seq<byte>, i: nat, tag: seq<byte>, attrs: seq<Attr>, closed: bool)
    requires IsName(tag) && AttrsOk(attrs) && Stands(s, i, PrintStart(tag, attrs, closed))
    ensures i < |s| && SkipDelims(s, i) == i
    ensures ReadItem(s, i) == Start(tag, attrs, closed, i + |PrintStart(tag, attrs, closed)|)
  {
    hide PrintAttrs, Stands, AttrOk, ReadTag;
    var x := if closed then [SLASH, GT] else [GT];
    assert PrintStart(tag, attrs, closed) == [LT] + (tag + (PrintAttrs(attrs) + x));
    StandsSplit(s, i, [LT], tag + (PrintAttrs(attrs) + x));
    StandsAt(s, i, [LT]);
    TagBack(s, i + 1, tag, attrs, closed);
    assert TagStart(s, i + 1) == Label(i + 1) && !IsEnd(s, i + 1);
  }

  /** The end of an element. */
  lemma EndBack(s: seq<byte>, i: nat, tag: seq<byte>)
    requires IsName(tag) && Stands(s, i, PrintEnd(tag))
    ensures i < |s| && SkipDelims(s, i) == i && s[i] == LT
    ensures ReadItem(s, i) == End(tag, i + |PrintEnd(tag)|)
  {
    hide ReadName, Stands;
    var p := i + 2;
    StandsSplit(s, i, [LT, SLASH] + tag, [GT]);
    StandsSplit(s, i, [LT, SLASH], tag);
    StandsAt(s, i, [LT, SLASH]);
    StandsAt(s, p + |tag|, [GT]);
    NameBack(s, p, tag);
    assert TagStart(s, i + 1) == Label(p) && IsEnd(s, i + 1);
  }

  /** Character data, which a tag comes behind. */
  lemma TextBack(s: seq<byte>, i: nat, data: seq<byte>)
    requires data != [] && Stands(s, i, Escape(data)) && i + |Escape(data)| < |s| && s[i + |Escape(data)|] == LT
    ensures SkipDelims(s, i) == i
    ensures ReadItem(s, i) == Chars(data, i + |Escape(data)|)
  {
    EscapeCons(data);
    CharGoesOn(data[0], Bracket);
    StandsAt(s, i, Escape(data));
    StrBack(s, i, data, Bracket);
  }

  /** Character data that nothing comes behind. */
  lemma TextCut(s: seq<byte>, i: nat, data: seq<byte>)
    requires data != [] && Stands(s, i, Escape(data)) && i + |Escape(data)| == |s|
    ensures i < |s| && SkipDelims(s, i) == i && ReadItem(s, i) == Bad
  {
    EscapeCons(data);
    CharGoesOn(data[0], Bracket);
    StandsAt(s, i, Escape(data));
    assert !IsBracket(s[i]);
    StrCut(s, i, data);
  }
}

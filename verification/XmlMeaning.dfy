/** What a text says (xml.c, xmlparse): a tree if and only if the text is one of the ways to write that tree. */
module XmlMeaning {
  import opened Bytes
  import opened XmlTags
  import opened XmlTree
  import opened XmlScan
  import opened XmlBack
  import opened XmlGrammar
  import opened XmlWritten

  // --- what is read is so written ---------------------------------------------------------------------------------------------------

  lemma {:induction false} BlanksFound(s: seq<byte>, i: nat)
    requires i <= |s|
    ensures Blanks(s[i..Skip(s, i)])
    decreases |s| - i
  {
    if i < |s| && IsWhite(s[i]) {
      BlanksFound(s, i + 1);
      assert s[i..Skip(s, i)] == [s[i]] + s[i + 1..Skip(s, i)];
    }
  }

  lemma {:induction false} LinesFound(s: seq<byte>, i: nat)
    requires i <= |s|
    ensures Lines(s[i..SkipDelims(s, i)])
    decreases |s| - i
  {
    if i < |s| && IsDelim(s[i]) {
      LinesFound(s, i + 1);
      assert s[i..SkipDelims(s, i)] == [s[i]] + s[i + 1..SkipDelims(s, i)];
    }
  }

  lemma OneMore(s: seq<byte>, i: nat, k: nat)
    requires i <= k < |s|
    ensures var d := s[i..k + 1];
            d[..|d| - 1] == s[i..k] && d[|d| - 1] == s[k]
  {
  }

  /** Digits from position i on, of which those before k have been read. */
  lemma {:induction false} NumberFound(s: seq<byte>, i: nat, k: nat, base: nat)
    requires i <= k < |s| && base > 0 && Digits(s[i..k]) && ReadNumber(s, k, base, Number(s[i..k], base)).Piece?
    ensures var p := ReadNumber(s, k, base, Number(s[i..k], base));
            k < p.next && s[p.next - 1] == 59 && Digits(s[i..p.next - 1]) && p.c == Number(s[i..p.next - 1], base) % 256
    decreases |s| - k
  {
    if IsDigit(s[k]) {
      OneMore(s, i, k);
      NumberFound(s, i, k + 1, base);
    }
  }

  /** A character by its number. */
  lemma HashFound(s: seq<byte>, i: nat)
    requires i + 1 < |s| && s[i] == 38 && s[i + 1] == 35 && ReadMark(s, i + 1).Piece?
    ensures var p := ReadMark(s, i + 1);
            CodedRight(Coded(s[i..p.next], p.c))
  {
    hide Number, Digits, ReadNumber;
    var p := ReadMark(s, i + 1);
    var k := i + 2;
    NoDigits();
    assert s[k..k] == [];
    NumberFound(s, k, k, Radix(s[k]));
    var d := s[k..p.next - 1];
    var e := Coded(s[i..p.next], p.c);
    assert e.bytes[2..|e.bytes| - 1] == d;
    assert d == [] <==> s[k] == 59 by {
      DigitsFirst(d);
    }
    assert d != [] ==> d[0] == s[k];
    assert Numbered(e);
  }

  lemma NoDigits()
    ensures Digits([]) && forall base: nat :: Number([], base) == 0
  {
  }

  lemma DigitsFirst(d: seq<byte>)
    requires Digits(d)
    ensures d != [] ==> 48 <= d[0] <= 57
  {
  }

  lemma CharFound(s: seq<byte>, i: nat) returns (e: Coded)
    requires i < |s| && ReadChar(s, i).Piece?
    ensures CodedRight(e) && e == Coded(s[i..ReadChar(s, i).next], ReadChar(s, i).c)
  {
    hide ReadNumber, Number, Numbered;
    var p := ReadChar(s, i);
    e := Coded(s[i..p.next], p.c);
    if s[i] == 38 {
      if s[i + 1] == 35 {
        HashFound(s, i);
      } else {
        assert e.bytes == [s[i], s[i + 1]] + s[i + 2..p.next];
      }
    }
  }

  lemma {:induction false} StrFound(s: seq<byte>, i: nat, stop: Stop) returns (es: seq<Coded>)
    requires i < |s| && ReadStr(s, i, stop).Str?
    ensures var t := ReadStr(s, i, stop);
            NoStop(es, stop) && CodedBytes(es) == s[i..t.end] && CodedSaid(es, stop) == t.bytes
    decreases |s| - i
  {
    hide ReadChar, CodedRight;
    if Stops(stop, s[i]) {
      es := [];
    } else {
      var e := CharFound(s, i);
      var p := ReadChar(s, i);
      var more := StrFound(s, p.next, stop);
      es := [e] + more;
      assert es[1..] == more;
      assert s[i..ReadStr(s, i, stop).end] == e.bytes + CodedBytes(more);
    }
  }

  lemma QuotedFound(s: seq<byte>, v: nat) returns (value: Value)
    requires v < |s| && ReadValue(s, v).Str? && (s[v] == 34 || s[v] == 39)
    ensures var t := ReadValue(s, v);
            value.Quoted? && ValueRight(value) && ValueBytes(value) == s[v..t.end] && CodedValue(value.es) == t.bytes
  {
    hide CodedRight, CodedBytes, ReadStr, Stops;
    var t := ReadValue(s, v);
    var es := StrFound(s, v + 1, Quote(s[v]));
    value := Quoted(s[v], es);
    QuoteStops(s[v]);
    assert s[v..v + 1] == [s[v]] == s[t.end - 1..t.end];
    Joined(s, v, v + 1, t.end - 1, [s[v]], CodedBytes(es));
    Joined(s, v, t.end - 1, t.end, [s[v]] + CodedBytes(es), [s[v]]);
  }

  lemma QuoteStops(mark: byte)
    ensures forall c: byte :: Stops(Quote(mark), c) <==> c == mark
  {
  }

  lemma ValueFound(s: seq<byte>, v: nat) returns (value: Value)
    requires v < |s| && ReadValue(s, v).Str? && !IsWhite(s[v])
    ensures var t := ReadValue(s, v);
            && ValueRight(value) && ValueBytes(value) == s[v..t.end] && CodedValue(value.es) == t.bytes
            && (value.Plain? ==> Stops(Bare, s[t.end])) && (value == Plain([]) ==> t.end == v)
  {
    hide CodedRight, ReadStr;
    if s[v] == 34 || s[v] == 39 {
      value := QuotedFound(s, v);
    } else {
      var es := StrFound(s, v, Bare);
      value := Plain(es);
      if es != [] {
        CodedSome(es[0]);
        assert s[v] == s[v..ReadValue(s, v).end][0] == es[0].bytes[0];
      }
    }
  }

  lemma Pieces(s: seq<byte>, i: nat, j: nat, k: nat)
    requires i <= j <= k <= |s|
    ensures s[i..k] == s[i..j] + s[j..k]
  {
  }

  lemma Joined(s: seq<byte>, i: nat, j: nat, k: nat, a: seq<byte>, b: seq<byte>)
    requires i <= j <= k <= |s| && a == s[i..j] && b == s[j..k]
    ensures a + b == s[i..k]
  {
  }

  lemma AttrPieces(s: seq<byte>, i: nat, a: WAttr, n: nat)
    requires var e := i + |a.name|;
             var q := e + |a.w1|;
             var v := q + 1 + |a.w2|;
             var t := v + |ValueBytes(a.value)|;
             && t <= n <= |s| && a.name == s[i..e] && a.w1 == s[e..q] && s[q] == 61 && a.w2 == s[q + 1..v]
             && ValueBytes(a.value) == s[v..t] && a.w3 == s[t..n]
    ensures AttrBytes(a) == s[i..n]
  {
    hide ValueBytes;
    var e := i + |a.name|;
    var q := e + |a.w1|;
    var v := q + 1 + |a.w2|;
    var x4 := ValueBytes(a.value) + a.w3;
    var x3 := a.w2 + x4;
    var x2 := [61] + x3;
    Joined(s, v, v + |ValueBytes(a.value)|, n, ValueBytes(a.value), a.w3);
    Joined(s, q + 1, v, n, a.w2, x4);
    Joined(s, q, q + 1, n, [61], x3);
    Joined(s, e, q, n, a.w1, x2);
    Joined(s, i, e, n, a.name, a.w1 + x2);
  }

  lemma NameFound(s: seq<byte>, i: nat)
    requires i < |s| && ReadName(s, i).Label?
    ensures NameRight(s[i..ReadName(s, i).end])
  {
  }

  lemma AttrFound(s: seq<byte>, i: nat) returns (a: WAttr)
    requires i < |s| && ReadAttr(s, i).AttrList?
    ensures var r := ReadAttr(s, i);
            && AttrRight(a) && AttrBytes(a) == s[i..r.next] && r.attrs == [Attr(a.name, CodedValue(a.value.es))]
            && (a.value.Plain? && a.w3 == [] ==> !IsLower(s[r.next]))
  {
    hide ReadName, Skip, ReadValue, CodedValue, ValueBytes, ValueRight, Blanks, AttrBytes, IsName, NameRight;
    var r := ReadAttr(s, i);
    var e := ReadName(s, i).end;
    var q := Skip(s, e);
    var v := Skip(s, q + 1);
    var t := ReadValue(s, v).end;
    BlanksFound(s, e);
    BlanksFound(s, q + 1);
    BlanksFound(s, t);
    NameFound(s, i);
    SkipNone(s, t);
    var value := ValueFound(s, v);
    a := WAttr(s[i..e], s[e..q], s[q + 1..v], value, s[t..r.next]);
    AttrPieces(s, i, a, r.next);
  }

  lemma SkipNone(s: seq<byte>, t: nat)
    requires t < |s|
    ensures Skip(s, t) == t <==> !IsWhite(s[t])
  {
  }

  lemma {:induction false} AttrsFound(s: seq<byte>, i: nat) returns (attrs: seq<WAttr>)
    requires i < |s| && ReadAttrs(s, i).AttrList?
    ensures var r := ReadAttrs(s, i);
            AttrsRight(attrs) && AttrsBytes(attrs) == s[i..r.next] && AttrsSaid(attrs) == r.attrs && (attrs == [] <==> !IsLower(s[i]))
    decreases |s| - i
  {
    hide ReadAttr, AttrRight, AttrBytes, CodedValue;
    if !IsLower(s[i]) {
      attrs := [];
    } else {
      var a := AttrFound(s, i);
      var n := ReadAttr(s, i).next;
      var more := AttrsFound(s, n);
      attrs := [a] + more;
      assert attrs[1..] == more;
      Pieces(s, i, n, ReadAttrs(s, i).next);
      assert forall k :: 0 < k < |attrs| ==> attrs[k] == more[k - 1];
    }
  }

  lemma CloseFound(s: seq<byte>, tag: seq<byte>, attrs: seq<Attr>, r: nat) returns (w: seq<byte>)
    requires r < |s| && ReadClose(s, tag, attrs, r).Start?
    ensures var c := ReadClose(s, tag, attrs, r);
            Blanks(w) && s[r..c.next] == CloseBytes(c.closed, w)
  {
    hide Blanks, Skip;
    var c := ReadClose(s, tag, attrs, r);
    w := if c.closed then s[r + 1..c.next - 1] else [];
    NoBlanks();
    BlanksFound(s, r + 1);
    assert c.closed ==> s[r..c.next] == [47] + (w + [62]);
  }

  lemma NoBlanks()
    ensures Blanks([])
  {
  }

  /** The name and the attributes of a start. */
  lemma TagFound(s: seq<byte>, p: nat, lines: seq<byte>, w0: seq<byte>) returns (op: Opening, w: seq<byte>)
    requires p < |s| && ReadTag(s, p, false).Start? && Lines(lines) && Blanks(w0)
    ensures var item := ReadTag(s, p, false);
            && OpeningRight(op) && Blanks(w) && op.lines == lines && op.w0 == w0 && op.name == item.tag && AttrsSaid(op.attrs) == item.attrs
            && s[p..item.next] == op.name + RestBytes(op, item.closed, w)
  {
    hide ReadName, Skip, ReadAttrs, ReadClose, CloseBytes, AttrsBytes, AttrsSaid, AttrsRight, Blanks, Lines, IsName, NameRight;
    var item := ReadTag(s, p, false);
    var e := ReadName(s, p).end;
    var q := Skip(s, e);
    var r := ReadAttrs(s, q).next;
    NameFound(s, p);
    NameStops(s, p);
    BlanksFound(s, e);
    var attrs := AttrsFound(s, q);
    w := CloseFound(s, item.tag, item.attrs, r);
    op := Opening(lines, w0, s[p..e], s[e..q], attrs);
    Pieces(s, p, e, item.next);
    Pieces(s, e, q, item.next);
    Pieces(s, q, r, item.next);
  }

  lemma NameStops(s: seq<byte>, p: nat)
    requires p < |s| && ReadName(s, p).Label?
    ensures !IsLower(s[ReadName(s, p).end])
  {
  }

  /** The position of the name of a tag whose bracket is at position d. */
  lemma BracketFound(s: seq<byte>, d: nat)
    requires d < |s| && TagStart(s, d + 1).Label?
    ensures var p := TagStart(s, d + 1).end;
            var l := Skip(s, d + 1);
            && l < |s| && Blanks(s[d + 1..l])
            && (if IsEnd(s, d + 1) then s[l] == 47 && l < p && Blanks(s[l + 1..p]) else p == l)
  {
    hide Blanks, Skip;
    var l := Skip(s, d + 1);
    BlanksFound(s, d + 1);
    if l + 1 <= |s| {
      BlanksFound(s, l + 1);
    }
  }

  /** The start of an element. */
  lemma StartFound(s: seq<byte>, i: nat) returns (op: Opening, w: seq<byte>)
    requires i <= |s| && SkipDelims(s, i) < |s| && ReadItem(s, i).Start?
    ensures var item := ReadItem(s, i);
            && OpeningRight(op) && Blanks(w) && op.lines == s[i..SkipDelims(s, i)] && op.name == item.tag && AttrsSaid(op.attrs) == item.attrs
            && s[i..item.next] == OpeningBytes(op) + CloseBytes(item.closed, w)
  {
    hide SkipDelims, TagStart, IsEnd, ReadTag, Skip, RestBytes, OpeningRight, OpeningBytes, CloseBytes, Blanks, Lines, AttrsSaid;
    var d := SkipDelims(s, i);
    var p := TagStart(s, d + 1).end;
    var n := ReadItem(s, i).next;
    LinesFound(s, i);
    BracketFound(s, d);
    EndOrStart(s, p, IsEnd(s, d + 1));
    op, w := TagFound(s, p, s[i..d], s[d + 1..p]);
    Pieces(s, i, d, n);
    Pieces(s, d, d + 1, n);
    Pieces(s, d + 1, p, n);
    assert s[d..d + 1] == [60];
    OpeningParts(op, ReadItem(s, i).closed, w);
  }

  lemma EndOrStart(s: seq<byte>, p: nat, endflag: bool)
    requires p < |s|
    ensures ReadTag(s, p, endflag).Start? ==> !endflag
    ensures ReadTag(s, p, endflag).End? ==> endflag
  {
  }

  lemma OpeningParts(op: Opening, closed: bool, w: seq<byte>)
    ensures OpeningBytes(op) + CloseBytes(closed, w) == op.lines + ([60] + (op.w0 + (op.name + RestBytes(op, closed, w))))
  {
    hide AttrsBytes, CloseBytes;
    assert RestBytes(op, closed, w) == op.w1 + AttrsBytes(op.attrs) + CloseBytes(closed, w);
  }

  /** The name of an end. */
  lemma TailFound(s: seq<byte>, p: nat) returns (w2: seq<byte>)
    requires p < |s| && ReadTag(s, p, true).End?
    ensures var item := ReadTag(s, p, true);
            NameRight(item.tag) && Blanks(w2) && s[p..item.next] == item.tag + (w2 + [62])
  {
    hide ReadName, Skip, Blanks, IsName, NameRight;
    var item := ReadTag(s, p, true);
    var e := ReadName(s, p).end;
    var q := Skip(s, e);
    NameFound(s, p);
    BlanksFound(s, e);
    w2 := s[e..q];
    Pieces(s, p, e, item.next);
    Pieces(s, e, q, item.next);
    assert s[q..q + 1] == [62];
  }

  lemma EndPieces(s: seq<byte>, i: nat, en: Ending, name: seq<byte>, n: nat)
    requires var d := i + |en.lines|;
             var l := d + 1 + |en.w0|;
             var p := l + 1 + |en.w1|;
             && p <= n <= |s| && en.lines == s[i..d] && s[d] == 60 && en.w0 == s[d + 1..l] && s[l] == 47 && en.w1 == s[l + 1..p]
             && s[p..n] == name + (en.w2 + [62])
    ensures EndingBytes(en, name) == s[i..n]
  {
    hide TailBytes;
    var d := i + |en.lines|;
    var l := d + 1 + |en.w0|;
    EndingParts(en, name);
    TailPieces(s, l + 1, en, name, n);
    var x3 := [47] + TailBytes(en, name);
    var x2 := en.w0 + x3;
    Joined(s, l, l + 1, n, [47], TailBytes(en, name));
    Joined(s, d + 1, l, n, en.w0, x3);
    Joined(s, d, d + 1, n, [60], x2);
    Joined(s, i, d, n, en.lines, [60] + x2);
  }

  lemma TailPieces(s: seq<byte>, i: nat, en: Ending, name: seq<byte>, n: nat)
    requires var p := i + |en.w1|;
             p <= n <= |s| && en.w1 == s[i..p] && s[p..n] == name + (en.w2 + [62])
    ensures TailBytes(en, name) == s[i..n]
  {
    Pieces(s, i, i + |en.w1|, n);
  }

  /** The end of an element. */
  lemma EndFound(s: seq<byte>, i: nat) returns (en: Ending)
    requires i <= |s| && SkipDelims(s, i) < |s| && ReadItem(s, i).End?
    ensures var item := ReadItem(s, i);
            EndingRight(en) && NameRight(item.tag) && en.lines == s[i..SkipDelims(s, i)] && s[i..item.next] == EndingBytes(en, item.tag)
  {
    hide SkipDelims, TagStart, IsEnd, ReadTag, Skip, Blanks, Lines, NameRight, EndingBytes;
    var d := SkipDelims(s, i);
    var l := Skip(s, d + 1);
    var p := TagStart(s, d + 1).end;
    LinesFound(s, i);
    BracketFound(s, d);
    EndOrStart(s, p, IsEnd(s, d + 1));
    var w2 := TailFound(s, p);
    en := Ending(s[i..d], s[d + 1..l], s[l + 1..p], w2);
    EndPieces(s, i, en, ReadItem(s, i).tag, ReadItem(s, i).next);
  }

  predicate LineEnd(e: Coded) {
    e.bytes == [10] || e.bytes == [13]
  }

  /** Characters that are all line ends. */
  lemma {:induction false} OnlyLines(s: seq<byte>, i: nat, es: seq<Coded>)
    requires Stands(s, i, CodedBytes(es)) && forall k :: 0 <= k < |es| ==> LineEnd(es[k])
    ensures i + |CodedBytes(es)| <= |s| && SkipDelims(s, i) == SkipDelims(s, i + |CodedBytes(es)|)
    decreases |es|
  {
    hide Stands;
    StandsIn(s, i, CodedBytes(es));
    if es != [] {
      var x, more := es[0].bytes, es[1..];
      assert CodedBytes(es) == x + CodedBytes(more);
      assert LineEnd(es[0]);
      StandsSplit(s, i, x, CodedBytes(more));
      StandsAt(s, i, x);
      OnlyLines(s, i + 1, more);
    }
  }

  lemma LineEndIs(e: Coded)
    requires CodedRight(e)
    ensures e.bytes != [] && (LineEnd(e) <==> e.bytes[0] == 10 || e.bytes[0] == 13)
  {
  }

  /** Character data. */
  lemma CharsFound(s: seq<byte>, i: nat) returns (es: seq<Coded>)
    requires i <= |s| && SkipDelims(s, i) < |s| && ReadItem(s, i).Chars?
    ensures var item := ReadItem(s, i);
            DataRight(es) && CodedBytes(es) == s[i..item.next] && CodedText(es) == item.data && item.next < |s| && s[item.next] == 60
  {
    hide SkipDelims, ReadStr, CodedRight, CodedBytes, CodedText, CodedValue;
    var n := ReadItem(s, i).next;
    es := StrFound(s, i, Bracket);
    if forall k :: 0 <= k < |es| ==> LineEnd(es[k]) {
      OnlyLines(s, i, es);
      SkipNoLines(s, n);
      assert false;
    }
    forall k | 0 <= k < |es|
      ensures es[k].bytes != [] && (LineEnd(es[k]) <==> es[k].bytes[0] == 10 || es[k].bytes[0] == 13)
    {
      LineEndIs(es[k]);
    }
  }

  lemma SkipNoLines(s: seq<byte>, n: nat)
    requires n < |s|
    ensures SkipDelims(s, n) == n <==> s[n] != 10 && s[n] != 13
  {
  }

  // --- the whole text -------------------------------------------------------------------------------------------------------------

  /** An element that is open, as it is written, and the nodes before it. */
  datatype Half = Half(before: seq<WNode>, op: Opening)

  predicate HalvesRight(hs: seq<Half>) {
    && |hs| <= 16
    && forall k :: 0 <= k < |hs| ==>
      NodesRight(hs[k].before, k) && OpeningRight(hs[k].op) && (EndsInData(hs[k].before) ==> hs[k].op.lines == [])
  }

  function HalvesBytes(hs: seq<Half>): seq<byte> {
    if hs == [] then []
    else
      var h := hs[|hs| - 1];
      HalvesBytes(hs[..|hs| - 1]) + (NodesBytes(h.before) + (OpeningBytes(h.op) + [62]))
  }

  predicate HalvesSay(hs: seq<Half>, frames: seq<Frame>) {
    && |hs| == |frames|
    && forall k :: 0 <= k < |hs| ==> frames[k] == Frame(hs[k].op.name, AttrsSaid(hs[k].op.attrs), NodesSaid(hs[k].before))
  }

  /** What has been read of a text up to position i, as it is written: the open elements and the nodes of the innermost. */
  ghost predicate SoFar(s: seq<byte>, i: nat, hs: seq<Half>, ws: seq<WNode>, frames: seq<Frame>, cur: seq<Node>) {
    && i <= |s| && s[..i] == HalvesBytes(hs) + NodesBytes(ws) && |hs| <= 16
    && HalvesRight(hs) && HalvesSay(hs, frames) && NodesRight(ws, |hs|) && cur == NodesSaid(ws)
    && (EndsInData(ws) ==> i < |s| && s[i] == 60)
  }

  lemma {:induction false} NodesMore(ws: seq<WNode>, n: WNode)
    ensures NodesBytes(ws + [n]) == NodesBytes(ws) + NodeBytes(n) && NodesSaid(ws + [n]) == NodesSaid(ws) + [NodeSaid(n)]
    decreases |ws|
  {
    hide NodeBytes, NodeSaid;
    if ws == [] {
      assert ws + [n] == [n];
      assert [n][1..] == [];
    } else {
      assert (ws + [n])[1..] == ws[1..] + [n];
      NodesMore(ws[1..], n);
    }
  }

  lemma MoreRight(ws: seq<WNode>, n: WNode, open: nat)
    requires NodesRight(ws, open) && NodeRight(n, open) && (EndsInData(ws) ==> !n.Data? && n.op.lines == [])
    ensures NodesRight(ws + [n], open) && (EndsInData(ws + [n]) <==> n.Data?)
  {
    hide NodeRight;
    var all := ws + [n];
    forall i | 0 < i < |all|
      ensures Follows(all[i - 1], all[i])
    {
      assert i < |ws| ==> Follows(ws[i - 1], ws[i]);
    }
  }

  /** A node, put behind what has been read. */
  lemma FarNode(s: seq<byte>, i: nat, hs: seq<Half>, ws: seq<WNode>, frames: seq<Frame>, cur: seq<Node>, n: WNode, j: nat)
    requires SoFar(s, i, hs, ws, frames, cur) && i <= j <= |s| && s[i..j] == NodeBytes(n) && NodeRight(n, |hs|)
    requires EndsInData(ws) ==> !n.Data? && n.op.lines == []
    requires n.Data? ==> j < |s| && s[j] == 60
    ensures SoFar(s, j, hs, ws + [n], frames, cur + [NodeSaid(n)])
  {
    hide NodeBytes, NodesBytes, NodeRight, NodesRight, NodeSaid, NodesSaid, HalvesBytes, HalvesRight, HalvesSay, EndsInData;
    NodesMore(ws, n);
    MoreRight(ws, n, |hs|);
    Further(s, i, j, HalvesBytes(hs), NodesBytes(ws), NodeBytes(n));
  }

  lemma Further(s: seq<byte>, i: nat, j: nat, a: seq<byte>, b: seq<byte>, c: seq<byte>)
    requires i <= j <= |s| && s[..i] == a + b && s[i..j] == c
    ensures s[..j] == a + (b + c)
  {
    assert s[..j] == s[..i] + s[i..j];
  }

  lemma HalvesMore(hs: seq<Half>, frames: seq<Frame>, h: Half, open: nat)
    requires HalvesRight(hs) && HalvesSay(hs, frames) && open == |hs| < 16
    requires NodesRight(h.before, open) && OpeningRight(h.op) && (EndsInData(h.before) ==> h.op.lines == [])
    ensures HalvesRight(hs + [h])
    ensures HalvesSay(hs + [h], frames + [Frame(h.op.name, AttrsSaid(h.op.attrs), NodesSaid(h.before))])
    ensures HalvesBytes(hs + [h]) == HalvesBytes(hs) + (NodesBytes(h.before) + (OpeningBytes(h.op) + [62]))
  {
    hide NodesRight, OpeningRight, EndsInData, NodesSaid, AttrsSaid, NodesBytes, OpeningBytes;
    assert (hs + [h])[..|hs|] == hs;
  }

  lemma NoNodes(open: nat)
    ensures NodesBytes([]) == [] && NodesSaid([]) == [] && NodesRight([], open) && !EndsInData([])
  {
  }

  /** An element is opened. */
  lemma FarDown(s: seq<byte>, i: nat, hs: seq<Half>, ws: seq<WNode>, frames: seq<Frame>, cur: seq<Node>, op: Opening, j: nat)
    requires SoFar(s, i, hs, ws, frames, cur) && i <= j <= |s| && s[i..j] == OpeningBytes(op) + [62] && OpeningRight(op)
    requires |hs| < 16 && (EndsInData(ws) ==> op.lines == [])
    ensures SoFar(s, j, hs + [Half(ws, op)], [], frames + [Frame(op.name, AttrsSaid(op.attrs), cur)], [])
  {
    hide NodesBytes, NodesRight, NodesSaid, HalvesBytes, HalvesRight, HalvesSay, EndsInData, OpeningBytes, OpeningRight, AttrsSaid;
    NoNodes(|hs| + 1);
    HalvesMore(hs, frames, Half(ws, op), |hs|);
    assert s[..j] == s[..i] + s[i..j];
    assert HalvesBytes(hs + [Half(ws, op)]) + [] == HalvesBytes(hs + [Half(ws, op)]);
  }

  lemma HalvesLess(hs: seq<Half>, frames: seq<Frame>)
    requires HalvesRight(hs) && HalvesSay(hs, frames) && hs != []
    ensures var n := |hs| - 1;
            var h := hs[n];
            && n < 16 && HalvesRight(hs[..n]) && HalvesSay(hs[..n], frames[..n])
            && NodesRight(h.before, n) && OpeningRight(h.op) && (EndsInData(h.before) ==> h.op.lines == [])
            && frames[n] == Frame(h.op.name, AttrsSaid(h.op.attrs), NodesSaid(h.before))
            && HalvesBytes(hs) == HalvesBytes(hs[..n]) + (NodesBytes(h.before) + (OpeningBytes(h.op) + [62]))
  {
    hide NodesRight, OpeningRight, EndsInData, NodesSaid, AttrsSaid, NodesBytes, OpeningBytes;
  }

  lemma UpBytes(s: seq<byte>, i: nat, j: nat, a: seq<byte>, b: seq<byte>, c: seq<byte>, d: seq<byte>, e: seq<byte>)
    requires i <= j <= |s| && s[..i] == a + (b + (c + [62])) + d && s[i..j] == e
    ensures s[..j] == a + (b + (c + ([62] + (d + e))))
  {
    assert s[..j] == s[..i] + s[i..j];
    assert a + (b + (c + [62])) + d + e == a + (b + (c + [62] + (d + e)));
    assert c + [62] + (d + e) == c + ([62] + (d + e));
  }

  /** The innermost open element is closed. */
  lemma FarUp(s: seq<byte>, i: nat, hs: seq<Half>, ws: seq<WNode>, frames: seq<Frame>, cur: seq<Node>, en: Ending, j: nat) returns (n: WNode)
    requires SoFar(s, i, hs, ws, frames, cur) && i <= j <= |s| && hs != [] && EndingRight(en)
    requires s[i..j] == EndingBytes(en, hs[|hs| - 1].op.name) && (EndsInData(ws) ==> en.lines == [])
    ensures var h := hs[|hs| - 1];
            |frames| == |hs| && frames[|hs| - 1].tag == h.op.name
            && SoFar(s, j, hs[..|hs| - 1], h.before + [n], frames[..|hs| - 1],
                     frames[|hs| - 1].before + [Elem(frames[|hs| - 1].tag, frames[|hs| - 1].attrs, cur)])
  {
    hide NodesBytes, NodesRight, NodesSaid, HalvesBytes, HalvesRight, EndsInData, OpeningBytes, OpeningRight, AttrsSaid, EndingBytes,
         EndingRight;
    var k := |hs| - 1;
    var h := hs[k];
    HalvesLess(hs, frames);
    n := Pair(h.op, ws, en);
    UpBytes(s, i, j, HalvesBytes(hs[..k]), NodesBytes(h.before), OpeningBytes(h.op), NodesBytes(ws), EndingBytes(en, h.op.name));
    NodesMore(h.before, n);
    MoreRight(h.before, n, k);
    assert NodeSaid(n) == Elem(frames[k].tag, frames[k].attrs, cur);
  }

  /** What is left of a text is so written too. */
  lemma {:induction false} ParseFound(s: seq<byte>, i: nat, hs: seq<Half>, ws: seq<WNode>, frames: seq<Frame>, cur: seq<Node>)
    returns (d: Document)
    requires SoFar(s, i, hs, ws, frames, cur) && Parse(s, i, frames, cur).Tree?
    ensures DocumentRight(d) && DocumentBytes(d) == s && Parse(s, i, frames, cur) == Tree(NodesSaid(d.nodes))
    decreases |s| - i
  {
    hide NodesBytes, NodesRight, NodesSaid, HalvesRight, EndsInData, OpeningBytes, OpeningRight, AttrsSaid, EndingBytes,
         EndingRight, SkipDelims, ReadItem, CloseBytes, Lines, Blanks, DataRight, CodedBytes, CodedText;
    if i < |s| {
      SkipNoLines(s, i);
    }
    if SkipDelims(s, i) == |s| {
      LinesFound(s, i);
      d := Document(ws, s[i..]);
      assert s[i..|s|] == s[i..];
      assert s == s[..i] + s[i..];
      assert HalvesBytes(hs) == [];
      NodesNone(ws);
    } else {
      var item := ReadItem(s, i);
      ParseStep(s, i, frames, cur, item);
      match item
      case Start(tag, attrs, closed, next) =>
        var op, w := StartFound(s, i);
        if closed {
          CloseIs(w);
          FarNode(s, i, hs, ws, frames, cur, Single(op, w), next);
          d := ParseFound(s, next, hs, ws + [Single(op, w)], frames, cur + [Elem(tag, attrs, [])]);
        } else {
          CloseIs(w);
          FarDown(s, i, hs, ws, frames, cur, op, next);
          d := ParseFound(s, next, hs + [Half(ws, op)], [], frames + [Frame(tag, attrs, cur)], []);
        }
      case End(tag, next) =>
        var en := EndFound(s, i);
        var k := |hs| - 1;
        var f := frames[k];
        var n := FarUp(s, i, hs, ws, frames, cur, en, next);
        d := ParseFound(s, next, hs[..k], hs[k].before + [n], frames[..k], f.before + [Elem(f.tag, f.attrs, cur)]);
      case Chars(data, next) =>
        var es := CharsFound(s, i);
        NoTag(s, i);
        FarNode(s, i, hs, ws, frames, cur, Data(es), next);
        d := ParseFound(s, next, hs, ws + [Data(es)], frames, cur + [Text(data)]);
    }
  }

  lemma NoTag(s: seq<byte>, i: nat)
    requires i <= |s| && SkipDelims(s, i) < |s|
    ensures ReadItem(s, i).Chars? ==> s[SkipDelims(s, i)] != 60
  {
  }

  lemma CloseIs(w: seq<byte>)
    ensures CloseBytes(true, w) == [47] + (w + [62]) && CloseBytes(false, w) == [62]
  {
  }

  lemma NodesNone(ws: seq<WNode>)
    ensures NodesSaid(ws) == [] <==> ws == []
  {
  }

  /** WHAT A TEXT SAYS: it is read as a tree if and only if it is one of the ways to write that tree. */
  lemma TextMeans(s: seq<byte>, tree: seq<Node>)
    ensures Parse(s, 0, [], []) == Tree(tree) <==>
      exists d :: DocumentRight(d) && DocumentBytes(d) == s && NodesSaid(d.nodes) == tree
  {
    if Parse(s, 0, [], []) == Tree(tree) {
      NoNodes(0);
      assert SoFar(s, 0, [], [], [], []);
      var d := ParseFound(s, 0, [], [], [], []);
    }
    forall d | DocumentRight(d) && DocumentBytes(d) == s && NodesSaid(d.nodes) == tree
      ensures Parse(s, 0, [], []) == Tree(tree)
    {
      DocumentRead(d);
    }
  }

  // --- what does not count ----------------------------------------------------------------------------------------------------------

  /** Any line ends before the bracket of a tag leave what a text says as it is, wherever the tag stands. */
  lemma LinesBeforeTag(s: seq<byte>, i: nat, d: nat, frames: seq<Frame>, cur: seq<Node>)
    requires i <= d < |s| && s[d] == 60 && forall k :: i <= k < d ==> s[k] == 10 || s[k] == 13
    ensures Parse(s, i, frames, cur) == Parse(s, d, frames, cur)
  {
    hide ReadTag, TagStart, IsEnd, Step;
    LinesRead(s, i, s[i..d]);
    LinesRead(s, d, []);
    assert ReadItem(s, i) == ReadItem(s, d);
  }

  /** Two attributes that differ in blanks, in the marks around the value, or in having none. */
  predicate SameAttrs(a: seq<WAttr>, b: seq<WAttr>) {
    |a| == |b| && forall i :: 0 <= i < |a| ==> a[i].name == b[i].name && a[i].value.es == b[i].value.es
  }

  /** Two ways to write the same nodes, which differ in line ends, blanks and the marks around values only. */
  predicate SameNode(a: WNode, b: WNode) {
    match a
    case Single(op, _) => b.Single? && op.name == b.op.name && SameAttrs(op.attrs, b.op.attrs)
    case Pair(op, kids, _) => b.Pair? && op.name == b.op.name && SameAttrs(op.attrs, b.op.attrs) && SameNodes(kids, b.kids)
    case Data(_) => a == b
  }

  predicate SameNodes(a: seq<WNode>, b: seq<WNode>) {
    |a| == |b| && forall i :: 0 <= i < |a| ==> SameNode(a[i], b[i])
  }

  lemma {:induction false} SameAttrsSay(a: seq<WAttr>, b: seq<WAttr>)
    requires SameAttrs(a, b)
    ensures AttrsSaid(a) == AttrsSaid(b)
    decreases |a|
  {
    if a != [] {
      SameAttrsSay(a[1..], b[1..]);
    }
  }

  lemma {:induction false} SameNodesSay(a: seq<WNode>, b: seq<WNode>)
    requires SameNodes(a, b)
    ensures NodesSaid(a) == NodesSaid(b)
    decreases a
  {
    if a != [] {
      var x, y := a[0], b[0];
      assert SameNode(x, y);
      if !x.Data? {
        SameAttrsSay(x.op.attrs, y.op.attrs);
      }
      if x.Pair? {
        SameNodesSay(x.kids, y.kids);
      }
      forall i | 0 <= i < |a| - 1
        ensures SameNode(a[1..][i], b[1..][i])
      {
        assert SameNode(a[i + 1], b[i + 1]);
      }
      SameNodesSay(a[1..], b[1..]);
    }
  }

  /** LINE ENDS, BLANKS AND MARKS DO NOT COUNT: a text that says a tree is written in some way, and in every way that differs from it in line
      ends, blanks and the marks around values only, at any depth, it says the same tree. */
  lemma LayoutIsFree(s: seq<byte>, tree: seq<Node>)
    requires Parse(s, 0, [], []) == Tree(tree)
    ensures exists d :: DocumentRight(d) && DocumentBytes(d) == s
                        && forall e :: DocumentRight(e) && SameNodes(d.nodes, e.nodes) ==> Parse(DocumentBytes(e), 0, [], []) == Tree(tree)
  {
    hide Parse, DocumentRight, DocumentBytes, NodesSaid;
    TextMeans(s, tree);
    var d :| DocumentRight(d) && DocumentBytes(d) == s && NodesSaid(d.nodes) == tree;
    forall e | DocumentRight(e) && SameNodes(d.nodes, e.nodes)
      ensures Parse(DocumentBytes(e), 0, [], []) == Tree(tree)
    {
      SameNodesSay(d.nodes, e.nodes);
      DocumentRead(e);
    }
  }
}

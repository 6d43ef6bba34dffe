/** All the ways to write a tree as text, byte for byte (xml.c): where line ends and blanks may be, which marks a value may stand in, and
    how a character may be written. Each of them is read as that tree. */
module XmlWritten {
  import opened Bytes
  import opened XmlTags
  import opened XmlTree
  import opened XmlScan
  import opened XmlBack
  import opened XmlGrammar

  // --- characters -------------------------------------------------------------------------------------------------------------

  predicate Lines(w: seq<byte>) {
    forall i :: 0 <= i < |w| ==> w[i] == 10 || w[i] == 13
  }

  predicate Blanks(w: seq<byte>) {
    forall i :: 0 <= i < |w| ==> w[i] == 10 || w[i] == 13 || w[i] == 9 || w[i] == 32
  }

  /** A lower case letter, and then letters and digits. */
  predicate NameRight(name: seq<byte>) {
    && name != [] && 97 <= name[0] <= 122
    && forall i :: 0 <= i < |name| ==> 97 <= name[i] <= 122 || 65 <= name[i] <= 90 || 48 <= name[i] <= 57
  }

  predicate Digits(d: seq<byte>) {
    forall i :: 0 <= i < |d| ==> 48 <= d[i] <= 57
  }

  /** What digits say in a base. */
  function Number(d: seq<byte>, base: nat): nat
    requires Digits(d)
  {
    if d == [] then 0 else Number(d[..|d| - 1], base) * base + (d[|d| - 1] - 48)
  }

  /** A character, and how it is written. */
  datatype Coded = Coded(bytes: seq<byte>, c: byte)

  /** As itself unless it is an ampersand, by one of five names, or by its number, in base eight behind a zero. */
  predicate CodedRight(e: Coded) {
    || (|e.bytes| == 1 && e.bytes[0] == e.c && e.c != 38)
    || (e.bytes == [38, 108, 116, 59] && e.c == 60)
    || (e.bytes == [38, 103, 116, 59] && e.c == 62)
    || (e.bytes == [38, 97, 109, 112, 59] && e.c == 38)
    || (e.bytes == [38, 113, 117, 111, 116, 59] && e.c == 34)
    || (e.bytes == [38, 97, 112, 111, 115, 59] && e.c == 39)
    || (|e.bytes| >= 3 && Numbered(e))
  }

  predicate Numbered(e: Coded)
    requires |e.bytes| >= 3
  {
    var d := e.bytes[2..|e.bytes| - 1];
    && e.bytes[0] == 38 && e.bytes[1] == 35 && e.bytes[|e.bytes| - 1] == 59
    && Digits(d) && e.c == Number(d, if d != [] && d[0] == 48 then 8 else 10) % 256
  }

  function CodedBytes(es: seq<Coded>): seq<byte> {
    if es == [] then [] else es[0].bytes + CodedBytes(es[1..])
  }

  function CodedText(es: seq<Coded>): (t: seq<byte>)
    ensures |t| == |es|
  {
    if es == [] then [] else [es[0].c] + CodedText(es[1..])
  }

  /** In a value a zero is read as a blank. */
  function CodedValue(es: seq<Coded>): (t: seq<byte>)
    ensures |t| == |es|
  {
    if es == [] then [] else [if es[0].c == 0 then 32 else es[0].c] + CodedValue(es[1..])
  }

  // --- attributes -------------------------------------------------------------------------------------------------------------

  datatype Value = Quoted(mark: byte, es: seq<Coded>) | Plain(es: seq<Coded>)

  /** Within quotation marks or apostrophes, which are not in it; or without, and then it does not start with a mark, and has no blanks, line
      ends, brackets or slashes in it. */
  predicate ValueRight(v: Value) {
    && (forall i :: 0 <= i < |v.es| ==> CodedRight(v.es[i]))
    && match v
       case Quoted(mark, es) => (mark == 34 || mark == 39) && forall i :: 0 <= i < |es| ==> es[i].bytes[0] != mark
       case Plain(es) =>
         && (es != [] ==> es[0].bytes[0] != 34 && es[0].bytes[0] != 39)
         && forall i :: 0 <= i < |es| ==> es[i].bytes[0] !in [9, 10, 13, 32, 47, 60, 62]
  }

  function ValueBytes(v: Value): seq<byte> {
    match v
    case Quoted(mark, es) => [mark] + CodedBytes(es) + [mark]
    case Plain(es) => CodedBytes(es)
  }

  /** An attribute, with blanks before and behind its equals sign and behind its value. */
  datatype WAttr = WAttr(name: seq<byte>, w1: seq<byte>, w2: seq<byte>, value: Value, w3: seq<byte>)

  predicate AttrRight(a: WAttr) {
    && NameRight(a.name) && Blanks(a.w1) && Blanks(a.w2) && ValueRight(a.value) && Blanks(a.w3)
    && (a.value == Plain([]) ==> a.w3 == [])
  }

  function AttrBytes(a: WAttr): seq<byte> {
    a.name + (a.w1 + ([61] + (a.w2 + (ValueBytes(a.value) + a.w3))))
  }

  /** Something is between a value without marks and the next attribute. */
  predicate AttrsRight(attrs: seq<WAttr>) {
    && (forall i :: 0 <= i < |attrs| ==> AttrRight(attrs[i]))
    && (forall i :: 0 <= i < |attrs| - 1 ==> attrs[i].value.Plain? ==> attrs[i].w3 != [])
  }

  function AttrsBytes(attrs: seq<WAttr>): seq<byte> {
    if attrs == [] then [] else AttrBytes(attrs[0]) + AttrsBytes(attrs[1..])
  }

  function AttrsSaid(attrs: seq<WAttr>): seq<Attr> {
    if attrs == [] then [] else [Attr(attrs[0].name, CodedValue(attrs[0].value.es))] + AttrsSaid(attrs[1..])
  }

  // --- elements ---------------------------------------------------------------------------------------------------------------

  /** The start of an element up to its last bracket or slash: line ends, a bracket, blanks, the name, blanks, attributes. */
  datatype Opening = Opening(lines: seq<byte>, w0: seq<byte>, name: seq<byte>, w1: seq<byte>, attrs: seq<WAttr>)

  /** The end of an element: line ends, a bracket, blanks, a slash, blanks, the name, blanks and a bracket. */
  datatype Ending = Ending(lines: seq<byte>, w0: seq<byte>, w1: seq<byte>, w2: seq<byte>)

  datatype WNode = Single(op: Opening, w: seq<byte>) | Pair(op: Opening, kids: seq<WNode>, en: Ending) | Data(es: seq<Coded>)

  predicate OpeningRight(op: Opening) {
    && Lines(op.lines) && Blanks(op.w0) && NameRight(op.name) && Blanks(op.w1) && AttrsRight(op.attrs)
    && (op.attrs != [] ==> op.w1 != [])
  }

  predicate EndingRight(en: Ending) {
    Lines(en.lines) && Blanks(en.w0) && Blanks(en.w1) && Blanks(en.w2)
  }

  /** Data has no brackets in it and is not all line ends. */
  predicate DataRight(es: seq<Coded>) {
    && (forall i :: 0 <= i < |es| ==> CodedRight(es[i]) && es[i].bytes[0] != 60 && es[i].bytes[0] != 62)
    && exists i :: 0 <= i < |es| && es[i].bytes[0] != 10 && es[i].bytes[0] != 13
  }

  predicate EndsInData(nodes: seq<WNode>) {
    nodes != [] && nodes[|nodes| - 1].Data?
  }

  /** Line ends behind data would be part of it. */
  predicate Follows(a: WNode, b: WNode) {
    a.Data? ==> !b.Data? && b.op.lines == []
  }

  /** No more than sixteen elements are open at a time. */
  predicate NodeRight(node: WNode, open: nat) {
    match node
    case Single(op, w) => OpeningRight(op) && Blanks(w)
    case Pair(op, kids, en) =>
      open < 16 && OpeningRight(op) && NodesRight(kids, open + 1) && EndingRight(en) && (EndsInData(kids) ==> en.lines == [])
    case Data(es) => DataRight(es)
  }

  predicate NodesRight(nodes: seq<WNode>, open: nat) {
    && (forall i :: 0 <= i < |nodes| ==> NodeRight(nodes[i], open))
    && (forall i :: 0 < i < |nodes| ==> Follows(nodes[i - 1], nodes[i]))
  }

  function OpeningBytes(op: Opening): seq<byte> {
    op.lines + ([60] + (op.w0 + (op.name + (op.w1 + AttrsBytes(op.attrs)))))
  }

  function EndingBytes(en: Ending, name: seq<byte>): seq<byte> {
    en.lines + ([60] + (en.w0 + ([47] + (en.w1 + (name + (en.w2 + [62]))))))
  }

  function NodeBytes(node: WNode): seq<byte> {
    match node
    case Single(op, w) => OpeningBytes(op) + ([47] + (w + [62]))
    case Pair(op, kids, en) => OpeningBytes(op) + ([62] + (NodesBytes(kids) + EndingBytes(en, op.name)))
    case Data(es) => CodedBytes(es)
  }

  function NodesBytes(nodes: seq<WNode>): seq<byte> {
    if nodes == [] then [] else NodeBytes(nodes[0]) + NodesBytes(nodes[1..])
  }

  function NodeSaid(node: WNode): Node {
    match node
    case Single(op, _) => Elem(op.name, AttrsSaid(op.attrs), [])
    case Pair(op, kids, _) => Elem(op.name, AttrsSaid(op.attrs), NodesSaid(kids))
    case Data(es) => Text(CodedText(es))
  }

  function NodesSaid(nodes: seq<WNode>): (t: seq<Node>)
    ensures |t| == |nodes|
  {
    if nodes == [] then [] else [NodeSaid(nodes[0])] + NodesSaid(nodes[1..])
  }

  /** A whole text: at least one node, the last not data, and line ends. */
  datatype Document = Document(nodes: seq<WNode>, tail: seq<byte>)

  predicate DocumentRight(d: Document) {
    d.nodes != [] && NodesRight(d.nodes, 0) && !EndsInData(d.nodes) && Lines(d.tail)
  }

  function DocumentBytes(d: Document): seq<byte> {
    NodesBytes(d.nodes) + d.tail
  }

  // --- each is read ---------------------------------------------------------------------------------------------------------------

  lemma {:induction false} BlanksRead(s: seq<byte>, i: nat, w: seq<byte>)
    requires Blanks(w) && Stands(s, i, w) && i + |w| < |s| && !IsWhite(s[i + |w|])
    ensures Skip(s, i) == i + |w|
    decreases |w|
  {
    if w != [] {
      StandsAt(s, i, w);
      assert s[i + 1..i + |w|] == s[i..i + |w|][1..] == w[1..];
      BlanksRead(s, i + 1, w[1..]);
    }
  }

  lemma {:induction false} LinesRead(s: seq<byte>, i: nat, w: seq<byte>)
    requires Lines(w) && Stands(s, i, w) && (i + |w| < |s| ==> !IsDelim(s[i + |w|]))
    ensures SkipDelims(s, i) == i + |w|
    decreases |w|
  {
    if w != [] {
      StandsAt(s, i, w);
      assert s[i + 1..i + |w|] == s[i..i + |w|][1..] == w[1..];
      LinesRead(s, i + 1, w[1..]);
    }
  }

  lemma {:induction false} DigitsRead(s: seq<byte>, i: nat, d: seq<byte>, k: nat, base: nat)
    requires Digits(d) && Stands(s, i, d) && i + |d| < |s| && k <= |d| && base > 0
    ensures ReadNumber(s, i, base, 0) == ReadNumber(s, i + k, base, Number(d[..k], base))
    decreases k
  {
    if k > 0 {
      DigitsRead(s, i, d, k - 1, base);
      assert d[..k][..k - 1] == d[..k - 1];
      assert s[i + k - 1] == s[i..i + |d|][k - 1] == d[k - 1];
    }
  }

  lemma NumberRead(s: seq<byte>, i: nat, d: seq<byte>)
    requires Digits(d) && Stands(s, i, [38, 35] + d + [59]) && i + |d| + 3 < |s|
    ensures ReadChar(s, i) == Piece(Number(d, if d != [] && d[0] == 48 then 8 else 10) % 256, i + |d| + 3)
  {
    hide Stands, Digits, Number;
    var base := if d != [] && d[0] == 48 then 8 else 10;
    StandsSplit(s, i, [38, 35] + d, [59]);
    StandsSplit(s, i, [38, 35], d);
    StandsAt(s, i, [38, 35]);
    StandsAt(s, i + 2, d);
    StandsAt(s, i + 2 + |d|, [59]);
    if d != [] {
      DigitsStart(d);
    }
    DigitsRead(s, i + 2, d, |d|, base);
    assert d[..|d|] == d;
    assert Radix(s[i + 2]) == base;
  }

  lemma DigitsStart(d: seq<byte>)
    requires Digits(d) && d != []
    ensures ToUpper(d[0]) == d[0] <= 57
  {
  }

  lemma CodedRead(s: seq<byte>, i: nat, e: Coded)
    requires CodedRight(e) && Stands(s, i, e.bytes) && i + |e.bytes| < |s|
    ensures e.bytes != [] && s[i] == e.bytes[0] && ReadChar(s, i) == Piece(e.c, i + |e.bytes|)
  {
    StandsAt(s, i, e.bytes);
    if |e.bytes| == 1 && e.bytes[0] == e.c && e.c != 38 {
    } else if |e.bytes| >= 3 && Numbered(e) {
      var d := e.bytes[2..|e.bytes| - 1];
      assert e.bytes == [38, 35] + d + [59];
      NumberRead(s, i, d);
    } else {
      assert s[i + 2..i + |e.bytes|] == s[i..i + |e.bytes|][2..] == e.bytes[2..];
      assert s[i + 2] == e.bytes[2];
      assert EscapeChar(e.c) == e.bytes;
      NamedBack(s, i, e.c);
    }
  }

  /** What a string says, given what ends it. */
  function CodedSaid(es: seq<Coded>, stop: Stop): seq<byte> {
    if stop == Bracket then CodedText(es) else CodedValue(es)
  }

  predicate NoStop(es: seq<Coded>, stop: Stop) {
    forall i :: 0 <= i < |es| ==> CodedRight(es[i]) && !Stops(stop, es[i].bytes[0])
  }

  lemma {:induction false} StrRead(s: seq<byte>, i: nat, es: seq<Coded>, stop: Stop)
    requires NoStop(es, stop) && Stands(s, i, CodedBytes(es)) && i + |CodedBytes(es)| < |s| && Stops(stop, s[i + |CodedBytes(es)|])
    ensures ReadStr(s, i, stop) == Str(CodedSaid(es, stop), i + |CodedBytes(es)|)
    decreases |es|
  {
    hide ReadChar, Stands, CodedRight;
    if es != [] {
      var e := es[0];
      assert CodedBytes(es) == e.bytes + CodedBytes(es[1..]);
      StandsSplit(s, i, e.bytes, CodedBytes(es[1..]));
      CodedRead(s, i, e);
      assert !Stops(stop, s[i]);
      StrRead(s, i + |e.bytes|, es[1..], stop);
    }
  }

  lemma NameRead(s: seq<byte>, i: nat, name: seq<byte>)
    requires NameRight(name) && Stands(s, i, name) && i + |name| < |s| && !IsNameChar(s[i + |name|])
    ensures s[i] == name[0] && IsLower(s[i]) && ReadName(s, i) == Label(i + |name|) && s[i..i + |name|] == name
  {
    assert IsName(name);
    NameBack(s, i, name);
  }

  // --- attributes are read ------------------------------------------------------------------------------------------------------

  lemma QuotedRead(s: seq<byte>, v: nat, mark: byte, es: seq<Coded>)
    requires mark == 34 || mark == 39
    requires NoStop(es, Quote(mark)) && Stands(s, v, [mark] + CodedBytes(es) + [mark]) && v + 2 + |CodedBytes(es)| < |s|
    ensures ReadValue(s, v) == Str(CodedValue(es), v + 2 + |CodedBytes(es)|) && s[v] == mark
  {
    hide Stands, NoStop, ReadStr, CodedBytes, CodedValue;
    StandsSplit(s, v, [mark] + CodedBytes(es), [mark]);
    StandsSplit(s, v, [mark], CodedBytes(es));
    StandsAt(s, v, [mark]);
    StandsAt(s, v + 1 + |CodedBytes(es)|, [mark]);
    StrRead(s, v + 1, es, Quote(mark));
  }

  lemma ValueRead(s: seq<byte>, v: nat, value: Value)
    requires ValueRight(value) && Stands(s, v, ValueBytes(value)) && v + |ValueBytes(value)| < |s|
    requires value.Plain? ==> Stops(Bare, s[v + |ValueBytes(value)|]) && (value.es == [] ==> !IsWhite(s[v]))
    ensures ReadValue(s, v) == Str(CodedValue(value.es), v + |ValueBytes(value)|) && !IsWhite(s[v])
  {
    hide Stands, CodedRight, ReadStr;
    match value
    case Quoted(mark, es) =>
      QuotedRead(s, v, mark, es);
    case Plain(es) =>
      if es != [] {
        assert CodedBytes(es) == es[0].bytes + CodedBytes(es[1..]);
        StandsSplit(s, v, es[0].bytes, CodedBytes(es[1..]));
        StandsAt(s, v, es[0].bytes);
        CodedSome(es[0]);
      }
      StrRead(s, v, es, Bare);
  }

  lemma CodedSome(e: Coded)
    requires CodedRight(e)
    ensures e.bytes != []
  {
  }

  /** What may come behind the attributes of an element, or behind one of them. */
  predicate Goes(c: byte) {
    c == 47 || c == 62 || IsLower(c)
  }

  /** What is behind the name of an attribute. */
  function SaidBytes(a: WAttr): seq<byte> {
    a.w1 + ([61] + (a.w2 + (ValueBytes(a.value) + a.w3)))
  }

  /** Where the parts of an attribute stand whose name ends at e. */
  lemma SaidPlaces(s: seq<byte>, e: nat, a: WAttr)
    requires Stands(s, e, SaidBytes(a))
    ensures var q := e + |a.w1|;
            var t := q + 1 + |a.w2|;
            && Stands(s, e, a.w1) && Stands(s, q, [61]) && Stands(s, q + 1, a.w2) && Stands(s, t, ValueBytes(a.value))
            && Stands(s, t + |ValueBytes(a.value)|, a.w3) && q < |s| && s[q] == 61
            && e + |SaidBytes(a)| == t + |ValueBytes(a.value)| + |a.w3| <= |s|
  {
    hide Stands, ValueBytes;
    var v := ValueBytes(a.value);
    var q := e + |a.w1|;
    StandsSplit(s, e, a.w1, [61] + (a.w2 + (v + a.w3)));
    StandsSplit(s, q, [61], a.w2 + (v + a.w3));
    StandsSplit(s, q + 1, a.w2, v + a.w3);
    StandsSplit(s, q + 1 + |a.w2|, v, a.w3);
    StandsAt(s, q, [61]);
  }

  /** The equals sign behind the name of an attribute that ends at e. */
  lemma EqualsRead(s: seq<byte>, e: nat, w1: seq<byte>, w2: seq<byte>)
    requires Blanks(w1) && Blanks(w2) && Stands(s, e, w1) && Stands(s, e + |w1| + 1, w2) && e + |w1| + 1 + |w2| < |s|
    requires s[e + |w1|] == 61 && !IsWhite(s[e + |w1| + 1 + |w2|])
    ensures !IsNameChar(s[e]) && ValueStart(s, e) == Label(e + |w1| + 1 + |w2|)
  {
    hide Stands, Blanks, Skip;
    StandsFirst(s, e, w1, 61);
    BlanksRead(s, e, w1);
    BlanksRead(s, e + |w1| + 1, w2);
  }

  /** What is before and within the value of an attribute whose name ends at e, and what is behind it. */
  lemma SaidRead(s: seq<byte>, e: nat, a: WAttr)
    requires AttrRight(a) && Stands(s, e, SaidBytes(a)) && e + |SaidBytes(a)| < |s| && Goes(s[e + |SaidBytes(a)|])
    requires a.value.Plain? && a.w3 == [] ==> !IsLower(s[e + |SaidBytes(a)|])
    ensures !IsNameChar(s[e])
    ensures var t := e + |a.w1| + 1 + |a.w2|;
            ValueStart(s, e) == Label(t)
            && ReadValue(s, t) == Str(CodedValue(a.value.es), t + |ValueBytes(a.value)|)
            && Skip(s, t + |ValueBytes(a.value)|) == e + |SaidBytes(a)|
  {
    hide Stands, ValueRight, ValueBytes, NameRight, ReadValue, Skip, Blanks, CodedValue, SaidBytes, ValueStart;
    var v := ValueBytes(a.value);
    var t := e + |a.w1| + 1 + |a.w2|;
    SaidPlaces(s, e, a);
    StandsFirst(s, t + |v|, a.w3, s[e + |SaidBytes(a)|]);
    NoValue(a.value);
    ValueRead(s, t, a.value);
    EqualsRead(s, e, a.w1, a.w2);
    BlanksRead(s, t + |v|, a.w3);
  }

  lemma NoValue(v: Value)
    ensures v == Plain([]) <==> v.Plain? && v.es == []
    ensures v == Plain([]) ==> ValueBytes(v) == []
  {
  }

  /** One attribute. */
  lemma AttrRead(s: seq<byte>, i: nat, a: WAttr)
    requires AttrRight(a) && Stands(s, i, AttrBytes(a)) && i + |AttrBytes(a)| < |s| && Goes(s[i + |AttrBytes(a)|])
    requires a.value.Plain? && a.w3 == [] ==> !IsLower(s[i + |AttrBytes(a)|])
    ensures IsLower(s[i])
    ensures ReadAttr(s, i) == AttrList([Attr(a.name, CodedValue(a.value.es))], i + |AttrBytes(a)|)
  {
    hide Stands, ValueRight, ValueBytes, NameRight, ReadValue, ReadName, Skip, Blanks, CodedValue, SaidBytes, ValueStart;
    AttrParts(a);
    StandsSplit(s, i, a.name, SaidBytes(a));
    SaidRead(s, i + |a.name|, a);
    NameRead(s, i, a.name);
  }

  lemma AttrParts(a: WAttr)
    ensures AttrBytes(a) == a.name + SaidBytes(a)
  {
  }

  /** The first of some blanks and the character behind them. */
  lemma StandsFirst(s: seq<byte>, i: nat, w: seq<byte>, c: byte)
    requires Blanks(w) && Stands(s, i, w) && i + |w| < |s| && s[i + |w|] == c
    ensures w == [] ==> s[i] == c
    ensures w != [] ==> IsWhite(s[i])
  {
    StandsAt(s, i, w);
  }

  /** All attributes, up to a bracket or a slash. */
  lemma {:induction false} AttrsRead(s: seq<byte>, i: nat, attrs: seq<WAttr>)
    requires AttrsRight(attrs) && Stands(s, i, AttrsBytes(attrs)) && i + |AttrsBytes(attrs)| < |s|
    requires s[i + |AttrsBytes(attrs)|] == 62 || s[i + |AttrsBytes(attrs)|] == 47
    ensures Goes(s[i]) && (attrs == [] ==> !IsLower(s[i])) && (attrs != [] ==> IsLower(s[i]))
    ensures ReadAttrs(s, i) == AttrList(AttrsSaid(attrs), i + |AttrsBytes(attrs)|)
    decreases |attrs|
  {
    hide AttrRight, AttrBytes, Stands, ReadAttr, CodedValue;
    if attrs != [] {
      var x, more := AttrBytes(attrs[0]), attrs[1..];
      assert AttrsBytes(attrs) == x + AttrsBytes(more);
      StandsSplit(s, i, x, AttrsBytes(more));
      AttrsRead(s, i + |x|, more);
      AttrRead(s, i, attrs[0]);
    }
  }

  // --- elements are read ----------------------------------------------------------------------------------------------------------

  /** What may come behind a start: a slash, blanks and a bracket, or a bracket. */
  function CloseBytes(closed: bool, w: seq<byte>): seq<byte> {
    if closed then [47] + (w + [62]) else [62]
  }

  lemma CloseRead(s: seq<byte>, tag: seq<byte>, attrs: seq<Attr>, r: nat, closed: bool, w: seq<byte>)
    requires Blanks(w) && Stands(s, r, CloseBytes(closed, w))
    ensures r + |CloseBytes(closed, w)| <= |s| && CloseBytes(closed, w) != [] && (s[r] == 47 || s[r] == 62)
    ensures ReadClose(s, tag, attrs, r) == Start(tag, attrs, closed, r + |CloseBytes(closed, w)|)
  {
    hide Stands, Blanks;
    StandsAt(s, r, CloseBytes(closed, w));
    if closed {
      StandsSplit(s, r, [47], w + [62]);
      StandsSplit(s, r + 1, w, [62]);
      StandsAt(s, r + 1 + |w|, [62]);
      BlanksRead(s, r + 1, w);
    } else {
      StandsSplit(s, r, [], [62]);
      assert [] + [62] == [62];
    }
  }

  /** What is behind the name of an element. */
  function RestBytes(op: Opening, closed: bool, w: seq<byte>): seq<byte> {
    op.w1 + (AttrsBytes(op.attrs) + CloseBytes(closed, w))
  }

  lemma RestPlaces(s: seq<byte>, e: nat, op: Opening, closed: bool, w: seq<byte>)
    requires Stands(s, e, RestBytes(op, closed, w))
    ensures var q := e + |op.w1|;
            var r := q + |AttrsBytes(op.attrs)|;
            && Stands(s, e, op.w1) && Stands(s, q, AttrsBytes(op.attrs)) && Stands(s, r, CloseBytes(closed, w))
            && e + |RestBytes(op, closed, w)| == r + |CloseBytes(closed, w)| <= |s|
  {
    hide Stands, AttrsBytes, CloseBytes;
    var q := e + |op.w1|;
    StandsSplit(s, e, op.w1, AttrsBytes(op.attrs) + CloseBytes(closed, w));
    StandsSplit(s, q, AttrsBytes(op.attrs), CloseBytes(closed, w));
  }

  /** The name and the attributes of a start. */
  lemma TagRead(s: seq<byte>, p: nat, op: Opening, closed: bool, w: seq<byte>)
    requires OpeningRight(op) && Blanks(w) && Stands(s, p, op.name) && Stands(s, p + |op.name|, RestBytes(op, closed, w))
    ensures p + |op.name| + |RestBytes(op, closed, w)| <= |s| && p < |s| && IsLower(s[p])
    ensures ReadTag(s, p, false) == Start(op.name, AttrsSaid(op.attrs), closed, p + |op.name| + |RestBytes(op, closed, w)|)
  {
    hide Stands, Blanks, NameRight, AttrsRight, AttrsBytes, CloseBytes, AttrsSaid, ReadName, ReadAttrs, ReadClose, Skip, RestBytes;
    var e := p + |op.name|;
    var q := e + |op.w1|;
    RestPlaces(s, e, op, closed, w);
    CloseRead(s, op.name, AttrsSaid(op.attrs), q + |AttrsBytes(op.attrs)|, closed, w);
    AttrsRead(s, q, op.attrs);
    StandsFirst(s, e, op.w1, s[q]);
    BlanksRead(s, e, op.w1);
    NameRead(s, p, op.name);
  }

  lemma OpeningPlaces(s: seq<byte>, i: nat, op: Opening, closed: bool, w: seq<byte>)
    requires Stands(s, i, OpeningBytes(op) + CloseBytes(closed, w))
    ensures var d := i + |op.lines|;
            var p := d + 1 + |op.w0|;
            && Stands(s, i, op.lines) && d < |s| && s[d] == 60 && Stands(s, d + 1, op.w0) && Stands(s, p, op.name)
            && Stands(s, p + |op.name|, RestBytes(op, closed, w))
            && i + |OpeningBytes(op)| + |CloseBytes(closed, w)| == p + |op.name| + |RestBytes(op, closed, w)| <= |s|
  {
    hide Stands, AttrsBytes, CloseBytes;
    var r := RestBytes(op, closed, w);
    var d := i + |op.lines|;
    assert OpeningBytes(op) + CloseBytes(closed, w) == op.lines + ([60] + (op.w0 + (op.name + r)));
    StandsSplit(s, i, op.lines, [60] + (op.w0 + (op.name + r)));
    StandsSplit(s, d, [60], op.w0 + (op.name + r));
    StandsSplit(s, d + 1, op.w0, op.name + r);
    StandsSplit(s, d + 1 + |op.w0|, op.name, r);
    StandsAt(s, d, [60]);
  }

  /** The start of an element. */
  lemma OpeningRead(s: seq<byte>, i: nat, op: Opening, closed: bool, w: seq<byte>)
    requires OpeningRight(op) && Blanks(w) && Stands(s, i, OpeningBytes(op) + CloseBytes(closed, w))
    ensures var j := i + |OpeningBytes(op)| + |CloseBytes(closed, w)|;
            && j <= |s| && SkipDelims(s, i) < |s|
            && ReadItem(s, i) == Start(op.name, AttrsSaid(op.attrs), closed, j)
  {
    hide Stands, Blanks, Lines, NameRight, AttrsRight, CloseBytes, AttrsSaid, ReadTag, Skip, SkipDelims, OpeningBytes, RestBytes;
    var d := i + |op.lines|;
    var p := d + 1 + |op.w0|;
    OpeningPlaces(s, i, op, closed, w);
    LinesRead(s, i, op.lines);
    TagRead(s, p, op, closed, w);
    BlanksRead(s, d + 1, op.w0);
    assert TagStart(s, d + 1) == Label(p) && !IsEnd(s, d + 1);
  }

  /** What is behind the slash of an end. */
  function TailBytes(en: Ending, name: seq<byte>): seq<byte> {
    en.w1 + (name + (en.w2 + [62]))
  }

  lemma TailPlaces(s: seq<byte>, i: nat, en: Ending, name: seq<byte>)
    requires Stands(s, i, TailBytes(en, name))
    ensures var p := i + |en.w1|;
            var e := p + |name|;
            && Stands(s, i, en.w1) && Stands(s, p, name) && Stands(s, e, en.w2) && e + |en.w2| < |s| && s[e + |en.w2|] == 62
            && i + |TailBytes(en, name)| == e + |en.w2| + 1
  {
    hide Stands;
    var p := i + |en.w1|;
    StandsSplit(s, i, en.w1, name + (en.w2 + [62]));
    StandsSplit(s, p, name, en.w2 + [62]);
    StandsSplit(s, p + |name|, en.w2, [62]);
    StandsAt(s, p + |name| + |en.w2|, [62]);
  }

  lemma EndingPlaces(s: seq<byte>, i: nat, en: Ending, name: seq<byte>)
    requires Stands(s, i, EndingBytes(en, name))
    ensures var d := i + |en.lines|;
            var l := d + 1 + |en.w0|;
            && Stands(s, i, en.lines) && d < |s| && s[d] == 60 && Stands(s, d + 1, en.w0) && l < |s| && s[l] == 47
            && Stands(s, l + 1, TailBytes(en, name)) && i + |EndingBytes(en, name)| == l + 1 + |TailBytes(en, name)|
  {
    hide Stands, TailBytes;
    var x := TailBytes(en, name);
    var d := i + |en.lines|;
    var l := d + 1 + |en.w0|;
    EndingParts(en, name);
    StandsSplit(s, i, en.lines, [60] + (en.w0 + ([47] + x)));
    StandsSplit(s, d, [60], en.w0 + ([47] + x));
    StandsSplit(s, d + 1, en.w0, [47] + x);
    StandsSplit(s, l, [47], x);
    StandsAt(s, d, [60]);
    StandsAt(s, l, [47]);
  }

  lemma EndingParts(en: Ending, name: seq<byte>)
    ensures EndingBytes(en, name) == en.lines + ([60] + (en.w0 + ([47] + TailBytes(en, name))))
  {
  }

  lemma EndTagRead(s: seq<byte>, i: nat, en: Ending, name: seq<byte>)
    requires Blanks(en.w1) && Blanks(en.w2) && NameRight(name) && Stands(s, i, TailBytes(en, name))
    ensures var p := i + |en.w1|;
            var j := i + |TailBytes(en, name)|;
            p < j <= |s| && !IsWhite(s[p]) && Skip(s, i) == p && ReadTag(s, p, true) == End(name, j)
  {
    hide Stands, Blanks, NameRight, Skip, ReadName, TailBytes;
    var p := i + |en.w1|;
    var e := p + |name|;
    TailPlaces(s, i, en, name);
    StandsFirst(s, e, en.w2, 62);
    NameRead(s, p, name);
    BlanksRead(s, i, en.w1);
    BlanksRead(s, e, en.w2);
  }

  /** The end of an element. */
  lemma EndingRead(s: seq<byte>, i: nat, en: Ending, name: seq<byte>)
    requires EndingRight(en) && NameRight(name) && Stands(s, i, EndingBytes(en, name))
    ensures var j := i + |EndingBytes(en, name)|;
            j <= |s| && SkipDelims(s, i) == i + |en.lines| < |s| && s[i + |en.lines|] == 60 && ReadItem(s, i) == End(name, j)
  {
    hide Stands, Blanks, Lines, NameRight, Skip, SkipDelims, ReadTag, EndingBytes, TailBytes;
    var d := i + |en.lines|;
    var l := d + 1 + |en.w0|;
    EndingPlaces(s, i, en, name);
    EndTagRead(s, l + 1, en, name);
    LinesRead(s, i, en.lines);
    BlanksRead(s, d + 1, en.w0);
    assert TagStart(s, d + 1) == Label(l + 1 + |en.w1|) && IsEnd(s, d + 1);
  }

  /** Data goes on behind the line ends that it starts with. */
  lemma {:induction false} DataGoesOn(s: seq<byte>, i: nat, es: seq<Coded>)
    requires DataRight(es) && Stands(s, i, CodedBytes(es))
    ensures i <= |s| && SkipDelims(s, i) < |s| && s[SkipDelims(s, i)] != 60
    decreases |es|
  {
    hide Stands;
    var e, more := es[0], es[1..];
    assert CodedBytes(es) == e.bytes + CodedBytes(more);
    StandsSplit(s, i, e.bytes, CodedBytes(more));
    StandsAt(s, i, e.bytes);
    if e.bytes[0] == 10 || e.bytes[0] == 13 {
      var k :| 0 <= k < |es| && es[k].bytes[0] != 10 && es[k].bytes[0] != 13;
      assert more[k - 1] == es[k];
      DataGoesOn(s, i + 1, more);
    }
  }

  /** Character data. */
  lemma DataRead(s: seq<byte>, i: nat, es: seq<Coded>)
    requires DataRight(es) && Stands(s, i, CodedBytes(es)) && i + |CodedBytes(es)| < |s| && s[i + |CodedBytes(es)|] == 60
    ensures SkipDelims(s, i) < |s| && ReadItem(s, i) == Chars(CodedText(es), i + |CodedBytes(es)|)
  {
    hide Stands, SkipDelims, ReadStr, CodedRight, CodedBytes;
    DataGoesOn(s, i, es);
    StrRead(s, i, es, Bracket);
  }

  /** A start that follows data begins with its bracket. */
  lemma NextIsBracket(nodes: seq<WNode>)
    requires nodes != [] && !nodes[0].Data? && nodes[0].op.lines == []
    ensures NodesBytes(nodes) != [] && NodesBytes(nodes)[0] == 60
  {
    assert OpeningBytes(nodes[0].op)[0] == 60;
  }

  lemma NodesParts(nodes: seq<WNode>)
    ensures nodes == [] ==> NodesBytes(nodes) == [] && NodesSaid(nodes) == []
    ensures nodes != [] ==> NodesBytes(nodes) == NodeBytes(nodes[0]) + NodesBytes(nodes[1..])
                            && NodesSaid(nodes) == [NodeSaid(nodes[0])] + NodesSaid(nodes[1..])
  {
  }

  lemma RestRight(nodes: seq<WNode>, open: nat)
    requires nodes != [] && NodesRight(nodes, open)
    ensures NodeRight(nodes[0], open) && NodesRight(nodes[1..], open) && (|nodes| > 1 ==> Follows(nodes[0], nodes[1]))
    ensures EndsInData(nodes) <==> if |nodes| > 1 then EndsInData(nodes[1..]) else nodes[0].Data?
  {
    var more := nodes[1..];
    assert forall i :: 0 <= i < |more| ==> more[i] == nodes[i + 1];
    assert forall i :: 0 < i < |more| ==> Follows(nodes[i], nodes[i + 1]);
  }

  /** Nodes as they are written are parsed to what they say. */
  lemma {:induction false} NodesParsed(s: seq<byte>, i: nat, nodes: seq<WNode>, frames: seq<Frame>, cur: seq<Node>)
    requires NodesRight(nodes, |frames|) && Stands(s, i, NodesBytes(nodes))
    requires EndsInData(nodes) ==> i + |NodesBytes(nodes)| < |s| && s[i + |NodesBytes(nodes)|] == 60
    ensures i + |NodesBytes(nodes)| <= |s|
    ensures Parse(s, i, frames, cur) == Parse(s, i + |NodesBytes(nodes)|, frames, cur + NodesSaid(nodes))
    decreases nodes, 0
  {
    hide Parse, NodeRight, NodesRight, NodeBytes, NodesBytes, NodeSaid, NodesSaid, Stands, EndsInData, SkipDelims;
    NodesParts(nodes);
    StandsIn(s, i, NodesBytes(nodes));
    if nodes == [] {
      assert cur + [] == cur;
      return;
    }
    var x, more := NodeBytes(nodes[0]), nodes[1..];
    RestRight(nodes, |frames|);
    StandsSplit(s, i, x, NodesBytes(more));
    StandsAt(s, i + |x|, NodesBytes(more));
    if |nodes| > 1 && nodes[0].Data? {
      NextIsBracket(more);
    } else if |nodes| == 1 {
      NodesParts(more);
      NoneLast();
    }
    NodeParsed(s, i, nodes[0], frames, cur);
    NodesParsed(s, i + |x|, more, frames, cur + [NodeSaid(nodes[0])]);
    assert cur + [NodeSaid(nodes[0])] + NodesSaid(more) == cur + NodesSaid(nodes);
  }

  lemma NoneLast()
    ensures !EndsInData([])
  {
  }

  lemma {:induction false} NodeParsed(s: seq<byte>, i: nat, node: WNode, frames: seq<Frame>, cur: seq<Node>)
    requires NodeRight(node, |frames|) && Stands(s, i, NodeBytes(node))
    requires node.Data? ==> i + |NodeBytes(node)| < |s| && s[i + |NodeBytes(node)|] == 60
    ensures i + |NodeBytes(node)| <= |s|
    ensures Parse(s, i, frames, cur) == Parse(s, i + |NodeBytes(node)|, frames, cur + [NodeSaid(node)])
    decreases node, 0
  {
    hide Parse, NodesRight, NodesBytes, NodesSaid, OpeningBytes, OpeningRight, EndingBytes, EndingRight, DataRight, CodedBytes, CodedText,
         AttrsSaid, Blanks, Stands, EndsInData, SkipDelims, ReadItem;
    match node
    case Single(op, w) =>
      assert CloseBytes(true, w) == [47] + (w + [62]);
      OpeningRead(s, i, op, true, w);
      ParseStep(s, i, frames, cur, ReadItem(s, i));
    case Pair(op, kids, en) =>
      PairParsed(s, i, op, kids, en, frames, cur);
    case Data(es) =>
      DataRead(s, i, es);
      ParseStep(s, i, frames, cur, ReadItem(s, i));
  }

  /** An element with an end of its own. */
  lemma {:induction false} PairParsed(s: seq<byte>, i: nat, op: Opening, kids: seq<WNode>, en: Ending, frames: seq<Frame>, cur: seq<Node>)
    requires |frames| < 16 && OpeningRight(op) && NodesRight(kids, |frames| + 1) && EndingRight(en) && (EndsInData(kids) ==> en.lines == [])
    requires Stands(s, i, OpeningBytes(op) + ([62] + (NodesBytes(kids) + EndingBytes(en, op.name))))
    ensures var j := i + |OpeningBytes(op)| + 1 + |NodesBytes(kids)| + |EndingBytes(en, op.name)|;
            j <= |s| && Parse(s, i, frames, cur) == Parse(s, j, frames, cur + [Elem(op.name, AttrsSaid(op.attrs), NodesSaid(kids))])
    decreases kids, 1
  {
    hide Parse, NodesRight, NodesBytes, NodesSaid, OpeningBytes, EndingBytes, EndingRight, AttrsSaid, Stands, EndsInData, SkipDelims,
         ReadItem, NameRight, AttrsRight, Lines;
    var a, x, b := OpeningBytes(op), NodesBytes(kids), EndingBytes(en, op.name);
    var f := frames + [Frame(op.name, AttrsSaid(op.attrs), cur)];
    var k := i + |a| + 1;
    assert a + ([62] + (x + b)) == a + [62] + (x + b);
    assert CloseBytes(false, []) == [62];
    StandsSplit(s, i, a + [62], x + b);
    StandsSplit(s, k, x, b);
    OpeningRead(s, i, op, false, []);
    ParseStep(s, i, frames, cur, ReadItem(s, i));
    EndingRead(s, k + |x|, en, op.name);
    NodesParsed(s, k, kids, f, []);
    assert [] + NodesSaid(kids) == NodesSaid(kids);
    ParseStep(s, k + |x|, f, NodesSaid(kids), ReadItem(s, k + |x|));
    assert f[..|f| - 1] == frames;
  }

  lemma NothingLeft(s: seq<byte>, i: nat, cur: seq<Node>)
    requires i <= |s| && SkipDelims(s, i) == |s| && cur != []
    ensures Parse(s, i, [], cur) == Tree(cur)
  {
  }

  /** A document is read as the tree it says. */
  lemma DocumentRead(d: Document)
    requires DocumentRight(d)
    ensures Parse(DocumentBytes(d), 0, [], []) == Tree(NodesSaid(d.nodes))
  {
    hide Parse, Stands, NodesRight, NodesBytes, NodesSaid, EndsInData, SkipDelims, Lines;
    var s := DocumentBytes(d);
    StandsWhole(s);
    StandsSplit(s, 0, NodesBytes(d.nodes), d.tail);
    NodesParsed(s, 0, d.nodes, [], []);
    assert [] + NodesSaid(d.nodes) == NodesSaid(d.nodes);
    LinesRead(s, |NodesBytes(d.nodes)|, d.tail);
    NothingLeft(s, |NodesBytes(d.nodes)|, NodesSaid(d.nodes));
  }
}

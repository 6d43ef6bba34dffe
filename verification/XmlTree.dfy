/** Trees of tagged elements (xml.c), and their text form. */
module XmlTree {
  import opened Bytes
  import opened XmlTags

  const MAXDEPTH := 16

  // --- classes of characters --------------------------------------------------------------------------------------------

  const LT: byte := 60
  const GT: byte := 62
  const AMP: byte := 38
  const QUOT: byte := 34
  const APOS: byte := 39
  const SLASH: byte := 47
  const EQUALS: byte := 61
  const HASH: byte := 35
  const SEMI: byte := 59

  /** Line ends. */
  predicate IsDelim(c: byte) {
    c == 10 || c == 13
  }

  /** Line ends, tabs and blanks. */
  predicate IsWhite(c: byte) {
    IsDelim(c) || c == 9 || c == BLANK
  }

  predicate IsBracket(c: byte) {
    c == LT || c == GT
  }

  // --- trees ------------------------------------------------------------------------------------------------------------

  datatype Attr = Attr(tag: seq<byte>, value: seq<byte>)

  /** An element with its attributes and the elements within it, or character data. */
  datatype Node =
    | Elem(tag: seq<byte>, attrs: seq<Attr>, kids: seq<Node>)
    | Text(data: seq<byte>)

  /** Tags are names, and values, which end with a zero, do not hold one. */
  ghost predicate AttrOk(a: Attr) {
    IsName(a.tag) && 0 !in a.value
  }

  ghost predicate AttrsOk(attrs: seq<Attr>) {
    forall i :: 0 <= i < |attrs| ==> AttrOk(attrs[i])
  }

  /** Character data is not empty, and not next to other character data. */
  ghost predicate NodesOk(nodes: seq<Node>) {
    nodes == []
    || (&& (match nodes[0]
            case Elem(tag, attrs, kids) => IsName(tag) && AttrsOk(attrs) && NodesOk(kids)
            case Text(data) => data != [] && (|nodes| > 1 ==> nodes[1].Elem?))
        && NodesOk(nodes[1..]))
  }

  /** How deep elements with others within them are nested. */
  function Depth(nodes: seq<Node>): nat {
    if nodes == [] then 0
    else
      var d := if nodes[0].Elem? && nodes[0].kids != [] then 1 + Depth(nodes[0].kids) else 0;
      var e := Depth(nodes[1..]);
      if d > e then d else e
  }

  // --- their text form ----------------------------------------------------------------------------------------------------

  function Decimal(n: nat): (s: seq<byte>) {
    if n < 10 then [48 + n] else Decimal(n / 10) + [48 + n % 10]
  }

  /** A character as it is written: marks by name, control and high characters by number. */
  function EscapeChar(c: byte): (e: seq<byte>) {
    if c == LT then [AMP, 108, 116, SEMI]
    else if c == GT then [AMP, 103, 116, SEMI]
    else if c == AMP then [AMP, 97, 109, 112, SEMI]
    else if c == QUOT then [AMP, 113, 117, 111, 116, SEMI]
    else if c == APOS then [AMP, 97, 112, 111, 115, SEMI]
    else if c < 0x20 || c >= 0x7F then [AMP, HASH] + Decimal(c) + [SEMI]
    else [c]
  }

  function Escape(s: seq<byte>): seq<byte> {
    if s == [] then [] else Escape(s[..|s| - 1]) + EscapeChar(s[|s| - 1])
  }

  function PrintAttr(a: Attr): seq<byte> {
    [BLANK] + a.tag + [EQUALS, QUOT] + Escape(a.value) + [QUOT]
  }

  function PrintAttrs(attrs: seq<Attr>): seq<byte> {
    if attrs == [] then [] else PrintAttrs(attrs[..|attrs| - 1]) + PrintAttr(attrs[|attrs| - 1])
  }

  function PrintStart(tag: seq<byte>, attrs: seq<Attr>, closed: bool): seq<byte> {
    [LT] + tag + PrintAttrs(attrs) + if closed then [SLASH, GT] else [GT]
  }

  function PrintEnd(tag: seq<byte>): seq<byte> {
    [LT, SLASH] + tag + [GT]
  }

  function PrintNode(node: Node): seq<byte> {
    match node
    case Elem(tag, attrs, kids) =>
      if kids == [] then PrintStart(tag, attrs, true) else PrintStart(tag, attrs, false) + Print(kids) + PrintEnd(tag)
    case Text(data) => Escape(data)
  }

  function Print(nodes: seq<Node>): seq<byte> {
    if nodes == [] then [] else PrintNode(nodes[0]) + Print(nodes[1..])
  }

  lemma EscapeMore(s: seq<byte>, n: nat)
    requires n < |s|
    ensures Escape(s[..n + 1]) == Escape(s[..n]) + EscapeChar(s[n])
  {
    assert s[..n + 1][..n] == s[..n];
  }

  lemma AttrsMore(attrs: seq<Attr>, n: nat)
    requires n < |attrs|
    ensures PrintAttrs(attrs[..n + 1]) == PrintAttrs(attrs[..n]) + PrintAttr(attrs[n])
  {
    assert attrs[..n + 1][..n] == attrs[..n];
  }
}

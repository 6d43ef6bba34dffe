/** How a tree is written by xmlflatten, and what it takes in the buffer of xmlparse (xml.c), byte for byte. */
module XmlPrinted {
  import opened Bytes
  import opened XmlTags
  import opened XmlTree
  import opened XmlBack
  import opened XmlStore
  import opened XmlWritten

  // --- what is written ----------------------------------------------------------------------------------------------------------------

  lemma PrintNext(x: Node, more: seq<Node>)
    ensures Print([x] + more) == PrintNode(x) + Print(more) && Print([]) == []
  {
    assert ([x] + more)[1..] == more;
  }

  /** HOW A TREE IS WRITTEN by xmlflatten: each value in quotation marks, one blank before each attribute, and a slash in an element without
      others in it. */
  lemma PrintMeans(tag: seq<byte>, attrs: seq<Attr>, kids: seq<Node>, data: seq<byte>, more: seq<Node>)
    ensures Print([]) == []
    ensures Print([Elem(tag, attrs, kids)] + more) ==
      [60] + tag + PrintAttrs(attrs) + (if kids == [] then [47, 62] else [62] + Print(kids) + ([60, 47] + tag + [62])) + Print(more)
    ensures Print([Text(data)] + more) == Escape(data) + Print(more)
  {
    hide Print, PrintAttrs, Escape;
    PrintNext(Elem(tag, attrs, kids), more);
    PrintNext(Text(data), more);
    if kids != [] {
      Four([60] + tag + PrintAttrs(attrs), [62], Print(kids), PrintEnd(tag));
    }
  }

  lemma Four(a: seq<byte>, b: seq<byte>, c: seq<byte>, d: seq<byte>)
    ensures a + b + c + d == a + (b + c + d)
  {
  }

  lemma PrintAttrsMean(a: Attr, attrs: seq<Attr>)
    ensures PrintAttrs([]) == []
    ensures PrintAttrs([a] + attrs) == [32] + a.tag + [61, 34] + Escape(a.value) + [34] + PrintAttrs(attrs)
  {
    AttrsCons([a] + attrs);
    assert ([a] + attrs)[1..] == attrs;
  }

  /** HOW A CHARACTER IS WRITTEN: five by name, control characters and those from 127 on by their decimal number, and all others as
      they are. */
  lemma EscapeMeans(c: byte, s: seq<byte>)
    ensures Escape([]) == [] && Escape([c] + s) == EscapeChar(c) + Escape(s)
    ensures c == 60 ==> EscapeChar(c) == [38, 108, 116, 59]
    ensures c == 62 ==> EscapeChar(c) == [38, 103, 116, 59]
    ensures c == 38 ==> EscapeChar(c) == [38, 97, 109, 112, 59]
    ensures c == 34 ==> EscapeChar(c) == [38, 113, 117, 111, 116, 59]
    ensures c == 39 ==> EscapeChar(c) == [38, 97, 112, 111, 115, 59]
    ensures c < 32 || c >= 127 ==> EscapeChar(c) == [38, 35] + Decimal(c) + [59] && Digits(Decimal(c)) && Number(Decimal(c), 10) == c
    ensures 32 <= c < 127 && c !in [34, 38, 39, 60, 62] ==> EscapeChar(c) == [c]
  {
    hide Decimal, Number, Digits, Escape;
    assert ([c] + s)[1..] == s;
    EscapeCons([c] + s);
    EscapeNone();
    DecimalMeans(c);
  }

  lemma {:induction false} DecimalMeans(n: nat)
    ensures Digits(Decimal(n)) && Number(Decimal(n), 10) == n
    decreases n
  {
    hide Number;
    if n < 10 {
      NumberNone();
      NumberNext([], 48 + n, 10);
      assert [] + [48 + n] == [48 + n];
    } else {
      DecimalMeans(n / 10);
      NumberNext(Decimal(n / 10), 48 + n % 10, 10);
    }
  }

  lemma NumberNone()
    ensures Number([], 10) == 0
  {
  }

  lemma NumberNext(d: seq<byte>, x: byte, base: nat)
    requires Digits(d) && 48 <= x <= 57
    ensures Digits(d + [x]) && Number(d + [x], base) == Number(d, base) * base + (x as int - 48)
  {
    assert (d + [x])[..|d|] == d;
  }

  // --- what it takes ------------------------------------------------------------------------------------------------------------------

  function AttrsTake(attrs: seq<Attr>): nat {
    if attrs == [] then 0 else AttrsTake(attrs[..|attrs| - 1]) + 32 + |attrs[|attrs| - 1].value| + 1
  }

  /** Forty bytes for an element or character data, thirty-two for an attribute, and each string with its zero. */
  function Takes(nodes: seq<Node>): nat {
    if nodes == [] then 0
    else
      (match nodes[0]
       case Elem(_, attrs, kids) => 40 + AttrsTake(attrs) + Takes(kids)
       case Text(data) => 40 + |data| + 1)
      + Takes(nodes[1..])
  }

  lemma {:induction false} RoomBoth(a: seq<Claim>, b: seq<Claim>)
    ensures Room(a + b) == Room(a) + Room(b)
    decreases |b|
  {
    if b == [] {
      assert a + b == a;
    } else {
      var n := |b| - 1;
      assert (a + b)[..|a + b| - 1] == a + b[..n];
      RoomBoth(a, b[..n]);
    }
  }

  lemma RoomOne(c: Claim)
    ensures Room([c]) == if c.Space? then c.n else 0
  {
    assert [c][..0] == [];
  }

  lemma RoomTwo(c: Claim, d: Claim)
    ensures Room([c, d]) == Room([c]) + Room([d])
  {
    RoomBoth([c], [d]);
    assert [c] + [d] == [c, d];
  }

  lemma RoomThree(c: Claim, d: Claim, e: Claim)
    ensures Room([c, d, e]) == Room([c]) + Room([d]) + Room([e])
  {
    RoomTwo(c, d);
    RoomBoth([c, d], [e]);
    assert [c, d] + [e] == [c, d, e];
  }

  lemma {:induction false} AttrsRoom(attrs: seq<Attr>)
    ensures Room(AttrsClaims(attrs)) == AttrsTake(attrs)
    decreases |attrs|
  {
    if attrs != [] {
      var n := |attrs| - 1;
      AttrsRoom(attrs[..n]);
      RoomBoth(AttrsClaims(attrs[..n]), AttrClaims(attrs[n]));
      RoomThree(Intern(attrs[n].tag), Space(ATTRIBUTE), Space(|attrs[n].value| + 1));
      RoomOne(Intern(attrs[n].tag));
      RoomOne(Space(ATTRIBUTE));
      RoomOne(Space(|attrs[n].value| + 1));
    }
  }

  /** THE BYTES THAT A TREE TAKES in the buffer of xmlparse. */
  lemma {:induction false} RoomMeans(nodes: seq<Node>)
    ensures Room(Claims(nodes)) == Takes(nodes)
    decreases nodes
  {
    if nodes != [] {
      RoomBoth(NodeClaims(nodes[0]), Claims(nodes[1..]));
      RoomMeans(nodes[1..]);
      match nodes[0]
      case Elem(tag, attrs, kids) =>
        RoomBoth(StartClaims(tag, attrs), Claims(kids));
        RoomBoth([Intern(tag), Space(ELEMENT)], AttrsClaims(attrs));
        RoomTwo(Intern(tag), Space(ELEMENT));
        RoomOne(Intern(tag));
        RoomOne(Space(ELEMENT));
        AttrsRoom(attrs);
        RoomMeans(kids);
      case Text(data) =>
        RoomTwo(Space(ELEMENT), Space(|data| + 1));
        RoomOne(Space(ELEMENT));
        RoomOne(Space(|data| + 1));
    }
  }

  /** Which names can be entered: those of one letter, those that are in the table, and new ones while there are fewer than 376 and all of
      them, each with its zero, take fewer than 2000 bytes. */
  lemma NamesMean(names: seq<seq<byte>>, tag: seq<byte>)
    ensures Learns(names, tag) <==> |tag| == 1 || tag in names || (|names| <= 375 && TextLen(names + [tag]) <= 1999)
    ensures TextLen([]) == 0 && TextLen(names + [tag]) == TextLen(names) + |tag| + 1
    ensures Learnt(names, tag) == if |tag| == 1 || tag in names then names else names + [tag]
  {
    assert (names + [tag])[..|names|] == names;
  }
}

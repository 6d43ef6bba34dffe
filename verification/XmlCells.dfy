/** The records that a tree is kept in (xml.c, xmlparse): elements, linked to the first within and to the next behind, from the end
    of the buffer, and their strings from its start. While a text is read, the link to what comes next is not set. */
module XmlCells {
  import opened Bytes
  import opened XmlTags
  import opened XmlTree
  import opened XmlGrammar
  import opened Lists

  const UNSET := -2
  const FIRST := 40                     // strings start behind the first record

  datatype AttrCell = AttrCell(tag: seq<byte>, value: nat)

  /** A record of an element, or of character data at a place in the buffer; links are numbers of records. */
  datatype Cell =
    | ElemCell(tag: seq<byte>, attrs: seq<AttrCell>, sub: int, next: int)
    | TextCell(at: nat, len: nat, next: int)

  // --- what a finished tree looks like --------------------------------------------------------------------------------------

  function AttrStrings(attrs: seq<Attr>): seq<byte> {
    if attrs == [] then [] else AttrStrings(attrs[..|attrs| - 1]) + attrs[|attrs| - 1].value + [0]
  }

  function NodeStrings(node: Node): seq<byte> {
    match node
    case Elem(tag, attrs, kids) => AttrStrings(attrs) + Strings(kids)
    case Text(data) => data + [0]
  }

  function Strings(nodes: seq<Node>): seq<byte> {
    if nodes == [] then [] else NodeStrings(nodes[0]) + Strings(nodes[1..])
  }

  function NodeCount(node: Node): nat {
    match node
    case Elem(tag, attrs, kids) => 1 + Count(kids)
    case Text(data) => 1
  }

  function Count(nodes: seq<Node>): nat {
    if nodes == [] then 0 else NodeCount(nodes[0]) + Count(nodes[1..])
  }

  function LayAttrs(attrs: seq<Attr>, off: nat): seq<AttrCell> {
    if attrs == [] then []
    else
      var n := |attrs| - 1;
      LayAttrs(attrs[..n], off) + [AttrCell(attrs[n].tag, off + |AttrStrings(attrs[..n])|)]
  }

  /** The records of a node whose own is number base and whose strings start at off. */
  function LayNode(node: Node, base: nat, off: nat, next: int): (cells: seq<Cell>)
    ensures |cells| == NodeCount(node)
  {
    match node
    case Elem(tag, attrs, kids) =>
      [ElemCell(tag, LayAttrs(attrs, off), if kids == [] then NIL else base + 1, next)]
      + Lay(kids, base + 1, off + |AttrStrings(attrs)|, NIL)
    case Text(data) => [TextCell(off, |data|, next)]
  }

  /** The records of nodes, one behind the other; `after` is the link of the last. */
  function Lay(nodes: seq<Node>, base: nat, off: nat, after: int): (cells: seq<Cell>)
    ensures |cells| == Count(nodes)
  {
    if nodes == [] then []
    else
      var b := base + NodeCount(nodes[0]);
      LayNode(nodes[0], base, off, if |nodes| == 1 then after else b)
      + Lay(nodes[1..], b, off + |NodeStrings(nodes[0])|, after)
  }

  lemma {:induction false} More(nodes: seq<Node>, x: Node)
    ensures Count(nodes + [x]) == Count(nodes) + NodeCount(x) && Strings(nodes + [x]) == Strings(nodes) + NodeStrings(x)
    decreases |nodes|
  {
    if nodes == [] {
      assert nodes + [x] == [x];
    } else {
      assert (nodes + [x])[1..] == nodes[1..] + [x];
      More(nodes[1..], x);
    }
  }

  lemma LayParts(nodes: seq<Node>, base: nat, off: nat, after: int)
    ensures nodes == [] ==> Lay(nodes, base, off, after) == [] && Count(nodes) == 0 && Strings(nodes) == []
    ensures nodes != [] ==>
              var b := base + NodeCount(nodes[0]);
              && Lay(nodes, base, off, after)
                 == LayNode(nodes[0], base, off, if |nodes| == 1 then after else b) + Lay(nodes[1..], b, off + |NodeStrings(nodes[0])|, after)
              && Count(nodes) == NodeCount(nodes[0]) + Count(nodes[1..])
              && Strings(nodes) == NodeStrings(nodes[0]) + Strings(nodes[1..])
  {
  }

  /** One more node behind the others. */
  lemma {:induction false} LayMore(nodes: seq<Node>, x: Node, base: nat, off: nat, after: int)
    ensures Lay(nodes + [x], base, off, after)
            == Lay(nodes, base, off, base + Count(nodes)) + LayNode(x, base + Count(nodes), off + |Strings(nodes)|, after)
    decreases |nodes|
  {
    hide Lay, LayNode, Count, Strings, NodeCount, NodeStrings;
    var all := nodes + [x];
    LayParts(nodes, base, off, base + Count(nodes));
    LayParts(all, base, off, after);
    if nodes == [] {
      assert all == [x] && all[1..] == [];
      LayParts([], base + NodeCount(x), off + |NodeStrings(x)|, after);
    } else {
      assert all[1..] == nodes[1..] + [x] && all[0] == nodes[0];
      var b, o := base + NodeCount(nodes[0]), off + |NodeStrings(nodes[0])|;
      LayMore(nodes[1..], x, b, o, after);
      if |nodes| == 1 {
        LayParts(nodes[1..], b, o, base + Count(nodes));
      }
    }
  }

  // --- links ------------------------------------------------------------------------------------------------------------------

  /** The number of the record of the last node. */
  function LastAt(nodes: seq<Node>, base: nat): nat
    requires nodes != []
  {
    base + Count(nodes[..|nodes| - 1])
  }

  lemma NodeHead(x: Node, base: nat, off: nat, next: int, v: int)
    ensures LayNode(x, base, off, next) != []
    ensures LayNode(x, base, off, next)[0 := LayNode(x, base, off, next)[0].(next := v)] == LayNode(x, base, off, v)
  {
  }

  /** The link of the last node is set. */
  lemma LayLinked(nodes: seq<Node>, base: nat, off: nat, after: int, v: int)
    requires nodes != []
    ensures var k := LastAt(nodes, base) - base; var cells := Lay(nodes, base, off, after);
            k < |cells| && cells[k := cells[k].(next := v)] == Lay(nodes, base, off, v)
  {
    hide Lay, LayNode, Strings;
    var n := |nodes| - 1;
    assert nodes == nodes[..n] + [nodes[n]];
    LayMore(nodes[..n], nodes[n], base, off, after);
    LayMore(nodes[..n], nodes[n], base, off, v);
    NodeHead(nodes[n], base + Count(nodes[..n]), off + |Strings(nodes[..n])|, after, v);
    UpdateRight(Lay(nodes[..n], base, off, base + Count(nodes[..n])),
                LayNode(nodes[n], base + Count(nodes[..n]), off + |Strings(nodes[..n])|, after), 0, v);
  }

  lemma UpdateRight(a: seq<Cell>, b: seq<Cell>, k: nat, v: int)
    requires k < |b|
    ensures (a + b)[|a| + k := (a + b)[|a| + k].(next := v)] == a + b[k := b[k].(next := v)]
  {
  }

  /** The same with other records before. */
  lemma LayLinkedBehind(front: seq<Cell>, nodes: seq<Node>, base: nat, off: nat, after: int, v: int)
    requires nodes != [] && |front| == base
    ensures var k := LastAt(nodes, base); var cells := front + Lay(nodes, base, off, after);
            k < |cells| && cells[k := cells[k].(next := v)] == front + Lay(nodes, base, off, v)
  {
    hide Lay, Count;
    LayLinked(nodes, base, off, after, v);
    UpdateRight(front, Lay(nodes, base, off, after), LastAt(nodes, base) - base, v);
  }

  // --- while a text is read -----------------------------------------------------------------------------------------------

  /** The number of the first record within the innermost open element. */
  function Base(frames: seq<Frame>): nat {
    if frames == [] then 0 else Base(frames[..|frames| - 1]) + Count(frames[|frames| - 1].before) + 1
  }

  function OpenStrings(frames: seq<Frame>): seq<byte> {
    if frames == [] then []
    else
      var f := frames[|frames| - 1];
      OpenStrings(frames[..|frames| - 1]) + Strings(f.before) + AttrStrings(f.attrs)
  }

  function Off(frames: seq<Frame>): nat {
    FIRST + |OpenStrings(frames)|
  }

  /** The record of the innermost open element, whose link to the first within it is set or not. */
  function OpenCell(frames: seq<Frame>, filled: bool): Cell
    requires frames != []
  {
    var n := |frames| - 1;
    ElemCell(frames[n].tag, LayAttrs(frames[n].attrs, Off(frames[..n]) + |Strings(frames[n].before)|),
             if filled then Base(frames) else UNSET, UNSET)
  }

  /** The records before those within the innermost open element. */
  function Front(frames: seq<Frame>, filled: bool): (cells: seq<Cell>)
    ensures |cells| == Base(frames)
  {
    if frames == [] then []
    else
      var n := |frames| - 1;
      Front(frames[..n], true) + Lay(frames[n].before, Base(frames[..n]), Off(frames[..n]), Base(frames) - 1) + [OpenCell(frames, filled)]
  }

  /** The records and the strings of what has been read. */
  ghost predicate Placed(cells: seq<Cell>, strings: seq<byte>, frames: seq<Frame>, cur: seq<Node>) {
    && cells == Front(frames, cur != []) + Lay(cur, Base(frames), Off(frames), UNSET)
    && strings == OpenStrings(frames) + Strings(cur)
  }

  /** One more open element. */
  lemma FrontParts(frames: seq<Frame>, f: Frame, filled: bool)
    ensures var g := frames + [f]; var at := Base(frames) + Count(f.before);
            && Base(g) == at + 1
            && OpenStrings(g) == OpenStrings(frames) + Strings(f.before) + AttrStrings(f.attrs)
            && OpenCell(g, filled) == ElemCell(f.tag, LayAttrs(f.attrs, Off(frames) + |Strings(f.before)|), if filled then at + 1 else UNSET, UNSET)
            && Front(g, filled) == Front(frames, true) + Lay(f.before, Base(frames), Off(frames), at) + [OpenCell(g, filled)]
  {
    assert (frames + [f])[..|frames|] == frames;
  }

  /** Where the link to the next record is to be put. */
  datatype Slot = Nowhere | Sub(i: nat) | Next(i: nat)

  function SlotOf(frames: seq<Frame>, cur: seq<Node>): Slot {
    if cur != [] then Next(LastAt(cur, Base(frames)))
    else if frames != [] then Sub(Base(frames) - 1)
    else Nowhere
  }

  predicate SlotIn(cells: seq<Cell>, slot: Slot) {
    match slot
    case Nowhere => true
    case Sub(i) => i < |cells| && cells[i].ElemCell?
    case Next(i) => i < |cells|
  }

  function Linked(cells: seq<Cell>, slot: Slot, v: int): seq<Cell>
    requires SlotIn(cells, slot)
  {
    match slot
    case Nowhere => cells
    case Sub(i) => cells[i := cells[i].(sub := v)]
    case Next(i) => cells[i := cells[i].(next := v)]
  }

  /** The records with the link set to the next one. */
  lemma LinkedOn(cells: seq<Cell>, strings: seq<byte>, frames: seq<Frame>, cur: seq<Node>)
    requires Placed(cells, strings, frames, cur)
    ensures |cells| == Base(frames) + Count(cur) && SlotIn(cells, SlotOf(frames, cur))
    ensures Linked(cells, SlotOf(frames, cur), |cells|)
            == Front(frames, true) + Lay(cur, Base(frames), Off(frames), Base(frames) + Count(cur))
  {
    hide Lay, LayAttrs, Strings, Count, Front, OpenStrings, Base, OpenCell, LastAt;
    var b, o := Base(frames), Off(frames);
    LayParts(cur, b, o, UNSET);
    LayParts(cur, b, o, b + Count(cur));
    if cur != [] {
      LayLinkedBehind(Front(frames, true), cur, b, o, UNSET, b + Count(cur));
    } else if frames != [] {
      var n := |frames| - 1;
      assert frames == frames[..n] + [frames[n]];
      FrontParts(frames[..n], frames[n], false);
      FrontParts(frames[..n], frames[n], true);
    } else {
      FrontNone(true);
    }
  }

  lemma FrontNone(filled: bool)
    ensures Front([], filled) == [] && Base([]) == 0 && OpenStrings([]) == []
  {
  }

  /** The record of the innermost open element has its tag. */
  lemma OpenRecord(cells: seq<Cell>, strings: seq<byte>, frames: seq<Frame>, cur: seq<Node>)
    requires Placed(cells, strings, frames, cur) && frames != []
    ensures 0 < Base(frames) <= |cells|
    ensures cells[Base(frames) - 1].ElemCell? && cells[Base(frames) - 1].tag == frames[|frames| - 1].tag
  {
    hide Lay, Count, Strings, LayAttrs, Front, OpenCell, Base, OpenStrings;
    var n := |frames| - 1;
    assert frames == frames[..n] + [frames[n]];
    FrontParts(frames[..n], frames[n], cur != []);
    var front := Front(frames, cur != []);
    assert cells[|front| - 1] == front[|front| - 1];
  }

  /** A leaf is added. */
  lemma LeafAdded(cells: seq<Cell>, strings: seq<byte>, frames: seq<Frame>, cur: seq<Node>, data: seq<byte>)
    requires Placed(cells, strings, frames, cur)
    ensures SlotIn(cells, SlotOf(frames, cur))
    ensures Placed(Linked(cells, SlotOf(frames, cur), |cells|) + [TextCell(FIRST + |strings|, |data|, UNSET)], strings + data + [0],
                   frames, cur + [Text(data)])
    ensures SlotOf(frames, cur + [Text(data)]) == Next(|cells|)
  {
    hide Lay, Front, LayAttrs, Strings, Count;
    LinkedOn(cells, strings, frames, cur);
    LayMore(cur, Text(data), Base(frames), Off(frames), UNSET);
    More(cur, Text(data));
    assert (cur + [Text(data)])[..|cur|] == cur;
    assert NodeStrings(Text(data)) == data + [0];
    assert strings + data + [0] == OpenStrings(frames) + (Strings(cur) + (data + [0]));
  }

  /** An element is opened. */
  lemma ElementOpened(cells: seq<Cell>, strings: seq<byte>, frames: seq<Frame>, cur: seq<Node>, tag: seq<byte>)
    requires Placed(cells, strings, frames, cur)
    ensures SlotIn(cells, SlotOf(frames, cur))
    ensures Placed(Linked(cells, SlotOf(frames, cur), |cells|) + [ElemCell(tag, [], UNSET, UNSET)], strings,
                   frames + [Frame(tag, [], cur)], [])
    ensures Base(frames + [Frame(tag, [], cur)]) == |cells| + 1
  {
    hide Lay, Strings, Count;
    LinkedOn(cells, strings, frames, cur);
    var f := frames + [Frame(tag, [], cur)];
    assert f[..|f| - 1] == frames;
    LayParts([], Base(f), Off(f), UNSET);
    assert AttrStrings([]) == [];
    assert OpenStrings(f) == strings;
  }

  /** An attribute is added to the innermost open element. */
  lemma AttrAdded(cells: seq<Cell>, strings: seq<byte>, frames: seq<Frame>, tag: seq<byte>, attrs: seq<Attr>, before: seq<Node>, a: Attr)
    requires Placed(cells, strings, frames + [Frame(tag, attrs, before)], [])
    ensures cells != [] && cells[|cells| - 1].ElemCell?
    ensures var c := cells[|cells| - 1];
            Placed(cells[|cells| - 1 := c.(attrs := c.attrs + [AttrCell(a.tag, FIRST + |strings|)])], strings + a.value + [0],
                   frames + [Frame(tag, attrs + [a], before)], [])
  {
    hide Lay, Strings, Count, Front, OpenStrings, Base, OpenCell;
    var f, g := frames + [Frame(tag, attrs, before)], frames + [Frame(tag, attrs + [a], before)];
    FrontParts(frames, Frame(tag, attrs, before), false);
    FrontParts(frames, Frame(tag, attrs + [a], before), false);
    LayParts([], Base(f), Off(f), UNSET);
    LayParts([], Base(g), Off(g), UNSET);
    assert (attrs + [a])[..|attrs|] == attrs;
    assert AttrStrings(attrs + [a]) == AttrStrings(attrs) + a.value + [0];
    assert OpenStrings(g) == OpenStrings(f) + a.value + [0];
    var rest := Front(frames, true) + Lay(before, Base(frames), Off(frames), Base(frames) + Count(before));
    assert cells == rest + [OpenCell(f, false)];
    assert cells[|cells| - 1 := OpenCell(g, false)] == rest + [OpenCell(g, false)];
  }

  /** An element is closed: the last link within it ends there. */
  lemma ElementClosed(cells: seq<Cell>, strings: seq<byte>, frames: seq<Frame>, f: Frame, cur: seq<Node>)
    requires Placed(cells, strings, frames + [f], cur)
    ensures SlotIn(cells, SlotOf(frames + [f], cur))
    ensures Placed(Linked(cells, SlotOf(frames + [f], cur), NIL), strings, frames, f.before + [Elem(f.tag, f.attrs, cur)])
    ensures SlotOf(frames, f.before + [Elem(f.tag, f.attrs, cur)]) == Next(Base(frames + [f]) - 1)
  {
    hide Lay, LayNode, LayAttrs, Strings, Count, Front, OpenStrings, Base, AttrStrings;
    var g := frames + [f];
    var x := Elem(f.tag, f.attrs, cur);
    FrontParts(frames, f, false);
    LayMore(f.before, x, Base(frames), Off(frames), UNSET);
    More(f.before, x);
    assert (f.before + [x])[..|f.before|] == f.before;
    LayParts(cur, Base(g), Off(g), UNSET);
    ClosedCells(cells, frames, f, cur);
    Regroup(Front(frames, true), Lay(f.before, Base(frames), Off(frames), Base(g) - 1),
            LayNode(x, Base(g) - 1, Off(frames) + |Strings(f.before)|, UNSET));
    assert OpenStrings(g) + Strings(cur) == OpenStrings(frames) + (Strings(f.before) + (AttrStrings(f.attrs) + Strings(cur)));
  }

  lemma ClosedCells(cells: seq<Cell>, frames: seq<Frame>, f: Frame, cur: seq<Node>)
    requires cells == Front(frames + [f], cur != []) + Lay(cur, Base(frames + [f]), Off(frames + [f]), UNSET)
    ensures SlotIn(cells, SlotOf(frames + [f], cur))
    ensures Linked(cells, SlotOf(frames + [f], cur), NIL)
            == Front(frames, true) + Lay(f.before, Base(frames), Off(frames), Base(frames + [f]) - 1)
               + LayNode(Elem(f.tag, f.attrs, cur), Base(frames + [f]) - 1, Off(frames) + |Strings(f.before)|, UNSET)
  {
    hide Lay, LayAttrs, Strings, Count, Front, OpenStrings, Base, AttrStrings, OpenCell, LastAt;
    var g := frames + [f];
    var front := Front(frames, true) + Lay(f.before, Base(frames), Off(frames), Base(g) - 1);
    FrontParts(frames, f, false);
    FrontParts(frames, f, true);
    LayParts(cur, Base(g), Off(g), UNSET);
    LayParts(cur, Base(g), Off(g), NIL);
    var d := ElemCell(f.tag, LayAttrs(f.attrs, Off(frames) + |Strings(f.before)|), if cur == [] then NIL else Base(g), UNSET);
    assert LayNode(Elem(f.tag, f.attrs, cur), Base(g) - 1, Off(frames) + |Strings(f.before)|, UNSET)
        == [d] + Lay(cur, Base(g), Off(g), NIL);
    Regroup(front, [d], Lay(cur, Base(g), Off(g), NIL));
    if cur != [] {
      LayLinkedBehind(Front(g, true), cur, Base(g), Off(g), UNSET, NIL);
    } else {
      LastSub(cells, front, OpenCell(g, false), NIL);
      assert front + [d] == front + [d] + Lay(cur, Base(g), Off(g), NIL);
    }
  }

  lemma LastSub(cells: seq<Cell>, front: seq<Cell>, c: Cell, v: int)
    requires c.ElemCell? && (cells == front + [c] || cells == front + [c] + [])
    ensures |cells| == |front| + 1 && cells[|front|] == c && cells[|front| := c.(sub := v)] == front + [c.(sub := v)]
  {
  }

  // --- following the links ----------------------------------------------------------------------------------------------------

  /** A string at a place in the buffer, with a zero behind it. */
  predicate StringAt(buf: seq<byte>, at: nat, v: seq<byte>) {
    at + |v| < |buf| && buf[at..at + |v|] == v && buf[at + |v|] == 0
  }

  /** The record of a node, and of all within it. */
  ghost predicate KeepsNode(cells: seq<Cell>, buf: seq<byte>, c: Cell, node: Node)
    decreases node, 0
  {
    match node
    case Elem(tag, attrs, kids) =>
      && c.ElemCell? && c.tag == tag && |c.attrs| == |attrs|
      && (forall i :: 0 <= i < |attrs| ==> c.attrs[i].tag == attrs[i].tag && StringAt(buf, c.attrs[i].value, attrs[i].value))
      && Keeps(cells, buf, c.sub, kids, NIL)
    case Text(data) => c.TextCell? && c.len == |data| && StringAt(buf, c.at, data)
  }

  /** The records that the links lead through from p to the end, or up to `after`, are those of these nodes. */
  ghost predicate Keeps(cells: seq<Cell>, buf: seq<byte>, p: int, nodes: seq<Node>, after: int)
    decreases nodes, 1
  {
    if nodes == [] then p == after
    else 0 <= p < |cells| && KeepsNode(cells, buf, cells[p], nodes[0]) && Keeps(cells, buf, cells[p].next, nodes[1..], after)
  }

  /** Records laid out from number base on, with strings from off on. */
  ghost predicate Holds(cells: seq<Cell>, buf: seq<byte>, base: nat, off: nat, some: seq<Cell>, strings: seq<byte>) {
    && base + |some| <= |cells| && cells[base..base + |some|] == some
    && off + |strings| <= |buf| && buf[off..off + |strings|] == strings
  }

  lemma HoldsBoth(cells: seq<Cell>, buf: seq<byte>, base: nat, off: nat, a: seq<Cell>, b: seq<Cell>, x: seq<byte>, y: seq<byte>)
    requires Holds(cells, buf, base, off, a + b, x + y)
    ensures Holds(cells, buf, base, off, a, x) && Holds(cells, buf, base + |a|, off + |x|, b, y)
  {
    var c := cells[base..base + |a| + |b|];
    assert cells[base..base + |a|] == c[..|a|] && cells[base + |a|..base + |a| + |b|] == c[|a|..];
    TwoParts(buf, off, x, y);
  }

  lemma StringHere(buf: seq<byte>, at: nat, v: seq<byte>)
    requires at + |v| + 1 <= |buf| && buf[at..at + |v| + 1] == v + [0]
    ensures StringAt(buf, at, v)
  {
    var s := buf[at..at + |v| + 1];
    assert buf[at..at + |v|] == s[..|v|] && buf[at + |v|] == s[|v|];
  }

  lemma {:induction false} KeepsAttrs(buf: seq<byte>, attrs: seq<Attr>, off: nat)
    requires off + |AttrStrings(attrs)| <= |buf| && buf[off..off + |AttrStrings(attrs)|] == AttrStrings(attrs)
    ensures var c := LayAttrs(attrs, off);
            |c| == |attrs| && forall i :: 0 <= i < |attrs| ==> c[i].tag == attrs[i].tag && StringAt(buf, c[i].value, attrs[i].value)
    decreases |attrs|
  {
    hide AttrStrings, LayAttrs, StringAt;
    AttrParts(attrs, off);
    if attrs != [] {
      var n := |attrs| - 1;
      var x, y := AttrStrings(attrs[..n]), attrs[n].value + [0];
      TwoParts(buf, off, x, y);
      KeepsAttrs(buf, attrs[..n], off);
      StringHere(buf, off + |x|, attrs[n].value);
    }
  }

  lemma AttrParts(attrs: seq<Attr>, off: nat)
    ensures attrs == [] ==> AttrStrings(attrs) == [] && LayAttrs(attrs, off) == []
    ensures attrs != [] ==>
              var n := |attrs| - 1;
              && AttrStrings(attrs) == AttrStrings(attrs[..n]) + (attrs[n].value + [0])
              && LayAttrs(attrs, off) == LayAttrs(attrs[..n], off) + [AttrCell(attrs[n].tag, off + |AttrStrings(attrs[..n])|)]
  {
  }

  lemma TwoParts(buf: seq<byte>, off: nat, x: seq<byte>, y: seq<byte>)
    requires off + |x| + |y| <= |buf| && buf[off..off + |x| + |y|] == x + y
    ensures buf[off..off + |x|] == x && buf[off + |x|..off + |x| + |y|] == y
  {
    var s := buf[off..off + |x| + |y|];
    assert buf[off..off + |x|] == s[..|x|] && buf[off + |x|..off + |x| + |y|] == s[|x|..];
  }

  /** What is laid out is what the links lead through. */
  lemma {:induction false} LayKeeps(cells: seq<Cell>, buf: seq<byte>, nodes: seq<Node>, base: nat, off: nat, after: int)
    requires Holds(cells, buf, base, off, Lay(nodes, base, off, after), Strings(nodes))
    ensures Keeps(cells, buf, if nodes == [] then after else base, nodes, after)
    decreases nodes, 1
  {
    hide Lay, LayNode, Strings, NodeStrings, Count, Holds, KeepsNode;
    LayParts(nodes, base, off, after);
    if nodes != [] {
      var b := base + NodeCount(nodes[0]);
      var next := if |nodes| == 1 then after else b;
      HoldsBoth(cells, buf, base, off, LayNode(nodes[0], base, off, next), Lay(nodes[1..], b, off + |NodeStrings(nodes[0])|, after),
                NodeStrings(nodes[0]), Strings(nodes[1..]));
      LayKeepsNode(cells, buf, nodes[0], base, off, next);
      LayKeeps(cells, buf, nodes[1..], b, off + |NodeStrings(nodes[0])|, after);
    }
  }

  lemma {:induction false} LayKeepsNode(cells: seq<Cell>, buf: seq<byte>, node: Node, base: nat, off: nat, next: int)
    requires Holds(cells, buf, base, off, LayNode(node, base, off, next), NodeStrings(node))
    ensures base < |cells| && cells[base].next == next && KeepsNode(cells, buf, cells[base], node)
    decreases node, 0
  {
    hide Lay, Strings, Count, AttrStrings, LayAttrs;
    assert cells[base] == cells[base..base + NodeCount(node)][0];
    match node
    case Elem(tag, attrs, kids) =>
      var head := [ElemCell(tag, LayAttrs(attrs, off), if kids == [] then NIL else base + 1, next)];
      HoldsBoth(cells, buf, base, off, head, Lay(kids, base + 1, off + |AttrStrings(attrs)|, NIL), AttrStrings(attrs), Strings(kids));
      KeepsAttrs(buf, attrs, off);
      LayKeeps(cells, buf, kids, base + 1, off + |AttrStrings(attrs)|, NIL);
    case Text(data) =>
      StringHere(buf, off, data);
  }

  /** The records of a whole tree, once the last link is set. */
  lemma TreeKept(cells: seq<Cell>, buf: seq<byte>, strings: seq<byte>, tree: seq<Node>)
    requires Placed(cells, strings, [], tree) && tree != []
    requires FIRST + |strings| <= |buf| && buf[FIRST..FIRST + |strings|] == strings
    ensures SlotIn(cells, SlotOf([], tree)) && Keeps(Linked(cells, SlotOf([], tree), NIL), buf, 0, tree, NIL)
  {
    hide Lay, Strings, Keeps;
    LayLinkedBehind([], tree, 0, FIRST, UNSET, NIL);
    assert [] + Lay(tree, 0, FIRST, UNSET) == cells;
    assert [] + Lay(tree, 0, FIRST, NIL) == Lay(tree, 0, FIRST, NIL);
    var all := Linked(cells, SlotOf([], tree), NIL);
    assert all == Lay(tree, 0, FIRST, NIL);
    assert all[0..0 + |all|] == all;
    assert strings == Strings(tree);
    LayKeeps(all, buf, tree, 0, FIRST, NIL);
  }
}

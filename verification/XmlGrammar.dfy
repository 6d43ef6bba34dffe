/** What a text says (xml.c, xmlparse): the tree that its items make up, with a stack of the elements that are open. */
module XmlGrammar {
  import opened Bytes
  import opened XmlTags
  import opened XmlTree
  import opened XmlScan
  import opened XmlBack

  /** An element that is open, and the nodes before it. */
  datatype Frame = Frame(tag: seq<byte>, attrs: seq<Attr>, before: seq<Node>)

  datatype Tree = Tree(nodes: seq<Node>) | NoTree

  /** What an item does to the open elements and the nodes of the innermost. */
  datatype State = State(frames: seq<Frame>, cur: seq<Node>) | Failed

  function Step(frames: seq<Frame>, cur: seq<Node>, item: Item): State {
    match item
    case Bad => Failed
    case Start(tag, attrs, true, _) => State(frames, cur + [Elem(tag, attrs, [])])
    case Start(tag, attrs, false, _) => if |frames| == MAXDEPTH then Failed else State(frames + [Frame(tag, attrs, cur)], [])
    case End(tag, _) =>
      if frames == [] || frames[|frames| - 1].tag != tag then Failed
      else
        var f := frames[|frames| - 1];
        State(frames[..|frames| - 1], f.before + [Elem(f.tag, f.attrs, cur)])
    case Chars(data, _) => State(frames, cur + [Text(data)])
  }

  /** The tree that a text from position i on makes of what has been read before. */
  function Parse(s: seq<byte>, i: nat, frames: seq<Frame>, cur: seq<Node>): Tree
    requires i <= |s|
    decreases |s| - i
  {
    if SkipDelims(s, i) == |s| then (if frames == [] && cur != [] then Tree(cur) else NoTree)
    else
      var item := ReadItem(s, i);
      match Step(frames, cur, item)
      case Failed => NoTree
      case State(f, c) => Parse(s, item.next, f, c)
  }

  lemma ParseStep(s: seq<byte>, i: nat, frames: seq<Frame>, cur: seq<Node>, item: Item)
    requires i <= |s| && SkipDelims(s, i) < |s| && item == ReadItem(s, i)
    ensures match Step(frames, cur, item)
            case Failed => Parse(s, i, frames, cur) == NoTree
            case State(f, c) => !item.Bad? && i < item.next <= |s| && Parse(s, i, frames, cur) == Parse(s, item.next, f, c)
  {
  }

  lemma PrintParts(nodes: seq<Node>)
    ensures nodes == [] ==> Print(nodes) == []
    ensures nodes != [] ==> Print(nodes) == PrintNode(nodes[0]) + Print(nodes[1..])
    ensures nodes != [] && nodes[0].Elem? ==> Print(nodes) != [] && Print(nodes)[0] == LT
  {
  }

  lemma NodesParts(nodes: seq<Node>)
    requires nodes != [] && NodesOk(nodes)
    ensures NodesOk(nodes[1..])
    ensures match nodes[0]
            case Elem(tag, attrs, kids) => IsName(tag) && AttrsOk(attrs) && NodesOk(kids)
            case Text(data) => data != [] && (|nodes| > 1 ==> nodes[1].Elem?)
  {
  }

  lemma DepthParts(nodes: seq<Node>)
    requires nodes != []
    ensures Depth(nodes[1..]) <= Depth(nodes)
    ensures nodes[0].Elem? && nodes[0].kids != [] ==> 1 + Depth(nodes[0].kids) <= Depth(nodes)
  {
  }

  /** Whether character data is last. */
  predicate EndsInText(nodes: seq<Node>) {
    nodes != [] && nodes[|nodes| - 1].Text?
  }

  /** The text form of nodes is parsed to these nodes. */
  lemma {:induction false} ParseBack(s: seq<byte>, i: nat, nodes: seq<Node>, frames: seq<Frame>, cur: seq<Node>)
    requires NodesOk(nodes) && Stands(s, i, Print(nodes)) && |frames| + Depth(nodes) <= MAXDEPTH
    requires EndsInText(nodes) ==> i + |Print(nodes)| < |s| && s[i + |Print(nodes)|] == LT
    ensures i + |Print(nodes)| <= |s| && Parse(s, i, frames, cur) == Parse(s, i + |Print(nodes)|, frames, cur + nodes)
    decreases nodes
  {
    hide Print, PrintNode, Parse, NodesOk, Depth, Stands, ReadItem, SkipDelims;
    PrintParts(nodes);
    if nodes == [] {
      assert cur + nodes == cur;
      StandsIn(s, i, []);
      return;
    }
    var node, rest := nodes[0], nodes[1..];
    NodesParts(nodes);
    DepthParts(nodes);
    StandsSplit(s, i, PrintNode(node), Print(rest));
    StandsIn(s, i + |PrintNode(node)|, Print(rest));
    if rest != [] && node.Text? {
      PrintParts(rest);
      StandsAt(s, i + |PrintNode(node)|, Print(rest));
    } else if rest == [] {
      PrintParts(rest);
    }
    ParseNode(s, i, node, frames, cur);
    ParseBack(s, i + |PrintNode(node)|, rest, frames, cur + [node]);
    assert cur + [node] + rest == cur + nodes;
  }

  lemma StandsIn(s: seq<byte>, i: nat, t: seq<byte>)
    requires Stands(s, i, t)
    ensures i + |t| <= |s|
  {
  }

  lemma {:induction false} ParseNode(s: seq<byte>, i: nat, node: Node, frames: seq<Frame>, cur: seq<Node>)
    requires match node
             case Elem(tag, attrs, kids) =>
               IsName(tag) && AttrsOk(attrs) && NodesOk(kids) && (kids != [] ==> |frames| + 1 + Depth(kids) <= MAXDEPTH)
             case Text(data) => data != []
    requires Stands(s, i, PrintNode(node))
    requires node.Text? ==> i + |PrintNode(node)| < |s| && s[i + |PrintNode(node)|] == LT
    ensures i + |PrintNode(node)| <= |s| && Parse(s, i, frames, cur) == Parse(s, i + |PrintNode(node)|, frames, cur + [node])
    decreases node
  {
    hide Print, Parse, NodesOk, Depth, Stands, ReadItem, SkipDelims, PrintStart, PrintEnd, Escape;
    match node
    case Elem(tag, attrs, kids) =>
      if kids == [] {
        StartBack(s, i, tag, attrs, true);
        ParseStep(s, i, frames, cur, ReadItem(s, i));
      } else {
        var a, x, b := PrintStart(tag, attrs, false), Print(kids), PrintEnd(tag);
        var f := frames + [Frame(tag, attrs, cur)];
        StandsSplit(s, i, a + x, b);
        StandsSplit(s, i, a, x);
        StartBack(s, i, tag, attrs, false);
        ParseStep(s, i, frames, cur, ReadItem(s, i));
        EndBack(s, i + |a| + |x|, tag);
        ParseBack(s, i + |a|, kids, f, []);
        assert [] + kids == kids;
        ParseStep(s, i + |a| + |x|, f, kids, ReadItem(s, i + |a| + |x|));
        assert f[..|f| - 1] == frames;
      }
    case Text(data) =>
      TextBack(s, i, data);
      ParseStep(s, i, frames, cur, ReadItem(s, i));
  }

  /** A tree that is too deep is refused. */
  lemma {:induction false} ParseDeep(s: seq<byte>, i: nat, nodes: seq<Node>, frames: seq<Frame>, cur: seq<Node>)
    requires NodesOk(nodes) && Stands(s, i, Print(nodes)) && |frames| <= MAXDEPTH < |frames| + Depth(nodes)
    requires EndsInText(nodes) ==> i + |Print(nodes)| < |s| && s[i + |Print(nodes)|] == LT
    ensures i <= |s| && Parse(s, i, frames, cur) == NoTree
    decreases nodes
  {
    hide Print, PrintNode, Parse, NodesOk, Stands, ReadItem, SkipDelims, PrintStart, PrintEnd;
    var node, rest := nodes[0], nodes[1..];
    PrintParts(nodes);
    NodesParts(nodes);
    StandsSplit(s, i, PrintNode(node), Print(rest));
    if node.Elem? && node.kids != [] && |frames| + 1 + Depth(node.kids) > MAXDEPTH {
      NodeParts(node);
      var a, x, b := PrintStart(node.tag, node.attrs, false), Print(node.kids), PrintEnd(node.tag);
      StandsSplit(s, i, a + x, b);
      StandsSplit(s, i, a, x);
      StartBack(s, i, node.tag, node.attrs, false);
      ParseStep(s, i, frames, cur, ReadItem(s, i));
      if |frames| < MAXDEPTH {
        EndBack(s, i + |a| + |x|, node.tag);
        ParseDeep(s, i + |a|, node.kids, frames + [Frame(node.tag, node.attrs, cur)], []);
      }
    } else {
      if node.Text? {
        PrintParts(rest);
        StandsAt(s, i + |PrintNode(node)|, Print(rest));
      }
      ParseNode(s, i, node, frames, cur);
      ParseDeep(s, i + |PrintNode(node)|, rest, frames, cur + [node]);
    }
  }

  lemma NodeParts(node: Node)
    requires node.Elem? && node.kids != []
    ensures PrintNode(node) == PrintStart(node.tag, node.attrs, false) + Print(node.kids) + PrintEnd(node.tag)
  {
  }

  lemma {:induction false} PrintLast(nodes: seq<Node>, data: seq<byte>)
    ensures Print(nodes + [Text(data)]) == Print(nodes) + Escape(data)
    decreases |nodes|
  {
    if nodes == [] {
      assert nodes + [Text(data)] == [Text(data)];
    } else {
      assert (nodes + [Text(data)])[1..] == nodes[1..] + [Text(data)];
      PrintLast(nodes[1..], data);
    }
  }

  lemma {:induction false} FrontOk(nodes: seq<Node>, data: seq<byte>)
    requires NodesOk(nodes + [Text(data)])
    ensures NodesOk(nodes) && !EndsInText(nodes) && data != [] && Depth(nodes + [Text(data)]) == Depth(nodes)
    decreases |nodes|
  {
    var all := nodes + [Text(data)];
    if nodes != [] {
      assert all[0] == nodes[0] && all[1..] == nodes[1..] + [Text(data)];
      FrontOk(nodes[1..], data);
      if |nodes| > 1 {
        assert all[1] == nodes[1];
      } else {
        assert all[1] == Text(data);
      }
    }
  }

  /** A valid tree is what its text form says if and only if it is not too deep and does not end in character data. */
  lemma PrintThenParse(tree: seq<Node>)
    requires tree != [] && NodesOk(tree)
    ensures Parse(Print(tree), 0, [], []) == if Depth(tree) <= MAXDEPTH && !EndsInText(tree) then Tree(tree) else NoTree
  {
    hide Print, NodesOk, Depth, Stands, ReadItem;
    var s := Print(tree);
    var n := |tree| - 1;
    if EndsInText(tree) {
      var front, data := tree[..n], tree[n].data;
      assert tree == front + [Text(data)];
      PrintLast(front, data);
      FrontOk(front, data);
      StandsWhole(s);
      StandsSplit(s, 0, Print(front), Escape(data));
      if Depth(front) <= MAXDEPTH {
        ParseBack(s, 0, front, [], []);
        TextCut(s, |Print(front)|, data);
        ParseStep(s, |Print(front)|, [], [] + front, ReadItem(s, |Print(front)|));
      } else {
        ParseDeep(s, 0, front, [], []);
      }
    } else {
      StandsWhole(s);
      if Depth(tree) <= MAXDEPTH {
        ParseBack(s, 0, tree, [], []);
        assert [] + tree == tree;
      } else {
        ParseDeep(s, 0, tree, [], []);
      }
    }
  }

  lemma StandsWhole(s: seq<byte>)
    ensures Stands(s, 0, s)
  {
    assert s[0..0 + |s|] == s;
  }
}

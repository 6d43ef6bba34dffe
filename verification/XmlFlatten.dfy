/** Writing a tree as text into a buffer (xml.c, xmlflatten and flattenstring, with all values quoted). */
module XmlFlatten {
  import opened Bytes
  import opened XmlTags
  import opened XmlTree
  import opened Lists

  const RC_ERROR := -1
  const RC_NO_MEM := -3

  /** What the linked records can hold: strings that end with a zero, and data that has a length. */
  ghost predicate AttrHeld(a: Attr) {
    0 !in a.tag && 0 !in a.value
  }

  ghost predicate Held(nodes: seq<Node>) {
    nodes == []
    || (&& (match nodes[0]
            case Elem(tag, attrs, kids) => 0 !in tag && (forall i :: 0 <= i < |attrs| ==> AttrHeld(attrs[i])) && Held(kids)
            case Text(data) => data != [])
        && Held(nodes[1..]))
  }

  /** A text x was to be put behind what a buffer held, with room for cb bytes; n bytes of it were, or none. */
  ghost predicate Wrote(before: seq<byte>, after: seq<byte>, cb: int, x: seq<byte>, n: int) {
    && (n >= 0 <==> |x| <= cb)
    && (n >= 0 ==> n == |x| && |before| + n <= |after| && after[..|before| + n] == before + x)
    && (n < 0 ==> n == RC_ERROR)
  }

  /** memcpy into the output. */
  method Copy(output: array<byte>, at: nat, bytes: seq<byte>)
    requires at + |bytes| <= output.Length
    modifies output
    ensures output[..at + |bytes|] == old(output[..at]) + bytes
  {
    var i := 0;
    while i < |bytes|
      invariant 0 <= i <= |bytes| && output[..at + i] == old(output[..at]) + bytes[..i]
    {
      output[at + i] := bytes[i];
      i := i + 1;
    }
    assert bytes[..i] == bytes;
  }

  /** A character by number. */
  method Number(c: byte) returns (work: seq<byte>)
    ensures work == [AMP, HASH] + Decimal(c) + [SEMI]
  {
    work := [SEMI];
    var chr: int := c;
    work := [48 + chr % 10] + work;
    chr := chr / 10;
    while chr != 0
      invariant 0 <= chr < 256 && Decimal(c) + [SEMI] == (if chr == 0 then [] else Decimal(chr)) + work
    {
      ghost var was := work;
      work := [48 + chr % 10] + work;
      assert Decimal(chr) == (if chr / 10 == 0 then [] else Decimal(chr / 10)) + [48 + chr % 10];
      assert Decimal(chr) + was == (if chr / 10 == 0 then [] else Decimal(chr / 10)) + work;
      chr := chr / 10;
    }
    work := [AMP, HASH] + work;
    assert work == [AMP, HASH] + (Decimal(c) + [SEMI]);
  }

  /** One character of a string. */
  method FlattenChar(chr: byte, output: array<byte>, at: nat, cb: int) returns (n: int)
    requires 0 <= cb && at + cb <= output.Length
    modifies output
    ensures Wrote(old(output[..at]), output[..], cb, EscapeChar(chr), n)
  {
    var x;
    if chr == LT {
      x := [AMP, 108, 116, SEMI];
    } else if chr == GT {
      x := [AMP, 103, 116, SEMI];
    } else if chr == AMP {
      x := [AMP, 97, 109, 112, SEMI];
    } else if chr == QUOT {
      x := [AMP, 113, 117, 111, 116, SEMI];
    } else if chr == APOS {
      x := [AMP, 97, 112, 111, 115, SEMI];
    } else if chr < 0x20 || chr >= 0x7F {
      x := Number(chr);
    } else {
      x := [chr];
    }
    assert x == EscapeChar(chr);
    if cb - |x| < 0 {
      return RC_ERROR;
    }
    Copy(output, at, x);
    n := |x|;
  }

  function Marks(quote: bool): seq<byte> {
    if quote then [QUOT] else []
  }

  lemma EscapeGrows(s: seq<byte>, n: nat)
    requires n <= |s|
    ensures |Escape(s[..n])| <= |Escape(s)|
    decreases |s| - n
  {
    if n < |s| {
      EscapeMore(s, n);
      EscapeGrows(s, n + 1);
    } else {
      assert s[..n] == s;
    }
  }

  /** flattenstring: escape a string, within quotation marks or not. */
  method FlattenString(value: seq<byte>, quote: bool, output: array<byte>, at: nat, cb: int) returns (n: int)
    requires 0 <= cb && at + cb <= output.Length && (quote ==> 0 !in value)
    modifies output
    ensures Wrote(old(output[..at]), output[..], cb, Marks(quote) + Escape(value) + Marks(quote), n)
  {
    hide Escape, EscapeChar;
    ghost var before := output[..at];
    var outputBytes, ptr1 := cb, at;
    if quote {
      outputBytes := outputBytes - 2;
      if outputBytes < 0 {
        return RC_ERROR;
      }
      Copy(output, ptr1, [QUOT]);
      ptr1 := ptr1 + 1;
    }
    var i1 := EscapeAll(value, output, ptr1, outputBytes);
    if i1 < 0 {
      return RC_ERROR;
    }
    ptr1 := ptr1 + i1;
    if quote {
      Copy(output, ptr1, [QUOT]);
      ptr1 := ptr1 + 1;
    }
    n := ptr1 - at;
    assert output[..ptr1] == before + (Marks(quote) + Escape(value) + Marks(quote));
  }

  /** The loop over the characters of a string. */
  method EscapeAll(value: seq<byte>, output: array<byte>, at: nat, cb: int) returns (n: int)
    requires 0 <= cb && at + cb <= output.Length
    modifies output
    ensures Wrote(old(output[..at]), output[..], cb, Escape(value), n)
  {
    hide Escape, EscapeChar;
    ghost var before := output[..at];
    n := 0;
    var i := 0;
    EscapeNone(value);
    while i < |value|
      invariant 0 <= i <= |value| && 0 <= n <= cb && n == |Escape(value[..i])|
      invariant output[..at + n] == before + Escape(value[..i])
    {
      ghost var mid := output[..];
      var i1 := FlattenChar(value[i], output, at + n, cb - n);
      EscapeMore(value, i);
      WroteBoth(before, mid, output[..], cb, Escape(value[..i]), EscapeChar(value[i]), n, i1);
      if i1 < 0 {
        EscapeGrows(value, i + 1);
        return RC_ERROR;
      }
      n := n + i1;
      i := i + 1;
    }
    assert value[..i] == value;
  }

  lemma EscapeNone(value: seq<byte>)
    ensures Escape(value[..0]) == []
  {
  }

  /** What is written in two parts. */
  lemma WroteBoth(before: seq<byte>, mid: seq<byte>, after: seq<byte>, cb: int, x: seq<byte>, y: seq<byte>, n: int, m: int)
    requires 0 <= n && Wrote(before, mid, cb, x, n) && Wrote(before + x, after, cb - n, y, m)
    ensures Wrote(before, after, cb, x + y, if m < 0 then m else n + m)
  {
    assert before + x + y == before + (x + y);
  }

  lemma WroteSome(before: seq<byte>, after: seq<byte>, cb: int, x: seq<byte>)
    requires |x| <= cb && |before| + |x| <= |after| && after[..|before| + |x|] == before + x
    ensures Wrote(before, after, cb, x, |x|)
  {
  }

  lemma WroteNothing(before: seq<byte>, after: seq<byte>, cb: int, x: seq<byte>)
    requires |x| > cb
    ensures Wrote(before, after, cb, x, RC_ERROR)
  {
  }

  lemma AttrsGrow(attrs: seq<Attr>, n: nat)
    requires n <= |attrs|
    ensures |PrintAttrs(attrs[..n])| <= |PrintAttrs(attrs)|
    decreases |attrs| - n
  {
    if n < |attrs| {
      AttrsMore(attrs, n);
      AttrsGrow(attrs, n + 1);
    } else {
      assert attrs[..n] == attrs;
    }
  }

  /** One attribute. */
  method FlattenAttr(a: Attr, output: array<byte>, at: nat, cb: int) returns (n: int)
    requires 0 <= cb && at + cb <= output.Length && AttrHeld(a)
    modifies output
    ensures Wrote(old(output[..at]), output[..], cb, PrintAttr(a), n)
  {
    hide Escape, Wrote;
    ghost var before := output[..at];
    var i1 := |a.tag|;
    var outputBytes := cb - (i1 + 2);
    if outputBytes < 0 {
      WroteNothing(before, output[..], cb, PrintAttr(a));
      return RC_ERROR;
    }
    Copy(output, at, [BLANK] + a.tag + [EQUALS]);
    ghost var mid := output[..];
    WroteSome(before, mid, cb, [BLANK] + a.tag + [EQUALS]);
    var i2 := FlattenString(a.value, true, output, at + i1 + 2, outputBytes);
    assert PrintAttr(a) == [BLANK] + a.tag + [EQUALS] + ([QUOT] + Escape(a.value) + [QUOT]);
    assert mid[..at + i1 + 2] == before + ([BLANK] + a.tag + [EQUALS]);
    assert Marks(true) + Escape(a.value) + Marks(true) == [QUOT] + Escape(a.value) + [QUOT];
    WroteBoth(before, mid, output[..], cb, [BLANK] + a.tag + [EQUALS], [QUOT] + Escape(a.value) + [QUOT], i1 + 2, i2);
    n := if i2 < 0 then i2 else i1 + 2 + i2;
  }

  /** All attributes of an element. */
  method FlattenAttrs(attrs: seq<Attr>, output: array<byte>, at: nat, cb: int) returns (n: int)
    requires 0 <= cb && at + cb <= output.Length && forall i :: 0 <= i < |attrs| ==> AttrHeld(attrs[i])
    modifies output
    ensures Wrote(old(output[..at]), output[..], cb, PrintAttrs(attrs), n)
  {
    hide PrintAttrs, PrintAttr, AttrHeld;
    ghost var before := output[..at];
    n := 0;
    var i := 0;
    AttrsNone(attrs);
    while i < |attrs|
      invariant i <= |attrs| && 0 <= n <= cb && n == |PrintAttrs(attrs[..i])|
      invariant output[..at + n] == before + PrintAttrs(attrs[..i])
    {
      ghost var mid := output[..];
      var i1 := FlattenAttr(attrs[i], output, at + n, cb - n);
      AttrsMore(attrs, i);
      WroteBoth(before, mid, output[..], cb, PrintAttrs(attrs[..i]), PrintAttr(attrs[i]), n, i1);
      if i1 < 0 {
        AttrsGrow(attrs, i + 1);
        return RC_ERROR;
      }
      n := n + i1;
      i := i + 1;
    }
    assert attrs[..i] == attrs;
  }

  lemma AttrsNone(attrs: seq<Attr>)
    ensures PrintAttrs(attrs[..0]) == []
  {
  }

  // --- the walk over the tree -------------------------------------------------------------------------------------------

  /** What is to be written behind the elements that are open. */
  function Rest(path: seq<seq<Node>>): seq<byte>
    requires Opened(path)
  {
    if path == [] then []
    else var top := path[|path| - 1]; PrintEnd(top[0].tag) + Print(top[1..]) + Rest(path[..|path| - 1])
  }

  predicate Opened(path: seq<seq<Node>>) {
    forall k :: 0 <= k < |path| ==> path[k] != [] && path[k][0].Elem?
  }

  /** What is left is not nested too deep. */
  predicate Shallow(cur: seq<Node>, path: seq<seq<Node>>)
    requires Opened(path)
  {
    |path| + Depth(cur) <= MAXDEPTH && forall k :: 0 <= k < |path| ==> k + Depth(path[k][1..]) <= MAXDEPTH
  }

  /** So much is written, and cur and then the rest of the path are left of a tree. */
  ghost predicate Walking(whole: seq<Node>, done: seq<byte>, cur: seq<Node>, path: seq<seq<Node>>) {
    && Opened(path) && |path| <= MAXDEPTH
    && Held(cur) && (forall k :: 0 <= k < |path| ==> Held(path[k]))
    && Print(whole) == done + (Print(cur) + Rest(path))
    && (Depth(whole) <= MAXDEPTH <==> Shallow(cur, path))
  }

  lemma WalkStart(whole: seq<Node>)
    requires Held(whole)
    ensures Walking(whole, [], whole, [])
  {
  }

  lemma PrintNone()
    ensures Print([]) == []
  {
  }

  lemma PrintStep(nodes: seq<Node>)
    requires nodes != []
    ensures Print(nodes) == PrintNode(nodes[0]) + Print(nodes[1..])
  {
  }

  lemma RestStep(path: seq<seq<Node>>)
    requires Opened(path) && path != []
    ensures var top := path[|path| - 1];
            Opened(path[..|path| - 1]) && Rest(path) == PrintEnd(top[0].tag) + Print(top[1..]) + Rest(path[..|path| - 1])
  {
  }

  lemma HeldStep(nodes: seq<Node>)
    requires nodes != [] && Held(nodes)
    ensures Held(nodes[1..]) && Held([nodes[0]]) && (nodes[0].Elem? ==> Held(nodes[0].kids))
  {
  }

  lemma Begins(a: seq<byte>, b: seq<byte>, c: seq<byte>)
    ensures a <= [] + (a + b + c)
  {
    assert [] + (a + b + c) == a + (b + c);
  }

  /** Into an element. */
  lemma WalkDown(whole: seq<Node>, done: seq<byte>, cur: seq<Node>, path: seq<seq<Node>>, done': seq<byte>)
    requires Walking(whole, done, cur, path) && cur != [] && cur[0].Elem? && cur[0].kids != []
    requires done' == done + PrintStart(cur[0].tag, cur[0].attrs, false)
    ensures |path| < MAXDEPTH ==> Walking(whole, done', cur[0].kids, path + [cur])
    ensures |path| == MAXDEPTH ==> Depth(whole) > MAXDEPTH
  {
    hide Print, Rest, Held;
    var kids, new_p := cur[0].kids, path + [cur];
    PrintStep(cur);
    RestStep(new_p);
    HeldStep(cur);
    assert new_p[..|path|] == path;
    RegroupFour(done, PrintStart(cur[0].tag, cur[0].attrs, false), Print(kids) + PrintEnd(cur[0].tag) + Print(cur[1..]), Rest(path));
    assert PrintStart(cur[0].tag, cur[0].attrs, false) + (Print(kids) + PrintEnd(cur[0].tag) + Print(cur[1..])) == Print(cur);
    assert Print(kids) + PrintEnd(cur[0].tag) + Print(cur[1..]) + Rest(path) == Print(kids) + Rest(new_p);
    assert Print(whole) == done' + (Print(kids) + Rest(new_p));
    assert forall k :: 0 <= k < |path| ==> new_p[k] == path[k];
    assert new_p[|path|] == cur;
    if Shallow(cur, path) && |path| < MAXDEPTH {
      assert Shallow(kids, new_p);
    }
    if Shallow(kids, new_p) {
      assert |path| + Depth(new_p[|path|][1..]) <= MAXDEPTH;
      forall k | 0 <= k < |path|
        ensures k + Depth(path[k][1..]) <= MAXDEPTH
      {
        assert k + Depth(new_p[k][1..]) <= MAXDEPTH;
      }
    }
  }

  /** Past an element without others in it, or character data. */
  lemma WalkPast(whole: seq<Node>, done: seq<byte>, cur: seq<Node>, path: seq<seq<Node>>, done': seq<byte>)
    requires Walking(whole, done, cur, path) && cur != [] && (cur[0].Elem? ==> cur[0].kids == [])
    requires done' == done + PrintNode(cur[0])
    ensures Walking(whole, done', cur[1..], path)
  {
    hide Print, PrintNode, Rest, Held;
    PrintStep(cur);
    HeldStep(cur);
    RegroupFour(done, PrintNode(cur[0]), Print(cur[1..]), Rest(path));
  }

  /** Out of an element. */
  lemma WalkUp(whole: seq<Node>, done: seq<byte>, path: seq<seq<Node>>, done': seq<byte>)
    requires Walking(whole, done, [], path) && path != []
    requires done' == done + PrintEnd(path[|path| - 1][0].tag)
    ensures Walking(whole, done', path[|path| - 1][1..], path[..|path| - 1])
  {
    var top, less := path[|path| - 1], path[..|path| - 1];
    hide Print, PrintEnd, Rest, Held;
    PrintNone();
    RestStep(path);
    HeldStep(top);
    RegroupFour(done, PrintEnd(top[0].tag), Print(top[1..]), Rest(less));
    assert Print([]) + Rest(path) == PrintEnd(top[0].tag) + Print(top[1..]) + Rest(less);
    if Shallow(top[1..], less) {
      forall k | 0 <= k < |path|
        ensures k + Depth(path[k][1..]) <= MAXDEPTH
      {
        assert k < |less| ==> less[k] == path[k];
      }
    }
  }

  lemma TooLong(whole: seq<Node>, done: seq<byte>, cur: seq<Node>, path: seq<seq<Node>>, x: seq<byte>, cb: int)
    requires Walking(whole, done, cur, path) && |x| > cb
    requires x <= Print(cur) + Rest(path)
    ensures |Print(whole)| > |done| + cb
  {
  }

  /** A node other than an element with others in it, or the start of one. */
  function Part(node: Node): seq<byte> {
    if node.Elem? then PrintStart(node.tag, node.attrs, node.kids == []) else Escape(node.data)
  }

  lemma PartComesNext(whole: seq<Node>, done: seq<byte>, cur: seq<Node>, path: seq<seq<Node>>)
    requires Walking(whole, done, cur, path) && cur != []
    ensures Part(cur[0]) <= Print(cur) + Rest(path) && Part(cur[0]) != []
  {
    if cur[0].Text? {
      assert Escape(cur[0].data) == Escape(cur[0].data[..|cur[0].data| - 1]) + EscapeChar(cur[0].data[|cur[0].data| - 1]);
    }
  }

  lemma EndComesNext(whole: seq<Node>, done: seq<byte>, path: seq<seq<Node>>)
    requires Walking(whole, done, [], path) && path != []
    ensures PrintEnd(path[|path| - 1][0].tag) <= Print([]) + Rest(path)
  {
    hide Print, PrintEnd, Rest, Held, Depth;
    PrintNone();
    RestStep(path);
    var top := path[|path| - 1];
    Begins(PrintEnd(top[0].tag), Print(top[1..]), Rest(path[..|path| - 1]));
  }

  /** The tag of an element and its attributes. */
  method FlattenTag(tag: seq<byte>, attrs: seq<Attr>, output: array<byte>, at: nat, cb: int) returns (n: int)
    requires 0 <= cb && at + cb <= output.Length && forall i :: 0 <= i < |attrs| ==> AttrHeld(attrs[i])
    modifies output
    ensures Wrote(old(output[..at]), output[..], cb, [LT] + tag + PrintAttrs(attrs), n)
  {
    hide PrintAttrs, Wrote, AttrHeld;
    ghost var before := output[..at];
    ghost var x := [LT] + tag;
    var len := |tag|;
    var outputBytes := cb - (1 + len);
    if outputBytes < 0 {
      WroteNothing(before, output[..], cb, x + PrintAttrs(attrs));
      return RC_ERROR;
    }
    Copy(output, at, [LT] + tag);
    ghost var one := output[..];
    WroteSome(before, one, cb, x);
    var i1 := FlattenAttrs(attrs, output, at + 1 + len, outputBytes);
    assert one[..at + 1 + len] == before + x;
    WroteBoth(before, one, output[..], cb, x, PrintAttrs(attrs), 1 + len, i1);
    n := if i1 < 0 then i1 else 1 + len + i1;
  }

  /** The start of an element, up to its closing bracket. */
  method FlattenStart(node: Node, output: array<byte>, at: nat, cb: int) returns (n: int)
    requires 0 <= cb && at + cb <= output.Length && node.Elem? && Held([node])
    modifies output
    ensures Wrote(old(output[..at]), output[..], cb, Part(node), n)
  {
    hide PrintAttrs, Wrote;
    ghost var before := output[..at];
    var x := if node.kids == [] then [SLASH, GT] else [GT];
    assert Part(node) == [LT] + node.tag + PrintAttrs(node.attrs) + x;
    n := FlattenTag(node.tag, node.attrs, output, at, cb);
    WroteCases(before, output[..], cb, [LT] + node.tag + PrintAttrs(node.attrs), n);
    if n < 0 || cb - n - |x| < 0 {
      WroteNothing(before, output[..], cb, Part(node));
      return RC_ERROR;
    }
    Copy(output, at + n, x);
    n := n + |x|;
    assert output[..at + n] == before + ([LT] + node.tag + PrintAttrs(node.attrs) + x);
    WroteSome(before, output[..], cb, Part(node));
  }

  lemma WroteCases(before: seq<byte>, after: seq<byte>, cb: int, x: seq<byte>, n: int)
    requires Wrote(before, after, cb, x, n)
    ensures n < 0 ==> |x| > cb
    ensures n >= 0 ==> n == |x| <= cb && |before| + n <= |after| && after[..|before| + n] == before + x
  {
  }

  /** One node, up to the first of those within it. */
  method FlattenPart(node: Node, output: array<byte>, at: nat, cb: int) returns (n: int)
    requires 0 <= cb && at + cb <= output.Length && Held([node])
    modifies output
    ensures Wrote(old(output[..at]), output[..], cb, Part(node), n)
  {
    if node.Elem? {
      n := FlattenStart(node, output, at, cb);
    } else {
      n := FlattenString(node.data, false, output, at, cb);
      assert Marks(false) + Escape(node.data) + Marks(false) == Escape(node.data);
    }
  }

  /** xmlflatten: the text of a tree, if the buffer has room for it and the tree is not too deep. */
  method Flatten(tree: seq<Node>, output: array<byte>) returns (rc: int)
    requires tree != [] && Held(tree)
    modifies output
    ensures rc >= 0 <==> |Print(tree)| <= output.Length && Depth(tree) <= MAXDEPTH
    ensures rc >= 0 ==> rc == |Print(tree)| && output[..rc] == Print(tree)
    ensures rc < 0 ==> rc == RC_NO_MEM || rc == RC_ERROR
    ensures rc == RC_NO_MEM ==> Depth(tree) > MAXDEPTH
  {
    hide Walking, Held, Print, Part, Depth, Rest, Shallow;
    var input, path, ptr1, outputBytes := tree, [], 0, output.Length;
    WalkStart(tree);
    while true
      invariant 0 <= outputBytes && ptr1 + outputBytes == output.Length && input != []
      invariant Walking(tree, output[..ptr1], input, path)
      decreases outputBytes
    {
      ghost var done := output[..ptr1];
      WalkFacts(tree, done, input, path);
      PartComesNext(tree, done, input, path);
      var i1 := FlattenPart(input[0], output, ptr1, outputBytes);
      if i1 < 0 {
        TooLong(tree, done, input, path, Part(input[0]), outputBytes);
        return RC_ERROR;
      }
      ptr1, outputBytes := ptr1 + i1, outputBytes - i1;
      assert output[..ptr1] == done + Part(input[0]);
      if input[0].Elem? && input[0].kids != [] {
        PartIs(input[0]);
        WalkDown(tree, done, input, path, output[..ptr1]);
        if |path| == MAXDEPTH {
          return RC_NO_MEM;
        }
        input, path := input[0].kids, path + [input];
        continue;
      }
      PartIs(input[0]);
      WalkPast(tree, done, input, path, output[..ptr1]);
      input := input[1..];
      ghost var room := outputBytes;
      while input == []
        invariant 0 <= outputBytes <= room && ptr1 + outputBytes == output.Length
        invariant Walking(tree, output[..ptr1], input, path)
        decreases |path|
      {
        ghost var so_far := output[..ptr1];
        WalkFacts(tree, so_far, input, path);
        if path == [] {
          WalkEnd(tree, so_far);
          return ptr1;
        }
        EndComesNext(tree, so_far, path);
        var top := path[|path| - 1];
        i1 := |top[0].tag|;
        outputBytes := outputBytes - (i1 + 3);
        if outputBytes < 0 {
          TooLong(tree, so_far, [], path, PrintEnd(top[0].tag), outputBytes + i1 + 3);
          return RC_ERROR;
        }
        Copy(output, ptr1, [LT, SLASH] + top[0].tag + [GT]);
        ptr1 := ptr1 + i1 + 3;
        WalkUp(tree, so_far, path, output[..ptr1]);
        input, path := top[1..], path[..|path| - 1];
      }
    }
  }

  lemma WalkFacts(whole: seq<Node>, done: seq<byte>, cur: seq<Node>, path: seq<seq<Node>>)
    requires Walking(whole, done, cur, path)
    ensures Opened(path) && |path| <= MAXDEPTH && (cur != [] ==> Held([cur[0]]))
  {
  }

  lemma WalkEnd(whole: seq<Node>, done: seq<byte>)
    requires Walking(whole, done, [], [])
    ensures Print(whole) == done && Depth(whole) <= MAXDEPTH
  {
  }

  lemma PartIs(node: Node)
    ensures node.Elem? && node.kids != [] ==> Part(node) == PrintStart(node.tag, node.attrs, false)
    ensures node.Elem? && node.kids == [] ==> Part(node) == PrintNode(node)
    ensures node.Text? ==> Part(node) == PrintNode(node)
  {
  }
}

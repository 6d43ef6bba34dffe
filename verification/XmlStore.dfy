/** What a tree takes (xml.c, xmlparse): room in the buffer, and entries in the table of names, in the order of the text. */
module XmlStore {
  import opened Bytes
  import opened XmlTags
  import opened XmlTree
  import opened XmlScan
  import opened XmlGrammar

  const ELEMENT := 40                   // bytes of a record of an element
  const ATTRIBUTE := 32                 // bytes of a record of an attribute

  datatype Claim = Space(n: nat) | Intern(tag: seq<byte>)

  datatype Store = Store(names: seq<seq<byte>>, used: int)

  function Take(st: Store, c: Claim): Store {
    match c
    case Space(n) => st.(used := st.used + n)
    case Intern(tag) => st.(names := Learnt(st.names, tag))
  }

  predicate Has(st: Store, cap: int, c: Claim) {
    match c
    case Space(n) => st.used + n <= cap
    case Intern(tag) => Learns(st.names, tag)
  }

  function TakeAll(st: Store, cs: seq<Claim>): Store {
    if cs == [] then st else Take(TakeAll(st, cs[..|cs| - 1]), cs[|cs| - 1])
  }

  /** All claims can be met, one after the other. */
  predicate HasAll(st: Store, cap: int, cs: seq<Claim>) {
    cs == [] || (HasAll(st, cap, cs[..|cs| - 1]) && Has(TakeAll(st, cs[..|cs| - 1]), cap, cs[|cs| - 1]))
  }

  lemma {:induction false} TakeBoth(st: Store, cap: int, a: seq<Claim>, b: seq<Claim>)
    ensures TakeAll(st, a + b) == TakeAll(TakeAll(st, a), b)
    ensures HasAll(st, cap, a + b) <==> HasAll(st, cap, a) && HasAll(TakeAll(st, a), cap, b)
    decreases |b|
  {
    if b == [] {
      assert a + b == a;
    } else {
      var n := |b| - 1;
      assert (a + b)[..|a + b| - 1] == a + b[..n] && (a + b)[|a + b| - 1] == b[n];
      TakeBoth(st, cap, a, b[..n]);
    }
  }

  lemma TakeOne(st: Store, cap: int, c: Claim)
    ensures TakeAll(st, [c]) == Take(st, c) && (HasAll(st, cap, [c]) <==> Has(st, cap, c))
  {
    assert [c][..0] == [];
  }

  // --- in simple terms ------------------------------------------------------------------------------------------------------

  /** The bytes that claims add up to. */
  function Room(cs: seq<Claim>): nat {
    if cs == [] then 0
    else Room(cs[..|cs| - 1]) + if cs[|cs| - 1].Space? then cs[|cs| - 1].n else 0
  }

  /** All names of the claims can be entered. */
  predicate Interns(names: seq<seq<byte>>, cs: seq<Claim>) {
    cs == []
    || (&& Interns(names, cs[..|cs| - 1])
        && (cs[|cs| - 1].Intern? ==> Learns(TakeAll(Store(names, 0), cs[..|cs| - 1]).names, cs[|cs| - 1].tag)))
  }

  /** Claims can be met if and only if the bytes fit, all together, and the names can be entered. */
  lemma {:induction false} HasAllIs(names: seq<seq<byte>>, used: nat, cap: int, cs: seq<Claim>)
    requires used <= cap
    ensures TakeAll(Store(names, used), cs) == Store(TakeAll(Store(names, 0), cs).names, used + Room(cs))
    ensures HasAll(Store(names, used), cap, cs) <==> used + Room(cs) <= cap && Interns(names, cs)
    decreases |cs|
  {
    if cs != [] {
      HasAllIs(names, used, cap, cs[..|cs| - 1]);
    }
  }

  // --- the claims of a tree -------------------------------------------------------------------------------------------------

  function AttrClaims(a: Attr): seq<Claim> {
    [Intern(a.tag), Space(ATTRIBUTE), Space(|a.value| + 1)]
  }

  function AttrsClaims(attrs: seq<Attr>): seq<Claim> {
    if attrs == [] then [] else AttrsClaims(attrs[..|attrs| - 1]) + AttrClaims(attrs[|attrs| - 1])
  }

  function StartClaims(tag: seq<byte>, attrs: seq<Attr>): seq<Claim> {
    [Intern(tag), Space(ELEMENT)] + AttrsClaims(attrs)
  }

  function TextClaims(data: seq<byte>): seq<Claim> {
    [Space(ELEMENT), Space(|data| + 1)]
  }

  function Claims(nodes: seq<Node>): seq<Claim> {
    if nodes == [] then [] else NodeClaims(nodes[0]) + Claims(nodes[1..])
  }

  function NodeClaims(node: Node): seq<Claim> {
    match node
    case Elem(tag, attrs, kids) => StartClaims(tag, attrs) + Claims(kids)
    case Text(data) => TextClaims(data)
  }

  function ItemClaims(item: Item): seq<Claim> {
    match item
    case Start(tag, attrs, _, _) => StartClaims(tag, attrs)
    case Chars(data, _) => TextClaims(data)
    case _ => []
  }

  /** The claims of what has been read so far. */
  function ClaimsOf(frames: seq<Frame>, cur: seq<Node>): seq<Claim> {
    if frames == [] then Claims(cur)
    else
      var f := frames[|frames| - 1];
      ClaimsOf(frames[..|frames| - 1], f.before) + StartClaims(f.tag, f.attrs) + Claims(cur)
  }

  lemma {:induction false} ClaimsMore(nodes: seq<Node>, x: Node)
    ensures Claims(nodes + [x]) == Claims(nodes) + NodeClaims(x)
    decreases |nodes|
  {
    if nodes == [] {
      assert nodes + [x] == [x];
    } else {
      assert (nodes + [x])[1..] == nodes[1..] + [x];
      ClaimsMore(nodes[1..], x);
    }
  }

  /** Each item adds its claims. */
  lemma StepClaims(frames: seq<Frame>, cur: seq<Node>, item: Item)
    requires Step(frames, cur, item).State?
    ensures var st := Step(frames, cur, item); ClaimsOf(st.frames, st.cur) == ClaimsOf(frames, cur) + ItemClaims(item)
  {
    hide StartClaims, TextClaims;
    match item
    case Bad =>
    case Start(tag, attrs, true, _) =>
      ClaimsMore(cur, Elem(tag, attrs, []));
    case Start(tag, attrs, false, _) =>
      assert (frames + [Frame(tag, attrs, cur)])[..|frames|] == frames;
    case End(tag, _) =>
      var f := frames[|frames| - 1];
      ClaimsMore(f.before, Elem(f.tag, f.attrs, cur));
      EndClaims(frames[..|frames| - 1], f, cur);
    case Chars(data, _) =>
      ClaimsMore(cur, Text(data));
  }

  lemma EndClaims(frames: seq<Frame>, f: Frame, cur: seq<Node>)
    requires Claims(f.before + [Elem(f.tag, f.attrs, cur)]) == Claims(f.before) + NodeClaims(Elem(f.tag, f.attrs, cur))
    ensures ClaimsOf(frames, f.before + [Elem(f.tag, f.attrs, cur)]) == ClaimsOf(frames, f.before) + StartClaims(f.tag, f.attrs) + Claims(cur)
  {
  }

  /** The claims so far come first among those of the whole tree. */
  lemma {:induction false} ClaimsFirst(s: seq<byte>, i: nat, frames: seq<Frame>, cur: seq<Node>)
    requires i <= |s| && Parse(s, i, frames, cur).Tree?
    ensures ClaimsOf(frames, cur) <= Claims(Parse(s, i, frames, cur).nodes)
    decreases |s| - i
  {
    hide ReadItem, Claims, ClaimsOf, Step, ItemClaims;
    if SkipDelims(s, i) == |s| {
      OuterClaims(cur);
    } else {
      var item := ReadItem(s, i);
      ParseStep(s, i, frames, cur, item);
      StepClaims(frames, cur, item);
      var st := Step(frames, cur, item);
      ClaimsFirst(s, item.next, st.frames, st.cur);
    }
  }

  lemma OuterClaims(cur: seq<Node>)
    ensures ClaimsOf([], cur) == Claims(cur)
  {
  }

  /** When an item cannot be had, the tree cannot. */
  lemma CannotHave(s: seq<byte>, i: nat, frames: seq<Frame>, cur: seq<Node>, st: Store, cap: int, item: Item)
    requires i <= |s| && SkipDelims(s, i) < |s| && item == ReadItem(s, i)
    requires !HasAll(TakeAll(st, ClaimsOf(frames, cur)), cap, ItemClaims(item))
    ensures match Parse(s, i, frames, cur) case NoTree => true case Tree(nodes) => !HasAll(st, cap, Claims(nodes))
  {
    hide ReadItem, Claims, ClaimsOf, Step, ItemClaims, HasAll, TakeAll, SkipDelims, Parse;
    ParseStep(s, i, frames, cur, item);
    if Parse(s, i, frames, cur).Tree? {
      var next := Step(frames, cur, item);
      StepClaims(frames, cur, item);
      ClaimsFirst(s, item.next, next.frames, next.cur);
      var all, some := Claims(Parse(s, i, frames, cur).nodes), ClaimsOf(next.frames, next.cur);
      assert all == some + all[|some|..];
      TakeBoth(st, cap, some, all[|some|..]);
      TakeBoth(st, cap, ClaimsOf(frames, cur), ItemClaims(item));
    }
  }
}

/** Where the blocks of the arena lie, and what they hold (base.c). */
module ArenaSpace {
  import opened Bytes
  import opened ArenaLinks
  import opened Lists

  /** The place and size of a block, and whether it may be given up when memory runs out. */
  datatype MemDef = MemDef(bufptr: nat, size: nat, buffered: bool)

  function End(d: MemDef): nat {
    d.bufptr + d.size
  }

  /** The bytes that a list of blocks takes. */
  function Total(defs: seq<MemDef>, list: seq<nat>): nat
    requires InTable(|defs|, list)
  {
    if list == [] then 0 else Total(defs, list[..|list| - 1]) + defs[list[|list| - 1]].size
  }

  /** The blocks lie in the order of the list, apart from each other and below the limit. */
  predicate Ordered(defs: seq<MemDef>, list: seq<nat>, limit: int)
    requires InTable(|defs|, list)
  {
    && (forall i, j :: 0 <= i < j < |list| ==> End(defs[list[i]]) <= defs[list[j]].bufptr)
    && (forall i :: 0 <= i < |list| ==> End(defs[list[i]]) <= limit)
  }

  /** The first n blocks lie without gaps from the start of the arena. */
  predicate Packed(defs: seq<MemDef>, list: seq<nat>, n: nat)
    requires InTable(|defs|, list) && n <= |list|
  {
    forall i :: 0 <= i < n ==> defs[list[i]].bufptr == Total(defs, list[..i])
  }

  /** The end of what is in use: it is behind every block, and past the arena by no more than the last block is long. */
  predicate Spaced(defs: seq<MemDef>, list: seq<nat>, memsize: nat, memmax: nat)
    requires InTable(|defs|, list)
  {
    && Ordered(defs, list, memsize) && Ordered(defs, list, memmax)
    && (if list == [] then memsize == 0 else memsize <= memmax + defs[list[|list| - 1]].size)
  }

  /** A known absence of holes. */
  predicate Tight(defs: seq<MemDef>, list: seq<nat>, memsize: nat)
    requires InTable(|defs|, list)
  {
    Packed(defs, list, |list|) && memsize == Total(defs, list)
  }

  // --- sums --------------------------------------------------------------------------------------------------------

  lemma TotalStep(defs: seq<MemDef>, list: seq<nat>, k: nat)
    requires InTable(|defs|, list) && k < |list|
    ensures Total(defs, list[..k + 1]) == Total(defs, list[..k]) + defs[list[k]].size
  {
    assert list[..k + 1][..k] == list[..k];
  }

  lemma {:induction false} TotalSame(defs: seq<MemDef>, new_d: seq<MemDef>, list: seq<nat>)
    requires InTable(|defs|, list) && InTable(|new_d|, list)
    requires forall i :: 0 <= i < |list| ==> defs[list[i]].size == new_d[list[i]].size
    ensures Total(defs, list) == Total(new_d, list)
  {
    if list != [] {
      var n := |list| - 1;
      assert forall i :: 0 <= i < n ==> list[..n][i] == list[i];
      TotalSame(defs, new_d, list[..n]);
    }
  }

  lemma {:induction false} TotalWithout(defs: seq<MemDef>, list: seq<nat>, i: nat)
    requires InTable(|defs|, list) && i < |list|
    ensures InTable(|defs|, Without(list, i)) && Total(defs, Without(list, i)) == Total(defs, list) - defs[list[i]].size
  {
    var n, w := |list| - 1, Without(list, i);
    if i == n {
      assert w == list[..n];
    } else {
      assert w[..n - 1] == Without(list[..n], i) && w[n - 1] == list[n];
      TotalWithout(defs, list[..n], i);
    }
  }

  lemma {:induction false} TotalMonotone(defs: seq<MemDef>, list: seq<nat>, a: nat, b: nat)
    requires InTable(|defs|, list) && a <= b <= |list|
    ensures Total(defs, list[..a]) <= Total(defs, list[..b])
    decreases b - a
  {
    if a < b {
      TotalStep(defs, list, b - 1);
      TotalMonotone(defs, list, a, b - 1);
    }
  }

  /** The blocks before place k need no more room than there is before it. */
  lemma {:induction false} TotalBelow(defs: seq<MemDef>, list: seq<nat>, limit: int, k: nat)
    requires InTable(|defs|, list) && Ordered(defs, list, limit) && k <= |list| && 0 <= limit
    ensures Total(defs, list[..k]) <= if k < |list| then defs[list[k]].bufptr else limit
  {
    if k > 0 {
      TotalBelow(defs, list, limit, k - 1);
      TotalStep(defs, list, k - 1);
      assert End(defs[list[k - 1]]) <= if k < |list| then defs[list[k]].bufptr else limit;
    }
  }

  // --- contents ------------------------------------------------------------------------------------------------------

  /** The bytes of a block. */
  function Slice(m: seq<byte>, d: MemDef): seq<byte> {
    if End(d) <= |m| then m[d.bufptr..End(d)] else []
  }

  /** What every block holds. */
  ghost function Contents(m: seq<byte>, defs: seq<MemDef>, list: seq<nat>): map<nat, seq<byte>>
    requires InTable(|defs|, list)
  {
    map h | h in list :: Slice(m, defs[h])
  }

  /** memmove. */
  function Moved(m: seq<byte>, dst: nat, src: nat, n: nat): (r: seq<byte>)
    requires dst + n <= |m| && src + n <= |m|
    ensures |r| == |m|
  {
    m[..dst] + m[src..src + n] + m[dst + n..]
  }

  /** memset with zero. */
  function Zeroed(m: seq<byte>, at: nat, n: nat): (r: seq<byte>)
    requires at + n <= |m|
    ensures |r| == |m|
  {
    m[..at] + seq(n, _ => 0 as byte) + m[at + n..]
  }

  /** The two memories agree outside a range. */
  predicate Outside(m: seq<byte>, n: seq<byte>, a: nat, b: nat) {
    a <= b <= |m| == |n| && m[..a] == n[..a] && m[b..] == n[b..]
  }

  lemma SliceOutside(m: seq<byte>, n: seq<byte>, a: nat, b: nat, d: MemDef)
    requires Outside(m, n, a, b) && (End(d) <= a || b <= d.bufptr)
    ensures Slice(m, d) == Slice(n, d)
  {
    var x, y := d.bufptr, End(d);
    if y <= |m| {
      if y <= a {
        assert m[x..y] == m[..a][x..y] == n[..a][x..y] == n[x..y];
      } else {
        assert m[x..y] == m[b..][x - b..y - b] == n[b..][x - b..y - b] == n[x..y];
      }
    }
  }

  // --- one block gets another place ------------------------------------------------------------------------------------

  /** The room that block i may take: from the end of the block before it to the start of the one behind it. */
  predicate Room(defs: seq<MemDef>, list: seq<nat>, i: nat, a: int, b: int)
    requires InTable(|defs|, list) && i < |list|
  {
    && (i > 0 ==> End(defs[list[i - 1]]) <= a)
    && (i + 1 < |list| ==> b <= defs[list[i + 1]].bufptr)
  }

  lemma Apart(defs: seq<MemDef>, list: seq<nat>, limit: int, i: nat, a: nat, b: nat, j: nat)
    requires InTable(|defs|, list) && Ordered(defs, list, limit) && i < |list| && Room(defs, list, i, a, b)
    requires j < |list| && j != i
    ensures if j < i then End(defs[list[j]]) <= a else b <= defs[list[j]].bufptr
  {
    if j < i - 1 {
      assert End(defs[list[j]]) <= defs[list[i - 1]].bufptr;
    } else if j > i + 1 {
      assert End(defs[list[i + 1]]) <= defs[list[j]].bufptr;
    }
  }

  /** A block that moves within its room leaves the others in order. */
  lemma Replaced(defs: seq<MemDef>, list: seq<nat>, limit: int, i: nat, d: MemDef, new_limit: int)
    requires InTable(|defs|, list) && Distinct(list) && Ordered(defs, list, limit) && i < |list|
    requires Room(defs, list, i, d.bufptr, End(d)) && End(d) <= new_limit
    requires limit <= new_limit || i == |list| - 1
    ensures Ordered(defs[list[i] := d], list, new_limit)
  {
    var new_d := defs[list[i] := d];
    forall j | 0 <= j < |list|
      ensures if j == i then new_d[list[j]] == d else new_d[list[j]] == defs[list[j]]
      ensures j < i ==> End(defs[list[j]]) <= d.bufptr
      ensures j > i ==> End(d) <= defs[list[j]].bufptr
    {
      if j != i {
        Apart(defs, list, limit, i, d.bufptr, End(d), j);
      }
    }
  }

  /** What changes in the room of a block does not change the others. */
  lemma OthersKept(m: seq<byte>, n: seq<byte>, defs: seq<MemDef>, list: seq<nat>, limit: int, i: nat, d: MemDef, a: nat, b: nat)
    requires InTable(|defs|, list) && Distinct(list) && Ordered(defs, list, limit) && i < |list|
    requires Room(defs, list, i, a, b) && Outside(m, n, a, b)
    ensures Contents(n, defs[list[i] := d], list) == Contents(m, defs, list)[list[i] := Slice(n, d)]
  {
    hide Ordered, Room, Outside, Slice, Distinct;
    var new_d, c := defs[list[i] := d], Contents(m, defs, list)[list[i] := Slice(n, d)];
    forall h | h in list
      ensures h in c && Slice(n, new_d[h]) == c[h]
    {
      if h != list[i] {
        OtherKept(m, n, defs, list, limit, i, a, b, PlaceOf(list, h));
      }
    }
  }

  lemma OtherKept(m: seq<byte>, n: seq<byte>, defs: seq<MemDef>, list: seq<nat>, limit: int, i: nat, a: nat, b: nat, j: nat)
    requires InTable(|defs|, list) && Ordered(defs, list, limit) && i < |list|
    requires Room(defs, list, i, a, b) && Outside(m, n, a, b) && j < |list| && j != i
    ensures Slice(n, defs[list[j]]) == Slice(m, defs[list[j]])
  {
    Apart(defs, list, limit, i, a, b, j);
    SliceOutside(m, n, a, b, defs[list[j]]);
  }

  // --- a block goes -----------------------------------------------------------------------------------------------------

  lemma OrderedWithout(defs: seq<MemDef>, list: seq<nat>, limit: int, i: nat)
    requires InTable(|defs|, list) && Ordered(defs, list, limit) && i < |list|
    ensures InTable(|defs|, Without(list, i)) && Ordered(defs, Without(list, i), limit)
  {
    var w := Without(list, i);
    assert forall k :: 0 <= k < |w| ==> w[k] == list[if k < i then k else k + 1];
  }

  /** The end of what is in use when block i is taken out. */
  function SizeWithout(defs: seq<MemDef>, list: seq<nat>, i: nat, memsize: nat): nat
    requires InTable(|defs|, list) && i < |list|
  {
    if i + 1 < |list| then memsize else if i == 0 then 0 else End(defs[list[i - 1]])
  }

  lemma SpacedWithout(defs: seq<MemDef>, list: seq<nat>, memsize: nat, memmax: nat, i: nat)
    requires InTable(|defs|, list) && Spaced(defs, list, memsize, memmax) && i < |list|
    ensures InTable(|defs|, Without(list, i))
    ensures Spaced(defs, Without(list, i), SizeWithout(defs, list, i, memsize), memmax)
  {
    var w, size := Without(list, i), SizeWithout(defs, list, i, memsize);
    OrderedWithout(defs, list, memmax, i);
    OrderedWithout(defs, list, memsize, i);
    if i + 1 == |list| {
      assert w == list[..i];
      assert forall k :: 0 <= k < i - 1 ==> End(defs[list[k]]) <= defs[list[i - 1]].bufptr;
    } else {
      assert w[|w| - 1] == list[|list| - 1];
    }
  }

  /** Taking out the last block, or an empty one, makes no hole. */
  lemma TightWithout(defs: seq<MemDef>, list: seq<nat>, memsize: nat, i: nat)
    requires InTable(|defs|, list) && Tight(defs, list, memsize) && i < |list|
    requires i + 1 == |list| || defs[list[i]].size == 0
    ensures InTable(|defs|, Without(list, i)) && Tight(defs, Without(list, i), SizeWithout(defs, list, i, memsize))
  {
    hide Total, Packed;
    var w := Without(list, i);
    TotalWithout(defs, list, i);
    PackedWithout(defs, list, i);
    if i + 1 == |list| && i > 0 {
      assert w == list[..i];
      PackedEnd(defs, list, i - 1);
    } else if i + 1 == |list| {
      NoTotal(defs, w);
    }
  }

  lemma NoTotal(defs: seq<MemDef>, w: seq<nat>)
    requires w == []
    ensures InTable(|defs|, w) && Total(defs, w) == 0
  {
  }

  lemma PackedEnd(defs: seq<MemDef>, list: seq<nat>, k: nat)
    requires InTable(|defs|, list) && Packed(defs, list, |list|) && k < |list|
    ensures End(defs[list[k]]) == Total(defs, list[..k + 1])
  {
    TotalStep(defs, list, k);
  }

  lemma PackedWithout(defs: seq<MemDef>, list: seq<nat>, i: nat)
    requires InTable(|defs|, list) && Packed(defs, list, |list|) && i < |list| && (i + 1 == |list| || defs[list[i]].size == 0)
    ensures InTable(|defs|, Without(list, i)) && Packed(defs, Without(list, i), |list| - 1)
  {
    hide Total;
    var w := Without(list, i);
    assert forall k :: 0 <= k < |w| ==> w[k] == list[if k < i then k else k + 1];
    forall k | 0 <= k < |w|
      ensures defs[w[k]].bufptr == Total(defs, w[..k])
    {
      if k < i {
        assert w[..k] == list[..k];
      } else {
        assert w[..k] == Without(list[..k + 1], i);
        TotalWithout(defs, list[..k + 1], i);
      }
    }
  }

  lemma ContentsWithout(m: seq<byte>, defs: seq<MemDef>, list: seq<nat>, i: nat)
    requires InTable(|defs|, list) && Distinct(list) && i < |list|
    ensures InTable(|defs|, Without(list, i))
    ensures Contents(m, defs, Without(list, i)) == Contents(m, defs, list) - {list[i]}
  {
    WithoutMembers(list, i);
  }

  // --- a block comes ----------------------------------------------------------------------------------------------------

  /** A block behind all the others. */
  lemma SpacedWith(defs: seq<MemDef>, list: seq<nat>, memsize: nat, memmax: nat, h: nat, d: MemDef)
    requires InTable(|defs|, list) && Spaced(defs, list, memsize, memmax) && h < |defs| && h !in list
    requires d.bufptr == memsize && End(d) <= memmax
    ensures InTable(|defs|, list + [h]) && Spaced(defs[h := d], list + [h], End(d), memmax)
  {
    var w, new_d := list + [h], defs[h := d];
    assert forall k :: 0 <= k < |list| ==> w[k] == list[k] && new_d[list[k]] == defs[list[k]];
  }

  lemma {:induction false} TotalElsewhere(defs: seq<MemDef>, list: seq<nat>, h: nat, d: MemDef)
    requires InTable(|defs|, list) && h < |defs| && h !in list
    ensures Total(defs[h := d], list) == Total(defs, list)
  {
    TotalSame(defs, defs[h := d], list);
  }

  /** A block right behind the others leaves no hole. */
  lemma TightWith(defs: seq<MemDef>, list: seq<nat>, memsize: nat, h: nat, d: MemDef)
    requires InTable(|defs|, list) && Tight(defs, list, memsize) && h < |defs| && h !in list && d.bufptr == memsize
    ensures InTable(|defs|, list + [h]) && Tight(defs[h := d], list + [h], End(d))
  {
    var w, new_d := list + [h], defs[h := d];
    forall k | 0 <= k < |w|
      ensures new_d[w[k]].bufptr == Total(new_d, w[..k])
    {
      assert w[..k] == list[..k];
      TotalElsewhere(defs, list[..k], h, d);
      assert list[..|list|] == list;
    }
    assert w[..|list|] == list;
    TotalElsewhere(defs, list, h, d);
  }

  lemma ContentsWith(m: seq<byte>, defs: seq<MemDef>, list: seq<nat>, h: nat, d: MemDef)
    requires InTable(|defs|, list) && h < |defs| && h !in list
    ensures InTable(|defs|, list + [h])
    ensures Contents(m, defs[h := d], list + [h]) == Contents(m, defs, list)[h := Slice(m, d)]
  {
    var a, b := Contents(m, defs[h := d], list + [h]), Contents(m, defs, list)[h := Slice(m, d)];
    assert forall g :: g in list + [h] <==> g in list || g == h;
    assert forall g :: g in a ==> a[g] == b[g];
  }

  // --- compaction -------------------------------------------------------------------------------------------------------

  /** The first k blocks have been moved down, and every block still holds what it held. */
  ghost predicate Sliding(m: seq<byte>, defs: seq<MemDef>, list: seq<nat>, k: nat, c: map<nat, seq<byte>>) {
    && InTable(|defs|, list) && Distinct(list) && k <= |list| && Ordered(defs, list, |m|) && Packed(defs, list, k)
    && Contents(m, defs, list) == c
  }

  /** Block k is moved down to the end of the ones before it. */
  lemma SlideStep(m: seq<byte>, defs: seq<MemDef>, list: seq<nat>, k: nat, c: map<nat, seq<byte>>, to: nat)
    requires Sliding(m, defs, list, k, c) && k < |list| && to == Total(defs, list[..k])
    ensures var d := defs[list[k]];
            && to <= d.bufptr && End(d) <= |m|
            && Sliding(Moved(m, to, d.bufptr, d.size), defs[list[k] := d.(bufptr := to)], list, k + 1, c)
            && Total(defs[list[k] := d.(bufptr := to)], list[..k + 1]) == to + d.size
  {
    hide Ordered, Room, Outside, Slice, Moved, Packed, Total, Contents, Distinct;
    var h, d := list[k], defs[list[k]];
    TotalBelow(defs, list, |m|, k);
    Inside(defs, list, |m|, k);
    SlidRoom(defs, list, k, to, |m|);
    var e := d.(bufptr := to);
    var n, new_d := Moved(m, to, d.bufptr, d.size), defs[h := e];
    Replaced(defs, list, |m|, k, e, |m|);
    SlidSlice(m, to, d);
    OthersKept(m, n, defs, list, |m|, k, e, to, End(d));
    HeldAt(m, defs, list, k);
    assert c[h := Slice(n, e)] == c;
    SlidPacked(defs, list, k, e);
  }

  lemma Inside(defs: seq<MemDef>, list: seq<nat>, limit: int, k: nat)
    requires InTable(|defs|, list) && Ordered(defs, list, limit) && k < |list|
    ensures End(defs[list[k]]) <= limit
  {
  }

  lemma HeldAt(m: seq<byte>, defs: seq<MemDef>, list: seq<nat>, k: nat)
    requires InTable(|defs|, list) && k < |list|
    ensures list[k] in Contents(m, defs, list) && Contents(m, defs, list)[list[k]] == Slice(m, defs[list[k]])
  {
  }

  lemma SlidRoom(defs: seq<MemDef>, list: seq<nat>, k: nat, to: nat, limit: nat)
    requires InTable(|defs|, list) && k < |list| && Ordered(defs, list, limit) && Packed(defs, list, k) && to == Total(defs, list[..k])
    ensures Room(defs, list, k, to, End(defs[list[k]]))
  {
    if k > 0 {
      TotalStep(defs, list, k - 1);
    }
  }

  lemma SlidSlice(m: seq<byte>, to: nat, d: MemDef)
    requires to <= d.bufptr && End(d) <= |m|
    ensures Slice(Moved(m, to, d.bufptr, d.size), d.(bufptr := to)) == Slice(m, d)
    ensures Outside(m, Moved(m, to, d.bufptr, d.size), to, End(d))
  {
    var n := Moved(m, to, d.bufptr, d.size);
    assert n[End(d)..] == m[End(d)..];
  }

  lemma SlidPacked(defs: seq<MemDef>, list: seq<nat>, k: nat, e: MemDef)
    requires InTable(|defs|, list) && Distinct(list) && k < |list| && Packed(defs, list, k)
    requires e.bufptr == Total(defs, list[..k]) && e.size == defs[list[k]].size
    ensures Packed(defs[list[k] := e], list, k + 1)
    ensures Total(defs[list[k] := e], list[..k + 1]) == Total(defs, list[..k]) + e.size
  {
    hide Total;
    var new_d := defs[list[k] := e];
    TotalStep(defs, list, k);
    TotalPrefix(defs, new_d, list, k + 1);
    forall i | 0 <= i < k + 1
      ensures new_d[list[i]].bufptr == Total(new_d, list[..i])
    {
      TotalPrefix(defs, new_d, list, i);
      assert i < k ==> list[i] != list[k];
    }
  }

  lemma TotalPrefix(defs: seq<MemDef>, new_d: seq<MemDef>, list: seq<nat>, n: nat)
    requires InTable(|defs|, list) && InTable(|new_d|, list) && n <= |list|
    requires forall i :: 0 <= i < |list| ==> defs[list[i]].size == new_d[list[i]].size
    ensures Total(defs, list[..n]) == Total(new_d, list[..n])
  {
    TotalSame(defs, new_d, list[..n]);
  }

  /** Only the places of blocks have changed. */
  predicate Slid(defs: seq<MemDef>, new_d: seq<MemDef>) {
    |new_d| == |defs| && forall h :: 0 <= h < |defs| ==> new_d[h] == defs[h].(bufptr := new_d[h].bufptr)
  }

  /** Without holes, everything ends where it should. */
  lemma {:induction false} TightSpaced(defs: seq<MemDef>, list: seq<nat>, memsize: nat, memmax: nat)
    requires InTable(|defs|, list) && Tight(defs, list, memsize) && Ordered(defs, list, memmax)
    ensures Spaced(defs, list, memsize, memmax) && memsize <= memmax
  {
    assert list[..|list|] == list;
    TotalBelow(defs, list, memmax, |list|);
    forall i | 0 <= i < |list|
      ensures End(defs[list[i]]) <= memsize
    {
      TotalStep(defs, list, i);
      TotalMonotone(defs, list, i + 1, |list|);
    }
  }
}

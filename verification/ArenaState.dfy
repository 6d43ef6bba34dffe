/** The invariant of the allocator's tables (base.c), and how each change of the block list keeps it. */
module ArenaState {
  import opened Bytes
  import opened ArenaLinks
  import opened ArenaBroken
  import opened ArenaSpace
  import opened ArenaBuffers
  import opened Lists

  /** The records that are not in use. */
  predicate Spare(n: nat, list: seq<nat>, free: seq<nat>) {
    InTable(n, free) && Distinct(free) && forall h :: h in free ==> h !in list
  }

  /** The tables are right when what is in use ends here: the links describe the list, the blocks lie apart in its
      order, without holes when none are known, and the buffer list has the blocks that are marked. */
  predicate Right(links: seq<Link>, defs: seq<MemDef>, first: int, last: int, free: seq<nat>, lru: seq<Buffer>, memhole: nat,
                  list: seq<nat>, end: nat, memmax: nat)
  {
    && Linked(links, list, first, last) && |links| == |defs| && Spare(|defs|, list, free)
    && Spaced(defs, list, end, memmax) && (memhole == 0 ==> Tight(defs, list, end))
    && Registered(defs, list, lru)
  }

  /** What a method needs to know of a handle. */
  lemma HandleFacts(links: seq<Link>, defs: seq<MemDef>, first: int, last: int, free: seq<nat>, lru: seq<Buffer>, memhole: nat,
                    list: seq<nat>, end: nat, memmax: nat, h: nat)
    requires Right(links, defs, first, last, free, lru, memhole, list, end, memmax) && h in list
    ensures InTable(|defs|, list) && Distinct(list) && |links| == |defs| && h < |defs| && OnceEach(lru)
    ensures defs[h].buffered <==> Has(lru, h)
  {
    var i := PlaceOf(list, h);
  }

  /** What a method needs to know of a block. */
  lemma BlockFacts(links: seq<Link>, defs: seq<MemDef>, first: int, last: int, free: seq<nat>, lru: seq<Buffer>, memhole: nat,
                   list: seq<nat>, end: nat, memmax: nat, i: nat)
    requires Right(links, defs, first, last, free, lru, memhole, list, end, memmax) && i < |list|
    ensures |links| == |defs| && list[i] < |defs| && Distinct(list) && Joined(links, list, i)
    ensures links[list[i]].prev == (if i == 0 then NIL else list[i - 1])
    ensures links[list[i]].next == (if i + 1 == |list| then NIL else list[i + 1])
    ensures i > 0 ==> list[i - 1] < |defs| && list[i - 1] != list[i] && End(defs[list[i - 1]]) <= defs[list[i]].bufptr
    ensures i + 1 < |list| ==> list[i + 1] < |defs| && list[i + 1] != list[i] && End(defs[list[i]]) <= defs[list[i + 1]].bufptr
    ensures i > 0 && i + 1 < |list| ==> list[i - 1] != list[i + 1]
    ensures i + 1 < |list| ==> defs[list[i + 1]].bufptr <= memmax
    ensures first == list[0] && last == list[|list| - 1] && End(defs[list[i]]) <= end && End(defs[list[i]]) <= memmax
  {
    Neighbours(links, list, first, last, i);
  }

  /** Block i goes. */
  lemma RightWithout(links: seq<Link>, defs: seq<MemDef>, first: int, last: int, free: seq<nat>, lru: seq<Buffer>, memhole: nat,
                     list: seq<nat>, end: nat, memmax: nat, i: nat, hole: nat)
    requires Right(links, defs, first, last, free, lru, memhole, list, end, memmax) && i < |list| && !defs[list[i]].buffered
    requires if i + 1 < |list| then hole >= memhole && hole >= defs[list[i]].size else hole == if i == 0 then 0 else memhole
    ensures Joined(links, list, i) && InTable(|defs|, list)
    ensures var left, right := if i == 0 then NIL else list[i - 1], if i + 1 == |list| then NIL else list[i + 1];
            Right(Unlinked(links, list[i]), defs, if left != NIL then first else right, if right != NIL then last else left,
                  [list[i]] + free, lru, hole, Without(list, i), SizeWithout(defs, list, i, end), memmax)
  {
    hide Linked, Spaced, Registered, Without, SizeWithout, Tight, Unlinked, Joined;
    NoList(links, list, first, last);
    UnlinkedLinked(links, list, first, last, i);
    SpacedWithout(defs, list, end, memmax, i);
    if hole == 0 {
      if |list| == 1 {
        TightNone(defs, list, end);
      } else {
        TightWithout(defs, list, end, i);
      }
    }
    RegisteredWithout(defs, list, lru, i);
    SpareMore(|defs|, list, free, i);
  }

  lemma SpareMore(n: nat, list: seq<nat>, free: seq<nat>, i: nat)
    requires InTable(n, list) && Distinct(list) && Spare(n, list, free) && i < |list|
    ensures Spare(n, Without(list, i), [list[i]] + free)
  {
    WithoutMembers(list, i);
    assert list[i] in list;
  }

  lemma NoList(links: seq<Link>, list: seq<nat>, first: int, last: int)
    requires Linked(links, list, first, last)
    ensures InTable(|links|, list) && Distinct(list)
  {
  }

  lemma TightNone(defs: seq<MemDef>, list: seq<nat>, end: nat)
    requires InTable(|defs|, list) && |list| == 1
    ensures InTable(|defs|, Without(list, 0)) && Tight(defs, Without(list, 0), SizeWithout(defs, list, 0, end))
  {
    assert Without(list, 0) == [];
  }

  /** Block i is no longer marked. */
  lemma RightUnmarked(links: seq<Link>, defs: seq<MemDef>, first: int, last: int, free: seq<nat>, lru: seq<Buffer>, memhole: nat,
                      list: seq<nat>, end: nat, memmax: nat, j: nat)
    requires Right(links, defs, first, last, free, lru, memhole, list, end, memmax) && j < |lru|
    ensures lru[j].handle in list && lru[j].handle < |defs|
    ensures var h := lru[j].handle;
            Right(links, defs[h := defs[h].(buffered := false)], first, last, free, Dropped(lru, j), memhole, list, end, memmax)
  {
    hide Linked, Spaced, Registered, Dropped, Tight, Spare;
    NoList(links, list, first, last);
    DroppedRegistered(defs, list, lru, j);
    var h := lru[j].handle;
    ghost var i := PlaceOf(list, h);
    Unmarked(defs, defs[h := defs[h].(buffered := false)], list, end, memmax);
  }

  lemma Unmarked(defs: seq<MemDef>, new_d: seq<MemDef>, list: seq<nat>, memsize: nat, memmax: nat)
    requires InTable(|defs|, list) && |new_d| == |defs|
    requires forall h :: 0 <= h < |defs| ==> new_d[h] == defs[h].(buffered := new_d[h].buffered)
    ensures Spaced(defs, list, memsize, memmax) ==> Spaced(new_d, list, memsize, memmax)
    ensures Tight(defs, list, memsize) ==> Tight(new_d, list, memsize)
  {
    forall i | 0 <= i <= |list|
      ensures Total(defs, list[..i]) == Total(new_d, list[..i])
    {
      TotalSame(defs, new_d, list[..i]);
    }
    assert list[..|list|] == list;
  }

  /** Every block has been moved down. */
  lemma RightPacked(links: seq<Link>, defs: seq<MemDef>, first: int, last: int, free: seq<nat>, lru: seq<Buffer>, memhole: nat,
                    list: seq<nat>, end: nat, memmax: nat, new_d: seq<MemDef>)
    requires Right(links, defs, first, last, free, lru, memhole, list, end, memmax)
    requires Slid(defs, new_d) && InTable(|new_d|, list) && Ordered(new_d, list, memmax) && Packed(new_d, list, |list|)
    ensures Right(links, new_d, first, last, free, lru, 0, list, Total(new_d, list), memmax)
    ensures Total(new_d, list) == Total(defs, list) <= memmax
  {
    hide Linked, Spaced, Registered, Ordered, Packed;
    NoList(links, list, first, last);
    TightSpaced(new_d, list, Total(new_d, list), memmax);
    RegisteredSame(defs, new_d, list, lru);
    TotalSame(defs, new_d, list);
  }

  /** What a method needs to know of the oldest buffer. */
  lemma OldestFacts(links: seq<Link>, defs: seq<MemDef>, first: int, last: int, free: seq<nat>, lru: seq<Buffer>, memhole: nat,
                    list: seq<nat>, end: nat, memmax: nat)
    requires Right(links, defs, first, last, free, lru, memhole, list, end, memmax)
    ensures InTable(|defs|, list) && Handles(|defs|, lru) && Total(defs, list) <= end
    ensures lru != [] ==> lru[0].handle in list && lru[0].handle < |defs| && Dropped(lru, 0) == lru[1..]
    ensures Total(defs, list) == Fixed(defs, list) + Freed(defs, lru, |lru|)
  {
    RegisteredHandles(defs, list, lru);
    assert list[..|list|] == list;
    TotalBelow(defs, list, end, |list|);
    FixedFreed(defs, list, lru);
    hide Linked, Registered, Spaced;
  }

  predicate SameSizes(defs: seq<MemDef>, new_d: seq<MemDef>) {
    |new_d| == |defs| && forall h :: 0 <= h < |defs| ==> new_d[h].size == defs[h].size
  }

  lemma TotalUnmarked(defs: seq<MemDef>, list: seq<nat>, i: nat)
    requires InTable(|defs|, list) && i < |list|
    ensures var new_d := defs[list[i] := defs[list[i]].(buffered := false)];
            && InTable(|new_d|, Without(list, i)) && Total(new_d, Without(list, i)) == Total(defs, list) - defs[list[i]].size
            && SameSizes(defs, new_d)
  {
    TotalWithout(defs, list, i);
    TotalSame(defs, defs[list[i] := defs[list[i]].(buffered := false)], Without(list, i));
  }

  /** What has become of the state when the k oldest buffers are given up: the buffer list, the calls made, the contents and
      the bytes in use. */
  ghost predicate Given(lru0: seq<Buffer>, defs0: seq<MemDef>, calls0: seq<int>, v0: map<nat, seq<byte>>, total0: int, k: nat,
                        lru: seq<Buffer>, defs: seq<MemDef>, calls: seq<int>, v: map<nat, seq<byte>>, total: int)
  {
    && k <= |lru0| && lru == lru0[k..] && calls == calls0 + Parms(lru0[..k]) && v == v0 - HandleSet(lru0[..k])
    && SameSizes(defs0, defs) && Handles(|defs0|, lru0) && total == total0 - Freed(defs0, lru0, k)
  }

  lemma GivenNone(lru: seq<Buffer>, defs: seq<MemDef>, calls: seq<int>, v: map<nat, seq<byte>>, total: int)
    requires Handles(|defs|, lru)
    ensures Given(lru, defs, calls, v, total, 0, lru, defs, calls, v, total)
  {
    assert lru[..0] == [] && v - {} == v;
  }

  lemma GivenOne(lru0: seq<Buffer>, defs0: seq<MemDef>, calls0: seq<int>, v0: map<nat, seq<byte>>, total0: int, k: nat,
                 lru: seq<Buffer>, defs: seq<MemDef>, calls: seq<int>, v: map<nat, seq<byte>>, total: int, new_d: seq<MemDef>)
    requires Given(lru0, defs0, calls0, v0, total0, k, lru, defs, calls, v, total) && lru != [] && SameSizes(defs, new_d)
    ensures k < |lru0| && lru[0] == lru0[k] && lru[0].handle < |defs0| == |defs| && Handles(|defs0|, lru0)
    ensures defs[lru[0].handle].size == defs0[lru[0].handle].size
    ensures var b := lru[0];
            Given(lru0, defs0, calls0, v0, total0, k + 1, lru[1..], new_d, calls + [b.cbparm], v - {b.handle},
                  total - defs[b.handle].size)
    ensures Freed(defs0, lru0, k + 1) == Freed(defs0, lru0, k) + defs0[lru[0].handle].size
  {
    ParmsStep(lru0, k);
    HandleSetStep(lru0, k);
    assert v0 - HandleSet(lru0[..k]) - {lru0[k].handle} == v0 - HandleSet(lru0[..k + 1]);
  }

  lemma GivenAll(lru0: seq<Buffer>, defs0: seq<MemDef>, calls0: seq<int>, v0: map<nat, seq<byte>>, total0: int, k: nat,
                 defs: seq<MemDef>, calls: seq<int>, v: map<nat, seq<byte>>, total: int)
    requires Given(lru0, defs0, calls0, v0, total0, k, [], defs, calls, v, total)
    ensures k == |lru0|
  {
  }

  lemma GivenSlid(lru0: seq<Buffer>, defs0: seq<MemDef>, calls0: seq<int>, v0: map<nat, seq<byte>>, total0: int, k: nat,
                  lru: seq<Buffer>, defs: seq<MemDef>, calls: seq<int>, v: map<nat, seq<byte>>, total: int, new_d: seq<MemDef>)
    requires Given(lru0, defs0, calls0, v0, total0, k, lru, defs, calls, v, total) && Slid(defs, new_d)
    ensures Given(lru0, defs0, calls0, v0, total0, k, lru, new_d, calls, v, total)
  {
  }

  lemma GivenTotal(lru0: seq<Buffer>, defs0: seq<MemDef>, calls0: seq<int>, v0: map<nat, seq<byte>>, total0: int, k: nat,
                   lru: seq<Buffer>, defs: seq<MemDef>, calls: seq<int>, v: map<nat, seq<byte>>, total: int)
    requires Given(lru0, defs0, calls0, v0, total0, k, lru, defs, calls, v, total)
    ensures k <= |lru0| && Handles(|defs0|, lru0) && total == total0 - Freed(defs0, lru0, k) && Freed(defs0, lru0, k) <= Freed(defs0, lru0, |lru0|)
    ensures |defs| == |defs0|
  {
    FreedMonotone(defs0, lru0, k, |lru0|);
  }

  /** The records get a new block at the end. */
  lemma RightWith(links: seq<Link>, defs: seq<MemDef>, first: int, last: int, free: seq<nat>, lru: seq<Buffer>, memhole: nat,
                  list: seq<nat>, end: nat, memmax: nat, d: MemDef)
    requires Right(links, defs, first, last, free, lru, memhole, list, end, memmax) && free != []
    requires d.bufptr == end && End(d) <= memmax && !d.buffered
    ensures NIL <= last < |links| && free[0] < |defs| == |links| && free[0] !in list && InTable(|defs|, list)
    ensures var h := free[0];
            Right(Appended(links, last, h), defs[h := d], if last != NIL then first else h, h, free[1..], lru, memhole, list + [h],
                  End(d), memmax)
  {
    hide Linked, Spaced, Registered, Tight, Appended;
    var h := free[0];
    NoList(links, list, first, last);
    LastFacts(links, list, first, last);
    assert h in free;
    AppendedLinked(links, list, first, last, h);
    SpacedWith(defs, list, end, memmax, h, d);
    if memhole == 0 {
      TightWith(defs, list, end, h, d);
    }
    RegisteredWith(defs, list, lru, h, d);
  }

  lemma LastFacts(links: seq<Link>, list: seq<nat>, first: int, last: int)
    requires Linked(links, list, first, last)
    ensures NIL <= last < |links| && (last == NIL <==> list == []) && (last != NIL ==> last in list)
  {
  }

  /** More records. */
  lemma RightLonger(links: seq<Link>, defs: seq<MemDef>, first: int, last: int, lru: seq<Buffer>, memhole: nat,
                    list: seq<nat>, end: nat, memmax: nat, n: nat)
    requires Right(links, defs, first, last, [], lru, memhole, list, end, memmax) && n >= 2
    ensures Right(links + seq(n, _ => Link(NIL, NIL)), defs + seq(n, _ => MemDef(0, 0, false)), first, last,
                  seq(n - 1, i requires 0 <= i < n - 1 => |defs| + 1 + i), lru, memhole, list, end, memmax)
    ensures InTable(|defs|, list)
  {
    var l, d, f := links + seq(n, _ => Link(NIL, NIL)), defs + seq(n, _ => MemDef(0, 0, false)),
                   seq(n - 1, i requires 0 <= i < n - 1 => |defs| + 1 + i);
    forall i | 0 <= i < |list|
      ensures Joined(l, list, i)
    {
      assert Joined(links, list, i);
    }
    SparePast(|defs|, list, f);
    hide Linked, Spare;
    LongerSpaced(defs, d, list, end, memmax);
    RegisteredSame(defs, d, list, lru);
  }

  lemma SparePast(n: nat, list: seq<nat>, f: seq<nat>)
    requires InTable(n, list) && forall i :: 0 <= i < |f| ==> f[i] == n + 1 + i
    ensures Spare(n + 1 + |f|, list, f)
  {
  }

  lemma LongerSpaced(defs: seq<MemDef>, new_d: seq<MemDef>, list: seq<nat>, end: nat, memmax: nat)
    requires InTable(|defs|, list) && |defs| <= |new_d| && new_d[..|defs|] == defs
    ensures forall i :: 0 <= i < |list| ==> new_d[list[i]] == defs[list[i]]
    ensures Spaced(defs, list, end, memmax) ==> Spaced(new_d, list, end, memmax)
    ensures Tight(defs, list, end) ==> Tight(new_d, list, end)
  {
    forall i | 0 <= i <= |list|
      ensures Total(defs, list[..i]) == Total(new_d, list[..i])
    {
      TotalSame(defs, new_d, list[..i]);
    }
    assert list[..|list|] == list;
  }

  /** What lies behind all the blocks does not matter to them. */
  lemma BeyondKept(m: seq<byte>, n: seq<byte>, defs: seq<MemDef>, list: seq<nat>, end: nat, memmax: nat, b: nat)
    requires InTable(|defs|, list) && Spaced(defs, list, end, memmax) && Outside(m, n, end, b)
    ensures Contents(n, defs, list) == Contents(m, defs, list)
  {
    hide Outside, Slice;
    forall i | 0 <= i < |list|
      ensures Slice(m, defs[list[i]]) == Slice(n, defs[list[i]])
    {
      SliceOutside(m, n, end, b, defs[list[i]]);
    }
  }

  lemma NotHeld(m: seq<byte>, defs: seq<MemDef>, list: seq<nat>, h: nat)
    requires InTable(|defs|, list) && h !in list
    ensures h !in Contents(m, defs, list)
  {
  }

  lemma ContentsLonger(m: seq<byte>, defs: seq<MemDef>, new_d: seq<MemDef>, list: seq<nat>)
    requires InTable(|defs|, list) && |defs| <= |new_d| && new_d[..|defs|] == defs
    ensures InTable(|new_d|, list) && Contents(m, new_d, list) == Contents(m, defs, list)
  {
    assert forall h :: h in list ==> new_d[h] == new_d[..|defs|][h];
  }

  lemma SameSame(defs: seq<MemDef>, list: seq<nat>, lru: seq<Buffer>)
    requires InTable(|defs|, list) && Handles(|defs|, lru)
    ensures |defs| <= |defs| && defs[..|defs|] == defs
  {
  }

  lemma LongerSame(defs: seq<MemDef>, new_d: seq<MemDef>, list: seq<nat>, lru: seq<Buffer>)
    requires InTable(|defs|, list) && Handles(|defs|, lru) && |defs| <= |new_d| && new_d[..|defs|] == defs
    ensures InTable(|new_d|, list) && Handles(|new_d|, lru) && Total(new_d, list) == Total(defs, list)
  {
    TotalSame(defs, new_d, list);
  }

  /** Sums do not depend on records that are not in use. */
  lemma LongerFreed(defs: seq<MemDef>, new_d: seq<MemDef>, list: seq<nat>, lru: seq<Buffer>, k: nat)
    requires InTable(|defs|, list) && Handles(|defs|, lru) && |defs| <= |new_d| && new_d[..|defs|] == defs && k <= |lru|
    ensures InTable(|new_d|, list) && Handles(|new_d|, lru) && Fixed(new_d, list) == Fixed(defs, list)
    ensures k > 0 ==> Freed(new_d, lru, k - 1) == Freed(defs, lru, k - 1)
  {
    FixedSame(defs, new_d, list);
    if k > 0 {
      FreedSame(defs, new_d, lru, lru, k - 1);
    }
  }

  lemma {:induction false} FixedSame(defs: seq<MemDef>, new_d: seq<MemDef>, list: seq<nat>)
    requires InTable(|defs|, list) && InTable(|new_d|, list)
    requires forall i :: 0 <= i < |list| ==> defs[list[i]] == new_d[list[i]]
    ensures Fixed(defs, list) == Fixed(new_d, list)
  {
    if list != [] {
      var n := |list| - 1;
      assert forall i :: 0 <= i < n ==> list[..n][i] == list[i];
      FixedSame(defs, new_d, list[..n]);
    }
  }

  lemma GivenMeans(lru0: seq<Buffer>, defs0: seq<MemDef>, calls0: seq<int>, v0: map<nat, seq<byte>>, total0: int, k: nat,
                   lru: seq<Buffer>, defs: seq<MemDef>, calls: seq<int>, v: map<nat, seq<byte>>, total: int)
    requires Given(lru0, defs0, calls0, v0, total0, k, lru, defs, calls, v, total)
    ensures k <= |lru0| && lru == lru0[k..] && calls == calls0 + Parms(lru0[..k]) && v == v0 - HandleSet(lru0[..k])
  {
  }

  lemma RightMarked(links: seq<Link>, defs: seq<MemDef>, first: int, last: int, free: seq<nat>, lru: seq<Buffer>, memhole: nat,
                    list: seq<nat>, end: nat, memmax: nat, b: Buffer, m: seq<byte>)
    requires Right(links, defs, first, last, free, lru, memhole, list, end, memmax)
    requires b.handle in list && b.handle < |defs| && !defs[b.handle].buffered
    ensures InTable(|defs|, list)
    ensures var new_d := defs[b.handle := defs[b.handle].(buffered := true)];
            && Right(links, new_d, first, last, free, lru + [b], memhole, list, end, memmax)
            && Contents(m, new_d, list) == Contents(m, defs, list)
  {
    hide Linked, Spaced, Registered, Tight, Spare;
    NoList(links, list, first, last);
    AddedRegistered(defs, list, lru, b);
    Unmarked(defs, defs[b.handle := defs[b.handle].(buffered := true)], list, end, memmax);
  }

  lemma SlidNone(defs: seq<MemDef>)
    ensures Slid(defs, defs)
    ensures forall lru: seq<Buffer> :: Handles(|defs|, lru) ==> Freed(defs, lru, 0) == 0
  {
  }

  lemma SameFreed(defs: seq<MemDef>, new_d: seq<MemDef>, lru: seq<Buffer>, k: nat)
    requires Handles(|defs|, lru) && Slid(defs, new_d) && k <= |lru|
    ensures Handles(|new_d|, lru) && Freed(defs, lru, k) == Freed(new_d, lru, k) && Freed(defs, lru, |lru|) == Freed(new_d, lru, |lru|)
    ensures k > 0 ==> Freed(defs, lru, k - 1) == Freed(new_d, lru, k - 1)
  {
    FreedSame(defs, new_d, lru, lru, k);
    FreedSame(defs, new_d, lru, lru, |lru|);
    if k > 0 {
      FreedSame(defs, new_d, lru, lru, k - 1);
    }
  }

  lemma GivenAgain(lru0: seq<Buffer>, defs0: seq<MemDef>, calls0: seq<int>, v0: map<nat, seq<byte>>, total0: int, defs1: seq<MemDef>,
                   k: nat, lru: seq<Buffer>, defs: seq<MemDef>, calls: seq<int>, v: map<nat, seq<byte>>, total: int)
    requires Given(lru0, defs1, calls0, v0, total0, k, lru, defs, calls, v, total) && Slid(defs0, defs1) && Handles(|defs0|, lru0)
    ensures Given(lru0, defs0, calls0, v0, total0, k, lru, defs, calls, v, total)
  {
    FreedSame(defs0, defs1, lru0, lru0, k);
  }

  lemma MovedNone(m: seq<byte>, at: nat, n: nat)
    requires at + n <= |m|
    ensures Moved(m, at, at, n) == m
  {
  }

  lemma ContentsUnmarked(m: seq<byte>, defs: seq<MemDef>, list: seq<nat>, h: nat)
    requires InTable(|defs|, list) && h < |defs|
    ensures Contents(m, defs[h := defs[h].(buffered := false)], list) == Contents(m, defs, list)
  {
  }

  lemma CompactFacts(links: seq<Link>, defs: seq<MemDef>, first: int, last: int, free: seq<nat>, lru: seq<Buffer>, memhole: nat,
                     list: seq<nat>, end: nat, m: seq<byte>)
    requires Right(links, defs, first, last, free, lru, memhole, list, end, |m|)
    ensures Linked(links, list, first, last) && |links| == |defs| && InTable(|defs|, list)
    ensures first == if |list| == 0 then NIL else list[0]
    ensures Sliding(m, defs, list, 0, Contents(m, defs, list)) && Total(defs, list[..0]) == 0 && Slid(defs, defs)
    ensures memhole == 0 ==> end == Total(defs, list) <= |m|
  {
    if memhole == 0 {
      TightSpaced(defs, list, end, |m|);
    }
  }

  lemma SlidAll(m: seq<byte>, defs: seq<MemDef>, list: seq<nat>, c: map<nat, seq<byte>>)
    requires Sliding(m, defs, list, |list|, c)
    ensures InTable(|defs|, list) && Ordered(defs, list, |m|) && Packed(defs, list, |list|) && Contents(m, defs, list) == c
  {
  }

  // --- a block changes its size ------------------------------------------------------------------------------------------

  /** The end of the block before block i. */
  function EndBefore(defs: seq<MemDef>, list: seq<nat>, i: nat): nat
    requires InTable(|defs|, list) && i < |list|
  {
    if i == 0 then 0 else End(defs[list[i - 1]])
  }

  /** Block i gets another size, or place, within its room. */
  lemma RightResized(links: seq<Link>, defs: seq<MemDef>, first: int, last: int, free: seq<nat>, lru: seq<Buffer>, memhole: nat,
                     list: seq<nat>, end: nat, memmax: nat, i: nat, p: nat, n: nat, new_end: nat, hole: nat)
    requires Right(links, defs, first, last, free, lru, memhole, list, end, memmax) && i < |list|
    requires Room(defs, list, i, p, p + n) && p + n <= memmax && p <= defs[list[i]].bufptr
    requires new_end == if i + 1 < |list| then end else end + n - defs[list[i]].size
    requires hole == 0 ==> memhole == 0 && p == defs[list[i]].bufptr && (i + 1 == |list| || n == defs[list[i]].size)
    ensures InTable(|defs|, list)
    ensures Right(links, defs[list[i] := defs[list[i]].(bufptr := p, size := n)], first, last, free, lru, hole, list, new_end, memmax)
  {
    var d := defs[list[i]].(bufptr := p, size := n);
    NoList(links, list, first, last);
    ResizedSpaced(defs, list, end, memmax, i, d, new_end);
    if hole == 0 {
      ResizedTight(defs, list, end, i, d, new_end);
    }
    RegisteredSame(defs, defs[list[i] := d], list, lru);
    hide Linked, Spaced, Registered, Tight, Spare, Room;
  }

  lemma ResizedSpaced(defs: seq<MemDef>, list: seq<nat>, end: nat, memmax: nat, i: nat, d: MemDef, new_end: nat)
    requires InTable(|defs|, list) && Distinct(list) && Spaced(defs, list, end, memmax) && i < |list|
    requires Room(defs, list, i, d.bufptr, End(d)) && End(d) <= memmax && d.bufptr <= defs[list[i]].bufptr
    requires new_end == if i + 1 < |list| then end else end + d.size - defs[list[i]].size
    ensures Spaced(defs[list[i] := d], list, new_end, memmax)
  {
    Replaced(defs, list, memmax, i, d, memmax);
    if i + 1 < |list| {
      assert End(defs[list[i + 1]]) <= end;
    }
    Replaced(defs, list, end, i, d, new_end);
  }

  lemma ResizedTight(defs: seq<MemDef>, list: seq<nat>, end: nat, i: nat, d: MemDef, new_end: nat)
    requires InTable(|defs|, list) && Distinct(list) && Tight(defs, list, end) && i < |list| && d.bufptr == defs[list[i]].bufptr
    requires i + 1 == |list| || d.size == defs[list[i]].size
    requires new_end == if i + 1 < |list| then end else end + d.size - defs[list[i]].size
    ensures Tight(defs[list[i] := d], list, new_end)
  {
    hide Distinct, Total;
    var new_d := defs[list[i] := d];
    forall k | 0 <= k < |list|
      ensures Total(new_d, list[..k]) == Total(defs, list[..k]) && new_d[list[k]].bufptr == defs[list[k]].bufptr
    {
      PrefixSame(defs, list, i, d, k);
    }
    OthersAre(defs, list, i, d);
    var n := |list| - 1;
    assert list[..n + 1] == list;
    TotalStep(defs, list, n);
    TotalStep(new_d, list, n);
  }

  /** The blocks before place k take what they took. */
  lemma PrefixSame(defs: seq<MemDef>, list: seq<nat>, i: nat, d: MemDef, k: nat)
    requires InTable(|defs|, list) && Distinct(list) && i < |list| && k < |list| && d.bufptr == defs[list[i]].bufptr
    requires i + 1 == |list| || d.size == defs[list[i]].size
    ensures Total(defs[list[i] := d], list[..k]) == Total(defs, list[..k])
    ensures defs[list[i] := d][list[k]].bufptr == defs[list[k]].bufptr
  {
    var new_d := defs[list[i] := d];
    assert forall j :: 0 <= j < k ==> defs[list[j]].size == new_d[list[j]].size;
    TotalSame(defs, new_d, list[..k]);
  }

  lemma OthersAre(defs: seq<MemDef>, list: seq<nat>, i: nat, d: MemDef)
    requires InTable(|defs|, list) && Distinct(list) && i < |list|
    ensures forall k :: 0 <= k < |list| ==> defs[list[i] := d][list[k]] == if k == i then d else defs[list[k]]
  {
  }

  /** The room around a block. */
  lemma RoomFacts(links: seq<Link>, defs: seq<MemDef>, first: int, last: int, free: seq<nat>, lru: seq<Buffer>, memhole: nat,
                  list: seq<nat>, end: nat, memmax: nat, i: nat)
    requires Right(links, defs, first, last, free, lru, memhole, list, end, memmax) && i < |list|
    ensures InTable(|defs|, list) && EndBefore(defs, list, i) <= defs[list[i]].bufptr
    ensures Total(defs, list) <= end && defs[list[i]].size <= Total(defs, list)
    ensures i + 1 == |list| ==> Total(defs, list) <= EndBefore(defs, list, i) + defs[list[i]].size && end <= memmax + defs[list[i]].size
    ensures memhole == 0 ==> EndBefore(defs, list, i) == defs[list[i]].bufptr && end == Total(defs, list)
    ensures memhole == 0 && i + 1 < |list| ==> defs[list[i + 1]].bufptr == End(defs[list[i]])
  {
    assert list[..|list|] == list;
    TotalBelow(defs, list, end, |list|);
    TotalStep(defs, list, i);
    TotalMonotone(defs, list, i + 1, |list|);
    if i > 0 {
      TotalStep(defs, list, i - 1);
      TotalBelow(defs, list, end, i - 1);
    }
    hide Linked, Registered, Spare;
  }

  /** Whether memchange can give block i this size without giving up buffers: it shrinks, or the last block has room once all
      holes are closed, or another has room around it or a second time behind all the blocks. */
  predicate Resizable(defs: seq<MemDef>, list: seq<nat>, memmax: nat, i: nat, n: nat)
    requires InTable(|defs|, list) && i < |list|
  {
    || n <= defs[list[i]].size
    || (i + 1 == |list| && Total(defs, list) - defs[list[i]].size + n <= memmax)
    || (i + 1 < |list| && (n <= defs[list[i + 1]].bufptr - EndBefore(defs, list, i) || Total(defs, list) + n <= memmax))
  }

  function Zeros(n: nat): seq<byte> {
    seq(n, _ => 0)
  }

  /** The bytes of a block that has got the size n: what it held, as far as it goes, and zeros behind it when asked for. */
  predicate Resized(b: seq<byte>, c: seq<byte>, n: nat, zero: bool) {
    |c| == n && if n <= |b| then c == b[..n] else c[..|b|] == b && (zero ==> c[|b|..] == Zeros(n - |b|))
  }

  lemma ResizedSlice(m: seq<byte>, n: seq<byte>, d: MemDef, size: nat, zero: bool)
    requires End(d) <= |m| == |n| && d.bufptr + size <= |m|
    requires n == if zero && size > d.size then Zeroed(m, End(d), size - d.size) else m
    ensures Resized(Slice(m, d), Slice(n, d.(size := size)), size, zero)
    ensures Outside(m, n, d.bufptr, d.bufptr + (if size > d.size then size else d.size))
  {
    var b, c := Slice(m, d), Slice(n, d.(size := size));
    assert c == n[d.bufptr..d.bufptr + size];
    if size > d.size {
      assert n[..End(d)] == m[..End(d)];
      assert c[..|b|] == n[..End(d)][d.bufptr..] == b;
      if zero {
        assert c[|b|..] == Zeros(size - d.size);
      }
      assert n[..d.bufptr] == m[..d.bufptr] && n[d.bufptr + size..] == m[d.bufptr + size..];
    } else {
      assert b[..size] == m[d.bufptr..d.bufptr + size];
    }
  }

  lemma PrefixSlice(s: seq<byte>, t: seq<byte>, a: nat, x: nat, y: nat)
    requires x <= y <= a <= |s| && a <= |t| && s[..a] == t[..a]
    ensures s[x..y] == t[x..y]
  {
    assert s[x..y] == s[..a][x..y];
    assert t[x..y] == t[..a][x..y];
  }

  /** A copy behind all the blocks, with zeros behind it when asked for. */
  lemma CopiedSlice(m: seq<byte>, z: seq<byte>, n: seq<byte>, d: MemDef, ptr: nat, size: nat, zero: bool)
    requires End(d) <= ptr && ptr + size <= |m| && d.size < size
    requires z == (if zero then Zeroed(m, ptr + d.size, size - d.size) else m) && n == Moved(z, ptr, d.bufptr, d.size)
    ensures Resized(Slice(m, d), Slice(n, d.(bufptr := ptr, size := size)), size, zero)
    ensures Outside(m, n, ptr, ptr + size)
  {
    var b, c := Slice(m, d), Slice(n, d.(bufptr := ptr, size := size));
    assert z[..ptr] == m[..ptr] && z[ptr + size..] == m[ptr + size..];
    PrefixSlice(z, m, ptr, d.bufptr, End(d));
    assert c == n[ptr..ptr + size];
    assert c[..|b|] == n[ptr..ptr + d.size] == b;
    if zero {
      assert c[|b|..] == n[ptr + d.size..ptr + size] == z[ptr + d.size..ptr + size] == Zeros(size - d.size);
    }
    assert n[..ptr] == m[..ptr];
    assert n[ptr + size..] == n[ptr + d.size..][size - d.size..] == z[ptr + d.size..][size - d.size..] == z[ptr + size..];
  }

  /** Block i goes and comes back behind all the others. */
  lemma RightRelocated(links: seq<Link>, defs: seq<MemDef>, first: int, last: int, free: seq<nat>, lru: seq<Buffer>, memhole: nat,
                       list: seq<nat>, end: nat, memmax: nat, i: nat, hole: nat, d: MemDef)
    requires Right(links, defs, first, last, free, lru, memhole, list, end, memmax) && i + 1 < |list|
    requires hole >= memhole && hole >= defs[list[i]].size && !defs[list[i]].buffered && !d.buffered
    requires d.bufptr == end && End(d) <= memmax
    ensures InTable(|defs|, list) && Joined(links, list, i) && NIL <= last < |links|
    ensures var w, h := Without(list, i), list[i];
            Right(Appended(Unlinked(links, h), last, h), defs[h := d], if i == 0 then list[1] else first, h, free, lru, hole,
                  w + [h], End(d), memmax)
  {
    hide Linked, Spaced, Registered, Tight, Appended, Unlinked, Without;
    var h := list[i];
    BlockFacts(links, defs, first, last, free, lru, memhole, list, end, memmax, i);
    RightWithout(links, defs, first, last, free, lru, memhole, list, end, memmax, i, hole);
    assert ([h] + free)[1..] == free;
    RightWith(Unlinked(links, h), defs, if i > 0 then first else list[i + 1], last, [h] + free, lru, hole, Without(list, i), end, memmax, d);
  }

  /** What the blocks hold when block i has been copied behind all the others. */
  lemma ContentsRelocated(m: seq<byte>, n: seq<byte>, defs: seq<MemDef>, list: seq<nat>, end: nat, memmax: nat, i: nat, d: MemDef)
    requires InTable(|defs|, list) && Distinct(list) && Spaced(defs, list, end, memmax) && i < |list|
    requires Outside(m, n, end, End(d)) && d.bufptr == end
    ensures var w, h := Without(list, i), list[i];
            && InTable(|defs|, w + [h])
            && Contents(n, defs[h := d], w + [h]) == Contents(m, defs, list)[h := Slice(n, d)]
  {
    hide Spaced, Outside, Slice;
    var w, h, c := Without(list, i), list[i], Contents(m, defs, list);
    WithoutMembers(list, i);
    BeyondKept(m, n, defs, list, end, memmax, End(d));
    ContentsWithout(n, defs, list, i);
    ContentsWith(n, defs, w, h, d);
    assert (c - {h})[h := Slice(n, d)] == c[h := Slice(n, d)];
  }

  lemma ResizableCases(defs: seq<MemDef>, list: seq<nat>, memmax: nat, i: nat, n: nat)
    requires InTable(|defs|, list) && i < |list|
    ensures n <= defs[list[i]].size ==> Resizable(defs, list, memmax, i, n)
    ensures n > defs[list[i]].size && i + 1 == |list| ==>
              (Resizable(defs, list, memmax, i, n) <==> Total(defs, list) - defs[list[i]].size + n <= memmax)
    ensures n > defs[list[i]].size && i + 1 < |list| ==>
              (Resizable(defs, list, memmax, i, n) <==>
               n <= defs[list[i + 1]].bufptr - EndBefore(defs, list, i) || Total(defs, list) + n <= memmax)
  {
  }

  lemma SameResized(m: seq<byte>, d: MemDef, zero: bool)
    requires End(d) <= |m|
    ensures Resized(Slice(m, d), Slice(m, d), d.size, zero)
  {
  }

  /** A block that shrinks stays in its room. */
  lemma ShrinkRoom(links: seq<Link>, defs: seq<MemDef>, first: int, last: int, free: seq<nat>, lru: seq<Buffer>, memhole: nat,
                   list: seq<nat>, end: nat, memmax: nat, i: nat, n: nat)
    requires Right(links, defs, first, last, free, lru, memhole, list, end, memmax) && i < |list|
    ensures InTable(|defs|, list)
    ensures n <= defs[list[i]].size ==> Room(defs, list, i, defs[list[i]].bufptr, defs[list[i]].bufptr + n)
    ensures Room(defs, list, i, defs[list[i]].bufptr, End(defs[list[i]]))
  {
    BlockFacts(links, defs, first, last, free, lru, memhole, list, end, memmax, i);
  }

  lemma SlidOne(defs: seq<MemDef>, h: nat, p: nat)
    requires h < |defs|
    ensures Slid(defs, defs[h := defs[h].(bufptr := p)])
  {
  }

  lemma SlidTotal(defs: seq<MemDef>, new_d: seq<MemDef>, list: seq<nat>)
    requires InTable(|defs|, list) && Slid(defs, new_d)
    ensures InTable(|new_d|, list) && Total(new_d, list) == Total(defs, list)
  {
    TotalSame(defs, new_d, list);
  }

  lemma SlidFacts(defs: seq<MemDef>, new_d: seq<MemDef>, h: nat)
    requires Slid(defs, new_d) && h < |defs|
    ensures |new_d| == |defs| && new_d[h].size == defs[h].size && new_d[h].buffered == defs[h].buffered
  {
  }

  lemma InOrder(links: seq<Link>, defs: seq<MemDef>, first: int, last: int, free: seq<nat>, lru: seq<Buffer>, memhole: nat,
                list: seq<nat>, end: nat, memmax: nat)
    requires Right(links, defs, first, last, free, lru, memhole, list, end, memmax)
    ensures InTable(|defs|, list) && Distinct(list) && Ordered(defs, list, memmax) && Spaced(defs, list, end, memmax)
  {
  }

  lemma RoomMore(defs: seq<MemDef>, list: seq<nat>, memmax: nat, i: nat, n: nat)
    requires InTable(|defs|, list) && i < |list| && Ordered(defs, list, memmax)
    requires Room(defs, list, i, defs[list[i]].bufptr, defs[list[i]].bufptr + n)
    ensures Room(defs, list, i, defs[list[i]].bufptr, defs[list[i]].bufptr + if n > defs[list[i]].size then n else defs[list[i]].size)
  {
  }

  /** The end of what is in use, and the hole that is known, when block i gets the size n where it is. */
  function EndHere(defs: seq<MemDef>, list: seq<nat>, end: nat, i: nat, n: nat): int
    requires InTable(|defs|, list) && i < |list|
  {
    if i + 1 < |list| then end else end + n - defs[list[i]].size
  }

  function HoleHere(defs: seq<MemDef>, list: seq<nat>, memhole: nat, i: nat, n: nat): nat
    requires InTable(|defs|, list) && i < |list|
  {
    var d := defs[list[i]];
    if i + 1 < |list| && n < d.size && d.size - n > memhole then d.size - n else memhole
  }

  lemma RightHere(links: seq<Link>, defs: seq<MemDef>, first: int, last: int, free: seq<nat>, lru: seq<Buffer>, memhole: nat,
                  list: seq<nat>, end: nat, i: nat, n: nat, zero: bool, m: seq<byte>, m2: seq<byte>)
    requires Right(links, defs, first, last, free, lru, memhole, list, end, |m|) && i < |list| && InTable(|defs|, list)
    requires Room(defs, list, i, defs[list[i]].bufptr, defs[list[i]].bufptr + n) && defs[list[i]].bufptr + n <= |m|
    requires n > defs[list[i]].size && memhole == 0 ==> i + 1 == |list|
    requires End(defs[list[i]]) <= |m|
    requires m2 == if zero && n > defs[list[i]].size then Zeroed(m, End(defs[list[i]]), n - defs[list[i]].size) else m
    ensures var h := list[i]; var e := defs[h].(size := n); var v := Contents(m, defs, list);
            && EndHere(defs, list, end, i, n) >= 0
            && Right(links, defs[h := e], first, last, free, lru, HoleHere(defs, list, memhole, i, n), list,
                     EndHere(defs, list, end, i, n), |m|)
            && h in v && Contents(m2, defs[h := e], list) == v[h := Slice(m2, e)] && Resized(v[h], Slice(m2, e), n, zero)
  {
    hide Contents, Total, Registered, Spaced, Linked, Slice, Outside, Resized, Room, Right, Tight, Ordered, Distinct;
    var d := defs[list[i]];
    BlockFacts(links, defs, first, last, free, lru, memhole, list, end, |m|, i);
    HeldAt(m, defs, list, i);
    RightResized(links, defs, first, last, free, lru, memhole, list, end, |m|, i, d.bufptr, n, EndHere(defs, list, end, i, n),
                 HoleHere(defs, list, memhole, i, n));
    InOrder(links, defs, first, last, free, lru, memhole, list, end, |m|);
    ResizedSlice(m, m2, d, n, zero);
    RoomMore(defs, list, |m|, i, n);
    OthersKept(m, m2, defs, list, |m|, i, d.(size := n), d.bufptr, d.bufptr + (if n > d.size then n else d.size));
  }

  /** Block i, copied behind all the others, with its record at the end of the list. */
  lemma RightThere(links: seq<Link>, defs: seq<MemDef>, first: int, last: int, free: seq<nat>, lru: seq<Buffer>, memhole: nat,
                   list: seq<nat>, i: nat, ptr: nat, n: nat, zero: bool, hole: nat, m: seq<byte>, z: seq<byte>, m2: seq<byte>)
    requires Right(links, defs, first, last, free, lru, memhole, list, ptr, |m|) && i + 1 < |list| && InTable(|defs|, list)
    requires n > defs[list[i]].size && !defs[list[i]].buffered && ptr + n <= |m| && End(defs[list[i]]) <= ptr
    requires hole == if defs[list[i]].size > memhole then defs[list[i]].size else memhole
    requires z == if zero then Zeroed(m, ptr + defs[list[i]].size, n - defs[list[i]].size) else m
    requires m2 == Moved(z, ptr, defs[list[i]].bufptr, defs[list[i]].size)
    ensures Joined(links, list, i) && NIL <= last < |links|
    ensures var h := list[i]; var e := defs[h].(bufptr := ptr, size := n); var v := Contents(m, defs, list);
            && Right(Appended(Unlinked(links, h), last, h), defs[h := e], if i == 0 then list[1] else first, h, free, lru, hole,
                     Without(list, i) + [h], ptr + n, |m|)
            && h in v && InTable(|defs|, Without(list, i) + [h])
            && Contents(m2, defs[h := e], Without(list, i) + [h]) == v[h := Slice(m2, e)] && Resized(v[h], Slice(m2, e), n, zero)
  {
    hide Contents, Total, Registered, Spaced, Linked, Slice, Outside, Resized, Right, Ordered, Distinct, Without, Appended, Unlinked, Moved, Zeroed;
    var d, e := defs[list[i]], defs[list[i]].(bufptr := ptr, size := n);
    HeldAt(m, defs, list, i);
    InOrder(links, defs, first, last, free, lru, memhole, list, ptr, |m|);
    RightRelocated(links, defs, first, last, free, lru, memhole, list, ptr, |m|, i, hole, e);
    CopiedSlice(m, z, m2, d, ptr, n, zero);
    ContentsRelocated(m, m2, defs, list, ptr, |m|, i, e);
  }

  /** A block that is not a buffer is not given up. */
  lemma NotGivenUp(m: seq<byte>, defs: seq<MemDef>, list: seq<nat>, lru: seq<Buffer>, h: nat)
    requires InTable(|defs|, list) && Registered(defs, list, lru) && h in list && h < |defs| && !defs[h].buffered
    ensures h in Contents(m, defs, list) && h !in HandleSet(lru)
  {
    assert !Has(lru, h);
  }

  lemma SubSet(lru: seq<Buffer>, k: nat, h: nat)
    requires k <= |lru| && h !in HandleSet(lru)
    ensures h !in HandleSet(lru[..k])
  {
    forall j | 0 <= j < k
      ensures lru[j].handle != h
    {
      assert lru[j] in lru;
    }
  }

  lemma StillHeld(m: seq<byte>, defs: seq<MemDef>, list: seq<nat>, h: nat)
    requires InTable(|defs|, list) && h in Contents(m, defs, list)
    ensures h in list && h < |defs|
  {
  }

  lemma GivenSize(lru0: seq<Buffer>, defs0: seq<MemDef>, calls0: seq<int>, v0: map<nat, seq<byte>>, total0: int, k: nat,
                  lru: seq<Buffer>, defs: seq<MemDef>, calls: seq<int>, v: map<nat, seq<byte>>, total: int, h: nat)
    requires Given(lru0, defs0, calls0, v0, total0, k, lru, defs, calls, v, total) && h < |defs0|
    ensures h < |defs| && defs[h].size == defs0[h].size
  {
  }

  /** The end of what is in use, put past the real one. */
  lemma OverTotal(defs: seq<MemDef>, list: seq<nat>, i: nat, n: nat, ptr: nat)
    requires InTable(|defs|, list) && Distinct(list) && i < |list| && Tight(defs, list, ptr) && n > defs[list[i]].size
    ensures !Tight(defs[list[i] := defs[list[i]].(size := n)], list, ptr + n + n - defs[list[i]].size)
  {
    TotalOne(defs, list, i, n);
  }

  lemma {:induction false} TotalOne(defs: seq<MemDef>, list: seq<nat>, i: nat, n: nat)
    requires InTable(|defs|, list) && Distinct(list) && i < |list|
    ensures Total(defs[list[i] := defs[list[i]].(size := n)], list) == Total(defs, list) - defs[list[i]].size + n
  {
    var k := |list| - 1;
    if i < k {
      TotalOne(defs, list[..k], i, n);
    } else {
      TotalSame(defs, defs[list[i] := defs[list[i]].(size := n)], list[..k]);
    }
  }

  lemma {:induction false} SlidFixed(defs: seq<MemDef>, new_d: seq<MemDef>, list: seq<nat>)
    requires InTable(|defs|, list) && Slid(defs, new_d)
    ensures InTable(|new_d|, list) && Fixed(new_d, list) == Fixed(defs, list)
  {
    if list != [] {
      SlidFixed(defs, new_d, list[..|list| - 1]);
    }
  }

  lemma RightRegistered(links: seq<Link>, defs: seq<MemDef>, first: int, last: int, free: seq<nat>, lru: seq<Buffer>, memhole: nat,
                        list: seq<nat>, end: nat, memmax: nat)
    requires Right(links, defs, first, last, free, lru, memhole, list, end, memmax)
    ensures InTable(|defs|, list) && Registered(defs, list, lru)
  {
  }

  // --- the order of the blocks that stay --------------------------------------------------------------------------------------

  /** The list without the members of a set. */
  ghost function Remaining(list: seq<nat>, gone: set<nat>): seq<nat> {
    if list == [] then []
    else Remaining(list[..|list| - 1], gone) + if list[|list| - 1] in gone then [] else [list[|list| - 1]]
  }

  lemma {:induction false} RemainingAll(list: seq<nat>, gone: set<nat>)
    requires forall i :: 0 <= i < |list| ==> list[i] !in gone
    ensures Remaining(list, gone) == list
  {
    if list != [] {
      RemainingAll(list[..|list| - 1], gone);
      assert list == list[..|list| - 1] + [list[|list| - 1]];
    }
  }

  lemma {:induction false} RemainingConcat(a: seq<nat>, b: seq<nat>, gone: set<nat>)
    ensures Remaining(a + b, gone) == Remaining(a, gone) + Remaining(b, gone)
  {
    if b == [] {
      assert a + b == a;
    } else {
      var n := |b| - 1;
      assert (a + b)[..|a + b| - 1] == a + b[..n];
      RemainingConcat(a, b[..n], gone);
    }
  }

  lemma {:induction false} RemainingMore(list: seq<nat>, gone: set<nat>, h: nat)
    ensures Remaining(Remaining(list, gone), {h}) == Remaining(list, gone + {h})
  {
    if list != [] {
      var n := |list| - 1;
      RemainingMore(list[..n], gone, h);
      RemainingConcat(Remaining(list[..n], gone), if list[n] in gone then [] else [list[n]], {h});
      assert Remaining([list[n]], {h}) == if list[n] == h then [] else [list[n]] by {
        assert [list[n]][..0] == [];
      }
    }
  }

  lemma RemainingSingle(x: nat, gone: set<nat>)
    ensures Remaining([x], gone) == if x in gone then [] else [x]
  {
    assert [x][..0] == [];
  }

  /** The list around a place. */
  lemma RemainingAround(list: seq<nat>, gone: set<nat>, i: nat)
    requires i < |list|
    ensures Remaining(list, gone)
            == Remaining(list[..i], gone) + (if list[i] in gone then [] else [list[i]]) + Remaining(list[i + 1..], gone)
  {
    hide Remaining;
    var a, x, b := list[..i], [list[i]], list[i + 1..];
    assert list == a + x + b;
    RemainingConcat(a + x, b, gone);
    RemainingConcat(a, x, gone);
    RemainingSingle(list[i], gone);
  }

  /** Taking one block out. */
  lemma RemainingOne(list: seq<nat>, i: nat)
    requires Distinct(list) && i < |list|
    ensures Remaining(list, {list[i]}) == Without(list, i)
  {
    hide Remaining;
    RemainingAround(list, {list[i]}, i);
    RemainingAll(list[..i], {list[i]});
    RemainingAll(list[i + 1..], {list[i]});
  }

  lemma LastStays(list: seq<nat>, gone: set<nat>)
    requires list != [] && list[|list| - 1] !in gone
    ensures var r := Remaining(list, gone); r != [] && r[|r| - 1] == list[|list| - 1]
  {
  }

  lemma FirstStays(list: seq<nat>, gone: set<nat>)
    requires list != [] && list[0] !in gone
    ensures var r := Remaining(list, gone); r != [] && r[0] == list[0]
  {
    hide Remaining;
    RemainingAround(list, gone, 0);
    RemainingAll(list[..0], gone);
  }

  lemma EmptyRemains(list: seq<nat>, gone: set<nat>)
    requires list == []
    ensures Remaining(list, gone) == []
  {
  }

  /** Blocks that are side by side and both stay are side by side afterwards. */
  lemma RemainingPair(list: seq<nat>, gone: set<nat>, i: nat) returns (j: nat)
    requires i < |list| && list[i] !in gone
    requires i + 1 < |list| ==> list[i + 1] !in gone
    requires i > 0 ==> list[i - 1] !in gone
    ensures var r := Remaining(list, gone);
            && j < |r| && r[j] == list[i]
            && (if i + 1 < |list| then j + 1 < |r| && r[j + 1] == list[i + 1] else j + 1 == |r|)
            && (if i > 0 then j > 0 && r[j - 1] == list[i - 1] else j == 0)
  {
    hide Remaining;
    RemainingAround(list, gone, i);
    var a, b := list[..i], list[i + 1..];
    j := |Remaining(a, gone)|;
    if i > 0 {
      LastStays(a, gone);
    } else {
      EmptyRemains(a, gone);
    }
    if i + 1 < |list| {
      FirstStays(b, gone);
    } else {
      EmptyRemains(b, gone);
    }
  }

  /** The neighbours of a block are not given up before there is enough room. */
  predicate NeighboursSafe(defs: seq<MemDef>, list: seq<nat>, lru: seq<Buffer>, i: nat, need: int)
    requires Handles(|defs|, lru) && i < |list|
  {
    forall j :: 0 <= j < |lru| && ((i > 0 && lru[j].handle == list[i - 1]) || (i + 1 < |list| && lru[j].handle == list[i + 1])) ==>
      Freed(defs, lru, j) >= need
  }

  lemma NeighboursStay(defs: seq<MemDef>, list: seq<nat>, lru: seq<Buffer>, i: nat, need: int, k: nat)
    requires Handles(|defs|, lru) && i < |list| && NeighboursSafe(defs, list, lru, i, need) && k <= |lru|
    requires k > 0 ==> Freed(defs, lru, k - 1) < need
    ensures i > 0 ==> list[i - 1] !in HandleSet(lru[..k])
    ensures i + 1 < |list| ==> list[i + 1] !in HandleSet(lru[..k])
  {
    forall j | 0 <= j < k
      ensures i > 0 ==> lru[j].handle != list[i - 1]
      ensures i + 1 < |list| ==> lru[j].handle != list[i + 1]
    {
      FreedMonotone(defs, lru, j, k - 1);
    }
    forall b | b in lru[..k]
      ensures i > 0 ==> b.handle != list[i - 1]
      ensures i + 1 < |list| ==> b.handle != list[i + 1]
    {
      var j :| 0 <= j < k && lru[j] == b;
    }
  }

  lemma NoneRemain(list: seq<nat>, lru: seq<Buffer>)
    ensures Remaining(list, HandleSet(lru[..0])) == list
  {
    RemainingAll(list, HandleSet(lru[..0]));
  }

  lemma NoneGivenYet(lru: seq<Buffer>, v: map<nat, seq<byte>>)
    ensures HandleSet(lru[..0]) == {} && Parms(lru[..0]) == [] && v - {} == v && lru[..|lru|] == lru && lru[|lru|..] == []
  {
  }

  /** A block that is not a buffer does not become one. */
  lemma StillUnmarked(defs0: seq<MemDef>, list0: seq<nat>, lru0: seq<Buffer>, defs: seq<MemDef>, list: seq<nat>, lru: seq<Buffer>,
                      k: nat, h: nat)
    requires InTable(|defs0|, list0) && Registered(defs0, list0, lru0) && h in list0 && h < |defs0| && !defs0[h].buffered
    requires InTable(|defs|, list) && Registered(defs, list, lru) && h in list && h < |defs| && k <= |lru0| && lru == lru0[k..]
    ensures !defs[h].buffered
  {
    assert !Has(lru0, h);
    forall j | 0 <= j < |lru|
      ensures lru[j].handle != h
    {
      assert lru[j] == lru0[k + j];
    }
  }

  lemma SlidSafe(defs: seq<MemDef>, new_d: seq<MemDef>, list: seq<nat>, lru: seq<Buffer>, i: nat, need: int)
    requires InTable(|defs|, list) && Slid(defs, new_d) && i < |list| && Handles(|defs|, lru)
    ensures Handles(|new_d|, lru) && (NeighboursSafe(defs, list, lru, i, need) <==> NeighboursSafe(new_d, list, lru, i, need))
    ensures forall k :: 0 <= k <= |lru| ==> Freed(defs, lru, k) == Freed(new_d, lru, k)
  {
    forall k | 0 <= k <= |lru|
      ensures Freed(defs, lru, k) == Freed(new_d, lru, k)
    {
      FreedSame(defs, new_d, lru, lru, k);
    }
  }

  lemma FreedAll(defs: seq<MemDef>, lru: seq<Buffer>)
    requires Handles(|defs|, lru)
    ensures lru != [] ==> Freed(defs, lru, |lru| - 1) <= Freed(defs, lru, |lru|)
  {
  }

  lemma SafeAnyway(defs: seq<MemDef>, list: seq<nat>, lru: seq<Buffer>, i: nat, need: int)
    requires Handles(|defs|, lru) && i < |list|
    ensures need <= 0 ==> NeighboursSafe(defs, list, lru, i, need)
  {
  }

  lemma {:induction false} FixedAtMost(defs: seq<MemDef>, list: seq<nat>)
    requires InTable(|defs|, list)
    ensures Fixed(defs, list) <= Total(defs, list)
  {
    if list != [] {
      FixedAtMost(defs, list[..|list| - 1]);
    }
  }

  // --- neighbours that are given up -----------------------------------------------------------------------------------------

  lemma {:induction false} RemainingMember(list: seq<nat>, gone: set<nat>, x: nat)
    ensures x in Remaining(list, gone) <==> x in list && x !in gone
  {
    if list != [] {
      RemainingMember(list[..|list| - 1], gone, x);
      assert list == list[..|list| - 1] + [list[|list| - 1]];
    }
  }

  /** Enough has been given up, and a neighbour is too early among it: it has gone. */
  lemma NeighbourGone(defs: seq<MemDef>, list: seq<nat>, lru: seq<Buffer>, i: nat, need: int, k: nat)
    requires Handles(|defs|, lru) && i < |list| && !NeighboursSafe(defs, list, lru, i, need)
    requires k <= |lru| && Freed(defs, lru, k) >= need
    ensures (i > 0 && list[i - 1] in HandleSet(lru[..k])) || (i + 1 < |list| && list[i + 1] in HandleSet(lru[..k]))
  {
    var j :| 0 <= j < |lru| && ((i > 0 && lru[j].handle == list[i - 1]) || (i + 1 < |list| && lru[j].handle == list[i + 1]))
               && Freed(defs, lru, j) < need;
    if k <= j {
      FreedMonotone(defs, lru, k, j);
    }
    assert lru[..k][j] == lru[j];
  }

  /** The block is still in the list, between records that are no longer both its neighbours. */
  lemma StaleNow(links: seq<Link>, list: seq<nat>, gone: set<nat>, i: nat, first: int, last: int) returns (j: nat)
    requires i + 1 < |list| && list[i] !in gone && Severed(links, gone)
    requires (i > 0 && list[i - 1] in gone) || list[i + 1] in gone
    requires Linked(links, Remaining(list, gone), first, last)
    ensures var r := Remaining(list, gone);
            && j < |r| && r[j] == list[i] && Stale(links, r, j, if i == 0 then NIL else list[i - 1], list[i + 1])
  {
    hide Remaining, Linked;
    RemainingAround(list, gone, i);
    var a := list[..i];
    j := |Remaining(a, gone)|;
    if i > 0 {
      RemainingMember(list, gone, list[i - 1]);
      if list[i - 1] !in gone {
        LastStays(a, gone);
      }
    } else {
      EmptyRemains(a, gone);
    }
    RemainingMember(list, gone, list[i + 1]);
  }

  lemma RemainingGone(list: seq<nat>, gone: set<nat>)
    ensures forall x :: x in gone ==> x !in Remaining(list, gone)
  {
    forall x | x in gone
      ensures x !in Remaining(list, gone)
    {
      RemainingMember(list, gone, x);
    }
  }

  lemma RightLinked(links: seq<Link>, defs: seq<MemDef>, first: int, last: int, free: seq<nat>, lru: seq<Buffer>, memhole: nat,
                    list: seq<nat>, end: nat, memmax: nat)
    requires Right(links, defs, first, last, free, lru, memhole, list, end, memmax)
    ensures Linked(links, list, first, last) && InTable(|defs|, list) && |links| == |defs|
  {
  }

  lemma FreedNone(defs: seq<MemDef>, lru: seq<Buffer>)
    requires Handles(|defs|, lru)
    ensures Freed(defs, lru, 0) == 0
  {
  }

  lemma NoneSevered(links: seq<Link>, lru: seq<Buffer>)
    ensures Severed(links, HandleSet(lru[..0]))
  {
    assert HandleSet(lru[..0]) == {};
  }

  lemma GivenFreed(lru0: seq<Buffer>, defs0: seq<MemDef>, calls0: seq<int>, v0: map<nat, seq<byte>>, total0: int, k: nat,
                   lru: seq<Buffer>, defs: seq<MemDef>, calls: seq<int>, v: map<nat, seq<byte>>, total: int)
    requires Given(lru0, defs0, calls0, v0, total0, k, lru, defs, calls, v, total)
    ensures k <= |lru0| && |defs0| <= |defs| && Handles(|defs0|, lru0) && total == total0 - Freed(defs0, lru0, k)
  {
  }

  /** The place of a block after enough has been given up: between the same records if these are safe, and otherwise between
      records that are not both its neighbours. */
  lemma PlaceNow(links: seq<Link>, defs: seq<MemDef>, list: seq<nat>, lru: seq<Buffer>, i: nat, need: int, k: nat, first: int, last: int)
    returns (j: nat)
    requires Handles(|defs|, lru) && i + 1 < |list| && Distinct(list) && k <= |lru| && Freed(defs, lru, k) >= need
    requires k > 0 ==> Freed(defs, lru, k - 1) < need
    requires list[i] !in HandleSet(lru[..k]) && Severed(links, HandleSet(lru[..k]))
    requires Linked(links, Remaining(list, HandleSet(lru[..k])), first, last)
    ensures var r := Remaining(list, HandleSet(lru[..k])); var left := if i == 0 then NIL else list[i - 1];
            && j < |r| && r[j] == list[i] && left != last
            && (if NeighboursSafe(defs, list, lru, i, need) then j + 1 < |r| && left == Before(r, j) && list[i + 1] == r[j + 1]
                else !(j + 1 < |r| && left == Before(r, j) && list[i + 1] == r[j + 1]) && Stale(links, r, j, left, list[i + 1]))
  {
    hide Remaining, Freed, HandleSet, Stale;
    var gone := HandleSet(lru[..k]);
    if NeighboursSafe(defs, list, lru, i, need) {
      NeighboursStay(defs, list, lru, i, need, k);
      j := RemainingPair(list, gone, i);
    } else {
      NeighbourGone(defs, list, lru, i, need, k);
      j := StaleNow(links, list, gone, i, first, last);
      if i > 0 {
        RemainingMember(list, gone, list[i - 1]);
      }
      RemainingMember(list, gone, list[i + 1]);
      StaleLeft(links, Remaining(list, gone), j, if i == 0 then NIL else list[i - 1], list[i + 1], first, last);
    }
  }

  lemma StaleLeft(links: seq<Link>, list: seq<nat>, j: nat, left: int, right: nat, first: int, last: int)
    requires Linked(links, list, first, last) && j < |list| && Stale(links, list, j, left, right)
    ensures left != last
  {
  }
}

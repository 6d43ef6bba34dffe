/** The compacting allocator (base.c): blocks in one arena, known by handles, that move down to close holes. */
module Arena {
  import opened Bytes
  import opened ArenaLinks
  import opened ArenaBroken
  import opened ArenaSpace
  import opened ArenaBuffers
  import opened ArenaState
  import opened Lists

  const RC_ERROR := -1
  const ABORT := 1                      // not an answer of the source: the program has ended

  /** A requested size in units of 16 bytes, at least one, in 32 bits. */
  function Round(size: nat): nat {
    if size == 0 then 16 else (size + 15) % 0x1_0000_0000 / 16 * 16
  }

  /** A size is rounded up exactly if it is not among the fifteen greatest; these become 0. */
  lemma RoundIs(size: nat)
    requires size < 0x1_0000_0000
    ensures Round(size) >= size <==> size <= 0xFFFF_FFF0
    ensures Round(size) == 0 <==> size > 0xFFFF_FFF0
    ensures size <= 0xFFFF_FFF0 ==> Round(size) > 0 && Round(size) % 16 == 0 && (size > 0 ==> Round(size) < size + 16)
  {
    if 0 < size <= 0xFFFF_FFF0 {
      assert (size + 15) % 0x1_0000_0000 == size + 15;
    } else if size > 0xFFFF_FFF0 {
      assert (size + 15) % 0x1_0000_0000 == size + 15 - 0x1_0000_0000 < 16;
    }
  }

  class Arena {
    const mem: array<byte>
    const meminitnbufs: nat
    var links: seq<Link>
    var defs: seq<MemDef>
    var first: int
    var last: int
    var free: seq<nat>
    var lru: seq<Buffer>
    var calls: seq<int>
    var memsize: nat
    var memhole: nat
    ghost var list: seq<nat>

    /** The state is right when what is in use ends here. */
    ghost predicate Sound(end: nat)
      reads `links, `defs, `first, `last, `free, `lru, `memhole, `list
    {
      Right(links, defs, first, last, free, lru, memhole, list, end, mem.Length) && meminitnbufs >= 2
    }

    ghost predicate Valid()
      reads `links, `defs, `first, `last, `free, `lru, `memhole, `list, `memsize
    {
      Sound(memsize)
    }

    /** What each handle holds. */
    ghost function View(): map<nat, seq<byte>>
      requires InTable(|defs|, list)
      reads `defs, `list, mem
    {
      Contents(mem[..], defs, list)
    }

    /** The block list is as it was. */
    ghost predicate Kept(links0: seq<Link>, list0: seq<nat>, first0: int, last0: int, free0: seq<nat>)
      reads `links, `first, `last, `free, `list
    {
      links == links0 && list == list0 && first == first0 && last == last0 && free == free0
    }

    /** meminit. */
    constructor (memmax: nat, nbufs: nat)
      requires nbufs >= 2
      ensures Valid() && View() == map[] && mem.Length == memmax && fresh(mem) && list == [] && lru == []
    {
      mem := new byte[memmax](_ => 0);
      meminitnbufs := nbufs;
      links := seq(nbufs, _ => Link(NIL, NIL));
      defs := seq(nbufs, _ => MemDef(0, 0, false));
      first, last := NIL, NIL;
      free := seq(nbufs - 1, i => i + 1);
      lru, calls, list := [], [], [];
      memsize, memhole := 0, 0;
    }

    /** membufend: the block is no longer one that may be given up. */
    method BufEnd(h: int)
      requires Valid() && (h == NIL || h in list)
      modifies `defs, `lru
      ensures Valid() && View() == old(View())
      ensures h != NIL ==> defs == old(defs)[h := old(defs)[h].(buffered := false)]
      ensures h == NIL || !old(defs)[h].buffered ==> defs == old(defs) && lru == old(lru)
      ensures forall j :: 0 <= j < |old(lru)| && old(lru)[j].handle == h ==> lru == Dropped(old(lru), j)
    {
      hide Right, Contents;
      if h == NIL {
        return;
      }
      HandleFacts(links, defs, first, last, free, lru, memhole, list, memsize, mem.Length, h);
      if defs[h].buffered {
        var j :| 0 <= j < |lru| && lru[j].handle == h;
        RightUnmarked(links, defs, first, last, free, lru, memhole, list, memsize, mem.Length, j);
        ghost var defs0 := defs;
        defs := defs[h := defs[h].(buffered := false)];
        lru := lru[..j] + lru[j + 1..];
        ContentsUnmarked(mem[..], defs0, list, h);
      }
    }

    /** memfree. */
    method Free(h: int)
      requires Valid() && (h == NIL || h in list)
      modifies `links, `defs, `first, `last, `free, `lru, `memsize, `memhole, `list
      ensures Valid()
      ensures h == NIL ==> View() == old(View()) && list == old(list) && lru == old(lru) && defs == old(defs)
      ensures h != NIL ==> View() == old(View()) - {h} && list == Without(old(list), PlaceOf(old(list), h)) && |free| > |old(free)|
      ensures h != NIL ==> defs == old(defs)[h := old(defs)[h].(buffered := false)]
      ensures h != NIL ==> TakenOut(old(links), links, h) && memsize <= old(memsize)
      ensures forall j :: 0 <= j < |old(lru)| && old(lru)[j].handle == h ==> lru == Dropped(old(lru), j)
    {
      hide Right, Contents, Without, Dropped, TakenOut;
      if h == NIL {
        return;
      }
      HandleFacts(links, defs, first, last, free, lru, memhole, list, memsize, mem.Length, h);
      if defs[h].buffered {
        BufEnd(h);
      }
      Unlink(h, PlaceOf(list, h));
    }

    /** Take a record out of the list, and note the hole that its block leaves. */
    method Unlink(h: nat, ghost i: nat)
      requires Valid() && i < |list| && list[i] == h < |defs| && !defs[h].buffered
      modifies `links, `first, `last, `free, `memsize, `memhole, `list
      ensures Valid() && View() == old(View()) - {h} && list == Without(old(list), i) && |free| > |old(free)|
      ensures TakenOut(old(links), links, h) && memsize <= old(memsize)
    {
      hide Right, Contents, Without, Joined;
      BlockFacts(links, defs, first, last, free, lru, memhole, list, memsize, mem.Length, i);
      var left, right := links[h].prev, links[h].next;
      ghost var hole := if right == NIL then (if left == NIL then 0 else memhole) else if defs[h].size > memhole then defs[h].size else memhole;
      RightWithout(links, defs, first, last, free, lru, memhole, list, memsize, mem.Length, i, hole);
      ContentsWithout(mem[..], defs, list, i);
      free := [h] + free;
      if right != NIL {
        links := links[right := links[right].(prev := left)];
        if defs[h].size > memhole {
          memhole := defs[h].size;
        }
      } else {
        last := left;
        if left == NIL {
          memsize, memhole := 0, 0;
        } else {
          memsize := End(defs[left]);
        }
      }
      if left != NIL {
        links := links[left := links[left].(next := right)];
      } else {
        first := right;
      }
      list := Without(list, i);
    }

    /** memcompact. */
    method Compact()
      requires Valid()
      modifies `defs, `memsize, `memhole, mem
      ensures Valid() && InTable(|defs|, list) && View() == old(View()) && memhole == 0 && Slid(old(defs), defs)
      ensures memsize == Total(defs, list) == old(Total(defs, list)) <= mem.Length
    {
      hide Right, Contents, Total, Sliding;
      CompactFacts(links, defs, first, last, free, lru, memhole, list, memsize, mem[..]);
      if memhole == 0 {
        return;
      }
      memhole := 0;
      var i1, memptr := 0, first;
      ghost var k, c, defs0 := 0, View(), defs;
      while memptr != NIL
        invariant |defs| == |defs0| && memhole == 0 && k <= |list| && memptr == (if k < |list| then list[k] else NIL)
        invariant Sliding(mem[..], defs, list, k, c) && i1 == Total(defs, list[..k]) && Slid(defs0, defs)
        decreases |list| - k
      {
        i1, memptr := SlideDown(memptr, i1, k, c, defs0);
        k := k + 1;
      }
      memsize := i1;
      assert list[..k] == list;
      SlidAll(mem[..], defs, list, c);
      RightPacked(links, defs0, first, last, free, lru, old(memhole), list, old(memsize), mem.Length, defs);
    }

    /** Move a block down to the end of the ones before it. */
    method SlideDown(h: nat, to: nat, ghost k: nat, ghost c: map<nat, seq<byte>>, ghost defs0: seq<MemDef>)
      returns (i1: nat, memptr: int)
      requires Linked(links, list, first, last) && k < |list| && h == list[k] && h < |links| == |defs|
      requires Sliding(mem[..], defs, list, k, c) && to == Total(defs, list[..k]) && Slid(defs0, defs)
      modifies `defs, mem
      ensures |defs| == old(|defs|) && Sliding(mem[..], defs, list, k + 1, c) && i1 == Total(defs, list[..k + 1]) && Slid(defs0, defs)
      ensures memptr == if k + 1 < |list| then list[k + 1] else NIL
    {
      hide Sliding, Total, Linked, Moved;
      ghost var d, m := defs[h], mem[..];
      SlideStep(m, defs, list, k, c, to);
      Neighbours(links, list, first, last, k);
      MovedNone(m, d.bufptr, d.size);
      if defs[h].bufptr != to {
        MoveBytes(mem, to, defs[h].bufptr, defs[h].size);
        defs := defs[h := defs[h].(bufptr := to)];
      } else {
        assert defs[h := d] == defs;
      }
      i1 := to + defs[h].size;
      memptr := links[h].next;
    }

    /** Give up the oldest buffer: its owner is called, and its block goes. */
    method RemoveOldest(size: nat) returns (left: nat)
      requires Valid() && lru != []
      modifies `links, `defs, `first, `last, `free, `lru, `calls, `memsize, `memhole, `list
      ensures Valid() && lru == old(lru)[1..] && calls == old(calls) + [old(lru)[0].cbparm]
      ensures InTable(|defs|, list) && View() == old(View()) - {old(lru)[0].handle} && SameSizes(old(defs), defs)
      ensures list == Remaining(old(list), {old(lru)[0].handle})
      ensures var n := old(defs)[old(lru)[0].handle].size;
              left == (if n > size then 0 else size - n) && Total(defs, list) == old(Total(defs, list)) - n
      ensures |free| > |old(free)| && memsize <= old(memsize)
      ensures old(lru)[0].handle in old(list) && TakenOut(old(links), links, old(lru)[0].handle)
    {
      hide Right, Contents, Without, Dropped, Total, Registered, TakenOut;
      OldestFacts(links, defs, first, last, free, lru, memhole, list, memsize, mem.Length);
      var h := lru[0].handle;
      TotalUnmarked(defs, list, PlaceOf(list, h));
      HandleFacts(links, defs, first, last, free, lru, memhole, list, memsize, mem.Length, h);
      RemainingOne(list, PlaceOf(list, h));
      calls := calls + [lru[0].cbparm];
      left := if defs[h].size > size then 0 else size - defs[h].size;
      Free(h);
    }

    /** The k oldest buffers have been given up. */
    ghost predicate Gave(lru0: seq<Buffer>, defs0: seq<MemDef>, calls0: seq<int>, v0: map<nat, seq<byte>>, total0: int, list0: seq<nat>,
                         k: nat)
      reads `links, `defs, `lru, `calls, `list, mem
    {
      && InTable(|defs|, list) && k <= |lru0|
      && Given(lru0, defs0, calls0, v0, total0, k, lru, defs, calls, View(), Total(defs, list))
      && list == Remaining(list0, HandleSet(lru0[..k])) && Severed(links, HandleSet(lru0[..k]))
    }

    /** One more buffer is given up. */
    method GiveOne(size: nat, ghost lru0: seq<Buffer>, ghost defs0: seq<MemDef>, ghost calls0: seq<int>, ghost v0: map<nat, seq<byte>>,
                   ghost total0: int, ghost list0: seq<nat>, ghost k: nat)
      returns (left: nat)
      requires Valid() && lru != [] && Gave(lru0, defs0, calls0, v0, total0, list0, k)
      modifies `links, `defs, `first, `last, `free, `lru, `calls, `memsize, `memhole, `list
      ensures Valid() && k < |lru0| && Gave(lru0, defs0, calls0, v0, total0, list0, k + 1)
      ensures Handles(|defs0|, lru0) && var n := Freed(defs0, lru0, k + 1) - Freed(defs0, lru0, k); left == if n > size then 0 else size - n
      ensures |lru| < |old(lru)| && |free| >= |old(free)| && memsize <= old(memsize)
    {
      hide Right, Contents, Total, Given, SameSizes, Remaining, HandleSet, Registered, Fixed, Severed, TakenOut, Linked;
      ghost var l, d, c, v, t, ls, li, f, e := lru, defs, calls, View(), Total(defs, list), links, list, first, last;
      RightLinked(links, defs, first, last, free, lru, memhole, list, memsize, mem.Length);
      left := RemoveOldest(size);
      GivenOne(lru0, defs0, calls0, v0, total0, k, l, d, c, v, t, defs);
      RemainingMore(list0, HandleSet(lru0[..k]), lru0[k].handle);
      HandleSetStep(lru0, k);
      RemainingGone(list0, HandleSet(lru0[..k]));
      SeveredTaken(ls, links, li, f, e, lru0[k].handle, HandleSet(lru0[..k]));
    }

    /** membufremove: give up buffers, the oldest first, until so many bytes are covered. */
    method BufRemove(size: nat) returns (rc: int, ghost k: nat)
      requires Valid() && size > 0
      modifies `links, `defs, `first, `last, `free, `lru, `calls, `memsize, `memhole, `list
      ensures Valid() && InTable(|defs|, list) && Handles(|old(defs)|, old(lru)) && k <= |old(lru)|
      ensures Given(old(lru), old(defs), old(calls), old(View()), old(Total(defs, list)), k, lru, defs, calls, View(), Total(defs, list))
      ensures rc == if Freed(old(defs), old(lru), k) >= size then 0 else RC_ERROR
      ensures k > 0 ==> Freed(old(defs), old(lru), k - 1) < size
      ensures rc != 0 ==> k == |old(lru)|
      ensures k == 0 ==> Kept(old(links), old(list), old(first), old(last), old(free)) && defs == old(defs)
      ensures |free| >= |old(free)| && list == Remaining(old(list), HandleSet(old(lru)[..k]))
      ensures Severed(links, HandleSet(old(lru)[..k])) && memsize <= old(memsize)
    {
      hide Right, Contents, Total, Given, SameSizes, Remaining, HandleSet, Registered, Fixed, Severed, Arena.Gave, Freed;
      OldestFacts(links, defs, first, last, free, lru, memhole, list, memsize, mem.Length);
      ghost var lru0, defs0, calls0, v0, total0, list0 := lru, defs, calls, View(), Total(defs, list), list;
      GaveNone();
      FreedNone(defs, lru);
      var left := size;
      k := 0;
      while lru != []
        invariant Valid() && Gave(lru0, defs0, calls0, v0, total0, list0, k) && k <= |lru0|
        invariant left > 0 && left + Freed(defs0, lru0, k) == size && memsize <= old(memsize)
        invariant k > 0 ==> Freed(defs0, lru0, k - 1) < size
        invariant (k == 0 ==> Kept(old(links), old(list), old(first), old(last), old(free)) && defs == old(defs)) && |free| >= |old(free)|
        decreases |lru|
      {
        left := GiveOne(left, lru0, defs0, calls0, v0, total0, list0, k);
        k := k + 1;
        if left == 0 {
          GaveMeans(lru0, defs0, calls0, v0, total0, list0, k);
          return 0, k;
        }
      }
      rc := RC_ERROR;
      GaveMeans(lru0, defs0, calls0, v0, total0, list0, k);
      GivenAll(lru0, defs0, calls0, v0, total0, k, defs, calls, View(), Total(defs, list));
    }

    lemma GaveNone()
      requires Valid() && InTable(|defs|, list)
      ensures Gave(lru, defs, calls, View(), Total(defs, list), list, 0)
    {
      hide Right, Contents, Total, Remaining, Registered;
      OldestFacts(links, defs, first, last, free, lru, memhole, list, memsize, mem.Length);
      GivenNone(lru, defs, calls, View(), Total(defs, list));
      NoneRemain(list, lru);
      assert HandleSet(lru[..0]) == {};
    }

    lemma GaveMeans(lru0: seq<Buffer>, defs0: seq<MemDef>, calls0: seq<int>, v0: map<nat, seq<byte>>, total0: int, list0: seq<nat>, k: nat)
      requires Gave(lru0, defs0, calls0, v0, total0, list0, k)
      ensures InTable(|defs|, list) && k <= |lru0|
      ensures Given(lru0, defs0, calls0, v0, total0, k, lru, defs, calls, View(), Total(defs, list))
      ensures list == Remaining(list0, HandleSet(lru0[..k])) && Severed(links, HandleSet(lru0[..k]))
    {
    }

    /** memoryalloc: room behind all the blocks, if need be after compaction, and after giving up buffers. */
    method MemoryAlloc(size: nat) returns (ok: bool, ptr: nat, ghost k: nat)
      requires Valid()
      modifies `links, `defs, `first, `last, `free, `lru, `calls, `memsize, `memhole, `list, mem
      ensures InTable(|defs|, list) && Handles(|old(defs)|, old(lru)) && k <= |old(lru)|
      ensures Given(old(lru), old(defs), old(calls), old(View()), old(Total(defs, list)), k, lru, defs, calls, View(), Total(defs, list))
      ensures ok <==> Fixed(old(defs), old(list)) + size <= mem.Length
      ensures if ok then Sound(ptr) && memsize == ptr + size <= mem.Length else Valid() && k == |old(lru)|
      ensures ok && k > 0 ==> memhole == 0
      ensures k > 0 ==> old(Total(defs, list)) - Freed(old(defs), old(lru), k - 1) + size > mem.Length
      ensures k == 0 ==> Kept(old(links), old(list), old(first), old(last), old(free)) && Slid(old(defs), defs)
      ensures |free| >= |old(free)| && list == Remaining(old(list), HandleSet(old(lru)[..k]))
      ensures Severed(links, HandleSet(old(lru)[..k])) && memsize <= mem.Length
    {
      hide Right, Contents, Total, Given, SameSizes, Freed, Fixed, Slid, Registered, Spaced, Linked, Severed, Remaining, HandleSet, Handles;
      NoneSevered(links, lru);
      OldestFacts(links, defs, first, last, free, lru, memhole, list, memsize, mem.Length);
      ghost var lru0, defs0, calls0, v0, total0 := lru, defs, calls, View(), Total(defs, list);
      GivenNone(lru, defs, calls, v0, total0);
      GivenTotal(lru0, defs0, calls0, v0, total0, 0, lru, defs, calls, v0, total0);
      SlidNone(defs);
      NoneRemain(list, lru);
      k := 0;
      if memsize > mem.Length || size > mem.Length - memsize {
        Compact();
        GivenSlid(lru0, defs0, calls0, v0, total0, 0, lru0, defs0, calls0, v0, total0, defs);
        if memsize > mem.Length || size > mem.Length - memsize {
          var fits;
          fits, k := MakeRoom(size, lru0, defs0, calls0, v0, total0);
          if !fits {
            return false, 0, k;
          }
        }
      }
      ok, ptr := true, memsize;
      memsize := memsize + size;
    }

    /** Give up buffers for a block of this size, and close the holes they leave. */
    method MakeRoom(size: nat, ghost lru0: seq<Buffer>, ghost defs0: seq<MemDef>, ghost calls0: seq<int>,
                    ghost v0: map<nat, seq<byte>>, ghost total0: int)
      returns (fits: bool, ghost k: nat)
      requires Valid() && InTable(|defs|, list) && memsize == Total(defs, list) <= mem.Length && size > mem.Length - memsize
      requires lru == lru0 && calls == calls0 && View() == v0 && Total(defs, list) == total0 && Slid(defs0, defs)
      requires Handles(|defs0|, lru0) && Given(lru0, defs0, calls0, v0, total0, 0, lru, defs, calls, v0, total0)
      modifies `links, `defs, `first, `last, `free, `lru, `calls, `memsize, `memhole, `list, mem
      ensures Valid() && InTable(|defs|, list) && k <= |lru0|
      ensures Given(lru0, defs0, calls0, v0, total0, k, lru, defs, calls, View(), Total(defs, list))
      ensures fits <==> total0 - Freed(defs0, lru0, |lru0|) + size <= mem.Length
      ensures if fits then memsize + size <= mem.Length else k == |lru0|
      ensures fits ==> memhole == 0
      ensures k > 0 ==> total0 - Freed(defs0, lru0, k - 1) + size > mem.Length
      ensures k == 0 ==> Kept(old(links), old(list), old(first), old(last), old(free)) && Slid(defs0, defs)
      ensures |free| >= |old(free)| && list == Remaining(old(list), HandleSet(lru0[..k]))
      ensures Severed(links, HandleSet(lru0[..k])) && memsize <= mem.Length
    {
      hide Right, Contents, Total, Given, SameSizes, Freed, Fixed, Slid, Registered, Spaced, Linked, Severed;
      ghost var defs1 := defs;
      var rc;
      rc, k := BufRemove(size - (mem.Length - memsize));
      OldestFacts(links, defs, first, last, free, lru, memhole, list, memsize, mem.Length);
      SameFreed(defs0, defs1, lru0, k);
      GivenAgain(lru0, defs0, calls0, v0, total0, defs1, k, lru, defs, calls, View(), Total(defs, list));
      ghost var d, v, t := defs, View(), Total(defs, list);
      GivenTotal(lru0, defs0, calls0, v0, total0, k, lru, defs, calls, v, t);
      if rc != RC_ERROR {
        Compact();
        GivenSlid(lru0, defs0, calls0, v0, total0, k, lru, d, calls, v, t, defs);
      }
      fits := !(memsize > mem.Length || size > mem.Length - memsize);
    }

    /** More records. */
    method MoreRecords()
      requires Valid() && free == []
      modifies `links, `defs, `free
      ensures Valid() && InTable(|defs|, list) && free != [] && View() == old(View()) && |old(defs)| <= |defs| && defs[..|old(defs)|] == old(defs)
    {
      hide Right, Contents;
      RightLonger(links, defs, first, last, lru, memhole, list, memsize, mem.Length, meminitnbufs);
      ghost var defs0 := defs;
      var base := |defs|;
      free := seq(meminitnbufs - 1, i requires 0 <= i < meminitnbufs - 1 => base + 1 + i);
      links := links + seq(meminitnbufs, _ => Link(NIL, NIL));
      defs := defs + seq(meminitnbufs, _ => MemDef(0, 0, false));
      ContentsLonger(mem[..], defs0, defs, list);
    }

    /** memalloc: a new block, or NIL when what may not be given up leaves no room for it. Exactly as many of the oldest buffers
        are given up as it takes, and the owner of each is called once, the oldest first. */
    method Alloc(size: int, zero: bool) returns (h: int, ghost k: nat)
      requires Valid() && size < 0x8000_0000
      modifies `links, `defs, `first, `last, `free, `lru, `calls, `memsize, `memhole, `list, mem
      ensures Valid() && Handles(|old(defs)|, old(lru)) && k <= |old(lru)|
      ensures h == NIL <==> size < 0 || Fixed(old(defs), old(list)) + Round(size) > mem.Length
      ensures size < 0 ==> k == 0
      ensures lru == old(lru)[k..] && calls == old(calls) + Parms(old(lru)[..k])
      ensures h == NIL && size >= 0 ==> k == |old(lru)|
      ensures k > 0 ==> size >= 0 && old(Total(defs, list)) - Freed(old(defs), old(lru), k - 1) + Round(size) > mem.Length
      ensures h == NIL ==> View() == old(View()) - HandleSet(old(lru)[..k])
      ensures h != NIL ==> var kept := old(View()) - HandleSet(old(lru)[..k]);
                           && h !in kept && h in View() && View() == kept[h := View()[h]]
                           && |View()[h]| == Round(size) && (zero ==> View()[h] == Zeros(Round(size)))
    {
      hide Right, Contents, Total, Given, Freed, Fixed, Registered, Spaced, Linked, Slid, HandleSet, Parms, Round;
      OldestFacts(links, defs, first, last, free, lru, memhole, list, memsize, mem.Length);
      GivenNone(lru, defs, calls, View(), Total(defs, list));
      GivenMeans(lru, defs, calls, View(), Total(defs, list), 0, lru, defs, calls, View(), Total(defs, list));
      if size < 0 {
        return NIL, 0;
      }
      var n := Round(size);
      ghost var lru0, defs0, calls0, v0, total0, list0 := lru, defs, calls, View(), Total(defs, list), list;
      if free == [] {
        MoreRecords();
        LongerSame(defs0, defs, list, lru);
      } else {
        SameSame(defs, list, lru);
      }
      ghost var defs1 := defs;
      var ok, ptr;
      ok, ptr, k := MemoryAlloc(n);
      ghost var v := View();
      GivenMeans(lru0, defs1, calls0, v0, total0, k, lru, defs, calls, v, Total(defs, list));
      LongerFreed(defs0, defs1, list0, lru0, k);
      if !ok {
        return NIL, k;
      }
      if zero {
        ZeroBytes(mem, ptr, n, links, defs, first, last, free, lru, memhole, list);
      }
      h := free[0];
      Insert(ptr, n);
    }

    /** Put a record at the end of the list. */
    method Insert(ptr: nat, n: nat)
      requires Sound(ptr) && free != [] && memsize == ptr + n <= mem.Length && InTable(|defs|, list)
      modifies `links, `defs, `first, `last, `free, `list
      ensures Valid() && InTable(|defs|, list)
      ensures var h := old(free)[0];
              && h !in old(View()) && View() == old(View())[h := Slice(mem[..], MemDef(ptr, n, false))]
              && list == old(list) + [h] && free == old(free)[1..]
    {
      hide Right, Contents, Linked;
      var h, d := free[0], MemDef(ptr, n, false);
      RightWith(links, defs, first, last, free, lru, memhole, list, ptr, mem.Length, d);
      ContentsWith(mem[..], defs, list, h, d);
      NotHeld(mem[..], defs, list, h);
      free := free[1..];
      defs := defs[h := d];
      var left := last;
      links := links[h := Link(left, NIL)];
      if left != NIL {
        links := links[left := links[left].(next := h)];
      } else {
        first := h;
      }
      last := h;
      list := list + [h];
    }

    /** membuffer: a block may be given up; it becomes the newest such. */
    method Register(h: int, cbparm: int) returns (rc: int)
      requires Valid() && (h == NIL || h in list)
      modifies `defs, `lru
      ensures Valid() && View() == old(View())
      ensures rc == if h == NIL then RC_ERROR else 0
      ensures h == NIL ==> lru == old(lru) && defs == old(defs)
      ensures h != NIL ==> h < |old(defs)| && defs == old(defs)[h := old(defs)[h].(buffered := true)]
      ensures h != NIL && !old(defs)[h].buffered ==> lru == old(lru) + [Buffer(h, cbparm)]
      ensures forall j :: 0 <= j < |old(lru)| && old(lru)[j].handle == h ==> lru == Dropped(old(lru), j) + [Buffer(h, cbparm)]
    {
      hide Right, Contents;
      if h == NIL {
        return RC_ERROR;
      }
      HandleFacts(links, defs, first, last, free, lru, memhole, list, memsize, mem.Length, h);
      BufEnd(h);
      RightMarked(links, defs, first, last, free, lru, memhole, list, memsize, mem.Length, Buffer(h, cbparm), mem[..]);
      defs := defs[h := defs[h].(buffered := true)];
      lru := lru + [Buffer(h, cbparm)];
      rc := 0;
    }

    /** The way in which memchange fails that the caller is not told of: there is room for the block only after buffers have been
        given up, and it is the last one, or a neighbour of it is among these buffers. */
    ghost predicate Spoils(h: int, n: nat)
      requires InTable(|defs|, list) && Handles(|defs|, lru)
      reads `defs, `list, `lru
    {
      && h in list && h < |defs| && !defs[h].buffered
      && !Resizable(defs, list, mem.Length, PlaceOf(list, h), n) && Fixed(defs, list) + n <= mem.Length
      && (list[|list| - 1] == h || !NeighboursSafe(defs, list, lru, PlaceOf(list, h), Total(defs, list) + n - mem.Length))
    }

    /** The last block, growing beyond the end of what is in use by no more than the gap before it is long: it is moved to the
        left, and the end of what is in use is not. */
    ghost predicate Overruns(h: int, n: nat)
      requires InTable(|defs|, list)
      reads `defs, `list, `memsize
    {
      && h in list && h < |defs| && !defs[h].buffered && list[|list| - 1] == h
      && var room := mem.Length - memsize; defs[h].size + room < n <= defs[h].size + room + Gap(h)
    }

    /** The bytes between a block and the one before it. */
    ghost function Gap(h: nat): int
      requires InTable(|defs|, list) && h in list && h < |defs|
      reads `defs, `list
    {
      defs[h].bufptr - EndBefore(defs, list, PlaceOf(list, h))
    }

    /** memchange: another size for a block. It succeeds exactly when there is room, in place, around it, or elsewhere after as
        many of the oldest buffers as it takes have been given up; then the block holds what it held as far as that goes, and
        the others keep their bytes. When a block spoils the state in the sense of Spoils, the program ends with an internal
        error, or goes on with a state that is not valid; if the block is not the last one it goes on, and no list of blocks has
        the links that are left. What is in use ends past the arena, if it did not before, exactly when the block overruns. */
    method Change(h: int, size: nat, zero: bool) returns (rc: int, ghost k: nat)
      requires Valid() && InTable(|defs|, list) && Handles(|defs|, lru) && (h == NIL || h in list) && size < 0x1_0000_0000
      modifies `links, `defs, `first, `last, `free, `lru, `calls, `memsize, `memhole, `list, mem
      ensures old(Spoils(h, Round(size))) ==> rc == ABORT || (rc == 0 && !Valid())
      ensures old(Spoils(h, Round(size)) && list[|list| - 1] != h) ==> rc == 0 && Unlisted(links, first, last)
      ensures old(memsize) <= mem.Length ==> (memsize > mem.Length <==> old(Overruns(h, Round(size))))
      ensures !old(Spoils(h, Round(size))) ==>
                && Valid() && (rc == 0 || rc == RC_ERROR)
                && (rc == 0 <==> h != NIL && !old(defs)[h].buffered
                                 && (Resizable(old(defs), old(list), mem.Length, PlaceOf(old(list), h), Round(size))
                                     || Fixed(old(defs), old(list)) + Round(size) <= mem.Length))
                && k <= |old(lru)| && lru == old(lru)[k..] && calls == old(calls) + Parms(old(lru)[..k])
                && (k > 0 ==> old(Total(defs, list)) - Freed(old(defs), old(lru), k - 1) + Round(size) > mem.Length)
      ensures !old(Spoils(h, Round(size))) && rc != 0 ==> View() == old(View()) - HandleSet(old(lru)[..k])
      ensures !old(Spoils(h, Round(size))) && rc == 0 ==>
                && h in old(View()) && h in View()
                && View() == (old(View()) - HandleSet(old(lru)[..k]))[h := View()[h]]
                && Resized(old(View())[h], View()[h], Round(size), zero)
    {
      hide Right, Contents, Total, Round, Resizable, Resized, Room, Registered, Spaced, Linked, NeighboursSafe, HandleSet, Parms,
        Freed, Fixed, Handles, Slid;
      k := 0;
      NoneGivenYet(lru, View());
      if h == NIL {
        return RC_ERROR, 0;
      }
      HandleFacts(links, defs, first, last, free, lru, memhole, list, memsize, mem.Length, h);
      if defs[h].buffered {
        return RC_ERROR, 0;
      }
      rc, k := ChangeBlock(h, Round(size), zero, PlaceOf(list, h));
    }

    /** The change of a block that may not be given up. */
    method ChangeBlock(h: nat, n: nat, zero: bool, ghost i: nat) returns (rc: int, ghost k: nat)
      requires Valid() && InTable(|defs|, list) && Handles(|defs|, lru) && h in list && i == PlaceOf(list, h) && h < |defs|
      requires !defs[h].buffered
      modifies `links, `defs, `first, `last, `free, `lru, `calls, `memsize, `memhole, `list, mem
      ensures old(Spoils(h, n)) ==> rc == ABORT || (rc == 0 && !Valid())
      ensures old(Spoils(h, n) && list[|list| - 1] != h) ==> rc == 0 && Unlisted(links, first, last)
      ensures old(memsize) <= mem.Length ==> (memsize > mem.Length <==> old(Overruns(h, n)))
      ensures !old(Spoils(h, n)) ==>
                && Valid() && (rc == 0 || rc == RC_ERROR)
                && (rc == 0 <==> Resizable(old(defs), old(list), mem.Length, i, n) || Fixed(old(defs), old(list)) + n <= mem.Length)
                && k <= |old(lru)| && lru == old(lru)[k..] && calls == old(calls) + Parms(old(lru)[..k])
                && (k > 0 ==> old(Total(defs, list)) - Freed(old(defs), old(lru), k - 1) + n > mem.Length)
      ensures !old(Spoils(h, n)) && rc != 0 ==> View() == old(View()) - HandleSet(old(lru)[..k])
      ensures !old(Spoils(h, n)) && rc == 0 ==>
                && h in old(View()) && h in View()
                && View() == (old(View()) - HandleSet(old(lru)[..k]))[h := View()[h]]
                && Resized(old(View())[h], View()[h], n, zero)
    {
      hide Right, Contents, Total, Resizable, Resized, Room, Registered, Spaced, Linked, NeighboursSafe, HandleSet, Parms, Freed, Fixed,
        Handles, Slid, Unlisted, EndBefore;
      k := 0;
      FixedAtMost(defs, list);
      NoneGivenYet(lru, View());
      ResizableCases(defs, list, mem.Length, i, n);
      SafeAnyway(defs, list, lru, i, Total(defs, list) + n - mem.Length);
      BlockFacts(links, defs, first, last, free, lru, memhole, list, memsize, mem.Length, i);
      var fits := ChangeHere(h, n, zero, i);
      if fits {
        return 0, 0;
      }
      rc, k := Elsewhere(h, n, zero, i);
    }

    /** The change of a block in place, or in the room around it. */
    method ChangeHere(h: nat, n: nat, zero: bool, ghost i: nat) returns (fits: bool)
      requires Valid() && InTable(|defs|, list) && Handles(|defs|, lru) && i < |list| && list[i] == h < |defs| && !defs[h].buffered
      modifies `defs, `memsize, `memhole, mem
      ensures Valid() && InTable(|defs|, list) && Handles(|defs|, lru) && h < |defs|
      ensures fits <==> n <= old(defs)[h].size
                        || (if i + 1 == |list| then old(Total(defs, list)) - old(defs)[h].size + n <= mem.Length
                            else n <= old(defs[list[i + 1]].bufptr - EndBefore(defs, list, i)))
      ensures fits ==> h in old(View()) && h in View() && View() == old(View())[h := View()[h]] && Resized(old(View())[h], View()[h], n, zero)
      ensures !fits ==> View() == old(View()) && h in View() && n > defs[h].size == old(defs)[h].size && !defs[h].buffered
      ensures !fits ==>
                && Total(defs, list) == old(Total(defs, list)) && Fixed(defs, list) == old(Fixed(defs, list))
                && (forall k :: 0 <= k <= |lru| ==> Freed(defs, lru, k) == Freed(old(defs), lru, k))
                && (NeighboursSafe(defs, list, lru, i, Total(defs, list) + n - mem.Length)
                    <==> old(NeighboursSafe(defs, list, lru, i, Total(defs, list) + n - mem.Length)))
      ensures var room := mem.Length - old(memsize); var gap := old(defs[h].bufptr - EndBefore(defs, list, i)); var size := old(defs[h].size);
              room >= 0 ==> (memsize > mem.Length <==> i + 1 == |list| && size + room < n <= size + room + gap) && (!fits ==> memsize <= mem.Length)
    {
      hide Right, Contents, Total, Resizable, Resized, Room, Registered, Spaced, Linked, NeighboursSafe, HandleSet, Parms, Freed, Fixed,
        Handles, Slid, EndBefore;
      ghost var v0 := View();
      HeldAt(mem[..], defs, list, i);
      var cur := defs[h].size;
      BlockFacts(links, defs, first, last, free, lru, memhole, list, memsize, mem.Length, i);
      RoomFacts(links, defs, first, last, free, lru, memhole, list, memsize, mem.Length, i);
      if n == cur {
        SameResized(mem[..], defs[h], zero);
        assert v0[h := v0[h]] == v0;
        return true;
      }
      var i1 := 0;
      if n > cur {
        i1 := MakePlace(h, n, i);
        SlidTotal(old(defs), defs, list);
        SlidFixed(old(defs), defs, list);
        SlidSafe(old(defs), defs, list, lru, i, old(Total(defs, list)) + n - mem.Length);
        SlidFacts(old(defs), defs, h);
      } else {
        ShrinkRoom(links, defs, first, last, free, lru, memhole, list, memsize, mem.Length, i, n);
      }
      fits := n <= cur + i1;
      if fits {
        ResizeHere(h, n, zero, i);
        OldestFacts(links, defs, first, last, free, lru, memhole, list, memsize, mem.Length);
      }
    }

    /** The change of a block for which there is not enough room around it. */
    method Elsewhere(h: nat, n: nat, zero: bool, ghost i: nat) returns (rc: int, ghost k: nat)
      requires Valid() && InTable(|defs|, list) && Handles(|defs|, lru) && i < |list| && list[i] == h < |defs| && n > defs[h].size
      requires !defs[h].buffered && (i + 1 == |list| ==> Total(defs, list) - defs[h].size + n > mem.Length)
      modifies `links, `defs, `first, `last, `free, `lru, `calls, `memsize, `memhole, `list, mem
      ensures memsize <= mem.Length
      ensures i + 1 == |old(list)| && old(Fixed(defs, list)) + n <= mem.Length ==> rc == ABORT || (rc == 0 && !Valid())
      ensures (&& i + 1 < |old(list)| && old(Fixed(defs, list)) + n <= mem.Length
               && !old(NeighboursSafe(defs, list, lru, i, Total(defs, list) + n - mem.Length))) ==>
                rc == 0 && Unlisted(links, first, last) && !Valid()
      ensures (|| (i + 1 < |old(list)| && old(NeighboursSafe(defs, list, lru, i, Total(defs, list) + n - mem.Length)))
               || old(Fixed(defs, list)) + n > mem.Length) ==>
                && Valid() && rc == (if old(Fixed(defs, list)) + n <= mem.Length then 0 else RC_ERROR)
                && k <= |old(lru)| && lru == old(lru)[k..] && calls == old(calls) + Parms(old(lru)[..k])
                && (k > 0 ==> old(Total(defs, list)) - Freed(old(defs), old(lru), k - 1) + n > mem.Length)
                && (rc != 0 ==> View() == old(View()) - HandleSet(old(lru)[..k]))
                && (rc == 0 ==> h in old(View()) && h in View() && View() == (old(View()) - HandleSet(old(lru)[..k]))[h := View()[h]]
                                && Resized(old(View())[h], View()[h], n, zero))
    {
      hide Right, Contents, Total, Resized, Registered, Spaced, Linked, NeighboursSafe, HandleSet, Parms, Freed, Fixed, Handles, Slid, Unlisted;
      BlockFacts(links, defs, first, last, free, lru, memhole, list, memsize, mem.Length, i);
      OldestFacts(links, defs, first, last, free, lru, memhole, list, memsize, mem.Length);
      NoneGivenYet(lru, View());
      if links[h].next == NIL {
        FreedAll(defs, lru);
        rc := GrowLast(h, n, i);
        k := |old(lru)|;
      } else {
        rc, k := Relocate(h, n, zero, i);
        UnlistedWrong();
      }
    }

    lemma UnlistedWrong()
      ensures Unlisted(links, first, last) ==> !Valid()
    {
    }

    /** What memchange does with the last block when there is no room for it: it looks for a second place, and takes the memory
        found to be the block's own, at its end. */
    method GrowLast(h: nat, n: nat, ghost i: nat) returns (rc: int)
      requires Valid() && i + 1 == |list| && list[i] == h < |defs| && InTable(|defs|, list) && n > defs[h].size && !defs[h].buffered
      requires Total(defs, list) - defs[h].size + n > mem.Length
      modifies `links, `defs, `first, `last, `free, `lru, `calls, `memsize, `memhole, `list, mem
      ensures memsize <= mem.Length
      ensures if old(Fixed(defs, list)) + n <= mem.Length then rc == ABORT || (rc == 0 && !Valid())
              else rc == RC_ERROR && Valid() && lru == [] && View() == old(View()) - HandleSet(old(lru)) && calls == old(calls) + Parms(old(lru))
    {
      hide Contents, Total, Registered, Spaced, Linked, Given, Fixed, HandleSet, Parms, Tight, Right, Slid;
      RightRegistered(links, defs, first, last, free, lru, memhole, list, memsize, mem.Length);
      OldestFacts(links, defs, first, last, free, lru, memhole, list, memsize, mem.Length);
      NotGivenUp(mem[..], defs, list, lru, h);
      ghost var v0, defs0, lru0, calls0, total0 := View(), defs, lru, calls, Total(defs, list);
      var ok, ptr;
      ghost var k;
      ok, ptr, k := MemoryAlloc(n);
      GivenMeans(lru0, defs0, calls0, v0, total0, k, lru, defs, calls, View(), Total(defs, list));
      assert lru0[..|lru0|] == lru0;
      if !ok {
        return RC_ERROR;
      }
      OldestFacts(links, defs, first, last, free, lru, memhole, list, ptr, mem.Length);
      GivenTotal(lru0, defs0, calls0, v0, total0, k, lru, defs, calls, View(), Total(defs, list));
      assert k > 0;
      SubSet(lru0, k, h);
      StillHeld(mem[..], defs, list, h);
      GivenSize(lru0, defs0, calls0, v0, total0, k, lru, defs, calls, View(), Total(defs, list), h);
      rc := TakeFound(h, n, ptr);
    }

    /** Take the memory found to be at the end of the last block. */
    method TakeFound(h: nat, n: nat, ptr: nat) returns (rc: int)
      requires Sound(ptr) && memhole == 0 && memsize == ptr + n <= mem.Length && h in list && h < |defs| && n > defs[h].size
      modifies `defs, `memsize
      ensures memsize <= mem.Length
      ensures rc == ABORT || (rc == 0 && !Valid())
    {
      hide Total, Registered, Spaced, Linked, Tight;
      HandleFacts(links, defs, first, last, free, lru, memhole, list, ptr, mem.Length, h);
      if n <= defs[h].size + mem.Length - memsize {
        OverTotal(defs, list, PlaceOf(list, h), n, ptr);
        memsize := memsize + n - defs[h].size;
        defs := defs[h := defs[h].(size := n)];
        return 0;
      }
      rc := ABORT;
    }

    /** isValidHandle, and the checks that memchkptr makes: they accept every block, in every state. */
    method IsValidHandle(h: int) returns (ok: bool)
      requires Valid() && (h == NIL || h in list)
      ensures ok <==> h != NIL
    {
      hide Right;
      if h == NIL {
        return false;
      }
      HandleFacts(links, defs, first, last, free, lru, memhole, list, memsize, mem.Length, h);
      BlockFacts(links, defs, first, last, free, lru, memhole, list, memsize, mem.Length, PlaceOf(list, h));
      ok := End(defs[h]) <= memsize;
    }

    /** Make room around a block, or before its end by closing all holes, when it grows. */
    method MakePlace(h: nat, n: nat, ghost i: nat) returns (i1: int)
      requires Valid() && i < |list| && list[i] == h < |defs| && n > defs[h].size && InTable(|defs|, list)
      modifies `defs, `memsize, `memhole, mem
      ensures Valid() && InTable(|defs|, list) && View() == old(View()) && Slid(old(defs), defs)
      ensures |defs| == |old(defs)| && defs[h].size == old(defs)[h].size
      ensures n <= defs[h].size + i1 ==>
                && Room(defs, list, i, defs[h].bufptr, defs[h].bufptr + n) && defs[h].bufptr + n <= mem.Length
                && (memhole == 0 ==> i + 1 == |list|)
      ensures i + 1 == |list| ==> (n <= defs[h].size + i1 <==> old(Total(defs, list)) - defs[h].size + n <= mem.Length)
      ensures i + 1 < |list| ==> (n <= defs[h].size + i1 <==> n <= old(defs[list[i + 1]].bufptr - EndBefore(defs, list, i)))
      ensures i + 1 < |list| ==> memsize == old(memsize)
      ensures var room := mem.Length - old(memsize); var gap := old(defs[h].bufptr - EndBefore(defs, list, i));
              i + 1 == |list| ==>
                && (n <= defs[h].size + room + gap ==> memsize == old(memsize) && n <= defs[h].size + i1)
                && (n > defs[h].size + room + gap ==> memsize <= mem.Length && (n <= defs[h].size + i1 ==> n <= defs[h].size + mem.Length - memsize))
    {
      hide Right, Contents, Total, Slid, Registered, Spaced, Linked;
      SlidNone(defs);
      BlockFacts(links, defs, first, last, free, lru, memhole, list, memsize, mem.Length, i);
      RoomFacts(links, defs, first, last, free, lru, memhole, list, memsize, mem.Length, i);
      var leftptr1, rightptr1 := links[h].prev, links[h].next;
      i1 := if rightptr1 == NIL then mem.Length - memsize else defs[rightptr1].bufptr - defs[h].bufptr - defs[h].size;
      if n > defs[h].size + i1 {
        var ptr := if leftptr1 == NIL then 0 else End(defs[leftptr1]);
        var i2 := defs[h].bufptr - ptr;
        if n <= defs[h].size + i1 + i2 {
          MoveLeft(h, ptr, i);
          SlidOne(old(defs), h, ptr);
          i1 := i1 + i2;
        } else if rightptr1 == NIL {
          Compact();
          i1 := mem.Length - memsize;
          SlidFacts(old(defs), defs, h);
          BlockFacts(links, defs, first, last, free, lru, memhole, list, memsize, mem.Length, i);
          RoomFacts(links, defs, first, last, free, lru, memhole, list, memsize, mem.Length, i);
        }
      }
    }

    /** Move a block down to the end of the one before it. */
    method MoveLeft(h: nat, ptr: nat, ghost i: nat)
      requires Valid() && i < |list| && list[i] == h < |defs| && InTable(|defs|, list) && ptr == EndBefore(defs, list, i)
      requires memhole != 0 && ptr <= defs[h].bufptr
      modifies `defs, mem
      ensures Valid() && InTable(|defs|, list) && View() == old(View()) && defs == old(defs)[h := old(defs)[h].(bufptr := ptr)]
    {
      hide Right, Contents, Total, Registered, Spaced, Linked, Slice;
      ghost var m, d := mem[..], defs[h];
      BlockFacts(links, defs, first, last, free, lru, memhole, list, memsize, mem.Length, i);
      RoomFacts(links, defs, first, last, free, lru, memhole, list, memsize, mem.Length, i);
      RightResized(links, defs, first, last, free, lru, memhole, list, memsize, mem.Length, i, ptr, d.size, memsize, memhole);
      SlidSlice(m, ptr, d);
      InOrder(links, defs, first, last, free, lru, memhole, list, memsize, mem.Length);
      HeldAt(m, defs, list, i);
      OthersKept(m, Moved(m, ptr, d.bufptr, d.size), defs, list, mem.Length, i, d.(bufptr := ptr), ptr, End(d));
      ghost var v := View();
      assert v[h := v[h]] == v;
      MoveBytes(mem, ptr, defs[h].bufptr, defs[h].size);
      defs := defs[h := defs[h].(bufptr := ptr)];
    }

    /** Give a block another size where it is. */
    method ResizeHere(h: nat, n: nat, zero: bool, ghost i: nat)
      requires Valid() && i < |list| && list[i] == h < |defs| && InTable(|defs|, list)
      requires Room(defs, list, i, defs[h].bufptr, defs[h].bufptr + n) && defs[h].bufptr + n <= mem.Length
      requires n > defs[h].size && memhole == 0 ==> i + 1 == |list|
      modifies `defs, `memsize, `memhole, mem
      ensures Valid() && h in old(View()) && InTable(|defs|, list) && h in View() && View() == old(View())[h := View()[h]]
      ensures Resized(old(View())[h], View()[h], n, zero)
      ensures memsize == if i + 1 == |list| then old(memsize) + n - old(defs[h].size) else old(memsize)
    {
      hide Right, Contents, Slice, Resized, Room, Zeroed, Total;
      ghost var m := mem[..];
      BlockFacts(links, defs, first, last, free, lru, memhole, list, memsize, mem.Length, i);
      HeldAt(m, defs, list, i);
      if zero && n > defs[h].size {
        FillZero(mem, End(defs[h]), n - defs[h].size);
      }
      RightHere(links, defs, first, last, free, lru, memhole, list, memsize, i, n, zero, m, mem[..]);
      if h == last {
        memsize := memsize + n - defs[h].size;
      } else if n < defs[h].size && defs[h].size - n > memhole {
        memhole := defs[h].size - n;
      }
      defs := defs[h := defs[h].(size := n)];
      HeldAt(mem[..], defs, list, i);
    }

    /** Copy a block that has not enough room to the end. If a neighbour of it is given up to make the room, the links of the
        block list come apart. */
    method Relocate(h: nat, n: nat, zero: bool, ghost i: nat) returns (rc: int, ghost k: nat)
      requires Valid() && i + 1 < |list| && list[i] == h < |defs| && InTable(|defs|, list) && n > defs[h].size && !defs[h].buffered
      requires Handles(|defs|, lru)
      modifies `links, `defs, `first, `last, `free, `lru, `calls, `memsize, `memhole, `list, mem
      ensures rc == (if old(Fixed(defs, list)) + n <= mem.Length then 0 else RC_ERROR) && memsize <= mem.Length
      ensures old(Fixed(defs, list)) + n <= mem.Length && !old(NeighboursSafe(defs, list, lru, i, Total(defs, list) + n - mem.Length)) ==>
                Unlisted(links, first, last)
      ensures old(Fixed(defs, list)) + n > mem.Length || old(NeighboursSafe(defs, list, lru, i, Total(defs, list) + n - mem.Length)) ==>
                && Valid() && k <= |old(lru)| && lru == old(lru)[k..] && calls == old(calls) + Parms(old(lru)[..k])
                && (k > 0 ==> old(Total(defs, list)) - Freed(old(defs), old(lru), k - 1) + n > mem.Length)
                && InTable(|defs|, list) && h in old(View())
                && (rc != 0 ==> View() == old(View()) - HandleSet(old(lru)[..k]))
                && (rc == 0 ==> h in View() && View() == (old(View()) - HandleSet(old(lru)[..k]))[h := View()[h]]
                                && Resized(old(View())[h], View()[h], n, zero))
    {
      hide Right, Contents, Total, Registered, Spaced, Linked, Slice, Outside, Resized, Given, Fixed, Freed, Without, HandleSet, Parms,
        Slid, NeighboursSafe, Remaining, Severed, Unlisted, Stale;
      RightRegistered(links, defs, first, last, free, lru, memhole, list, memsize, mem.Length);
      NotGivenUp(mem[..], defs, list, lru, h);
      ghost var v0, defs0, lru0, calls0, total0, list0 := View(), defs, lru, calls, Total(defs, list), list;
      BlockFacts(links, defs, first, last, free, lru, memhole, list, memsize, mem.Length, i);
      var leftptr1, rightptr1 := links[h].prev, links[h].next;
      var ok, ptr;
      ok, ptr, k := MemoryAlloc(n);
      GivenMeans(lru0, defs0, calls0, v0, total0, k, lru, defs, calls, View(), Total(defs, list));
      if !ok {
        return RC_ERROR, k;
      }
      SubSet(lru0, k, h);
      GivenSize(lru0, defs0, calls0, v0, total0, k, lru, defs, calls, View(), Total(defs, list), h);
      RightRegistered(links, defs, first, last, free, lru, memhole, list, ptr, mem.Length);
      RightLinked(links, defs, first, last, free, lru, memhole, list, ptr, mem.Length);
      OldestFacts(links, defs, first, last, free, lru, memhole, list, ptr, mem.Length);
      GivenFreed(lru0, defs0, calls0, v0, total0, k, lru, defs, calls, View(), Total(defs, list));
      ghost var j := PlaceNow(links, defs0, list0, lru0, i, total0 + n - mem.Length, k, first, last);
      StillUnmarked(defs0, list0, lru0, defs, list, lru, k, h);
      BlockFacts(links, defs, first, last, free, lru, memhole, list, ptr, mem.Length, j);
      if leftptr1 == last {
        assert false;
      }
      Transfer(h, ptr, n, zero, leftptr1, rightptr1, j);
      rc := 0;
    }

    /** These are the records before and behind block i. */
    ghost predicate Beside(i: nat, leftptr1: int, rightptr1: nat)
      reads `list
    {
      i + 1 < |list| && leftptr1 == Before(list, i) && rightptr1 == list[i + 1]
    }

    /** Take a record out from between two others, copy its block behind all the others, and put the record at the end. When one
        of the two is a neighbour no more, the links come apart. */
    method Transfer(h: nat, ptr: nat, n: nat, zero: bool, leftptr1: int, rightptr1: nat, ghost i: nat)
      requires Sound(ptr) && memsize == ptr + n <= mem.Length && i < |list| && list[i] == h < |defs| && n > defs[h].size
      requires InTable(|defs|, list) && !defs[h].buffered && h != rightptr1 < |links| && NIL <= leftptr1 < |links| && leftptr1 != h
      requires Beside(i, leftptr1, rightptr1) || Stale(links, list, i, leftptr1, rightptr1)
      modifies `links, `defs, `first, `last, `memhole, `list, mem
      ensures old(Beside(i, leftptr1, rightptr1)) ==>
                && Valid() && InTable(|defs|, list) && h in old(View()) && h in View()
                && View() == old(View())[h := View()[h]] && Resized(old(View())[h], View()[h], n, zero)
      ensures !old(Beside(i, leftptr1, rightptr1)) ==> Unlisted(links, first, last)
    {
      hide Right, Contents, Slice, Resized, Without, Moved, Zeroed, Unlinked, Appended, Relinked, Unlisted, Stale, Linked, Joined, Distinct;
      ghost var m, good := mem[..], Beside(i, leftptr1, rightptr1);
      BlockFacts(links, defs, first, last, free, lru, memhole, list, ptr, mem.Length, i);
      RightLinked(links, defs, first, last, free, lru, memhole, list, ptr, mem.Length);
      ghost var z := CopyBlock(defs[h], ptr, n, zero);
      ghost var hole := if defs[h].size > memhole then defs[h].size else memhole;
      if good {
        RightThere(links, defs, first, last, free, lru, memhole, list, i, ptr, n, zero, hole, m, z, mem[..]);
        RelinkedRight(links, last, h, leftptr1, rightptr1);
      } else {
        Broken(links, list, first, last, i, leftptr1, rightptr1);
      }
      MakeLast(h, leftptr1, rightptr1);
      if defs[h].size > memhole {
        memhole := defs[h].size;
      }
      defs := defs[h := defs[h].(bufptr := ptr, size := n)];
      list := Without(list, i) + [h];
      if good {
        HeldAt(mem[..], defs, list, |list| - 1);
      }
    }

    /** Copy a block, and zero what it grows by if asked. */
    method CopyBlock(d: MemDef, ptr: nat, n: nat, zero: bool) returns (ghost z: seq<byte>)
      requires d.size <= n && ptr + n <= mem.Length && End(d) <= mem.Length
      modifies mem
      ensures z == (if zero then Zeroed(old(mem[..]), ptr + d.size, n - d.size) else old(mem[..]))
      ensures |z| == mem.Length && mem[..] == Moved(z, ptr, d.bufptr, d.size)
    {
      if zero {
        FillZero(mem, ptr + d.size, n - d.size);
      }
      z := mem[..];
      MoveBytes(mem, ptr, d.bufptr, d.size);
    }

    /** Take a record out between two others, and link it behind the last one. */
    method MakeLast(h: nat, leftptr1: int, rightptr1: nat)
      requires h < |links| && rightptr1 < |links| && NIL <= leftptr1 < |links| && 0 <= last < |links|
      modifies `links, `first, `last
      ensures links == Relinked(old(links), old(last), h, leftptr1, rightptr1) && last == h
      ensures first == if leftptr1 == NIL then rightptr1 else old(first)
    {
      links := links[rightptr1 := links[rightptr1].(prev := leftptr1)];
      if leftptr1 != NIL {
        links := links[leftptr1 := links[leftptr1].(next := rightptr1)];
      } else {
        first := rightptr1;
      }
      var leftptr2 := last;
      links := links[h := Link(leftptr2, NIL)];
      links := links[leftptr2 := links[leftptr2].(next := h)];
      last := h;
    }
  }

  /** memset with zero of a new block, which is behind all the others. */
  method ZeroBytes(mem: array<byte>, at: nat, n: nat, ghost links: seq<Link>, ghost defs: seq<MemDef>, ghost first: int,
                   ghost last: int, ghost free: seq<nat>, ghost lru: seq<Buffer>, ghost memhole: nat, ghost list: seq<nat>)
    requires at + n <= mem.Length && Right(links, defs, first, last, free, lru, memhole, list, at, mem.Length) && InTable(|defs|, list)
    modifies mem
    ensures mem[at..at + n] == Zeros(n) && Contents(mem[..], defs, list) == old(Contents(mem[..], defs, list))
  {
    ghost var m := mem[..];
    FillZero(mem, at, n);
    ZeroedOutside(m, at, n);
    BeyondKept(m, mem[..], defs, list, at, mem.Length, at + n);
  }

  lemma ZeroedOutside(m: seq<byte>, at: nat, n: nat)
    requires at + n <= |m|
    ensures Outside(m, Zeroed(m, at, n), at, at + n) && Zeroed(m, at, n)[at..at + n] == Zeros(n)
  {
    assert Zeroed(m, at, n)[at + n..] == m[at + n..];
  }

  method FillZero(mem: array<byte>, at: nat, n: nat)
    requires at + n <= mem.Length
    modifies mem
    ensures mem[..] == Zeroed(old(mem[..]), at, n)
  {
    forall i | 0 <= i < n {
      mem[at + i] := 0;
    }
  }

  /** memmove within the arena. */
  method MoveBytes(mem: array<byte>, dst: nat, src: nat, n: nat)
    requires dst + n <= mem.Length && src + n <= mem.Length
    modifies mem
    ensures mem[..] == Moved(old(mem[..]), dst, src, n)
  {
    forall i | 0 <= i < n {
      mem[dst + i] := mem[src + i];
    }
  }

  // --- two calls of memchange -----------------------------------------------------------------------------------------------

  lemma NothingToGive(links: seq<Link>, defs: seq<MemDef>, first: int, last: int, free: seq<nat>, lru: seq<Buffer>, memhole: nat,
                      list: seq<nat>, end: nat, memmax: nat)
    requires Right(links, defs, first, last, free, lru, memhole, list, end, memmax)
    ensures InTable(|defs|, list) && Total(defs, list) <= memmax
  {
    assert list[..|list|] == list;
    TotalBelow(defs, list, memmax, |list|);
  }

  /** A request for one of the fifteen greatest sizes leaves the block empty, and succeeds. */
  method Vanish(a: Arena, h: nat, size: nat, zero: bool) returns (rc: int)
    requires a.Valid() && InTable(|a.defs|, a.list) && Handles(|a.defs|, a.lru) && h in a.list && h < |a.defs| && !a.defs[h].buffered
    requires 0xFFFF_FFF0 < size < 0x1_0000_0000
    modifies a, a.mem
    ensures rc == 0 && a.Valid() && InTable(|a.defs|, a.list) && a.View() == old(a.View())[h := []]
  {
    hide Right, Contents, Round, Total, Fixed, Freed, HandleSet, Registered, NeighboursSafe, Arena.Overruns;
    RoundIs(size);
    NothingToGive(a.links, a.defs, a.first, a.last, a.free, a.lru, a.memhole, a.list, a.memsize, a.mem.Length);
    NoneGivenYet(a.lru, a.View());
    ghost var k;
    assert !a.Spoils(h, 0);
    rc, k := a.Change(h, size, zero);
    NothingToGive(a.links, a.defs, a.first, a.last, a.free, a.lru, a.memhole, a.list, a.memsize, a.mem.Length);
    assert k == 0;
    assert a.View()[h] == [];
  }

  /** The records of an arena of 48 bytes after two blocks of 16 bytes were allocated and the first was freed. */
  const GAPLINKS := [Link(NIL, NIL), Link(NIL, 2), Link(NIL, NIL)]
  const GAPDEFS := [MemDef(0, 0, false), MemDef(0, 16, false), MemDef(16, 16, false)]

  lemma OneGap()
    ensures Right(GAPLINKS, GAPDEFS, 2, 2, [1], [], 16, [2], 32, 48)
    ensures Resizable(GAPDEFS, [2], 48, 0, 48) && PlaceOf([2], 2) == 0 && EndBefore(GAPDEFS, [2], 0) == 0
  {
    assert Joined(GAPLINKS, [2], 0);
    assert [2][..0] == [];
    assert Total(GAPDEFS, [2]) == 16;
  }

  /** In that state a request for 48 bytes makes what is in use end at 64. */
  method PastTheEnd() returns (a: Arena)
    ensures fresh(a) && a.Valid() && a.mem.Length == 48 && a.memsize > 48
  {
    hide Right, Contents, Total, Fixed, Resizable, Resized, NeighboursSafe, Freed, HandleSet, Registered, EndBefore;
    a := new Arena(48, 3);
    a.links, a.defs := GAPLINKS, GAPDEFS;
    a.first, a.last, a.free, a.lru, a.memhole, a.list, a.memsize := 2, 2, [1], [], 16, [2], 32;
    OneGap();
    assert a.list[0] == 2;
    var rc;
    ghost var k;
    rc, k := a.Change(2, 48, false);
  }
}

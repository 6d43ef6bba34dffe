/** The list of buffers that may be given up, oldest first (base.c). */
module ArenaBuffers {
  import opened ArenaLinks
  import opened ArenaSpace
  import opened Lists

  /** A block that may be given up, and the parameter its owner is called with. */
  datatype Buffer = Buffer(handle: nat, cbparm: int)

  predicate Has(lru: seq<Buffer>, h: nat) {
    exists j :: 0 <= j < |lru| && lru[j].handle == h
  }

  predicate OnceEach(lru: seq<Buffer>) {
    forall i, j :: 0 <= i < j < |lru| ==> lru[i].handle != lru[j].handle
  }

  /** The list has exactly the blocks that are marked, once each. */
  predicate Registered(defs: seq<MemDef>, list: seq<nat>, lru: seq<Buffer>)
    requires InTable(|defs|, list)
  {
    && OnceEach(lru)
    && (forall j :: 0 <= j < |lru| ==> lru[j].handle in list)
    && (forall h :: h in list ==> (defs[h].buffered <==> Has(lru, h)))
  }

  function Dropped(lru: seq<Buffer>, j: nat): seq<Buffer>
    requires j < |lru|
  {
    lru[..j] + lru[j + 1..]
  }

  ghost function HandleSet(lru: seq<Buffer>): set<nat> {
    set b | b in lru :: b.handle
  }

  lemma HasDropped(lru: seq<Buffer>, j: nat, g: nat)
    requires j < |lru| && OnceEach(lru)
    ensures Has(Dropped(lru, j), g) <==> Has(lru, g) && g != lru[j].handle
    ensures OnceEach(Dropped(lru, j))
  {
    var w := Dropped(lru, j);
    assert forall k :: 0 <= k < |w| ==> w[k] == lru[if k < j then k else k + 1];
    if Has(lru, g) && g != lru[j].handle {
      var k :| 0 <= k < |lru| && lru[k].handle == g;
      assert w[if k < j then k else k - 1].handle == g;
    }
  }

  /** membufend: the block stays, unmarked. */
  lemma DroppedRegistered(defs: seq<MemDef>, list: seq<nat>, lru: seq<Buffer>, j: nat)
    requires InTable(|defs|, list) && Registered(defs, list, lru) && j < |lru|
    ensures lru[j].handle in list
    ensures var h := lru[j].handle; Registered(defs[h := defs[h].(buffered := false)], list, Dropped(lru, j))
  {
    hide Has;
    var h, w := lru[j].handle, Dropped(lru, j);
    forall g | g in list
      ensures Has(w, g) <==> Has(lru, g) && g != h
    {
      HasDropped(lru, j, g);
    }
    HasDropped(lru, j, h);
    assert forall k :: 0 <= k < |w| ==> w[k] == lru[if k < j then k else k + 1];
  }

  /** membuffer: the block becomes the newest. */
  lemma AddedRegistered(defs: seq<MemDef>, list: seq<nat>, lru: seq<Buffer>, b: Buffer)
    requires InTable(|defs|, list) && Registered(defs, list, lru) && b.handle in list && !defs[b.handle].buffered
    ensures Registered(defs[b.handle := defs[b.handle].(buffered := true)], list, lru + [b])
  {
    var w := lru + [b];
    assert w[|lru|].handle == b.handle;
    forall g | g in list
      ensures Has(w, g) <==> Has(lru, g) || g == b.handle
    {
      if Has(lru, g) {
        var k :| 0 <= k < |lru| && lru[k].handle == g;
        assert w[k].handle == g;
      }
    }
    assert forall k :: 0 <= k < |lru| ==> lru[k].handle != b.handle by {
      assert !Has(lru, b.handle);
    }
  }

  lemma RegisteredWithout(defs: seq<MemDef>, list: seq<nat>, lru: seq<Buffer>, i: nat)
    requires InTable(|defs|, list) && Distinct(list) && Registered(defs, list, lru) && i < |list| && !defs[list[i]].buffered
    ensures InTable(|defs|, Without(list, i)) && Registered(defs, Without(list, i), lru)
  {
    WithoutMembers(list, i);
    assert !Has(lru, list[i]);
  }

  lemma RegisteredWith(defs: seq<MemDef>, list: seq<nat>, lru: seq<Buffer>, h: nat, d: MemDef)
    requires InTable(|defs|, list) && Registered(defs, list, lru) && h < |defs| && h !in list && !d.buffered
    ensures InTable(|defs|, list + [h]) && Registered(defs[h := d], list + [h], lru)
  {
    assert forall g :: g in list + [h] <==> g in list || g == h;
    assert !Has(lru, h);
  }

  lemma RegisteredSame(defs: seq<MemDef>, new_d: seq<MemDef>, list: seq<nat>, lru: seq<Buffer>)
    requires InTable(|defs|, list) && InTable(|new_d|, list) && Registered(defs, list, lru)
    requires forall h :: h in list ==> new_d[h].buffered == defs[h].buffered
    ensures Registered(new_d, list, lru)
  {
  }

  // --- how much can be given up -----------------------------------------------------------------------------------------

  predicate Handles(n: nat, lru: seq<Buffer>) {
    forall j :: 0 <= j < |lru| ==> lru[j].handle < n
  }

  lemma RegisteredHandles(defs: seq<MemDef>, list: seq<nat>, lru: seq<Buffer>)
    requires InTable(|defs|, list) && Registered(defs, list, lru)
    ensures Handles(|defs|, lru)
  {
    forall j | 0 <= j < |lru|
      ensures lru[j].handle < |defs|
    {
      var i := PlaceOf(list, lru[j].handle);
    }
  }

  /** The bytes that the k oldest buffers take. */
  function Freed(defs: seq<MemDef>, lru: seq<Buffer>, k: nat): nat
    requires Handles(|defs|, lru) && k <= |lru|
  {
    if k == 0 then 0 else Freed(defs, lru, k - 1) + defs[lru[k - 1].handle].size
  }

  /** The bytes that the blocks take that may not be given up. */
  function Fixed(defs: seq<MemDef>, list: seq<nat>): nat
    requires InTable(|defs|, list)
  {
    if list == [] then 0
    else
      var d := defs[list[|list| - 1]];
      Fixed(defs, list[..|list| - 1]) + if d.buffered then 0 else d.size
  }

  lemma {:induction false} FixedNone(defs: seq<MemDef>, list: seq<nat>)
    requires InTable(|defs|, list) && forall i :: 0 <= i < |list| ==> !defs[list[i]].buffered
    ensures Fixed(defs, list) == Total(defs, list)
  {
    if list != [] {
      FixedNone(defs, list[..|list| - 1]);
    }
  }

  lemma {:induction false} FixedUnmarked(defs: seq<MemDef>, list: seq<nat>, h: nat)
    requires InTable(|defs|, list) && Distinct(list) && h < |defs| && defs[h].buffered
    ensures Fixed(defs[h := defs[h].(buffered := false)], list) == Fixed(defs, list) + if h in list then defs[h].size else 0
  {
    if list != [] {
      var n := |list| - 1;
      FixedUnmarked(defs, list[..n], h);
      assert list == list[..n] + [list[n]];
    }
  }

  lemma {:induction false} FreedSame(defs: seq<MemDef>, new_d: seq<MemDef>, lru: seq<Buffer>, w: seq<Buffer>, k: nat)
    requires Handles(|defs|, lru) && Handles(|new_d|, w) && k <= |lru| && k <= |w|
    requires forall j :: 0 <= j < k ==> lru[j] == w[j] && defs[lru[j].handle].size == new_d[lru[j].handle].size
    ensures Freed(defs, lru, k) == Freed(new_d, w, k)
  {
    if k > 0 {
      FreedSame(defs, new_d, lru, w, k - 1);
    }
  }

  /** What may and what may not be given up is all there is. */
  lemma {:induction false} FixedFreed(defs: seq<MemDef>, list: seq<nat>, lru: seq<Buffer>)
    requires InTable(|defs|, list) && Distinct(list) && Registered(defs, list, lru)
    ensures Handles(|defs|, lru) && Total(defs, list) == Fixed(defs, list) + Freed(defs, lru, |lru|)
    decreases |lru|
  {
    RegisteredHandles(defs, list, lru);
    if lru == [] {
      FixedNone(defs, list);
    } else {
      var n := |lru| - 1;
      var h := lru[n].handle;
      var new_d := defs[h := defs[h].(buffered := false)];
      DroppedRegistered(defs, list, lru, n);
      assert Dropped(lru, n) == lru[..n];
      assert defs[h].buffered by {
        assert Has(lru, h);
      }
      FixedFreed(new_d, list, lru[..n]);
      FixedUnmarked(defs, list, h);
      TotalSame(defs, new_d, list);
      FreedSame(defs, new_d, lru, lru[..n], n);
    }
  }

  lemma HandleSetStep(lru: seq<Buffer>, k: nat)
    requires k < |lru|
    ensures HandleSet(lru[..k + 1]) == HandleSet(lru[..k]) + {lru[k].handle}
  {
    assert lru[..k + 1] == lru[..k] + [lru[k]];
  }

  /** The parameters that the owners of these buffers are called with, in order. */
  function Parms(lru: seq<Buffer>): seq<int> {
    if lru == [] then [] else Parms(lru[..|lru| - 1]) + [lru[|lru| - 1].cbparm]
  }

  lemma ParmsStep(lru: seq<Buffer>, k: nat)
    requires k < |lru|
    ensures Parms(lru[..k + 1]) == Parms(lru[..k]) + [lru[k].cbparm]
  {
    assert lru[..k + 1][..k] == lru[..k];
  }

  lemma {:induction false} FreedMonotone(defs: seq<MemDef>, lru: seq<Buffer>, a: nat, b: nat)
    requires Handles(|defs|, lru) && a <= b <= |lru|
    ensures Freed(defs, lru, a) <= Freed(defs, lru, b)
    decreases b
  {
    if a < b {
      FreedMonotone(defs, lru, a, b - 1);
    }
  }
}

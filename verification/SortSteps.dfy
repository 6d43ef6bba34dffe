/** The two ways of taking records from a set of runs (sio.c): one at a time, as sioget does, and all at once into
    a longer run, as each pass of merge does. */
module SortSteps {
  import opened SortKey
  import opened SortMerge
  import opened SortPool

  /** Fill the buffer of the first run from its file, and put the run in its place. */
  method Refill(sp: Spec, info: array<Run>, order: array<nat>, mergecnt: nat, bufsize: nat)
    requires 0 < mergecnt <= order.Length && bufsize > 0 && Pending(sp, info[..], order[..mergecnt])
    requires !Ready(info[order[0]]) && info[order[0]].file != []
    modifies info, order
    ensures Merging(sp, info[..], order[..mergecnt]) && Ready(info[order[0]])
    ensures Pool(info[..], order[..mergecnt]) == old(Pool(info[..], order[..mergecnt]))
  {
    ghost var inf, ord := info[..], order[..mergecnt];
    var r := info[order[0]];
    var i1 := if |r.file| < bufsize then |r.file| else bufsize;
    info[order[0]] := Refilled(r, i1);
    assert info[..] == inf[ord[0] := Refilled(inf[ord[0]], i1)];
    RefillStep(sp, inf, ord, i1, info[..]);
    PlaceFirst(sp, info, order, mergecnt);
  }

  /** Put the first run in its place when there are others. */
  method PlaceFirst(sp: Spec, info: array<Run>, order: array<nat>, mergecnt: nat)
    requires 0 < mergecnt <= order.Length && Pending(sp, info[..], order[..mergecnt]) && Ready(info[order[0]])
    modifies order
    ensures Merging(sp, info[..], order[..mergecnt]) && Ready(info[order[0]])
    ensures Pool(info[..], order[..mergecnt]) == old(Pool(info[..], order[..mergecnt]))
  {
    ghost var ord := order[..mergecnt];
    PendingReady(sp, info[..], ord);
    hide Pending, Merging, Pool, HeadsAscend, AllReady, Within;
    if mergecnt > 1 {
      ghost var p := InsertMerge(sp, info, order, mergecnt);
      PlacedMerging(sp, info[..], ord, order[..mergecnt], p);
    } else {
      SingleMerging(sp, info[..], ord);
    }
  }

  lemma PendingReady(sp: Spec, info: seq<Run>, ord: seq<nat>)
    requires Pending(sp, info, ord) && ord != [] && Ready(info[ord[0]])
    ensures AllReady(sp, info, ord, 0) && HeadsAscend(sp, info, ord, 1) && ord[0] < |info|
  {
  }

  lemma SingleMerging(sp: Spec, info: seq<Run>, ord: seq<nat>)
    requires Pending(sp, info, ord) && |ord| == 1 && AllReady(sp, info, ord, 0)
    ensures Merging(sp, info, ord)
  {
  }

  /** Drop the first run. */
  method DropFirst(sp: Spec, info: array<Run>, order: array<nat>, mergecnt: nat) returns (left: nat)
    requires 0 < mergecnt <= order.Length && Merging(sp, info[..], order[..mergecnt])
    requires !Ready(info[order[0]]) && info[order[0]].file == []
    modifies order
    ensures left == mergecnt - 1 && Merging(sp, info[..], order[..left])
    ensures Pool(info[..], order[..left]) == old(Pool(info[..], order[..mergecnt]))
    ensures left > 0 ==> order[0] < info.Length && Ready(info[order[0]])
  {
    ghost var ord := order[..mergecnt];
    DropStep(sp, info[..], ord);
    left := mergecnt - 1;
    hide Merging, Pool;
    ShiftDown(order, mergecnt);
  }

  /** The entries after the first move down one place. */
  method ShiftDown(order: array<nat>, n: nat)
    requires 0 < n <= order.Length
    modifies order
    ensures order[..n - 1] == old(order[..n])[1..]
  {
    var i := 0;
    while i < n - 1
      invariant 0 <= i <= n - 1
      invariant forall j :: 0 <= j < i ==> order[j] == old(order[j + 1])
      invariant forall j :: i <= j < n ==> order[j] == old(order[j])
    {
      order[i] := order[i + 1];
      i := i + 1;
    }
  }

  /** sioget while runs are being merged: 1 when nothing is left, otherwise a record that none of the others comes
      before. */
  method GetMerged(sp: Spec, info: array<Run>, order: array<nat>, mergecnt: nat, bufsize: nat)
    returns (code: int, rec: Record, left: nat)
    requires 0 < mergecnt <= order.Length && bufsize > 0 && Merging(sp, info[..], order[..mergecnt])
    modifies info, order
    ensures left <= mergecnt && Merging(sp, info[..], order[..left]) && (code == 0 || code == 1)
    ensures code == 0 ==> left > 0 && LeastIn(sp, rec, old(Pool(info[..], order[..mergecnt])))
    ensures code == 0 ==> Pool(info[..], order[..left]) == old(Pool(info[..], order[..mergecnt])) - multiset{rec}
    ensures code == 1 ==> left == 0 && old(Pool(info[..], order[..mergecnt])) == multiset{}
  {
    left := mergecnt;
    rec := [];
    FirstRun(sp, info[..], order[..left]);
    while true
      invariant 0 < left <= mergecnt && Merging(sp, info[..], order[..left])
      invariant Pool(info[..], order[..left]) == old(Pool(info[..], order[..mergecnt]))
      invariant order[0] < info.Length
      decreases left, if Ready(info[order[0]]) then 0 else 1
    {
      hide Merging, Pending, Pool;
      MergingPending(sp, info[..], order[..left]);
      if Ready(info[order[0]]) {
        break;
      }
      if info[order[0]].file == [] {
        left := DropFirst(sp, info, order, left);
        if left == 0 {
          EmptyPool(info[..], order[..left]);
          return 1, [], 0;
        }
      } else {
        Refill(sp, info, order, left, bufsize);
        FirstRun(sp, info[..], order[..left]);
      }
    }
    code := 0;
    rec := TakeHead(sp, info, order, left);
    if Ready(info[order[0]]) {
      PlaceFirst(sp, info, order, left);
    }
  }

  lemma MergingPending(sp: Spec, info: seq<Run>, ord: seq<nat>)
    requires Merging(sp, info, ord)
    ensures Pending(sp, info, ord)
  {
  }

  lemma EmptyPool(info: seq<Run>, ord: seq<nat>)
    requires ord == []
    ensures Within(ord, |info|) && Pool(info, ord) == multiset{}
  {
  }

  lemma FirstRun(sp: Spec, info: seq<Run>, ord: seq<nat>)
    requires Merging(sp, info, ord) && ord != []
    ensures ord[0] < |info|
  {
  }

  /** Take the head of the first run. */
  method TakeHead(sp: Spec, info: array<Run>, order: array<nat>, mergecnt: nat) returns (rec: Record)
    requires 0 < mergecnt <= order.Length && Merging(sp, info[..], order[..mergecnt])
    requires order[0] < info.Length && Ready(info[order[0]])
    modifies info
    ensures Pending(sp, info[..], order[..mergecnt]) && order[0] < info.Length
    ensures !Ready(info[order[0]]) ==> Merging(sp, info[..], order[..mergecnt])
    ensures LeastIn(sp, rec, old(Pool(info[..], order[..mergecnt])))
    ensures Pool(info[..], order[..mergecnt]) == old(Pool(info[..], order[..mergecnt])) - multiset{rec}
  {
    ghost var inf, ord := info[..], order[..mergecnt];
    HeadIsLeast(sp, inf, ord);
    rec := Head(info[order[0]]);
    info[order[0]] := Advanced(info[order[0]]);
    assert info[..] == inf[ord[0] := Advanced(inf[ord[0]])];
    AdvanceStep(sp, inf, ord, info[..]);
    hide Pool, Pending, LeastIn;
  }

  // --- merging all the way ------------------------------------------------------------------------------------

  /** What has been written is sorted, and comes before everything that is left. */
  ghost predicate Written(sp: Spec, out: seq<Record>, pool: multiset<Record>, whole: multiset<Record>) {
    && Ascending(sp, out) && multiset(out) + pool == whole
    && forall i, y :: 0 <= i < |out| && y in pool ==> Prec(sp, out[i], y)
  }

  lemma WriteStep(sp: Spec, out: seq<Record>, pool: multiset<Record>, whole: multiset<Record>, x: Record)
    requires Written(sp, out, pool, whole) && LeastIn(sp, x, pool)
    ensures Written(sp, out + [x], pool - multiset{x}, whole)
  {
    hide Prec;
    assert Prec(sp, x, x);
    XLength(sp, x);
  }

  lemma XLength(sp: Spec, x: Record)
    requires Prec(sp, x, x)
    ensures SpecOk(sp) && |x| == sp.len
  {
  }

  /** One merge of a pass: write out the records of all runs. */
  method MergeAll(sp: Spec, info: array<Run>, order: array<nat>, passcnt: nat, bufsize: nat) returns (out: seq<Record>)
    requires 0 < passcnt <= order.Length && bufsize > 0 && Merging(sp, info[..], order[..passcnt])
    requires order[0] < info.Length && Ready(info[order[0]])
    modifies info, order
    ensures Ascending(sp, out) && multiset(out) == old(Pool(info[..], order[..passcnt]))
  {
    var passnum := passcnt;
    ghost var whole := Pool(info[..], order[..passcnt]);
    out := [];
    ghost var pool := whole;
    while passnum > 0
      invariant passnum <= passcnt && Merging(sp, info[..], order[..passnum])
      invariant passnum > 0 ==> order[0] < info.Length && Ready(info[order[0]])
      invariant pool == Pool(info[..], order[..passnum]) && Written(sp, out, pool, whole)
      decreases |pool|
    {
      hide Merging, Pending, Pool, Written, LeastIn;
      var rec := TakeHead(sp, info, order, passnum);
      LeastSmaller(sp, rec, pool);
      WriteStep(sp, out, pool, whole, rec);
      out := out + [rec];
      pool := pool - multiset{rec};
      if !Ready(info[order[0]]) {
        if info[order[0]].file == [] {
          passnum := DropFirst(sp, info, order, passnum);
        } else {
          Refill(sp, info, order, passnum, bufsize);
          FirstRun(sp, info[..], order[..passnum]);
        }
      } else {
        PlaceFirst(sp, info, order, passnum);
        FirstRun(sp, info[..], order[..passnum]);
      }
    }
    EmptyPool(info[..], order[..passnum]);
  }

  lemma LeastSmaller(sp: Spec, x: Record, pool: multiset<Record>)
    requires LeastIn(sp, x, pool)
    ensures |pool - multiset{x}| < |pool|
  {
  }
}

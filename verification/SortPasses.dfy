/** The merge phases (sio.c, merge): how many runs are merged at a time, and why the number of runs goes down. */
module SortPasses {
  import opened SortKey
  import opened SortMerge
  import opened SortPool
  import opened SortSteps

  /** All records of a list of runs. */
  ghost function PoolOf(runs: seq<seq<Record>>): multiset<Record> {
    if runs == [] then multiset{} else PoolOf(runs[..|runs| - 1]) + multiset(runs[|runs| - 1])
  }

  lemma {:induction false} PoolOfConcat(a: seq<seq<Record>>, b: seq<seq<Record>>)
    ensures PoolOf(a + b) == PoolOf(a) + PoolOf(b)
  {
    if b == [] {
      assert a + b == a;
    } else {
      assert (a + b)[..|a + b| - 1] == a + b[..|b| - 1];
      PoolOfConcat(a, b[..|b| - 1]);
    }
  }

  /** Runs in the work file are sorted and hold at least one record. */
  ghost predicate RunsFiled(sp: Spec, runs: seq<seq<Record>>) {
    forall i :: 0 <= i < |runs| ==> runs[i] != [] && Ascending(sp, runs[i])
  }

  // --- filling the merge buffers ---------------------------------------------------------------------------

  /** A new run inserted at place p. */
  function Inserted(ord: seq<nat>, p: nat, o: nat): (r: seq<nat>)
    requires p <= |ord|
    ensures |r| == |ord| + 1
  {
    ord[..p] + [o] + ord[p..]
  }

  /** The first o entries of the table are runs in the order of their heads. */
  ghost predicate Filled(sp: Spec, info: seq<Run>, ord: seq<nat>, runs: seq<seq<Record>>) {
    && Merging(sp, info, ord) && HeadsAscend(sp, info, ord, 0) && |ord| == |runs|
    && (forall i :: 0 <= i < |ord| ==> ord[i] < |runs|)
    && Pool(info, ord) == PoolOf(runs)
  }

  /** Where a new run belongs. */
  ghost predicate NewPlace(sp: Spec, info: seq<Run>, ord: seq<nat>, o: nat, p: nat)
    requires p <= |ord| && o < |info| && Ready(info[o]) && AllReady(sp, info, ord, 0)
  {
    && (forall j :: 0 <= j < p ==> Prec(sp, Head(info[ord[j]]), Head(info[o])))
    && (forall j :: p <= j < |ord| ==> Prec(sp, Head(info[o]), Head(info[ord[j]])))
  }

  lemma InsertedAt(ord: seq<nat>, p: nat, o: nat, i: nat)
    requires p <= |ord| && i <= |ord|
    ensures Inserted(ord, p, o)[i] == if i < p then ord[i] else if i == p then o else ord[i - 1]
  {
  }

  lemma InsertedHeads(sp: Spec, info: seq<Run>, ord: seq<nat>, o: nat, p: nat)
    requires p <= |ord| && o < |info| && Ready(info[o]) && |Head(info[o])| == sp.len
    requires HeadsAscend(sp, info, ord, 0) && NewPlace(sp, info, ord, o, p)
    ensures HeadsAscend(sp, info, Inserted(ord, p, o), 0)
  {
    var m := Inserted(ord, p, o);
    assert forall i :: 0 <= i < |m| ==> m[i] == if i < p then ord[i] else if i == p then o else ord[i - 1];
    hide Prec, Inserted;
  }

  lemma InsertedRuns(sp: Spec, info: seq<Run>, ord: seq<nat>, o: nat, p: nat)
    requires p <= |ord| && o < |info| && RunOk(sp, info[o]) && Within(ord, |info|) && Different(ord) && RunsOk(sp, info, ord)
    requires forall i :: 0 <= i < |ord| ==> ord[i] < o
    ensures var m := Inserted(ord, p, o);
            Within(m, |info|) && Different(m) && RunsOk(sp, info, m) && forall i :: 0 <= i < |m| ==> m[i] < o + 1
  {
    var m := Inserted(ord, p, o);
    assert forall i :: 0 <= i < |m| ==> m[i] == if i < p then ord[i] else if i == p then o else ord[i - 1];
    hide RunOk, Inserted;
  }

  lemma InsertedPool(info: seq<Run>, ord: seq<nat>, o: nat, p: nat)
    requires p <= |ord| && o < |info| && Within(ord, |info|)
    ensures Within(Inserted(ord, p, o), |info|)
    ensures Pool(info, Inserted(ord, p, o)) == Pool(info, ord) + multiset(Left(info[o]))
  {
    var x, y, z := ord[..p], [o], ord[p..];
    assert Inserted(ord, p, o) == x + (y + z) && ord == x + z;
    PoolRotated(info, x, y, z);
    PoolConcat(info, x, z);
    PoolConcat(info, y, x + z);
    assert Pool(info, y) == multiset(Left(info[o])) by {
      assert y[1..] == [];
    }
    hide Inserted;
  }

  /** The table with one more run in it. */
  lemma FilledStep(sp: Spec, info: seq<Run>, v: seq<Run>, ord: seq<nat>, runs: seq<seq<Record>>, run: seq<Record>, r: Run, p: nat)
    requires Filled(sp, info, ord, runs) && |runs| < |info| && v == info[|runs| := r]
    requires RunOk(sp, r) && Ready(r) && Left(r) == run && p <= |ord|
    requires AllReady(sp, v, ord, 0) && NewPlace(sp, v, ord, |runs|, p)
    ensures Filled(sp, v, Inserted(ord, p, |runs|), runs + [run])
  {
    hide HeadsAscend, Inserted, Prec, Pool, PoolOf, RunsOk, RunOk, AllReady, Different, NewPlace;
    var o := |runs|;
    var m := Inserted(ord, p, o);
    OthersSame(sp, info, v, ord, o);
    ReadyHead(sp, r);
    InsertedHeads(sp, v, ord, o, p);
    InsertedRuns(sp, v, ord, o, p);
    InsertedPool(v, ord, o, p);
    PoolOfMore(runs, run);
    HeadsReady(sp, v, m);
  }

  lemma PoolOfMore(runs: seq<seq<Record>>, run: seq<Record>)
    ensures PoolOf(runs + [run]) == PoolOf(runs) + multiset(run)
  {
    assert (runs + [run])[..|runs|] == runs;
  }

  lemma SameHeads(sp: Spec, info: seq<Run>, v: seq<Run>, ord: seq<nat>)
    requires HeadsAscend(sp, info, ord, 0) && |v| == |info|
    requires forall i :: 0 <= i < |ord| ==> ord[i] < |info| && v[ord[i]] == info[ord[i]]
    ensures HeadsAscend(sp, v, ord, 0)
  {
    hide Prec;
  }

  lemma SameRuns(sp: Spec, info: seq<Run>, v: seq<Run>, ord: seq<nat>)
    requires Within(ord, |info|) && RunsOk(sp, info, ord) && |v| == |info|
    requires forall i :: 0 <= i < |ord| ==> v[ord[i]] == info[ord[i]]
    ensures RunsOk(sp, v, ord)
  {
    hide RunOk;
  }

  lemma OthersSame(sp: Spec, info: seq<Run>, v: seq<Run>, ord: seq<nat>, o: nat)
    requires Merging(sp, info, ord) && HeadsAscend(sp, info, ord, 0) && |v| == |info| && o < |info|
    requires forall i :: 0 <= i < |ord| ==> ord[i] < o
    requires v == info[o := v[o]]
    ensures HeadsAscend(sp, v, ord, 0) && Within(ord, |v|) && Different(ord) && RunsOk(sp, v, ord)
    ensures Pool(v, ord) == Pool(info, ord)
  {
    assert o !in ord;
    assert Within(ord, |info|);
    hide HeadsAscend, AllReady, RunsOk, Different, Pool;
    PoolElsewhere(info, ord, o, v[o]);
    SameHeads(sp, info, v, ord);
    SameRuns(sp, info, v, ord);
  }

  /** Heads on either side of the place found by the linear search. */
  lemma SpreadNew(sp: Spec, info: seq<Run>, ord: seq<nat>, o: nat, p: nat)
    requires p <= |ord| && o < |info| && Ready(info[o]) && |Head(info[o])| == sp.len && HeadsAscend(sp, info, ord, 0)
    requires forall j :: 0 <= j < p ==> Prec(sp, Head(info[ord[j]]), Head(info[o]))
    requires p < |ord| ==> Prec(sp, Head(info[o]), Head(info[ord[p]]))
    ensures NewPlace(sp, info, ord, o, p)
  {
    forall j | p <= j < |ord|
      ensures Prec(sp, Head(info[o]), Head(info[ord[j]]))
    {
      PrecLaws(sp, Head(info[o]), Head(info[ord[p]]), Head(info[ord[j]]));
    }
  }

  /** The linear search for the place of a new run. */
  method FindNew(sp: Spec, info: array<Run>, order: array<nat>, o: nat) returns (i2: nat)
    requires o < info.Length && o <= order.Length && Ready(info[o]) && |Head(info[o])| == sp.len
    requires HeadsAscend(sp, info[..], order[..o], 0)
    ensures i2 <= o && NewPlace(sp, info[..], order[..o], o, i2)
  {
    ghost var inf, ord := info[..], order[..o];
    i2 := 0;
    while i2 < o
      invariant 0 <= i2 <= o
      invariant forall j :: 0 <= j < i2 ==> Prec(sp, Head(inf[ord[j]]), Head(inf[o]))
      invariant AllReady(sp, inf, ord, 0)
    {
      hide Prec;
      var yes := HeadBefore(sp, info, o, order[i2]);
      if yes {
        break;
      }
      i2 := i2 + 1;
    }
    SpreadNew(sp, inf, ord, o, i2);
  }

  /** Open the gap for entry o at place p. */
  method InsertAt(order: array<nat>, p: nat, o: nat)
    requires p <= o < order.Length
    modifies order
    ensures order[..o + 1] == Inserted(old(order[..o]), p, o)
  {
    ghost var ord := order[..o];
    var i := o;
    while i > p
      invariant p <= i <= o
      invariant forall j :: 0 <= j < i ==> order[j] == ord[j]
      invariant forall j :: i < j <= o ==> order[j] == ord[j - 1]
    {
      order[i] := order[i - 1];
      i := i - 1;
    }
    order[p] := o;
    forall j | 0 <= j <= o
      ensures order[j] == Inserted(ord, p, o)[j]
    {
      InsertedAt(ord, p, o, j);
    }
  }

  /** Read the start of one more run into its buffer and put it among the others. */
  method FillOne(sp: Spec, run: seq<Record>, info: array<Run>, order: array<nat>, passnum: nat, bufsize: nat, ghost runs: seq<seq<Record>>)
    requires passnum == |runs| < info.Length && passnum < order.Length && bufsize > 0
    requires run != [] && Ascending(sp, run) && Filled(sp, info[..], order[..passnum], runs)
    modifies info, order
    ensures Filled(sp, info[..], order[..passnum + 1], runs + [run])
  {
    ghost var inf, ord := info[..], order[..passnum];
    var i1 := if |run| < bufsize then |run| else bufsize;
    var r := Run(run[..i1], 0, run[i1..]);
    info[passnum] := r;
    assert info[..] == inf[passnum := r];
    assert Left(r) == run;
    ReadyHead(sp, r);
    OthersSame(sp, inf, info[..], ord, passnum);
    hide Filled, Merging, Pending, HeadsAscend, AllReady, Ascending, NewPlace, RunsOk, Pool, Within, Different;
    var i2 := FindNew(sp, info, order, passnum);
    NewReady(sp, info[..], ord);
    InsertAt(order, i2, passnum);
    FilledStep(sp, inf, info[..], ord, runs, run, r, i2);
  }

  lemma NewReady(sp: Spec, info: seq<Run>, ord: seq<nat>)
    requires HeadsAscend(sp, info, ord, 0)
    ensures AllReady(sp, info, ord, 0)
  {
  }

  lemma FilledNone(sp: Spec, info: seq<Run>, ord: seq<nat>)
    requires SpecOk(sp) && ord == []
    ensures Filled(sp, info, ord, [])
  {
  }

  /** Fill the merge buffers of a list of runs. */
  method FillAll(sp: Spec, runs: seq<seq<Record>>, info: array<Run>, order: array<nat>, bufsize: nat)
    requires SpecOk(sp) && 0 < |runs| <= info.Length && |runs| <= order.Length && bufsize > 0 && RunsFiled(sp, runs)
    modifies info, order
    ensures Filled(sp, info[..], order[..|runs|], runs)
  {
    hide Filled, Ascending, SpecOk;
    FilledNone(sp, info[..], order[..0]);
    assert runs[..0] == [];
    var passnum := 0;
    while passnum < |runs|
      invariant 0 <= passnum <= |runs|
      invariant Filled(sp, info[..], order[..passnum], runs[..passnum])
    {
      FillOne(sp, runs[passnum], info, order, passnum, bufsize, runs[..passnum]);
      assert runs[..passnum + 1] == runs[..passnum] + [runs[passnum]];
      passnum := passnum + 1;
    }
    assert runs[..passnum] == runs;
  }
}

/** Taking records from the runs being merged (sio.c, sioget and merge): each record handed out is a least one of
    all that are left, and none is lost or repeated. */
module SortPool {
  import opened SortKey
  import opened SortMerge

  /** The runs being merged are different. */
  ghost predicate Different(ord: seq<nat>) {
    forall i, j :: 0 <= i < j < |ord| ==> ord[i] != ord[j]
  }

  ghost predicate Within(ord: seq<nat>, n: nat) {
    forall i :: 0 <= i < |ord| ==> ord[i] < n
  }

  /** Everything that is left of the runs. */
  ghost function Pool(info: seq<Run>, ord: seq<nat>): multiset<Record>
    requires Within(ord, |info|)
  {
    if ord == [] then multiset{} else multiset(Left(info[ord[0]])) + Pool(info, ord[1..])
  }

  ghost predicate RunOk(sp: Spec, r: Run) {
    r.bpos <= |r.buf| && Ascending(sp, Left(r))
  }

  ghost predicate RunsOk(sp: Spec, info: seq<Run>, ord: seq<nat>)
    requires Within(ord, |info|)
  {
    forall i :: 0 <= i < |ord| ==> RunOk(sp, info[ord[i]])
  }

  /** The runs are sorted, and all but the first stand in the order of their heads. */
  ghost predicate Pending(sp: Spec, info: seq<Run>, ord: seq<nat>) {
    && SpecOk(sp) && Within(ord, |info|) && Different(ord) && RunsOk(sp, info, ord)
    && HeadsAscend(sp, info, ord, 1)
    && (ord != [] && Ready(info[ord[0]]) ==> AllReady(sp, info, ord, 0))
  }

  /** The runs are sorted and stand in the order of their heads, except that the first may have come to the end of
      its buffer. */
  ghost predicate Merging(sp: Spec, info: seq<Run>, ord: seq<nat>) {
    Pending(sp, info, ord) && (ord != [] && Ready(info[ord[0]]) ==> HeadsAscend(sp, info, ord, 0))
  }

  // --- the pool ---------------------------------------------------------------------------------------------

  lemma {:induction false} PoolConcat(info: seq<Run>, a: seq<nat>, b: seq<nat>)
    requires Within(a, |info|) && Within(b, |info|)
    ensures Within(a + b, |info|) && Pool(info, a + b) == Pool(info, a) + Pool(info, b)
  {
    if a == [] {
      assert a + b == b;
    } else {
      assert (a + b)[1..] == a[1..] + b;
      PoolConcat(info, a[1..], b);
    }
  }

  lemma PoolMoved(info: seq<Run>, ord: seq<nat>, p: nat)
    requires Within(ord, |info|) && p < |ord|
    ensures Within(Moved(ord, p), |info|) && Pool(info, Moved(ord, p)) == Pool(info, ord)
  {
    var x, y, z := ord[..1], ord[1..p + 1], ord[p + 1..];
    MovedParts(ord, p);
    assert Within(x, |info|) && Within(y, |info|) && Within(z, |info|);
    hide Moved, Within, Pool;
    PoolRotated(info, x, y, z);
  }

  lemma MovedParts(ord: seq<nat>, p: nat)
    requires p < |ord|
    ensures ord == ord[..1] + (ord[1..p + 1] + ord[p + 1..])
    ensures Moved(ord, p) == ord[1..p + 1] + (ord[..1] + ord[p + 1..])
  {
  }

  lemma PoolRotated(info: seq<Run>, x: seq<nat>, y: seq<nat>, z: seq<nat>)
    requires Within(x, |info|) && Within(y, |info|) && Within(z, |info|)
    ensures Within(x + (y + z), |info|) && Within(y + (x + z), |info|)
    ensures Pool(info, x + (y + z)) == Pool(info, y + (x + z))
  {
    hide Within, Pool;
    PoolConcat(info, y, z);
    PoolConcat(info, x, y + z);
    PoolConcat(info, x, z);
    PoolConcat(info, y, x + z);
  }

  /** What holds of every run, and that they are different, does not depend on their order. */
  lemma MovedRuns(sp: Spec, info: seq<Run>, ord: seq<nat>, p: nat)
    requires Within(ord, |info|) && p < |ord| && Different(ord) && RunsOk(sp, info, ord)
    ensures Within(Moved(ord, p), |info|) && Different(Moved(ord, p)) && RunsOk(sp, info, Moved(ord, p))
  {
    var m := Moved(ord, p);
    assert forall i :: 0 <= i < |m| ==> m[i] == ord[if i < p then i + 1 else if i == p then 0 else i];
    hide RunOk, Moved;
  }

  lemma {:induction false} PoolElsewhere(info: seq<Run>, ord: seq<nat>, o: nat, r: Run)
    requires Within(ord, |info|) && o < |info| && o !in ord
    ensures Pool(info[o := r], ord) == Pool(info, ord)
  {
    if ord != [] {
      PoolElsewhere(info, ord[1..], o, r);
    }
  }

  lemma {:induction false} PoolFrom(info: seq<Run>, ord: seq<nat>, x: Record) returns (i: nat)
    requires Within(ord, |info|) && x in Pool(info, ord)
    ensures i < |ord| && x in Left(info[ord[i]])
  {
    if x in Left(info[ord[0]]) {
      i := 0;
    } else {
      i := PoolFrom(info, ord[1..], x);
      i := i + 1;
    }
  }

  /** Replacing the first run. */
  lemma PoolFirst(info: seq<Run>, ord: seq<nat>, r: Run)
    requires Within(ord, |info|) && Different(ord) && ord != []
    ensures Pool(info[ord[0] := r], ord) == multiset(Left(r)) + Pool(info, ord[1..])
  {
    PoolElsewhere(info, ord[1..], ord[0], r);
  }

  // --- the steps of sioget -----------------------------------------------------------------------------------

  /** The first run has come to its end and is dropped. */
  lemma DropStep(sp: Spec, info: seq<Run>, ord: seq<nat>)
    requires Merging(sp, info, ord) && ord != [] && !Ready(info[ord[0]]) && info[ord[0]].file == []
    ensures Merging(sp, info, ord[1..]) && Pool(info, ord[1..]) == Pool(info, ord)
    ensures |ord| > 1 ==> Ready(info[ord[1..][0]])
  {
    assert Left(info[ord[0]]) == [];
    hide Ascending, Prec;
  }

  /** A run that stands elsewhere in the order is not touched. */
  lemma OthersKept(info: seq<Run>, ord: seq<nat>, v: seq<Run>)
    requires Within(ord, |info|) && Different(ord) && ord != [] && |v| == |info|
    requires forall o :: 0 <= o < |info| && o != ord[0] ==> v[o] == info[o]
    ensures forall i :: 1 <= i < |ord| ==> v[ord[i]] == info[ord[i]]
  {
    assert forall i :: 1 <= i < |ord| ==> ord[0] != ord[i];
  }

  lemma ReplaceHeads(sp: Spec, info: seq<Run>, ord: seq<nat>, v: seq<Run>)
    requires SpecOk(sp) && Within(ord, |info|) && ord != [] && |v| == |info| && HeadsAscend(sp, info, ord, 1)
    requires forall i :: 1 <= i < |ord| ==> v[ord[i]] == info[ord[i]]
    ensures HeadsAscend(sp, v, ord, 1)
    ensures Ready(v[ord[0]]) && |Head(v[ord[0]])| == sp.len ==> AllReady(sp, v, ord, 0)
  {
    hide Prec;
  }

  /** Replacing the first run by a sorted one. */
  lemma ReplaceFirst(sp: Spec, info: seq<Run>, ord: seq<nat>, q: Run, v: seq<Run>)
    requires Pending(sp, info, ord) && ord != [] && RunOk(sp, q) && v == info[ord[0] := q]
    ensures Pending(sp, v, ord)
    ensures Pool(v, ord) == multiset(Left(q)) + Pool(info, ord[1..])
  {
    PoolFirst(info, ord, q);
    OthersKept(info, ord, v);
    ReplaceHeads(sp, info, ord, v);
    if Ready(q) {
      ReadyHead(sp, q);
    }
    hide Pool, HeadsAscend, AllReady, Ascending, Left, Different, RunOk;
  }

  lemma ReadyHead(sp: Spec, r: Run)
    requires RunOk(sp, r) && Ready(r)
    ensures Head(r) == Left(r)[0] && |Head(r)| == sp.len
  {
  }

  /** The buffer of the first run is filled from its file. */
  function Refilled(r: Run, n: nat): Run
    requires n <= |r.file|
  {
    Run(r.file[..n], 0, r.file[n..])
  }

  lemma RefillStep(sp: Spec, info: seq<Run>, ord: seq<nat>, n: nat, v: seq<Run>)
    requires Pending(sp, info, ord) && ord != [] && !Ready(info[ord[0]]) && 0 < n <= |info[ord[0]].file|
    requires v == info[ord[0] := Refilled(info[ord[0]], n)]
    ensures Pending(sp, v, ord) && Ready(v[ord[0]]) && Pool(v, ord) == Pool(info, ord)
  {
    var r := info[ord[0]];
    var q := Refilled(r, n);
    assert Left(q) == r.file == Left(r);
    ReplaceFirst(sp, info, ord, q, v);
    hide AllReady, HeadsAscend, Ascending;
  }

  /** Once the first run is in its place the runs are in order. */
  lemma PlacedMerging(sp: Spec, info: seq<Run>, ord: seq<nat>, new_ord: seq<nat>, p: nat)
    requires Pending(sp, info, ord) && p < |ord| && new_ord == Moved(ord, p)
    requires HeadsAscend(sp, info, new_ord, 0)
    ensures Merging(sp, info, new_ord) && Pool(info, new_ord) == Pool(info, ord) && Ready(info[new_ord[0]])
  {
    PoolMoved(info, ord, p);
    MovedRuns(sp, info, ord, p);
    HeadsReady(sp, info, new_ord);
    hide Pool, Moved, RunsOk, Prec, Different, AllReady, HeadsAscend, Within;
  }

  lemma HeadsReady(sp: Spec, info: seq<Run>, ord: seq<nat>)
    requires HeadsAscend(sp, info, ord, 0) && ord != []
    ensures HeadsAscend(sp, info, ord, 1) && AllReady(sp, info, ord, 0) && ord[0] < |info| && Ready(info[ord[0]])
  {
  }

  /** The first run gives up its head. */
  function Advanced(r: Run): Run {
    r.(bpos := r.bpos + 1)
  }

  /** A record that no record of the pool comes before. */
  ghost predicate LeastIn(sp: Spec, x: Record, pool: multiset<Record>) {
    x in pool && forall y :: y in pool ==> Prec(sp, x, y)
  }

  lemma HeadIsLeast(sp: Spec, info: seq<Run>, ord: seq<nat>)
    requires Merging(sp, info, ord) && ord != [] && Ready(info[ord[0]])
    ensures LeastIn(sp, Head(info[ord[0]]), Pool(info, ord))
  {
    var h := Head(info[ord[0]]);
    assert RunOk(sp, info[ord[0]]) && h == Left(info[ord[0]])[0];
    forall y | y in Pool(info, ord)
      ensures Prec(sp, h, y)
    {
      var i := PoolFrom(info, ord, y);
      var s := Left(info[ord[i]]);
      assert RunOk(sp, info[ord[i]]);
      var j :| 0 <= j < |s| && s[j] == y;
      assert s[0] == Head(info[ord[i]]);
      if i > 0 {
        assert Prec(sp, h, s[0]);
      }
      PrecLaws(sp, h, s[0], y);
      if j == 0 && i == 0 {
        PrecLaws(sp, h, h, h);
      }
    }
  }

  lemma AdvanceRun(sp: Spec, r: Run)
    requires RunOk(sp, r) && Ready(r)
    ensures Left(r) == [Head(r)] + Left(Advanced(r)) && RunOk(sp, Advanced(r))
  {
    var q := Advanced(r);
    assert forall i :: 0 <= i < |Left(q)| ==> Left(q)[i] == Left(r)[i + 1];
    hide Prec;
  }

  lemma AdvanceStep(sp: Spec, info: seq<Run>, ord: seq<nat>, v: seq<Run>)
    requires Merging(sp, info, ord) && ord != [] && Ready(info[ord[0]]) && v == info[ord[0] := Advanced(info[ord[0]])]
    ensures Pending(sp, v, ord) && v[ord[0]] == Advanced(info[ord[0]])
    ensures Pool(v, ord) == Pool(info, ord) - multiset{Head(info[ord[0]])}
  {
    var r := info[ord[0]];
    assert RunOk(sp, r);
    AdvanceRun(sp, r);
    ReplaceFirst(sp, info, ord, Advanced(r), v);
    hide AllReady, HeadsAscend, Ascending, Left, RunOk, Different;
    assert multiset([Head(r)] + Left(Advanced(r))) == multiset{Head(r)} + multiset(Left(Advanced(r)));
  }
}

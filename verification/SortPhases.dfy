/** The merge phases (sio.c, merge): how many runs are merged at a time, and how the number of runs goes down until
    one merge is enough. */
module SortPhases {
  import opened SortKey
  import opened SortMerge
  import opened SortPool
  import opened SortSteps
  import opened SortPasses

  const MERGESIZ := 65536
  const MAXMERGE := 34
  const MERGEINFO := 32                 // bytes in a merge table entry
  const UINT := 4                       // bytes in an order entry
  const SLACK := 16

  // --- how many runs at a time --------------------------------------------------------------------------

  /** Merge buffers of one record that fit in so much memory. */
  function Room(memory: int, reclen: nat): int
    requires reclen > 0 && memory >= SLACK
  {
    (memory - SLACK) / (reclen + MERGEINFO + UINT)
  }

  predicate MemoryOk(memsize: int, reclen: nat) {
    reclen > 0 && memsize >= MERGESIZ + SLACK
  }

  /** The number of merge buffers before it is reduced. */
  function Buffers(memsize: int, reclen: nat, mergecnt: nat): int
    requires MemoryOk(memsize, reclen)
  {
    var i1 := Room(memsize, reclen);
    var i2 := if i1 < mergecnt || mergecnt > MAXMERGE then Room(memsize - MERGESIZ, reclen) else i1;
    var i3 := if i2 > mergecnt then mergecnt else i2;
    if i3 > MAXMERGE then MAXMERGE else i3
  }

  /** When several phases are needed fewer runs are merged at a time, so that two phases are enough. */
  function Reduced(passcnt: int, mergecnt: nat): int
    decreases if passcnt > 1 then passcnt else 1
  {
    if passcnt > 1 && (passcnt - 1) * (passcnt - 1) >= mergecnt then Reduced(passcnt - 1, mergecnt) else passcnt
  }

  /** The number of runs merged at a time. */
  function PassCount(memsize: int, reclen: nat, mergecnt: nat): int
    requires MemoryOk(memsize, reclen)
  {
    var p := Buffers(memsize, reclen, mergecnt);
    if p < mergecnt then Reduced(p, mergecnt) else p
  }

  lemma {:induction false} ReducedBounds(passcnt: int, mergecnt: nat)
    requires 0 < passcnt < mergecnt
    ensures 1 <= Reduced(passcnt, mergecnt) <= passcnt
    ensures passcnt >= 2 ==> Reduced(passcnt, mergecnt) >= 2
    ensures var p := Reduced(passcnt, mergecnt);
            (p - 1) * (p - 1) < mergecnt && (p < passcnt ==> p * p >= mergecnt)
    decreases passcnt
  {
    if passcnt > 1 && (passcnt - 1) * (passcnt - 1) >= mergecnt {
      ReducedBounds(passcnt - 1, mergecnt);
    }
  }

  /** All runs are merged at once, or at least two at a time, exactly when the memory holds that many buffers beside
      the output buffer of a phase. */
  lemma PassProgress(memsize: int, reclen: nat, mergecnt: nat)
    requires MemoryOk(memsize, reclen) && mergecnt >= 2
    ensures PassCount(memsize, reclen, mergecnt) >= 2 <==>
            (Room(memsize, reclen) >= mergecnt && mergecnt <= MAXMERGE) || Room(memsize - MERGESIZ, reclen) >= 2
    ensures PassCount(memsize, reclen, mergecnt) <= mergecnt
  {
    var p := Buffers(memsize, reclen, mergecnt);
    if 0 < p < mergecnt {
      ReducedBounds(p, mergecnt);
    }
  }

  /** Enough memory for phases that merge at least two runs at a time. */
  predicate Roomy(memsize: int, reclen: nat) {
    MemoryOk(memsize, reclen) && Room(memsize - MERGESIZ, reclen) >= 2
  }

  /** So many runs can be merged at once, or in phases. */
  predicate PhasesSuffice(memsize: int, reclen: nat, mergecnt: nat) {
    MemoryOk(memsize, reclen) && (Roomy(memsize, reclen) || (mergecnt <= MAXMERGE && mergecnt <= Room(memsize, reclen)))
  }

  /** The runs that a phase leaves: groups of passcnt, the last of which may be smaller. */
  function Groups(mergecnt: nat, passcnt: nat): nat
    requires passcnt > 0
  {
    (mergecnt + passcnt - 1) / passcnt
  }

  lemma GroupsIs(n: nat, p: nat, k: nat)
    requires p > 0 && n <= k * p && (k - 1) * p < n
    ensures Groups(n, p) == k
  {
    DivideUp(n + p - 1, p, k);
    Cancel(p, Groups(n, p), k + 1);
  }

  lemma GroupsBounds(n: nat, p: nat)
    requires 0 < p < n
    ensures 2 <= Groups(n, p) <= n && (p >= 2 ==> Groups(n, p) < n) && (p == 1 ==> Groups(n, p) == n)
  {
    DivideUp(n + p - 1, p, 2);
    var k := Groups(n, p);
    assert p * k <= n + p - 1;
    if p >= 2 {
      assert p * n - (n + p - 1) == (p - 1) * (n - 1);
      assert (p - 1) * (n - 1) > 0;
      Cancel(p, k, n);
    }
  }

  /** The number of runs after k phases; a phase is run while all runs cannot be merged at once. */
  ghost function RunsAfter(memsize: int, reclen: nat, mergecnt: nat, k: nat): (n: nat)
    requires MemoryOk(memsize, reclen)
  {
    if k == 0 then mergecnt
    else
      var m := RunsAfter(memsize, reclen, mergecnt, k - 1);
      var p := PassCount(memsize, reclen, m);
      if 0 < p < m then Groups(m, p) else m
  }

  /** With too little memory every phase leaves as many runs as there were. */
  lemma {:induction false} NeverFewer(memsize: int, reclen: nat, mergecnt: nat, k: nat)
    requires MemoryOk(memsize, reclen) && Room(memsize - MERGESIZ, reclen) >= 1 && mergecnt >= 2 && !PhasesSuffice(memsize, reclen, mergecnt)
    ensures PassCount(memsize, reclen, mergecnt) == 1 && RunsAfter(memsize, reclen, mergecnt, k) == mergecnt
  {
    PassProgress(memsize, reclen, mergecnt);
    RoomGrows(memsize, reclen);
    var p := Buffers(memsize, reclen, mergecnt);
    if p < mergecnt {
      ReducedBounds(p, mergecnt);
    }
    if k > 0 {
      NeverFewer(memsize, reclen, mergecnt, k - 1);
      GroupsBounds(mergecnt, 1);
    }
  }

  /** With enough memory the number of runs goes down until one merge is enough. */
  lemma {:induction false} SoonEnough(memsize: int, reclen: nat, mergecnt: nat, j: nat) returns (k: nat)
    requires PhasesSuffice(memsize, reclen, mergecnt) && RunsAfter(memsize, reclen, mergecnt, j) >= 2
    requires j == 0 || Roomy(memsize, reclen)
    ensures var m := RunsAfter(memsize, reclen, mergecnt, k); PassCount(memsize, reclen, m) == m
    decreases RunsAfter(memsize, reclen, mergecnt, j)
  {
    hide PassCount, Groups, Room, Roomy;
    var m := RunsAfter(memsize, reclen, mergecnt, j);
    var p := PassCount(memsize, reclen, m);
    EnoughFor(memsize, reclen, mergecnt, m);
    if p == m {
      k := j;
    } else {
      if j == 0 {
        NotDirect(memsize, reclen, m);
      }
      GroupsBounds(m, p);
      k := SoonEnough(memsize, reclen, mergecnt, j + 1);
    }
  }

  lemma EnoughFor(memsize: int, reclen: nat, mergecnt: nat, m: nat)
    requires PhasesSuffice(memsize, reclen, mergecnt) && m >= 2 && (m == mergecnt || Roomy(memsize, reclen))
    ensures MemoryOk(memsize, reclen) && 2 <= PassCount(memsize, reclen, m) <= m
  {
    PassProgress(memsize, reclen, m);
  }

  lemma NotDirect(memsize: int, reclen: nat, mergecnt: nat)
    requires PhasesSuffice(memsize, reclen, mergecnt) && PassCount(memsize, reclen, mergecnt) < mergecnt
    ensures Roomy(memsize, reclen)
  {
  }

  /** THE PHASES END exactly when the memory has room for two merge buffers of a record beside the output buffer of a phase,
      or the runs can be merged at once: otherwise each phase copies the runs one by one, for ever. */
  lemma PhasesEnd(memsize: int, reclen: nat, mergecnt: nat)
    requires MemoryOk(memsize, reclen) && Room(memsize - MERGESIZ, reclen) >= 1 && mergecnt >= 2
    ensures PhasesSuffice(memsize, reclen, mergecnt) <==>
            exists k: nat :: PassCount(memsize, reclen, RunsAfter(memsize, reclen, mergecnt, k)) == RunsAfter(memsize, reclen, mergecnt, k)
  {
    if PhasesSuffice(memsize, reclen, mergecnt) {
      var k := SoonEnough(memsize, reclen, mergecnt, 0);
    } else {
      forall k: nat
        ensures PassCount(memsize, reclen, RunsAfter(memsize, reclen, mergecnt, k)) != RunsAfter(memsize, reclen, mergecnt, k)
      {
        NeverFewer(memsize, reclen, mergecnt, k);
      }
    }
  }

  /** The memory that bufinit settles for when it is asked for less. */
  function LeastMemory(reclen: nat, numeric: bool): int {
    (reclen + MERGEINFO + UINT + (if numeric then 1 else 0)) * 2 + MERGESIZ - 4
  }

  /** With the least memory and more runs than are ever merged at once, the phases never end. */
  lemma LeastMemoryStalls(reclen: nat, numeric: bool, mergecnt: nat)
    requires reclen > 0 && mergecnt > MAXMERGE
    ensures MemoryOk(LeastMemory(reclen, numeric), reclen) && !PhasesSuffice(LeastMemory(reclen, numeric), reclen, mergecnt)
  {
    var unit := reclen + MERGEINFO + UINT;
    var m := LeastMemory(reclen, numeric) - MERGESIZ - SLACK;
    DivideOne(m, unit);
  }

  lemma DivideOne(m: int, unit: int)
    requires 0 < unit <= m < 2 * unit
    ensures m / unit == 1
  {
  }

  /** The memory of a sort always has room for one merge buffer beside the output buffer. */
  lemma RoomForOne(memsize: int, reclen: nat, numeric: bool)
    requires reclen > 0 && memsize >= LeastMemory(reclen, numeric)
    ensures MemoryOk(memsize, reclen) && Room(memsize - MERGESIZ, reclen) >= 1
  {
    DivideUp(memsize - MERGESIZ - SLACK, reclen + MERGEINFO + UINT, 1);
  }

  // --- the size of a merge buffer --------------------------------------------------------------------------

  function Aligned(n: nat): nat {
    if n % 16 != 0 then n - n % 16 + 16 else n
  }

  /** Records in one merge buffer. */
  function BufferRecords(memsize: int, reclen: nat, passcnt: nat, phase: bool): int
    requires reclen > 0 && passcnt > 0
  {
    var i2 := Aligned(passcnt * UINT) + passcnt * MERGEINFO + (if phase then MERGESIZ else 0);
    (memsize - i2) / passcnt / reclen
  }

  lemma Cancel(b: int, x: int, y: int)
    requires b > 0 && b * x < b * y
    ensures x < y
  {
    assert b * (y - x) > 0;
  }

  lemma DivideUp(a: int, b: int, c: int)
    requires b > 0 && a >= b * c
    ensures a / b >= c
  {
    Cancel(b, c, a / b + 1);
  }

  /** A merge buffer holds at least one record. */
  lemma BufferHolds(memsize: int, reclen: nat, passcnt: nat, phase: bool)
    requires MemoryOk(memsize, reclen) && 0 < passcnt <= Room(if phase then memsize - MERGESIZ else memsize, reclen)
    ensures BufferRecords(memsize, reclen, passcnt, phase) >= 1
  {
    var unit := reclen + MERGEINFO + UINT;
    var memory := if phase then memsize - MERGESIZ else memsize;
    assert passcnt * unit <= memory - SLACK by {
      assert (memory - SLACK) / unit * unit <= memory - SLACK;
      assert passcnt * unit <= (memory - SLACK) / unit * unit;
    }
    assert passcnt * unit == passcnt * reclen + passcnt * MERGEINFO + passcnt * UINT;
    var i2 := Aligned(passcnt * UINT) + passcnt * MERGEINFO + (if phase then MERGESIZ else 0);
    assert memsize - i2 >= passcnt * reclen;
    DivideUp(memsize - i2, passcnt, reclen);
    DivideUp((memsize - i2) / passcnt, reclen, 1);
  }

  /** The first lines of merge: how many runs at a time, whether a phase must write its result, and the records in a
      buffer. */
  method PassSize(memsize: int, reclen: nat, mergecnt: nat) returns (passcnt: nat, mrgflag: bool, bufsize: nat)
    requires MemoryOk(memsize, reclen) && mergecnt >= 2 && PassCount(memsize, reclen, mergecnt) >= 2
    ensures passcnt == PassCount(memsize, reclen, mergecnt) && bufsize >= 1
    ensures 2 <= passcnt <= mergecnt && (mrgflag <==> passcnt < mergecnt)
  {
    PassProgress(memsize, reclen, mergecnt);
    var i1 := Room(memsize, reclen);
    if i1 < mergecnt || mergecnt > MAXMERGE {
      i1 := Room(memsize - MERGESIZ, reclen);
    }
    if i1 > mergecnt {
      i1 := mergecnt;
    }
    var p := if i1 > MAXMERGE then MAXMERGE else i1;
    mrgflag := false;
    if p < mergecnt {
      ReducedBounds(p, mergecnt);
      while (p - 1) * (p - 1) >= mergecnt
        invariant 1 < p < mergecnt && Reduced(p, mergecnt) == PassCount(memsize, reclen, mergecnt)
        invariant p <= Room(memsize - MERGESIZ, reclen)
      {
        assert p > 2;
        p := p - 1;
      }
      mrgflag := true;
    }
    RoomGrows(memsize, reclen);
    BufferHolds(memsize, reclen, p, mrgflag);
    passcnt := p;
    bufsize := BufferRecords(memsize, reclen, p, mrgflag);
  }

  lemma RoomGrows(memsize: int, reclen: nat)
    requires MemoryOk(memsize, reclen)
    ensures Room(memsize - MERGESIZ, reclen) <= Room(memsize, reclen)
  {
    var u := reclen + MERGEINFO + UINT;
    var q := Room(memsize - MERGESIZ, reclen);
    assert u * q <= memsize - MERGESIZ - SLACK;
    DivideUp(memsize - SLACK, u, q);
  }

  // --- phases ----------------------------------------------------------------------------------------------------

  /** A sorted run made of all the records of some runs. */
  lemma OneRun(sp: Spec, runs: seq<seq<Record>>, out: seq<Record>)
    requires runs != [] && RunsFiled(sp, runs) && multiset(out) == PoolOf(runs)
    ensures out != []
  {
    var last := runs[|runs| - 1];
    assert last[0] in multiset(last);
    assert last[0] in PoolOf(runs);
    assert last[0] in multiset(out);
  }

  /** Merge some runs into one. */
  method MergeRuns(sp: Spec, runs: seq<seq<Record>>, bufsize: nat) returns (out: seq<Record>)
    requires SpecOk(sp) && runs != [] && RunsFiled(sp, runs) && bufsize > 0
    ensures out != [] && Ascending(sp, out) && multiset(out) == PoolOf(runs)
  {
    var info := new Run[|runs|](_ => Run([], 0, []));
    var order := new nat[|runs|](_ => 0);
    FillAll(sp, runs, info, order, bufsize);
    FilledFirst(sp, info[..], order[..|runs|], runs);
    out := MergeAll(sp, info, order, |runs|, bufsize);
    OneRun(sp, runs, out);
  }

  lemma FilledFirst(sp: Spec, info: seq<Run>, ord: seq<nat>, runs: seq<seq<Record>>)
    requires Filled(sp, info, ord, runs) && runs != []
    ensures Merging(sp, info, ord) && ord[0] < |info| && Ready(info[ord[0]])
    ensures Pool(info, ord) == PoolOf(runs)
  {
  }

  lemma FiledPart(sp: Spec, runs: seq<seq<Record>>, i: nat, j: nat)
    requires i <= j <= |runs| && RunsFiled(sp, runs)
    ensures RunsFiled(sp, runs[i..j])
    ensures PoolOf(runs[..j]) == PoolOf(runs[..i]) + PoolOf(runs[i..j])
  {
    assert runs[..j] == runs[..i] + runs[i..j];
    PoolOfConcat(runs[..i], runs[i..j]);
  }

  lemma FiledMore(sp: Spec, runs: seq<seq<Record>>, run: seq<Record>)
    requires RunsFiled(sp, runs) && run != [] && Ascending(sp, run)
    ensures RunsFiled(sp, runs + [run]) && PoolOf(runs + [run]) == PoolOf(runs) + multiset(run)
  {
    assert (runs + [run])[..|runs|] == runs;
  }

  /** The runs before nextpos have become the merged runs. */
  ghost predicate MergedTo(sp: Spec, work: seq<seq<Record>>, nextpos: nat, merged: seq<seq<Record>>) {
    nextpos <= |work| && RunsFiled(sp, work) && RunsFiled(sp, merged) && PoolOf(merged) == PoolOf(work[..nextpos])
  }

  /** Merge the next runs of a phase. */
  method MergeNext(sp: Spec, work: seq<seq<Record>>, nextpos: nat, count: nat, bufsize: nat, merged: seq<seq<Record>>)
    returns (more: seq<seq<Record>>)
    requires SpecOk(sp) && bufsize > 0 && 0 < count && nextpos + count <= |work|
    requires MergedTo(sp, work, nextpos, merged)
    ensures MergedTo(sp, work, nextpos + count, more) && |more| == |merged| + 1
  {
    hide RunsFiled, PoolOf, Ascending;
    FiledPart(sp, work, nextpos, nextpos + count);
    var out := MergeRuns(sp, work[nextpos..nextpos + count], bufsize);
    FiledMore(sp, merged, out);
    more := merged + [out];
  }

  /** One phase: the runs are merged passcnt at a time; a single run that is left over is kept as it is. */
  method MergePhase(sp: Spec, work: seq<seq<Record>>, passcnt: nat, bufsize: nat) returns (merged: seq<seq<Record>>)
    requires SpecOk(sp) && RunsFiled(sp, work) && bufsize > 0 && 1 <= passcnt < |work|
    ensures RunsFiled(sp, merged) && PoolOf(merged) == PoolOf(work) && |merged| == Groups(|work|, passcnt)
  {
    hide RunsFiled, PoolOf, Ascending, MergedTo, Groups, Grouped;
    merged := [];
    var lwork, nextpos := |work|, 0;
    MergedNone(sp, work);
    GroupedNone(passcnt);
    while lwork > 1
      invariant 0 <= nextpos <= |work| && nextpos + lwork == |work|
      invariant MergedTo(sp, work, nextpos, merged)
      invariant Grouped(nextpos, passcnt, |merged|, lwork == 0)
      decreases lwork
    {
      var count := if passcnt > lwork then lwork else passcnt;
      GroupsMore(nextpos, passcnt, |merged|, lwork, count);
      merged := MergeNext(sp, work, nextpos, count, bufsize, merged);
      nextpos := nextpos + count;
      lwork := lwork - count;
    }
    GroupsAll(nextpos, passcnt, |merged|, lwork);
    merged := LeaveOver(sp, work, merged, nextpos);
  }

  lemma MergedNone(sp: Spec, work: seq<seq<Record>>)
    requires RunsFiled(sp, work)
    ensures MergedTo(sp, work, 0, [])
  {
    assert work[..0] == [];
  }

  lemma GroupedNone(p: nat)
    ensures Grouped(0, p, 0, false) && Grouped(0, p, 0, true)
  {
  }

  /** So many groups have been made of n runs; only the last may be smaller. */
  predicate Grouped(n: nat, p: nat, k: nat, last: bool) {
    n == k * p || (last && (k - 1) * p < n <= k * p)
  }

  lemma GroupsMore(n: nat, p: nat, k: nat, lwork: nat, count: nat)
    requires Grouped(n, p, k, false) && 0 < count <= p && count <= lwork && (count < p ==> count == lwork)
    ensures Grouped(n + count, p, k + 1, lwork == count)
  {
    assert (k + 1) * p == k * p + p;
  }

  lemma GroupsAll(n: nat, p: nat, k: nat, lwork: nat)
    requires Grouped(n, p, k, lwork == 0) && lwork <= 1 && p > 0 && n + lwork > 0
    ensures Groups(n + lwork, p) == k + lwork
  {
    assert (k + 1) * p == k * p + p && (k - 1) * p == k * p - p;
    GroupsIs(n + lwork, p, k + lwork);
  }

  /** The end of a phase. */
  method LeaveOver(sp: Spec, work: seq<seq<Record>>, merged: seq<seq<Record>>, nextpos: nat) returns (all: seq<seq<Record>>)
    requires |work| <= nextpos + 1 && MergedTo(sp, work, nextpos, merged)
    ensures RunsFiled(sp, all) && PoolOf(all) == PoolOf(work) && nextpos <= |work| && |all| == |merged| + |work| - nextpos
  {
    hide RunsFiled, PoolOf;
    all := merged;
    if nextpos < |work| {
      KeepLast(sp, work, merged);
      all := merged + [work[nextpos]];
    } else {
      assert work[..nextpos] == work;
    }
  }

  /** The run that a phase leaves over. */
  lemma KeepLast(sp: Spec, work: seq<seq<Record>>, merged: seq<seq<Record>>)
    requires work != [] && RunsFiled(sp, work) && RunsFiled(sp, merged) && PoolOf(merged) == PoolOf(work[..|work| - 1])
    ensures RunsFiled(sp, merged + [work[|work| - 1]]) && PoolOf(merged + [work[|work| - 1]]) == PoolOf(work)
  {
    var last := work[|work| - 1];
    assert last != [] && Ascending(sp, last);
    FiledMore(sp, merged, last);
  }

  /** merge: run phases until one merge is enough, and leave its buffers filled for sioget. */
  method Merge(sp: Spec, work: seq<seq<Record>>, memsize: int)
    returns (info: array<Run>, order: array<nat>, mergecnt: nat, bufsize: nat)
    requires SpecOk(sp) && RunsFiled(sp, work) && |work| >= 2 && PhasesSuffice(memsize, sp.len, |work|)
    ensures fresh(info) && fresh(order) && bufsize > 0 && 0 < mergecnt <= order.Length
    ensures Merging(sp, info[..], order[..mergecnt]) && Pool(info[..], order[..mergecnt]) == PoolOf(work)
  {
    var runs := work;
    while true
      invariant RunsFiled(sp, runs) && PoolOf(runs) == PoolOf(work) && |runs| >= 2 && PhasesSuffice(memsize, sp.len, |runs|)
      decreases |runs|
    {
      hide RunsFiled, PoolOf, Filled, Pool, Merging;
      PassProgress(memsize, sp.len, |runs|);
      var passcnt, mrgflag;
      passcnt, mrgflag, bufsize := PassSize(memsize, sp.len, |runs|);
      if !mrgflag {
        mergecnt := |runs|;
        break;
      }
      GroupsBounds(|runs|, passcnt);
      NotDirect(memsize, sp.len, |runs|);
      runs := MergePhase(sp, runs, passcnt, bufsize);
    }
    info := new Run[mergecnt](_ => Run([], 0, []));
    order := new nat[mergecnt](_ => 0);
    FillAll(sp, runs, info, order, bufsize);
    FilledFirst(sp, info[..], order[..mergecnt], runs);
  }
}

/** A whole sort (sio.c): records are put in, sorted in memory a bufferful at a time, written to the work file as
    runs, and merged as they are taken out. */
module SortRun {
  import opened Bytes
  import opened SortKey
  import opened SortDisplace
  import opened SortGroups
  import opened SortWrite
  import opened SortMerge
  import opened SortPool
  import opened SortSteps
  import opened SortPasses
  import opened SortPhases

  const OFFSETS := 16                   // bytes of the header of a run

  /** The memory of a sort that asks for `size` bytes, 0 for the default. */
  function BufInit(size: int, reclen: nat, numeric: bool): int {
    var memory := if size == 0 then 2097152 else size;
    if memory < LeastMemory(reclen, numeric) + 4 then LeastMemory(reclen, numeric) else memory - 4
  }

  function MaxRec(memsize: int, reclen: nat, numeric: bool): int {
    (memsize - OFFSETS) / (reclen + UINT + (if numeric then 1 else 0)) - 1
  }

  /** The buffer always holds a record. */
  lemma BufferOfOne(size: int, reclen: nat, numeric: bool)
    ensures MaxRec(BufInit(size, reclen, numeric), reclen, numeric) >= 1
  {
    var memsize := BufInit(size, reclen, numeric);
    var unit := reclen + UINT + (if numeric then 1 else 0);
    DivideUp(memsize - OFFSETS, unit, 2);
  }

  predicate HasNumeric(sp: Spec) {
    exists k :: 0 <= k < |sp.keys| && sp.keys[k].numeric
  }

  // --- sequences -----------------------------------------------------------------------------------------

  /** The order that process leaves is the order of the records. */
  lemma AppliedAscends(sp: Spec, recs: seq<Record>, w: seq<Word>)
    requires SpecOk(sp) && RecsOk(sp, recs) && Permutation(w, |recs|) && InSequence(sp, recs, w)
    ensures Ascending(sp, Applied(w, recs)) && multiset(Applied(w, recs)) == multiset(recs)
  {
    var s := Applied(w, recs);
    forall i, j | 0 <= i < j < |s|
      ensures Prec(sp, s[i], s[j])
    {
      assert Before(sp, recs, w[i].rec, w[j].rec);
    }
    AppliedSame(w, recs);
  }

  /** A record that does not come before the last one can be added. */
  lemma AscendingMore(sp: Spec, s: seq<Record>, x: Record)
    requires Ascending(sp, s) && |x| == sp.len && (s != [] ==> Prec(sp, s[|s| - 1], x))
    ensures Ascending(sp, s + [x])
  {
    var t := s + [x];
    forall i, j | 0 <= i < j < |t|
      ensures Prec(sp, t[i], t[j])
    {
      if j == |s| && i < |s| - 1 {
        PrecLaws(sp, s[i], s[|s| - 1], x);
      }
    }
    assert forall i :: 0 <= i < |t| ==> |t[i]| == sp.len;
  }

  lemma LeastFirst(sp: Spec, s: seq<Record>)
    requires Ascending(sp, s) && s != []
    ensures LeastIn(sp, s[0], multiset(s)) && Ascending(sp, s[1..]) && multiset(s[1..]) == multiset(s) - multiset{s[0]}
  {
    assert s == [s[0]] + s[1..];
    forall y | y in multiset(s)
      ensures Prec(sp, s[0], y)
    {
      var j :| 0 <= j < |s| && s[j] == y;
      PrecLaws(sp, s[0], s[0], s[0]);
    }
    assert forall i :: 0 <= i < |s[1..]| ==> s[1..][i] == s[i + 1];
  }

  ghost predicate Naming(w: seq<Word>, n: nat) {
    forall j :: 0 <= j < |w| ==> w[j].rec < n
  }

  /** The records that entries name. */
  ghost function Listed(w: seq<Word>, b: seq<Record>): (s: seq<Record>)
    requires Naming(w, |b|)
    ensures |s| == |w| && forall j :: 0 <= j < |w| ==> s[j] == b[w[j].rec]
  {
    seq(|w|, j requires 0 <= j < |w| => b[w[j].rec])
  }

  /** The entries in their own order. */
  method OwnOrder(n: nat) returns (order: array<Word>)
    ensures fresh(order) && order.Length == n && forall j :: 0 <= j < n ==> order[j] == Word(j, false)
  {
    order := new Word[n](j => Word(if j >= 0 then j else 0, false));
  }

  lemma OwnOrderApplied(recs: seq<Record>, w: seq<Word>)
    requires |w| == |recs| && forall j :: 0 <= j < |w| ==> w[j] == Word(j, false)
    ensures Permutation(w, |recs|) && Applied(w, recs) == recs
  {
  }

  /** What has been put in and not taken out: the runs, and the records held in the buffer. */
  ghost predicate Load(sp: Spec, held: seq<Record>, work: seq<seq<Record>>, sorted: bool, left: multiset<Record>) {
    && SpecOk(sp) && RecsOk(sp, held) && (sorted ==> Ascending(sp, held)) && RunsFiled(sp, work)
    && left == PoolOf(work) + multiset(held)
  }

  lemma LoadMore(sp: Spec, held: seq<Record>, work: seq<seq<Record>>, sorted: bool, left: multiset<Record>, x: Record, still: bool)
    requires Load(sp, held, work, sorted, left) && |x| == sp.len
    requires still ==> sorted && (held != [] ==> Prec(sp, held[|held| - 1], x))
    ensures Load(sp, held + [x], work, still, left + multiset{x})
  {
    if still {
      AscendingMore(sp, held, x);
    }
    hide Ascending, RunsFiled, PoolOf, Prec;
  }

  lemma OneMore(b: seq<Record>, n: nat)
    requires n < |b|
    ensures b[..n + 1] == b[..n] + [b[n]]
  {
  }

  lemma SavedFirst(b: seq<Record>, n: nat)
    requires 0 < n < |b|
    ensures b[..n] == [b[n := b[0]][n]] + b[n := b[0]][1..n]
  {
  }

  lemma OneRunOnly(sp: Spec, work: seq<seq<Record>>)
    requires |work| == 1 && RunsFiled(sp, work)
    ensures PoolOf(work) == multiset(work[0]) && Ascending(sp, work[0])
  {
    assert work[..0] == [];
  }

  lemma SavedList(b: seq<Record>, n: nat, w: seq<Word>)
    requires 0 < n < |b| && |w| == n && forall j :: 0 <= j < n ==> w[j] == Word(if j == 0 then n else j, false)
    ensures Naming(w, |b|) && Listed(w, b) == [b[n]] + b[1..n] && Listed(w, b)[0..] == Listed(w, b)
  {
  }

  lemma ListedApplied(b: seq<Record>, n: nat, w: seq<Word>)
    requires n <= |b| && Permutation(w, n)
    ensures Naming(w, |b|) && Listed(w, b) == Applied(w, b[..n])
  {
  }

  lemma NoneHeld(b: seq<Record>)
    ensures b[..0] == []
  {
  }

  lemma LoadEmpty(sp: Spec, work: seq<seq<Record>>, left: multiset<Record>)
    requires SpecOk(sp) && RunsFiled(sp, work) && left == PoolOf(work)
    ensures Load(sp, [], work, true, left)
  {
  }

  // --- the sort ------------------------------------------------------------------------------------------------

  /** The records that the entries from n on name are in order, and are those that are left. */
  ghost predicate ToTake(sp: Spec, w: seq<Word>, b: seq<Record>, n: nat, left: multiset<Record>) {
    n <= |w| && Naming(w, |b|) && Ascending(sp, Listed(w, b)[n..]) && left == multiset(Listed(w, b)[n..])
  }

  /** The record that is taken next. */
  lemma TakeNext(sp: Spec, w: seq<Word>, b: seq<Record>, n: nat, left: multiset<Record>)
    requires ToTake(sp, w, b, n, left)
    ensures n == |w| ==> left == multiset{}
    ensures n < |w| ==>
              && w[n].rec < |b| && LeastIn(sp, b[w[n].rec], left) && ToTake(sp, w, b, n + 1, left - multiset{b[w[n].rec]})
  {
    var s := Listed(w, b);
    if n == |w| {
      assert s[n..] == [];
    } else {
      LeastFirst(sp, s[n..]);
      assert s[n..][1..] == s[n + 1..];
    }
  }

  class Sort {
    const sp: Spec
    const memsize: int
    const maxrec: nat
    const buffer: array<Record>         // maxrec records and a spare one
    const count: array<int>
    var reccnt: nat
    var lastrec: nat
    var mergecnt: nat
    var sortedflag: bool
    var firstgetflag: bool
    var work: seq<seq<Record>>          // the runs in the work file
    var order: array<Word>              // the entries in use
    var numrec: nat
    var info: array<Run>
    var runs: array<nat>
    var bufsize: nat
    ghost var left: multiset<Record>    // put in and not yet taken out

    /** The records in the buffer. */
    ghost function Held(): seq<Record>
      reads `reccnt, buffer
      requires reccnt <= buffer.Length
    {
      buffer[..reccnt]
    }

    /** The only run is still in the buffer, its first record in the spare place. */
    ghost predicate KeptRun()
      reads `work, buffer
    {
      |work| == 1 && buffer.Length == maxrec + 1 && maxrec >= 1 && work[0] == [buffer[maxrec]] + buffer[1..maxrec]
    }

    /** The records put in are in the buffer and in the runs. */
    ghost predicate Loaded()
      reads `reccnt, `sortedflag, `work, `mergecnt, `left, buffer, count
    {
      && SpecOk(sp) && MemoryOk(memsize, sp.len) && maxrec >= 1 && buffer.Length == maxrec + 1 && AllZero(count[..])
      && reccnt <= maxrec && |work| == mergecnt
      && Load(sp, Held(), work, sortedflag, left)
    }

    ghost predicate Filling()
      reads this, buffer, count
    {
      && Loaded() && reccnt < maxrec && lastrec == (if reccnt == 0 then 0 else reccnt - 1)
      && (mergecnt == 1 && reccnt == 0 ==> KeptRun())
    }

    ghost predicate Emptying()
      reads `mergecnt, `numrec, `reccnt, `order, `left, `info, `runs, `bufsize, buffer, order, info, runs
    {
      if mergecnt == 0 then
        numrec <= reccnt <= order.Length && ToTake(sp, order[..reccnt], buffer[..], numrec, left)
      else
        && mergecnt <= runs.Length && bufsize > 0 && numrec == 0
        && Merging(sp, info[..], runs[..mergecnt]) && left == Pool(info[..], runs[..mergecnt])
    }

    /** There is memory to merge the runs there will be, if there will be more than one. */
    predicate Enough()
      reads `mergecnt, `reccnt
    {
      mergecnt == 0 || (mergecnt == 1 && reccnt == 0) || PhasesSuffice(memsize, sp.len, mergecnt + if reccnt > 0 then 1 else 0)
    }

    ghost predicate Valid()
      reads this, buffer, count, order, info, runs
    {
      if firstgetflag then Filling() else Emptying()
    }

    /** The end has been reported. */
    predicate Ended()
      reads `firstgetflag, `mergecnt, `numrec, `reccnt
    {
      !firstgetflag && mergecnt == 0 && numrec <= reccnt
    }

    /** The records of the last, unfinished buffer, which has become a run to be merged. */
    function Remainder(): nat
      reads `firstgetflag, `mergecnt, `reccnt
    {
      if mergecnt == 0 || (firstgetflag && mergecnt == 1 && reccnt == 0) then 0 else reccnt
    }

    /** sioinit. */
    constructor (sp: Spec, size: int)
      requires SpecOk(sp)
      ensures Valid() && fresh(buffer) && fresh(count) && fresh(order) && fresh(info) && fresh(runs)
      ensures firstgetflag && left == multiset{} && this.sp == sp && reccnt == mergecnt == 0
      ensures memsize == BufInit(size, sp.len, HasNumeric(sp)) && maxrec == MaxRec(memsize, sp.len, HasNumeric(sp))
    {
      BufferOfOne(size, sp.len, HasNumeric(sp));
      assert sp.keys[0].start < sp.keys[0].end;
      RoomForOne(BufInit(size, sp.len, HasNumeric(sp)), sp.len, HasNumeric(sp));
      this.sp := sp;
      memsize := BufInit(size, sp.len, HasNumeric(sp));
      maxrec := MaxRec(BufInit(size, sp.len, HasNumeric(sp)), sp.len, HasNumeric(sp));
      buffer := new Record[MaxRec(BufInit(size, sp.len, HasNumeric(sp)), sp.len, HasNumeric(sp)) + 1](_ => []);
      count := new int[RANKS](_ => 0);
      reccnt, lastrec, mergecnt, sortedflag, firstgetflag := 0, 0, 0, true, true;
      work := [];
      order := new Word[0](_ => FLAGBIT);
      info := new Run[0](_ => Run([], 0, []));
      runs := new nat[0](_ => 0);
      numrec, bufsize := 0, 1;
      left := multiset{};
      new;
      assert Held() == [];
    }

    /** The order of the records in the buffer: found by process unless they came in sorted. */
    method OrderHeld() returns (ord: array<Word>)
      requires SpecOk(sp) && 0 < reccnt <= buffer.Length && RecsOk(sp, Held()) && AllZero(count[..])
      requires sortedflag ==> Ascending(sp, Held())
      modifies count
      ensures fresh(ord) && ord.Length == reccnt && AllZero(count[..])
      ensures Permutation(ord[..], |Held()|) && Ascending(sp, Applied(ord[..], Held()))
      ensures multiset(Applied(ord[..], Held())) == multiset(Held())
      ensures sortedflag ==> Applied(ord[..], Held()) == Held()
    {
      ghost var recs := Held();
      ord := OwnOrder(reccnt);
      if sortedflag {
        OwnOrderApplied(recs, ord[..]);
      } else {
        var types := new Flag[reccnt](_ => 0);
        Process(sp, buffer[..reccnt], ord, types, count);
        AppliedAscends(sp, recs, ord[..]);
      }
    }

    /** Sort the records in the buffer, rearrange them, and write them to the work file as a run. */
    method WriteOut()
      requires SpecOk(sp) && 0 < reccnt <= maxrec && buffer.Length == maxrec + 1 && |work| == mergecnt
      requires RecsOk(sp, Held()) && AllZero(count[..]) && (sortedflag ==> Ascending(sp, Held())) && RunsFiled(sp, work)
      modifies this`work, this`mergecnt, buffer, count
      ensures mergecnt == |work| == old(mergecnt) + 1 && AllZero(count[..])
      ensures RunsFiled(sp, work) && PoolOf(work) == old(PoolOf(work)) + old(multiset(Held()))
      ensures mergecnt == 1 && reccnt == maxrec ==> KeptRun()
    {
      hide Ascending, RunsFiled, PoolOf, SpecOk, RecsOk, AllZero;
      SortHeld();
      FiledMore(sp, work, Held());
      work := work + [buffer[..reccnt]];
      mergecnt := mergecnt + 1;
      if mergecnt == 1 {
        ghost var b := buffer[..];
        buffer[maxrec] := buffer[0];
        assert buffer[..] == b[maxrec := b[0]];
        if reccnt == maxrec {
          SavedFirst(b, maxrec);
        }
      }
    }

    /** Sort the records in the buffer, and rearrange them. */
    method SortHeld()
      requires SpecOk(sp) && 0 < reccnt < buffer.Length
      requires RecsOk(sp, Held()) && AllZero(count[..]) && (sortedflag ==> Ascending(sp, Held()))
      modifies buffer, count
      ensures AllZero(count[..]) && Ascending(sp, Held()) && multiset(Held()) == old(multiset(Held()))
    {
      ghost var recs := Held();
      hide Ascending, Applied, SpecOk, RecsOk, AllZero;
      var ord := OrderHeld();
      ghost var w := ord[..];
      if !sortedflag {
        Rearrange(buffer, ord);
      }
      assert Held() == Applied(w, recs);
    }

    /** The caller writes at the place that sioputstart gave out. */
    method PutStart(rec: Record)
      requires Valid() && firstgetflag
      modifies buffer
      ensures Valid() && firstgetflag && buffer[reccnt] == rec
    {
      ghost var held := Held();
      buffer[reccnt] := rec;
      assert Held() == held;
      assert reccnt == 0 && mergecnt == 1 ==> buffer[1..maxrec] == old(buffer[1..maxrec]);
    }

    /** sioputend: the record at the place that sioputstart gave out has been put in. */
    method PutEnd()
      requires Valid() && firstgetflag && |buffer[reccnt]| == sp.len
      modifies this`reccnt, this`lastrec, this`sortedflag, this`work, this`mergecnt, this`left, buffer, count
      ensures Valid()
      ensures firstgetflag && left == old(left) + multiset{old(buffer[reccnt])}
      ensures if old(reccnt) + 1 < maxrec then reccnt == old(reccnt) + 1 && mergecnt == old(mergecnt)
              else reccnt == 0 && mergecnt == old(mergecnt) + 1
    {
      hide Sort.Loaded, Sort.Emptying, Sort.KeptRun, AllZero, SpecOk, MemoryOk, Load, Prec, Ascending;
      var still := StillSorted();
      Accept(still);
      if reccnt == maxrec {
        SpillRun();
      } else {
        lastrec := reccnt - 1;
      }
    }

    /** The buffer is full: its records become a run. */
    method SpillRun()
      requires Loaded() && reccnt == maxrec
      modifies this`reccnt, this`lastrec, this`sortedflag, this`work, this`mergecnt, buffer, count
      ensures Filling() && left == old(left) && reccnt == 0 && mergecnt == old(mergecnt) + 1
    {
      hide AllZero, SpecOk, RecsOk, Ascending, RunsFiled, PoolOf, Sort.KeptRun;
      WriteOut();
      sortedflag := true;
      reccnt, lastrec := 0, 0;
      NoneHeld(buffer[..]);
      LoadEmpty(sp, work, left);
    }

    /** Put in one record. */
    method Put(rec: Record)
      requires Valid() && firstgetflag && |rec| == sp.len
      modifies this`reccnt, this`lastrec, this`sortedflag, this`work, this`mergecnt, this`left, buffer, count
      ensures Valid() && firstgetflag && left == old(left) + multiset{rec}
      ensures if old(reccnt) + 1 < maxrec then reccnt == old(reccnt) + 1 && mergecnt == old(mergecnt)
              else reccnt == 0 && mergecnt == old(mergecnt) + 1
    {
      PutStart(rec);
      PutEnd();
    }

    /** Count in the record. */
    method Accept(still: bool)
      requires Loaded() && reccnt < maxrec && |buffer[reccnt]| == sp.len
      requires still ==> sortedflag && (Held() != [] ==> Prec(sp, Held()[|Held()| - 1], buffer[reccnt]))
      modifies this`reccnt, this`sortedflag, this`left
      ensures Loaded()
      ensures reccnt == old(reccnt) + 1
      ensures left == old(left) + multiset{old(buffer[reccnt])}
    {
      hide AllZero, SpecOk, MemoryOk, Load, Prec;
      ghost var b := buffer[..];
      OneMore(b, reccnt);
      LoadMore(sp, Held(), work, sortedflag, left, buffer[reccnt], still);
      sortedflag := still;
      left := left + multiset{buffer[reccnt]};
      reccnt := reccnt + 1;
      assert buffer[..] == b;
    }

    /** The comparison with the record put in before. */
    method StillSorted() returns (still: bool)
      requires Filling() && |buffer[reccnt]| == sp.len
      ensures still ==> sortedflag && (Held() != [] ==> Prec(sp, Held()[|Held()| - 1], buffer[reccnt]))
    {
      still := sortedflag;
      if sortedflag {
        assert reccnt > 0 ==> |Held()[reccnt - 1]| == sp.len;
        var c := CompRec(sp, buffer[reccnt], buffer[lastrec], 0, sp.keys[0].start);
        CompareOpposite(sp, buffer[reccnt], buffer[lastrec], 0, sp.keys[0].start);
        still := c >= 0;
      }
    }

    /** All records are in memory: they are taken out in the order found by process. */
    method MemoryOrder()
      requires Loaded() && mergecnt == 0 && numrec == 0
      modifies `order, count
      ensures Emptying() && fresh(order)
    {
      order := OwnOrder(0);
      if reccnt > 0 {
        ghost var b := buffer[..];
        order := OrderHeld();
        ListedApplied(b, reccnt, order[..]);
        assert buffer[..] == b;
      } else {
        NoneHeld(buffer[..]);
      }
      assert order[..reccnt] == order[..];
      ghost var s := Listed(order[..reccnt], buffer[..]);
      assert s[0..] == s;
    }

    /** The only run is still in the buffer: its first record is taken from the spare place. */
    method SavedOrder()
      requires Loaded() && mergecnt == 1 && reccnt == 0 && KeptRun() && numrec == 0
      modifies `order, `reccnt, `mergecnt
      ensures Emptying() && mergecnt == 0 && fresh(order)
    {
      OneRunOnly(sp, work);
      NoneHeld(buffer[..]);
      assert left == multiset(work[0]);
      hide RunsFiled, PoolOf, Load, Ascending;
      ghost var b := buffer[..];
      order := OwnOrder(maxrec);
      order[0] := Word(maxrec, false);
      SavedList(b, maxrec, order[..]);
      reccnt, mergecnt := maxrec, 0;
      assert buffer[..] == b && order[..reccnt] == order[..];
    }

    /** The runs are merged, after what is in the buffer has been added to them. */
    method MergeOrder()
      requires Loaded() && mergecnt > 0 && (mergecnt == 1 ==> reccnt > 0) && numrec == 0
      requires PhasesSuffice(memsize, sp.len, mergecnt + if reccnt > 0 then 1 else 0)
      modifies `work, `info, `runs, `mergecnt, `bufsize, buffer, count
      ensures Emptying() && mergecnt > 0 && fresh(info) && fresh(runs)
    {
      hide Sort.KeptRun, AllZero, SpecOk, RecsOk, PhasesSuffice, Ascending, RunsFiled, PoolOf;
      if reccnt > 0 {
        WriteOut();
      } else {
        NoneHeld(buffer[..]);
      }
      MergeWork();
    }

    method MergeWork()
      requires SpecOk(sp) && PhasesSuffice(memsize, sp.len, |work|) && RunsFiled(sp, work) && |work| >= 2 && left == PoolOf(work)
      requires numrec == 0
      modifies `info, `runs, `mergecnt, `bufsize
      ensures Emptying() && mergecnt > 0 && fresh(info) && fresh(runs)
    {
      hide RunsFiled, PoolOf, Ascending, Listed, Naming;
      info, runs, mergecnt, bufsize := Merge(sp, work, memsize);
    }

    /** The first call of sioget: what is in the buffer is sorted, and added to the runs when there are any; then
        the runs are merged until one merge is enough. A single run is still in memory. */
    method StartOutput()
      requires Valid() && firstgetflag && Enough()
      modifies this, buffer, count
      ensures Valid() && !firstgetflag && left == old(left) && Remainder() == old(Remainder())
      ensures fresh(order) || order == old(order)
      ensures (fresh(info) && fresh(runs)) || (info == old(info) && runs == old(runs))
    {
      hide Sort.Emptying, Sort.KeptRun, Sort.Loaded;
      numrec := 0;
      if mergecnt == 0 {
        MemoryOrder();
      } else if mergecnt == 1 && reccnt == 0 {
        SavedOrder();
      } else {
        MergeOrder();
      }
      firstgetflag := false;
    }

    /** Taking a record from memory. */
    method GetHeld() returns (code: int, rec: Record)
      requires Emptying() && mergecnt == 0
      modifies `numrec, `left
      ensures Emptying() && mergecnt == 0 && (code == 0 || code == 1)
      ensures code == 0 ==> LeastIn(sp, rec, old(left)) && left == old(left) - multiset{rec}
      ensures code == 1 ==> left == old(left) == multiset{} && numrec == reccnt
    {
      hide ToTake, LeastIn, Merging, Pool, Sort.Loaded, Sort.KeptRun;
      ghost var w, b := order[..reccnt], buffer[..];
      TakeNext(sp, w, b, numrec, left);
      if numrec >= reccnt {
        return 1, [];
      }
      assert w[numrec] == order[numrec];
      rec := buffer[order[numrec].rec];
      numrec := numrec + 1;
      left := left - multiset{rec};
      code := 0;
      assert order[..reccnt] == w && buffer[..] == b;
    }

    /** Taking a record from the runs being merged. */
    method GetFromRuns() returns (code: int, rec: Record)
      requires Emptying() && mergecnt > 0
      modifies `mergecnt, `left, info, runs
      ensures code == 0 || code == 1
      ensures code == 0 ==> Emptying() && mergecnt > 0 && LeastIn(sp, rec, old(left)) && left == old(left) - multiset{rec}
      ensures code == 1 ==> old(left) == multiset{} && mergecnt == 0 && numrec == 0
    {
      hide Pool, Merging, LeastIn, Listed, Naming, Ascending;
      var rest;
      code, rec, rest := GetMerged(sp, info, runs, mergecnt, bufsize);
      ghost var inf, ord := info[..], runs[..rest];
      mergecnt := rest;
      left := left - multiset{rec};
      assert info[..] == inf && runs[..mergecnt] == ord;
    }

    /** sioget: 1 when every record has been taken out, otherwise 0 and a record that none of those left comes
        before. After a merge the count of the last buffer stays as it was. */
    method Get() returns (code: int, rec: Record)
      requires Valid() && (firstgetflag ==> Enough())
      modifies this, buffer, count, info, runs
      ensures code == 0 || code == 1
      ensures code == 0 ==> Valid() && !firstgetflag && LeastIn(sp, rec, old(left)) && left == old(left) - multiset{rec}
      ensures code == 0 ==> Remainder() == old(Remainder())
      ensures code == 1 ==> old(left) == multiset{} && Ended() && reccnt - numrec == old(Remainder())
      ensures fresh(order) || order == old(order)
      ensures (fresh(info) && fresh(runs)) || (info == old(info) && runs == old(runs))
    {
      hide Sort.Emptying, Sort.Filling, LeastIn;
      if firstgetflag {
        StartOutput();
      }
      if mergecnt == 0 {
        code, rec := GetHeld();
      } else {
        code, rec := GetFromRuns();
      }
    }

    /** sioget called again after it has reported the end: what is counted is handed out once more, from where the order of the
        merged runs was. */
    method GetAgain() returns (code: int)
      requires Ended()
      modifies `numrec
      ensures Ended() && (code == 0 || code == 1)
      ensures code == 1 <==> old(numrec) == reccnt
      ensures reccnt - numrec == reccnt - old(numrec) - if code == 0 then 1 else 0
    {
      if numrec >= reccnt {
        return 1;
      }
      numrec := numrec + 1;
      code := 0;
    }
  }

  lemma FirstMore(s: seq<Record>, i: nat)
    requires i < |s|
    ensures multiset(s[..i + 1]) == multiset(s[..i]) + multiset{s[i]}
  {
    assert s[..i + 1] == s[..i] + [s[i]];
  }

  /** There is memory to sort n records: they make at most one run, or the phases that merge their runs end. */
  predicate CanSort(sp: Spec, size: int, n: nat)
    requires SpecOk(sp)
  {
    var memsize := BufInit(size, sp.len, HasNumeric(sp));
    var maxrec := MaxRec(memsize, sp.len, HasNumeric(sp));
    BufferOfOne(size, sp.len, HasNumeric(sp));
    n <= maxrec || PhasesSuffice(memsize, sp.len, Groups(n, maxrec))
  }

  /** More records than the buffer holds can be sorted exactly when the merge phases end. */
  lemma CanSortExactly(sp: Spec, size: int, n: nat)
    requires SpecOk(sp)
    ensures var memsize := BufInit(size, sp.len, HasNumeric(sp)); var maxrec := MaxRec(memsize, sp.len, HasNumeric(sp));
            && MemoryOk(memsize, sp.len) && maxrec >= 1
            && (n > maxrec ==>
                  (CanSort(sp, size, n) <==>
                   exists k: nat :: PassCount(memsize, sp.len, RunsAfter(memsize, sp.len, Groups(n, maxrec), k))
                                    == RunsAfter(memsize, sp.len, Groups(n, maxrec), k)))
  {
    assert sp.keys[0].start < sp.keys[0].end;
    var memsize := BufInit(size, sp.len, HasNumeric(sp));
    BufferOfOne(size, sp.len, HasNumeric(sp));
    RoomForOne(memsize, sp.len, HasNumeric(sp));
    var maxrec := MaxRec(memsize, sp.len, HasNumeric(sp));
    if n > maxrec {
      GroupsBounds(n, maxrec);
      PhasesEnd(memsize, sp.len, Groups(n, maxrec));
    }
  }

  /** The records put in, by runs. */
  lemma RunsAndRest(i: nat, maxrec: nat)
    requires maxrec > 0
    ensures if i % maxrec + 1 < maxrec then (i + 1) % maxrec == i % maxrec + 1 && (i + 1) / maxrec == i / maxrec
            else (i + 1) % maxrec == 0 && (i + 1) / maxrec == i / maxrec + 1
  {
    var q, r := i / maxrec, i % maxrec;
    assert i == q * maxrec + r;
    if r + 1 < maxrec {
      Quotient(i + 1, maxrec, q, r + 1);
    } else {
      assert (q + 1) * maxrec == q * maxrec + maxrec;
      Quotient(i + 1, maxrec, q + 1, 0);
    }
  }

  lemma Quotient(n: nat, m: nat, q: nat, r: nat)
    requires r < m && n == q * m + r
    ensures n / m == q && n % m == r
  {
    Cancel(m, n / m, q + 1);
    Cancel(m, q, n / m + 1);
  }

  lemma RunsInAll(n: nat, maxrec: nat)
    requires maxrec > 0
    ensures n / maxrec + (if n % maxrec > 0 then 1 else 0) == Groups(n, maxrec)
    ensures n <= maxrec <==> n / maxrec == 0 || (n / maxrec == 1 && n % maxrec == 0)
  {
    var q, r := n / maxrec, n % maxrec;
    assert n == q * maxrec + r && (q + 1) * maxrec == q * maxrec + maxrec && (q - 1) * maxrec == q * maxrec - maxrec;
    GroupsIs(n, maxrec, if r > 0 then q + 1 else q);
    if n < maxrec {
      Quotient(n, maxrec, 0, n);
    } else if n == maxrec {
      Quotient(n, maxrec, 1, 0);
    }
  }

  /** Put in every record. */
  method PutAll(sp: Spec, size: int, input: seq<Record>) returns (sort: Sort)
    requires SpecOk(sp) && CanSort(sp, size, |input|)
    requires forall i :: 0 <= i < |input| ==> |input[i]| == sp.len
    ensures fresh(sort) && fresh(sort.buffer) && fresh(sort.count) && fresh(sort.order) && fresh(sort.info) && fresh(sort.runs)
    ensures sort.sp == sp && sort.maxrec == MaxRec(BufInit(size, sp.len, HasNumeric(sp)), sp.len, HasNumeric(sp)) >= 1
    ensures sort.Valid() && sort.firstgetflag && sort.left == multiset(input) && sort.Enough()
    ensures sort.Remainder() == if |input| <= sort.maxrec then 0 else |input| % sort.maxrec
  {
    hide Sort.Valid, SpecOk, BufInit, MaxRec, HasNumeric, PhasesSuffice, Groups, MemoryOk, InRuns;
    sort := new Sort(sp, size);
    BufferOfOne(size, sp.len, HasNumeric(sp));
    assert multiset(input[..0]) == multiset{};
    InRunsFirst(sort.maxrec);
    for i := 0 to |input|
      invariant sort.Valid() && sort.firstgetflag && sort.sp == sp && sort.left == multiset(input[..i])
      invariant InRuns(i, sort.maxrec, sort.mergecnt, sort.reccnt)
      invariant fresh(sort) && fresh(sort.buffer) && fresh(sort.count) && fresh(sort.order) && fresh(sort.info) && fresh(sort.runs)
    {
      ghost var m, r := sort.mergecnt, sort.reccnt;
      sort.Put(input[i]);
      InRunsMore(i, sort.maxrec, m, r);
      FirstMore(input, i);
    }
    assert input[..|input|] == input;
    InRunsLast(|input|, sort.maxrec, sort.mergecnt, sort.reccnt);
    CanSortMeans(sp, size, |input|);
  }

  /** i records make m runs, and r records are left. */
  predicate InRuns(i: nat, maxrec: nat, m: nat, r: nat) {
    maxrec > 0 && m == i / maxrec && r == i % maxrec
  }

  lemma InRunsFirst(maxrec: nat)
    requires maxrec > 0
    ensures InRuns(0, maxrec, 0, 0)
  {
    Quotient(0, maxrec, 0, 0);
  }

  lemma InRunsMore(i: nat, maxrec: nat, m: nat, r: nat)
    requires InRuns(i, maxrec, m, r)
    ensures if r + 1 < maxrec then InRuns(i + 1, maxrec, m, r + 1) else InRuns(i + 1, maxrec, m + 1, 0)
  {
    RunsAndRest(i, maxrec);
  }

  lemma InRunsLast(n: nat, maxrec: nat, m: nat, r: nat)
    requires InRuns(n, maxrec, m, r)
    ensures maxrec > 0 && m + (if r > 0 then 1 else 0) == Groups(n, maxrec) && r == n % maxrec
    ensures n <= maxrec <==> m == 0 || (m == 1 && r == 0)
    ensures m == 0 ==> n == r
  {
    RunsInAll(n, maxrec);
    assert n == m * maxrec + r;
  }

  lemma CanSortMeans(sp: Spec, size: int, n: nat)
    requires SpecOk(sp) && CanSort(sp, size, n)
    ensures var memsize := BufInit(size, sp.len, HasNumeric(sp)); var maxrec := MaxRec(memsize, sp.len, HasNumeric(sp));
            maxrec >= 1 && (n > maxrec ==> PhasesSuffice(memsize, sp.len, Groups(n, maxrec)))
  {
    BufferOfOne(size, sp.len, HasNumeric(sp));
  }

  /** A WHOLE SORT: whatever records are put in, in whatever number there is memory for, come out sorted and none is lost,
      repeated or changed. */
  method SortAll(sp: Spec, size: int, input: seq<Record>) returns (output: seq<Record>)
    requires SpecOk(sp) && CanSort(sp, size, |input|)
    requires forall i :: 0 <= i < |input| ==> |input[i]| == sp.len
    ensures Ascending(sp, output) && multiset(output) == multiset(input)
  {
    hide Sort.Valid, SpecOk, CanSort;
    var sort := PutAll(sp, size, input);
    output := TakeAll(sort, multiset(input));
  }

  /** A whole sort, and calls of sioget after it has reported the end, until it does so again. These calls give out records
      although none is left, unless the records put in fit in the buffer or fill it a whole number of times. */
  method SortAndGoOn(sp: Spec, size: int, input: seq<Record>) returns (output: seq<Record>, more: nat)
    requires SpecOk(sp) && CanSort(sp, size, |input|)
    requires forall i :: 0 <= i < |input| ==> |input[i]| == sp.len
    ensures Ascending(sp, output) && multiset(output) == multiset(input)
    ensures var maxrec := MaxRec(BufInit(size, sp.len, HasNumeric(sp)), sp.len, HasNumeric(sp));
            && maxrec >= 1 && more == (if |input| <= maxrec then 0 else |input| % maxrec)
            && (more == 0 <==> |input| <= maxrec || |input| % maxrec == 0)
  {
    hide Sort.Valid, SpecOk, CanSort, MaxRec, BufInit, HasNumeric;
    var sort := PutAll(sp, size, input);
    output := TakeAll(sort, multiset(input));
    more := 0;
    ghost var all := sort.reccnt - sort.numrec;
    var code := 0;
    while true
      invariant sort.Ended() && more + (sort.reccnt - sort.numrec) == all
      decreases sort.reccnt - sort.numrec
    {
      code := sort.GetAgain();
      if code == 1 {
        return;
      }
      more := more + 1;
    }
  }

  /** Three records of 600000 characters, with the memory that a sort gets when none is asked for: two fit in the buffer, and a
      record is given out after the end. */
  lemma OneTooMany(sp: Spec)
    requires SpecOk(sp) && sp.len == 600000 && !HasNumeric(sp)
    ensures var maxrec := MaxRec(BufInit(0, sp.len, false), sp.len, false);
            maxrec == 2 && CanSort(sp, 0, 3) && 3 > maxrec && 3 % maxrec == 1
  {
    GroupsIs(3, 2, 2);
  }

  /** Take out every record. */
  method TakeAll(sort: Sort, ghost whole: multiset<Record>) returns (output: seq<Record>)
    requires sort.Valid() && sort.left == whole && SpecOk(sort.sp) && (sort.firstgetflag ==> sort.Enough())
    modifies sort, sort.buffer, sort.count, sort.order, sort.info, sort.runs
    ensures Ascending(sort.sp, output) && multiset(output) == whole
    ensures sort.Ended() && sort.reccnt - sort.numrec == old(sort.Remainder())
  {
    output := [];
    ghost var left := whole;
    while true
      invariant sort.Valid() && (sort.firstgetflag ==> sort.Enough()) && sort.left == left && Written(sort.sp, output, left, whole)
      invariant sort.Remainder() == old(sort.Remainder())
      invariant fresh(sort.order) || sort.order == old(sort.order)
      invariant fresh(sort.info) || sort.info == old(sort.info)
      invariant fresh(sort.runs) || sort.runs == old(sort.runs)
      decreases |left|
    {
      hide Written, LeastIn, Sort.Valid;
      var code, rec := sort.Get();
      if code == 1 {
        WrittenAll(sort.sp, output, whole);
        return;
      }
      LeastSmaller(sort.sp, rec, left);
      WriteStep(sort.sp, output, left, whole, rec);
      output := output + [rec];
      left := left - multiset{rec};
    }
  }

  lemma WrittenAll(sp: Spec, output: seq<Record>, whole: multiset<Record>)
    requires Written(sp, output, multiset{}, whole)
    ensures Ascending(sp, output) && multiset(output) == whole
  {
  }
}

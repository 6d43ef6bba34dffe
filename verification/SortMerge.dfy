/** Merging sorted runs (sio.c, insertmerge and sioget): the runs being merged stand in the order of their first
    records, and the run that has just been advanced is put back by binary search. */
module SortMerge {
  import opened SortKey

  /** A run being merged: the records in its buffer, the place in it, and the records still in the work file. */
  datatype Run = Run(buf: seq<Record>, bpos: nat, file: seq<Record>)

  /** The first record of a run comes no later than the second. */
  ghost predicate Prec(sp: Spec, a: Record, b: Record) {
    SpecOk(sp) && |a| == |b| == sp.len && Le(sp, a, b)
  }

  ghost predicate Ascending(sp: Spec, s: seq<Record>) {
    && SpecOk(sp)
    && (forall i :: 0 <= i < |s| ==> |s[i]| == sp.len)
    && (forall i, j :: 0 <= i < j < |s| ==> Prec(sp, s[i], s[j]))
  }

  /** What is left of a run. */
  ghost function Left(r: Run): seq<Record> {
    (if r.bpos <= |r.buf| then r.buf[r.bpos..] else []) + r.file
  }

  /** The run has a record in its buffer. */
  predicate Ready(r: Run) {
    r.bpos < |r.buf|
  }

  function Head(r: Run): Record
    requires Ready(r)
  {
    r.buf[r.bpos]
  }

  lemma PrecLaws(sp: Spec, a: Record, b: Record, c: Record)
    requires SpecOk(sp) && |a| == |b| == |c| == sp.len
    ensures Prec(sp, a, b) && Prec(sp, b, c) ==> Prec(sp, a, c)
    ensures Prec(sp, a, b) || Prec(sp, b, a)
  {
    LeIsTotalPreorder(sp, a, b, c);
  }

  // --- the order of the runs ------------------------------------------------------------------------------

  /** Entries lo to |ord| - 1 name runs that have a record in their buffer. */
  ghost predicate AllReady(sp: Spec, info: seq<Run>, ord: seq<nat>, lo: nat) {
    && SpecOk(sp)
    && forall i :: lo <= i < |ord| ==> ord[i] < |info| && Ready(info[ord[i]]) && |Head(info[ord[i]])| == sp.len
  }

  /** The heads of entries lo to |ord| - 1 ascend. */
  ghost predicate HeadsAscend(sp: Spec, info: seq<Run>, ord: seq<nat>, lo: nat) {
    && AllReady(sp, info, ord, lo)
    && forall i, j :: lo <= i < j < |ord| ==> Prec(sp, Head(info[ord[i]]), Head(info[ord[j]]))
  }

  /** The first entry moved behind p others. */
  function Moved(ord: seq<nat>, p: nat): (r: seq<nat>)
    requires p < |ord|
    ensures |r| == |ord|
  {
    ord[1..p + 1] + [ord[0]] + ord[p + 1..]
  }

  /** Where the first run belongs: p runs have a head that does not come after its own. */
  ghost predicate Place(sp: Spec, info: seq<Run>, ord: seq<nat>, p: nat)
    requires p < |ord| && AllReady(sp, info, ord, 0)
  {
    && (forall j :: 1 <= j <= p ==> Prec(sp, Head(info[ord[j]]), Head(info[ord[0]])))
    && (forall j :: p < j < |ord| ==> Prec(sp, Head(info[ord[0]]), Head(info[ord[j]])))
  }

  lemma MovedAscends(sp: Spec, info: seq<Run>, ord: seq<nat>, p: nat)
    requires p < |ord| && AllReady(sp, info, ord, 0) && HeadsAscend(sp, info, ord, 1) && Place(sp, info, ord, p)
    ensures HeadsAscend(sp, info, Moved(ord, p), 0)
  {
    var m := Moved(ord, p);
    assert forall i :: 0 <= i < |m| ==> m[i] == ord[if i < p then i + 1 else if i == p then 0 else i];
    hide Prec, Moved;
  }

  /** The comparison that insertmerge makes. */
  method HeadBefore(sp: Spec, info: array<Run>, a: nat, b: nat) returns (yes: bool)
    requires SpecOk(sp) && a < info.Length && b < info.Length && Ready(info[a]) && Ready(info[b])
    requires |Head(info[a])| == |Head(info[b])| == sp.len
    ensures yes ==> Prec(sp, Head(info[a]), Head(info[b]))
    ensures !yes ==> Prec(sp, Head(info[b]), Head(info[a]))
  {
    var c := CompRec(sp, Head(info[a]), Head(info[b]), 0, sp.keys[0].start);
    CompareOpposite(sp, Head(info[a]), Head(info[b]), 0, sp.keys[0].start);
    yes := c < 0;
  }

  /** The binary search of insertmerge. */
  method FindPlace(sp: Spec, info: array<Run>, order: array<nat>, size: nat) returns (i1: nat)
    requires 2 <= size <= order.Length
    requires AllReady(sp, info[..], order[..size], 0) && HeadsAscend(sp, info[..], order[..size], 1)
    ensures i1 < size && Place(sp, info[..], order[..size], i1)
  {
    ghost var ord, inf := order[..size], info[..];
    var start, end := 1, size - 1;
    i1 := 1;
    var a := order[0];
    while true
      invariant 1 <= start <= i1 <= end < size
      invariant forall j :: 1 <= j < start ==> Prec(sp, Head(inf[ord[j]]), Head(inf[ord[0]]))
      invariant forall j :: end < j < size ==> Prec(sp, Head(inf[ord[0]]), Head(inf[ord[j]]))
      decreases end - start
    {
      var yes := HeadBefore(sp, info, a, order[i1]);
      ghost var h := Head(inf[ord[i1]]);
      SpreadPrec(sp, inf, ord, i1, yes);
      if yes {
        if i1 == start {
          i1 := i1 - 1;
          break;
        }
        i1 := i1 - 1;
        end := i1;
      } else {
        if i1 == end {
          break;
        }
        start := i1 + 1;
      }
      i1 := (start + end) / 2;
    }
  }

  /** A comparison with one head decides for all heads on its far side. */
  lemma SpreadPrec(sp: Spec, info: seq<Run>, ord: seq<nat>, i: nat, yes: bool)
    requires 1 <= i < |ord| && AllReady(sp, info, ord, 0) && HeadsAscend(sp, info, ord, 1)
    requires if yes then Prec(sp, Head(info[ord[0]]), Head(info[ord[i]])) else Prec(sp, Head(info[ord[i]]), Head(info[ord[0]]))
    ensures yes ==> forall j :: i <= j < |ord| ==> Prec(sp, Head(info[ord[0]]), Head(info[ord[j]]))
    ensures !yes ==> forall j :: 1 <= j <= i ==> Prec(sp, Head(info[ord[j]]), Head(info[ord[0]]))
  {
    var a, h := Head(info[ord[0]]), Head(info[ord[i]]);
    forall j | 1 <= j < |ord| && (if yes then i <= j else j <= i)
      ensures if yes then Prec(sp, a, Head(info[ord[j]])) else Prec(sp, Head(info[ord[j]]), a)
    {
      if yes {
        PrecLaws(sp, a, h, Head(info[ord[j]]));
      } else {
        PrecLaws(sp, Head(info[ord[j]]), h, a);
      }
    }
  }

  /** insertmerge: move the first run to its place among the others. */
  method InsertMerge(sp: Spec, info: array<Run>, order: array<nat>, size: nat) returns (ghost p: nat)
    requires 2 <= size <= order.Length
    requires AllReady(sp, info[..], order[..size], 0) && HeadsAscend(sp, info[..], order[..size], 1)
    modifies order
    ensures p < size && order[..size] == Moved(old(order[..size]), p)
    ensures HeadsAscend(sp, info[..], order[..size], 0)
  {
    ghost var ord, inf := order[..size], info[..];
    var i1 := FindPlace(sp, info, order, size);
    p := i1;
    MovedAscends(sp, inf, ord, p);
    hide HeadsAscend, AllReady, Place;
    if i1 > 0 {
      var i2, i := order[0], 0;
      while i < i1
        invariant 0 <= i <= i1
        invariant forall j :: 0 <= j < i ==> order[j] == ord[j + 1]
        invariant forall j :: i <= j < size ==> order[j] == ord[j]
      {
        order[i] := order[i + 1];
        i := i + 1;
      }
      order[i1] := i2;
    }
    assert order[..size] == Moved(ord, p);
  }
}

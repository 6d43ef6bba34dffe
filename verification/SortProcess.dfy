/** Sorting the records in memory (sio.c, dispadrsort, insertsort and process): groups of records that agree on
    the columns looked at so far are split column by column until every group is sorted. */
module SortProcess {
  import opened Bytes
  import opened SortKey
  import opened SortDisplace
  import opened Lists

  lemma {:induction false} TallyAll(cur: seq<nat>, ranks: seq<int>, lo: nat, hi: nat, b: int, c: int)
    requires lo <= hi <= |cur| && Names(cur, ranks) && b != c && Tally(cur, ranks, lo, hi, b) == hi - lo
    ensures forall j :: lo <= j < hi ==> ranks[cur[j]] == b
    ensures Tally(cur, ranks, lo, hi, c) == 0
    decreases hi
  {
    if lo < hi {
      TallyAll(cur, ranks, lo, hi - 1, b, c);
    }
  }

  /** A group whose records all have rank b. */
  lemma AllSame(sp: Spec, recs: seq<Record>, k: nat, pos: nat, w: seq<Word>, v: seq<Word>, ct: seq<int>, ranks: seq<int>,
                lo: nat, hi: nat, b: int)
    requires SpecOk(sp) && RecsOk(sp, recs) && Column(sp, k, pos) && Counted(ct, Recs(w), ranks, lo, hi)
    requires 0 <= b < RANKS && ct[b] > hi - lo && NoneFlagged(w, lo, hi + 1) && RanksTrue(sp, recs, k, pos, w, ranks, lo, hi)
    requires v == w[hi := w[hi].(flag := true)]
    ensures Split(sp, recs, k, pos, v, lo, hi) && AllZero(ct[b := 0]) && Recs(v) == Recs(w)
  {
    assert ct[b] == Tally(Recs(w), ranks, lo, hi + 1, b);
    forall c | 0 <= c < RANKS && c != b
      ensures ct[c] == 0
    {
      TallyAll(Recs(w), ranks, lo, hi + 1, b, c);
    }
    TallyAll(Recs(w), ranks, lo, hi + 1, b, b + 1);
    hide Tally, Digit, NumInfo;
    forall j | lo <= j <= hi
      ensures DigitOf(sp, recs, k, pos, v[j].rec) == b
    {
      assert v[j].rec == w[j].rec == Recs(w)[j];
    }
  }

  lemma TrueRanks(sp: Spec, recs: seq<Record>, k: nat, pos: nat, w: seq<Word>, types: seq<Flag>, lo: nat, hi: nat)
    requires SpecOk(sp) && RecsOk(sp, recs) && Column(sp, k, pos) && |types| == |recs| && InRecs(w, recs)
    requires sp.keys[k].numeric ==> Known(sp, recs, k, types, w, lo, hi)
    ensures RanksTrue(sp, recs, k, pos, w, RanksOf(sp, recs, k, pos, types), lo, hi)
  {
    hide NumInfo;
  }

  /** What is known of the numbers in a group before it is looked at. */
  ghost predicate KnownBefore(sp: Spec, recs: seq<Record>, k: nat, pos: nat, types: seq<Flag>, w: seq<Word>, lo: nat, hi: int)
    requires SpecOk(sp) && RecsOk(sp, recs) && Column(sp, k, pos)
  {
    sp.keys[k].numeric && pos > sp.keys[k].start ==> Known(sp, recs, k, types, w, lo, hi)
  }

  /** Changing the flag of one entry. */
  lemma Reflag(sp: Spec, recs: seq<Record>, k: nat, pos: nat, w: seq<Word>, types: seq<Flag>, lo: nat, hi: nat, f: bool)
    requires SpecOk(sp) && RecsOk(sp, recs) && Column(sp, k, pos) && lo <= hi < |w|
    ensures var v := w[hi := w[hi].(flag := f)];
            && Recs(v) == Recs(w) && Rearranged(w, v, lo, hi)
            && (InRecs(w, recs) ==> InRecs(v, recs))
            && (NoneFlagged(w, lo, hi) && !f ==> NoneFlagged(v, lo, hi + 1))
            && (KnownBefore(sp, recs, k, pos, types, w, lo, hi) ==> KnownBefore(sp, recs, k, pos, types, v, lo, hi))
  {
    ShuffledSelf(Recs(w), lo, hi);
    var v := w[hi := w[hi].(flag := f)];
    assert Recs(v) == Recs(w);
    hide Shuffled;
  }

  lemma LearntNothing(sp: Spec, recs: seq<Record>, k: nat, types: seq<Flag>)
    requires SpecOk(sp) && RecsOk(sp, recs) && k < |sp.keys|
    ensures Learnt(sp, recs, k, types, types)
  {
  }

  /** Kinds of numbers stay known when a group is rearranged. */
  lemma KnownMoved(sp: Spec, recs: seq<Record>, k: nat, types: seq<Flag>, w: seq<Word>, v: seq<Word>, lo: nat, hi: nat)
    requires SpecOk(sp) && RecsOk(sp, recs) && k < |sp.keys| && InRecs(w, recs) && |types| == |recs|
    requires Known(sp, recs, k, types, w, lo, hi) && Rearranged(w, v, lo, hi)
    ensures Known(sp, recs, k, types, v, lo, hi) && InRecs(v, recs)
  {
    forall j | 0 <= j < |v|
      ensures v[j].rec < |recs| && (lo <= j <= hi ==> types[v[j].rec] == KindOf(sp, recs, k, v[j].rec))
    {
      if lo <= j <= hi {
        assert Has(Recs(w), lo, hi, Recs(v)[j]);
      }
    }
  }

  lemma InRecsMoved(recs: seq<Record>, w: seq<Word>, v: seq<Word>, lo: nat, hi: nat)
    requires InRecs(w, recs) && Rearranged(w, v, lo, hi)
    ensures InRecs(v, recs)
  {
    forall j | 0 <= j < |v|
      ensures v[j].rec < |recs|
    {
      if lo <= j <= hi {
        assert Has(Recs(w), lo, hi, Recs(v)[j]);
      }
    }
  }

  lemma ThenRearranged(u: seq<Word>, v: seq<Word>, w: seq<Word>, lo: nat, hi: nat)
    requires Recs(u) == Recs(v) && Rearranged(u, v, lo, hi) && Rearranged(v, w, lo, hi)
    ensures Rearranged(u, w, lo, hi)
  {
  }

  /** Put one group in order of the ranks at one column; types are known where they are needed. */
  method DisplaceGroup(sp: Spec, recs: seq<Record>, k: nat, pos: nat, order: array<Word>, types: array<Flag>,
                       count: array<int>, ilo: nat, ihi: nat)
    requires SpecOk(sp) && RecsOk(sp, recs) && Column(sp, k, pos) && types.Length == |recs|
    requires ilo < ihi < order.Length && count.Length == RANKS && AllZero(count[..])
    requires InRecs(order[..], recs) && Distinct(Recs(order[..])) && NoneFlagged(order[..], ilo, ihi + 1)
    requires sp.keys[k].numeric ==> Known(sp, recs, k, types[..], order[..], ilo, ihi)
    modifies order, count
    ensures Rearranged(old(order[..]), order[..], ilo, ihi) && Distinct(Recs(order[..]))
    ensures Split(sp, recs, k, pos, order[..], ilo, ihi)
    ensures AllZero(count[..])
  {
    ghost var w := order[..];
    TrueRanks(sp, recs, k, pos, w, types[..], ilo, ihi);
    ghost var ranks := RanksOf(sp, recs, k, pos, types[..]);
    assert Names(Recs(w), ranks);
    hide Tally, RanksOk, RanksOf, RanksTrue, Known, Split, Distinct, NoneFlagged, Rearranged, RecsOk, SpecOk;
    var i2 := CountRanks(sp, recs, k, pos, order, types, count, ilo, ihi, ranks);
    if count[i2] > ihi - ilo {
      ghost var ct := count[..];
      count[i2] := 0;
      order[ihi] := order[ihi].(flag := true);
      assert count[..] == ct[i2 := 0] && order[..] == w[ihi := w[ihi].(flag := true)];
      AllSame(sp, recs, k, pos, w, order[..], ct, ranks, ilo, ihi, i2);
      Reflag(sp, recs, k, pos, w, types[..], ilo, ihi, true);
    } else {
      Displace(sp, recs, k, pos, order, types, count, ilo, ihi, ranks);
    }
  }

  /** dispadrsort: put a group of two records or more in order of its ranks at one column. */
  method DispAdrSort(sp: Spec, recs: seq<Record>, k: nat, pos: nat, order: array<Word>, types: array<Flag>,
                     count: array<int>, ilo: nat, ihi: nat)
    requires SpecOk(sp) && RecsOk(sp, recs) && Column(sp, k, pos) && types.Length == |recs|
    requires ilo < ihi < order.Length && count.Length == RANKS && AllZero(count[..])
    requires InRecs(order[..], recs) && Distinct(Recs(order[..])) && NoneFlagged(order[..], ilo, ihi)
    requires KnownBefore(sp, recs, k, pos, types[..], order[..], ilo, ihi)
    modifies order, types, count
    ensures Rearranged(old(order[..]), order[..], ilo, ihi) && Distinct(Recs(order[..]))
    ensures Split(sp, recs, k, pos, order[..], ilo, ihi)
    ensures AllZero(count[..])
    ensures Learnt(sp, recs, k, old(types[..]), types[..])
    ensures sp.keys[k].numeric ==> Known(sp, recs, k, types[..], order[..], ilo, ihi)
  {
    ghost var w0 := order[..];
    order[ihi] := order[ihi].(flag := false);
    ghost var w := order[..];
    assert w == w0[ihi := w0[ihi].(flag := false)];
    Reflag(sp, recs, k, pos, w0, types[..], ilo, ihi, false);
    LearntNothing(sp, recs, k, types[..]);
    hide Tally, RanksOf, Known, Split, Distinct, NoneFlagged, Rearranged, RecsOk, SpecOk, InRecs;
    if sp.keys[k].numeric && pos == sp.keys[k].start {
      Classify(sp, recs, k, order, types, ilo, ihi);
    }
    DisplaceGroup(sp, recs, k, pos, order, types, count, ilo, ihi);
    if sp.keys[k].numeric {
      KnownMoved(sp, recs, k, types[..], w, order[..], ilo, ihi);
    }
    ThenRearranged(w0, w, order[..], ilo, ihi);
  }

  // --- insertsort ----------------------------------------------------------------------------------------------------

  /** Record a does not come after record b, from a column onward. */
  ghost predicate InOrder(sp: Spec, recs: seq<Record>, k: nat, pos: nat, a: nat, b: nat)
    requires SpecOk(sp) && RecsOk(sp, recs) && Column(sp, k, pos)
  {
    a < |recs| && b < |recs| && Compare(sp, recs[a], recs[b], k, pos) <= 0
  }

  lemma InOrderLaws(sp: Spec, recs: seq<Record>, k: nat, pos: nat)
    requires SpecOk(sp) && RecsOk(sp, recs) && Column(sp, k, pos)
    ensures forall a: nat, b: nat, c: nat :: InOrder(sp, recs, k, pos, a, b) && InOrder(sp, recs, k, pos, b, c) ==> InOrder(sp, recs, k, pos, a, c)
    ensures forall a: nat, b: nat :: a < |recs| && b < |recs| ==> InOrder(sp, recs, k, pos, a, b) || InOrder(sp, recs, k, pos, b, a)
  {
    forall a: nat, b: nat, c: nat | InOrder(sp, recs, k, pos, a, b) && InOrder(sp, recs, k, pos, b, c)
      ensures InOrder(sp, recs, k, pos, a, c)
    {
      CompareTransitive(sp, recs[a], recs[b], recs[c], k, pos);
    }
    forall a: nat, b: nat | a < |recs| && b < |recs|
      ensures InOrder(sp, recs, k, pos, a, b) || InOrder(sp, recs, k, pos, b, a)
    {
      CompareOpposite(sp, recs[a], recs[b], k, pos);
    }
  }

  /** Entries lo to hi are sorted, leaving out the one at `hole`, which comes after those before it. */
  ghost predicate SortedBut(sp: Spec, recs: seq<Record>, k: nat, pos: nat, cur: seq<nat>, lo: nat, hi: nat, hole: int)
    requires SpecOk(sp) && RecsOk(sp, recs) && Column(sp, k, pos) && hi < |cur|
  {
    && (forall i, j :: lo <= i < j <= hi && i != hole && j != hole ==> InOrder(sp, recs, k, pos, cur[i], cur[j]))
    && (forall i :: lo <= i < hole && i <= hi && hole <= hi ==> InOrder(sp, recs, k, pos, cur[i], cur[hole]))
  }

  /** The hole moves up past an entry that comes before it. */
  lemma HoleUp(sp: Spec, recs: seq<Record>, k: nat, pos: nat, cur: seq<nat>, lo: nat, hi: nat, hole: nat)
    requires SpecOk(sp) && RecsOk(sp, recs) && Column(sp, k, pos) && hi < |cur| && lo <= hole < hi
    requires SortedBut(sp, recs, k, pos, cur, lo, hi, hole) && InOrder(sp, recs, k, pos, cur[hole + 1], cur[hole])
    ensures SortedBut(sp, recs, k, pos, Swap(cur, hole, hole + 1), lo, hi, hole + 1)
  {
    hide InOrder;
  }

  /** The hole is filled where the next entry does not come before it. */
  lemma HoleFilled(sp: Spec, recs: seq<Record>, k: nat, pos: nat, cur: seq<nat>, lo: nat, hi: nat, hole: nat)
    requires SpecOk(sp) && RecsOk(sp, recs) && Column(sp, k, pos) && hi < |cur| && lo <= hole <= hi
    requires SortedBut(sp, recs, k, pos, cur, lo, hi, hole)
    requires hole < hi ==> InOrder(sp, recs, k, pos, cur[hole], cur[hole + 1])
    ensures SortedBut(sp, recs, k, pos, cur, lo, hi, -1)
  {
    InOrderLaws(sp, recs, k, pos);
    hide InOrder;
    forall i, j | lo <= i < j <= hi
      ensures InOrder(sp, recs, k, pos, cur[i], cur[j])
    {
      if i == hole && j > hole + 1 {
        assert InOrder(sp, recs, k, pos, cur[hole + 1], cur[j]);
      }
    }
  }

  /** Insertion under way: cur are the records of the entries, with the one being inserted at `hole`. */
  ghost predicate Inserting(sp: Spec, recs: seq<Record>, k: nat, pos: nat, w0: seq<Word>, w: seq<Word>, cur: seq<nat>,
                            lo: nat, hi: nat, start: nat, hole: int)
    requires SpecOk(sp) && RecsOk(sp, recs) && Column(sp, k, pos)
  {
    && lo <= start <= hi < |w| && |w| == |cur| == |w0|
    && (forall j :: 0 <= j < |w| && j != hole ==> w[j].rec == cur[j])
    && (forall j :: 0 <= j < |w| ==> cur[j] < |recs|)
    && (forall j :: 0 <= j < |w| && !(lo <= j <= hi) ==> w[j] == w0[j])
    && NoneFlagged(w, lo, hi + 1)
    && Distinct(cur) && Shuffled(Recs(w0), cur, lo, hi) && SortedBut(sp, recs, k, pos, cur, start, hi, hole)
  }

  lemma InsertBegin(sp: Spec, recs: seq<Record>, k: nat, pos: nat, w0: seq<Word>, w: seq<Word>, lo: nat, hi: nat, start: nat)
    requires SpecOk(sp) && RecsOk(sp, recs) && Column(sp, k, pos) && start < hi
    requires Inserting(sp, recs, k, pos, w0, w, Recs(w), lo, hi, start + 1, -1) && lo <= start
    ensures Inserting(sp, recs, k, pos, w0, w, Recs(w), lo, hi, start, start)
  {
    hide Distinct, Shuffled, InOrder;
  }

  lemma InsertShift(sp: Spec, recs: seq<Record>, k: nat, pos: nat, w0: seq<Word>, w: seq<Word>, cur: seq<nat>,
                    lo: nat, hi: nat, start: nat, hole: nat)
    requires SpecOk(sp) && RecsOk(sp, recs) && Column(sp, k, pos) && start <= hole < hi
    requires Inserting(sp, recs, k, pos, w0, w, cur, lo, hi, start, hole) && InOrder(sp, recs, k, pos, cur[hole + 1], cur[hole])
    ensures Inserting(sp, recs, k, pos, w0, w[hole := w[hole + 1]], Swap(cur, hole, hole + 1), lo, hi, start, hole + 1)
  {
    HoleUp(sp, recs, k, pos, cur, start, hi, hole);
    ShuffledSwap(Recs(w0), cur, lo, hi, hole, hole + 1);
    hide Distinct, Shuffled, SortedBut, InOrder;
  }

  lemma InsertEnd(sp: Spec, recs: seq<Record>, k: nat, pos: nat, w0: seq<Word>, w: seq<Word>, cur: seq<nat>,
                  lo: nat, hi: nat, start: nat, hole: nat)
    requires SpecOk(sp) && RecsOk(sp, recs) && Column(sp, k, pos) && start <= hole <= hi
    requires Inserting(sp, recs, k, pos, w0, w, cur, lo, hi, start, hole)
    requires hole < hi ==> InOrder(sp, recs, k, pos, cur[hole], cur[hole + 1])
    ensures var v := w[hole := Word(cur[hole], false)];
            Recs(v) == cur && Inserting(sp, recs, k, pos, w0, v, cur, lo, hi, start, -1)
  {
    HoleFilled(sp, recs, k, pos, cur, start, hi, hole);
    hide Distinct, Shuffled, SortedBut, InOrder;
  }

  lemma InsertFacts(sp: Spec, recs: seq<Record>, k: nat, pos: nat, w0: seq<Word>, w: seq<Word>, cur: seq<nat>,
                    lo: nat, hi: nat, start: nat, hole: nat)
    requires SpecOk(sp) && RecsOk(sp, recs) && Column(sp, k, pos) && start <= hole <= hi
    requires Inserting(sp, recs, k, pos, w0, w, cur, lo, hi, start, hole)
    ensures |w| == |cur| && cur[hole] < |recs|
    ensures hole < hi ==> w[hole + 1].rec == cur[hole + 1] < |recs|
  {
  }

  /** The comparison that insertsort makes. */
  method NotAfter(sp: Spec, recs: seq<Record>, k: nat, pos: nat, a: nat, b: nat) returns (yes: bool)
    requires SpecOk(sp) && RecsOk(sp, recs) && Column(sp, k, pos) && a < |recs| && b < |recs|
    ensures yes ==> InOrder(sp, recs, k, pos, a, b)
    ensures !yes ==> InOrder(sp, recs, k, pos, b, a)
  {
    var c := CompRec(sp, recs[a], recs[b], k, pos);
    CompareOpposite(sp, recs[a], recs[b], k, pos);
    yes := c <= 0;
  }

  /** Store one entry. */
  method PutWord(order: array<Word>, i: nat, x: Word)
    requires i < order.Length
    modifies order
    ensures order[..] == old(order[..])[i := x]
  {
    order[i] := x;
  }

  /** Insert entry i2 into the sorted entries after it. */
  method InsertOne(sp: Spec, recs: seq<Record>, k: nat, pos: nat, order: array<Word>, i2: nat, ilo: nat, ihi: nat, ghost w0: seq<Word>)
    requires SpecOk(sp) && RecsOk(sp, recs) && Column(sp, k, pos) && ilo <= i2 < ihi < order.Length
    requires Inserting(sp, recs, k, pos, w0, order[..], Recs(order[..]), ilo, ihi, i2 + 1, -1)
    modifies order
    ensures Inserting(sp, recs, k, pos, w0, order[..], Recs(order[..]), ilo, ihi, i2, -1)
  {
    ghost var w := order[..];
    ghost var cur := Recs(w);
    var i1, i3 := i2, order[i2].rec;
    InsertBegin(sp, recs, k, pos, w0, w, ilo, ihi, i2);
    InsertFacts(sp, recs, k, pos, w0, w, cur, ilo, ihi, i2, i2);
    hide *;
    while true
      invariant i2 <= i1 <= ihi && order[..] == w && |w| == |cur| == order.Length && cur[i1] == i3 < |recs|
      invariant Inserting(sp, recs, k, pos, w0, w, cur, ilo, ihi, i2, i1)
      decreases ihi - i1
    {
      if i1 == ihi {
        break;
      }
      InsertFacts(sp, recs, k, pos, w0, w, cur, ilo, ihi, i2, i1);
      var yes := NotAfter(sp, recs, k, pos, i3, order[i1 + 1].rec);
      if yes {
        break;
      }
      InsertShift(sp, recs, k, pos, w0, w, cur, ilo, ihi, i2, i1);
      w := w[i1 := w[i1 + 1]];
      PutWord(order, i1, order[i1 + 1]);
      cur := Swap(cur, i1, i1 + 1);
      i1 := i1 + 1;
      assert cur[i1] == i3;
    }
    InsertEnd(sp, recs, k, pos, w0, w, cur, ilo, ihi, i2, i1);
    PutWord(order, i1, Word(i3, false));
  }

  ghost predicate InOrderAll(sp: Spec, recs: seq<Record>, k: nat, pos: nat, w: seq<Word>, lo: nat, hi: nat)
    requires SpecOk(sp) && RecsOk(sp, recs) && Column(sp, k, pos)
  {
    forall i, j :: 0 <= i < j < |w| && lo <= i && j <= hi ==> InOrder(sp, recs, k, pos, w[i].rec, w[j].rec)
  }

  /** Flag every entry of a group. */
  method FlagAll(order: array<Word>, ilo: nat, ihi: nat)
    requires ilo <= ihi < order.Length
    modifies order
    ensures SameButFlags(old(order[..]), order[..], ilo, ihi) && AllFlagged(order[..], ilo, ihi + 1)
  {
    var i1 := ilo;
    while i1 <= ihi
      invariant ilo <= i1 <= ihi + 1
      invariant SameButFlags(old(order[..]), order[..], ilo, ihi) && AllFlagged(order[..], ilo, i1)
    {
      order[i1] := order[i1].(flag := true);
      i1 := i1 + 1;
    }
  }

  lemma SortStart(sp: Spec, recs: seq<Record>, k: nat, pos: nat, w: seq<Word>, lo: nat, hi: nat)
    requires SpecOk(sp) && RecsOk(sp, recs) && Column(sp, k, pos) && lo <= hi < |w|
    requires InRecs(w, recs) && Distinct(Recs(w)) && NoneFlagged(w, lo, hi)
    ensures var v := w[hi := w[hi].(flag := false)];
            Inserting(sp, recs, k, pos, w, v, Recs(v), lo, hi, hi, -1)
  {
    Reflag(sp, recs, k, pos, w, [], lo, hi, false);
  }

  lemma SortFinish(sp: Spec, recs: seq<Record>, k: nat, pos: nat, w0: seq<Word>, w: seq<Word>, v: seq<Word>, lo: nat, hi: nat)
    requires SpecOk(sp) && RecsOk(sp, recs) && Column(sp, k, pos)
    requires Inserting(sp, recs, k, pos, w0, w, Recs(w), lo, hi, lo, -1) && SameButFlags(w, v, lo, hi)
    ensures Rearranged(w0, v, lo, hi) && Distinct(Recs(v)) && InOrderAll(sp, recs, k, pos, v, lo, hi)
  {
    assert Recs(v) == Recs(w);
    hide InOrder, Distinct, Shuffled;
  }

  /** insertsort: sort a group from a column onward; every record becomes a group of its own. */
  method InsertSort(sp: Spec, recs: seq<Record>, k: nat, pos: nat, order: array<Word>, ilo: nat, ihi: nat)
    requires SpecOk(sp) && RecsOk(sp, recs) && Column(sp, k, pos)
    requires ilo <= ihi < order.Length
    requires InRecs(order[..], recs) && Distinct(Recs(order[..])) && NoneFlagged(order[..], ilo, ihi)
    modifies order
    ensures Rearranged(old(order[..]), order[..], ilo, ihi) && Distinct(Recs(order[..]))
    ensures InOrderAll(sp, recs, k, pos, order[..], ilo, ihi)
    ensures AllFlagged(order[..], ilo, ihi + 1)
  {
    ghost var w0 := order[..];
    SortStart(sp, recs, k, pos, w0, ilo, ihi);
    order[ihi] := order[ihi].(flag := false);
    assert order[..] == w0[ihi := w0[ihi].(flag := false)];
    hide *;
    var i2 := ihi;
    while i2 > ilo
      invariant ilo <= i2 <= ihi
      invariant Inserting(sp, recs, k, pos, w0, order[..], Recs(order[..]), ilo, ihi, i2, -1)
    {
      i2 := i2 - 1;
      InsertOne(sp, recs, k, pos, order, i2, ilo, ihi, w0);
    }
    ghost var w := order[..];
    FlagAll(order, ilo, ihi);
    SortFinish(sp, recs, k, pos, w0, w, order[..], ilo, ihi);
  }
}

/** Sorting the records in memory (sio.c, process): the invariant of the column-by-column splitting, and the
    order it ends in. */
module SortGroups {
  import opened Bytes
  import opened SortKey
  import opened SortDisplace
  import opened SortProcess
  import opened Lists

  /** Record a does not come after record b in the whole order. */
  ghost predicate Before(sp: Spec, recs: seq<Record>, a: nat, b: nat)
    requires SpecOk(sp) && RecsOk(sp, recs)
  {
    a < |recs| && b < |recs| && Le(sp, recs[a], recs[b])
  }

  /** Two records have the same ranks before a column. */
  ghost predicate Same(sp: Spec, recs: seq<Record>, k: nat, pos: nat, a: nat, b: nat)
    requires SpecOk(sp) && RecsOk(sp, recs)
  {
    a < |recs| && b < |recs| && Agree(sp, recs[a], recs[b], k, pos)
  }

  /** Everything up to entry b comes before everything after it. */
  ghost predicate Cut(sp: Spec, recs: seq<Record>, w: seq<Word>, b: int)
    requires SpecOk(sp) && RecsOk(sp, recs)
  {
    forall i, j :: 0 <= i <= b < j < |w| ==> Before(sp, recs, w[i].rec, w[j].rec)
  }

  /** The groups: a flag marks a cut, and neighbours in one group have the same ranks before column (k, pos),
      or through it if they come before entry `mid`. */
  ghost predicate Grouped(sp: Spec, recs: seq<Record>, k: nat, pos: nat, w: seq<Word>, mid: int)
    requires SpecOk(sp) && RecsOk(sp, recs)
  {
    && (forall j :: 0 <= j < |w| - 1 && !w[j].flag ==>
          Same(sp, recs, k, if j < mid then pos + 1 else pos, w[j].rec, w[j + 1].rec))
    && (forall b :: 0 <= b < |w| - 1 && w[b].flag ==> Cut(sp, recs, w, b))
  }

  /** The kinds of numbers in groups of two or more are known once the first column of a key is done. */
  ghost predicate Typed(sp: Spec, recs: seq<Record>, k: nat, pos: nat, types: seq<Flag>, w: seq<Word>, mid: int)
    requires SpecOk(sp) && RecsOk(sp, recs) && k < |sp.keys|
  {
    sp.keys[k].numeric ==>
      forall j :: 0 <= j < |w| - 1 && !w[j].flag && (j < mid || pos > sp.keys[k].start) ==> Known(sp, recs, k, types, w, j, j + 1)
  }

  /** Entries lo to hi are one group. */
  ghost predicate OneGroup(w: seq<Word>, lo: nat, hi: nat) {
    && lo <= hi < |w| && w[hi].flag && NoneFlagged(w, lo, hi)
    && (lo > 0 ==> w[lo - 1].flag)
  }

  // --- within a group ----------------------------------------------------------------------------------------

  lemma {:induction false} GroupSame(sp: Spec, recs: seq<Record>, k: nat, pos: nat, w: seq<Word>, mid: nat, lo: nat, hi: nat, i: nat, j: nat)
    requires SpecOk(sp) && RecsOk(sp, recs) && InRecs(w, recs) && Grouped(sp, recs, k, pos, w, mid)
    requires hi < |w| && NoneFlagged(w, lo, hi) && mid <= lo <= i <= j <= hi
    ensures Same(sp, recs, k, pos, w[i].rec, w[j].rec)
    decreases j - i
  {
    if i < j {
      GroupSame(sp, recs, k, pos, w, mid, lo, hi, i, j - 1);
      assert !w[j - 1].flag;
      assert Same(sp, recs, k, pos, w[j - 1].rec, w[j].rec);
      hide Digit;
    }
  }

  /** Records of a group keep the same ranks before the column however the group is rearranged. */
  lemma MovedSame(sp: Spec, recs: seq<Record>, k: nat, pos: nat, w: seq<Word>, v: seq<Word>, mid: nat, lo: nat, hi: nat, i: nat, j: nat)
    requires SpecOk(sp) && RecsOk(sp, recs) && InRecs(w, recs) && Grouped(sp, recs, k, pos, w, mid)
    requires OneGroup(w, lo, hi) && mid <= lo && Rearranged(w, v, lo, hi) && lo <= i <= hi && lo <= j <= hi
    ensures Same(sp, recs, k, pos, v[i].rec, v[j].rec)
  {
    assert Has(Recs(w), lo, hi, Recs(v)[i]) && Has(Recs(w), lo, hi, Recs(v)[j]);
    var x :| lo <= x <= hi && w[x].rec == v[i].rec;
    var y :| lo <= y <= hi && w[y].rec == v[j].rec;
    if x <= y {
      GroupSame(sp, recs, k, pos, w, mid, lo, hi, x, y);
    } else {
      GroupSame(sp, recs, k, pos, w, mid, lo, hi, y, x);
    }
    hide Digit;
  }

  /** A cut outside a group stays a cut when the group is rearranged. */
  lemma CutKept(sp: Spec, recs: seq<Record>, w: seq<Word>, v: seq<Word>, lo: nat, hi: nat, b: int)
    requires SpecOk(sp) && RecsOk(sp, recs) && hi < |w| && Rearranged(w, v, lo, hi) && Cut(sp, recs, w, b)
    requires b < lo || b >= hi
    ensures Cut(sp, recs, v, b)
  {
    forall i, j | 0 <= i <= b < j < |v|
      ensures Before(sp, recs, v[i].rec, v[j].rec)
    {
      var x, y := i, j;
      if lo <= i <= hi {
        assert Has(Recs(w), lo, hi, Recs(v)[i]);
        x :| lo <= x <= hi && w[x].rec == v[i].rec;
      }
      if lo <= j <= hi {
        assert Has(Recs(w), lo, hi, Recs(v)[j]);
        y :| lo <= y <= hi && w[y].rec == v[j].rec;
      }
      assert Before(sp, recs, w[x].rec, w[y].rec);
    }
  }

  /** Two records of a group, the first with the lower rank, or in order from the column on. */
  lemma Decided(sp: Spec, recs: seq<Record>, k: nat, pos: nat, a: nat, b: nat)
    requires SpecOk(sp) && RecsOk(sp, recs) && Column(sp, k, pos) && Same(sp, recs, k, pos, a, b)
    requires DigitOf(sp, recs, k, pos, a) < DigitOf(sp, recs, k, pos, b) || InOrder(sp, recs, k, pos, a, b)
    ensures Before(sp, recs, a, b)
  {
    AgreeCompare(sp, recs[a], recs[b], k, pos);
  }

  /** What either sort does to a group. */
  ghost predicate Sorted(sp: Spec, recs: seq<Record>, k: nat, pos: nat, v: seq<Word>, lo: nat, hi: nat)
    requires SpecOk(sp) && RecsOk(sp, recs) && Column(sp, k, pos) && hi < |v|
  {
    || Split(sp, recs, k, pos, v, lo, hi)
    || (InOrderAll(sp, recs, k, pos, v, lo, hi) && AllFlagged(v, lo, hi + 1))
  }

  lemma NewCut(sp: Spec, recs: seq<Record>, k: nat, pos: nat, w: seq<Word>, v: seq<Word>, mid: nat, lo: nat, hi: nat, b: nat)
    requires SpecOk(sp) && RecsOk(sp, recs) && Column(sp, k, pos) && InRecs(w, recs) && Grouped(sp, recs, k, pos, w, mid)
    requires OneGroup(w, lo, hi) && mid <= lo && Rearranged(w, v, lo, hi) && Sorted(sp, recs, k, pos, v, lo, hi)
    requires lo <= b < hi && v[b].flag
    ensures Cut(sp, recs, v, b)
  {
    if lo > 0 {
      CutKept(sp, recs, w, v, lo, hi, lo - 1);
    }
    if hi < |w| - 1 {
      CutKept(sp, recs, w, v, lo, hi, hi);
    }
    forall i, j | 0 <= i <= b < j < |v|
      ensures Before(sp, recs, v[i].rec, v[j].rec)
    {
      if lo <= i && j <= hi {
        MovedSame(sp, recs, k, pos, w, v, mid, lo, hi, i, j);
        if Split(sp, recs, k, pos, v, lo, hi) {
          assert DigitOf(sp, recs, k, pos, v[b].rec) < DigitOf(sp, recs, k, pos, v[b + 1].rec);
          assert DigitOf(sp, recs, k, pos, v[i].rec) <= DigitOf(sp, recs, k, pos, v[b].rec);
          assert DigitOf(sp, recs, k, pos, v[b + 1].rec) <= DigitOf(sp, recs, k, pos, v[j].rec);
        }
        Decided(sp, recs, k, pos, v[i].rec, v[j].rec);
      }
    }
  }

  /** Neighbours that stay together have the same rank at the column too. */
  lemma StillSame(sp: Spec, recs: seq<Record>, k: nat, pos: nat, w: seq<Word>, v: seq<Word>, mid: nat, lo: nat, hi: nat, j: nat)
    requires SpecOk(sp) && RecsOk(sp, recs) && Column(sp, k, pos) && InRecs(w, recs) && Grouped(sp, recs, k, pos, w, mid)
    requires OneGroup(w, lo, hi) && mid <= lo && Rearranged(w, v, lo, hi) && Sorted(sp, recs, k, pos, v, lo, hi)
    requires lo <= j < hi && !v[j].flag
    ensures Same(sp, recs, k, pos + 1, v[j].rec, v[j + 1].rec)
  {
    MovedSame(sp, recs, k, pos, w, v, mid, lo, hi, j, j + 1);
    assert Digit(sp, recs[v[j].rec], k, pos) == Digit(sp, recs[v[j + 1].rec], k, pos);
    forall i: nat, q: nat | Column(sp, i, q) && Earlier(i, q, k, pos + 1)
      ensures Digit(sp, recs[v[j].rec], i, q) == Digit(sp, recs[v[j + 1].rec], i, q)
    {
      assert Earlier(i, q, k, pos) || (i == k && q == pos);
    }
  }

  /** Sorting one group at a column keeps the groups. */
  lemma GroupStep(sp: Spec, recs: seq<Record>, k: nat, pos: nat, w: seq<Word>, v: seq<Word>, lo: nat, hi: nat)
    requires SpecOk(sp) && RecsOk(sp, recs) && Column(sp, k, pos) && InRecs(w, recs) && Grouped(sp, recs, k, pos, w, lo)
    requires OneGroup(w, lo, hi) && Rearranged(w, v, lo, hi) && Sorted(sp, recs, k, pos, v, lo, hi)
    ensures Grouped(sp, recs, k, pos, v, hi + 1) && v[hi].flag && InRecs(v, recs)
  {
    InRecsMoved(recs, w, v, lo, hi);
    forall j | 0 <= j < |v| - 1 && !v[j].flag
      ensures Same(sp, recs, k, if j < hi + 1 then pos + 1 else pos, v[j].rec, v[j + 1].rec)
    {
      if lo <= j < hi {
        StillSame(sp, recs, k, pos, w, v, lo, lo, hi, j);
      } else {
        assert j != hi && j != lo - 1;
        assert Same(sp, recs, k, if j < lo then pos + 1 else pos, w[j].rec, w[j + 1].rec);
      }
    }
    forall b | 0 <= b < |v| - 1 && v[b].flag
      ensures Cut(sp, recs, v, b)
    {
      if lo <= b < hi {
        NewCut(sp, recs, k, pos, w, v, lo, lo, hi, b);
      } else {
        CutKept(sp, recs, w, v, lo, hi, b);
      }
    }
  }

  // --- the numbers that are known -------------------------------------------------------------------------------

  lemma TypedGroup(sp: Spec, recs: seq<Record>, k: nat, pos: nat, types: seq<Flag>, w: seq<Word>, lo: nat, hi: nat)
    requires SpecOk(sp) && RecsOk(sp, recs) && Column(sp, k, pos) && Typed(sp, recs, k, pos, types, w, lo)
    requires OneGroup(w, lo, hi) && lo < hi
    ensures KnownBefore(sp, recs, k, pos, types, w, lo, hi)
  {
    hide KindOf;
    if sp.keys[k].numeric && pos > sp.keys[k].start {
      forall j | lo <= j <= hi && w[j].rec < |recs| == |types|
        ensures types[w[j].rec] == KindOf(sp, recs, k, w[j].rec)
      {
        var i := if j < hi then j else j - 1;
        assert !w[i].flag;
        assert Known(sp, recs, k, types, w, i, i + 1);
      }
    }
  }

  lemma TypedStep(sp: Spec, recs: seq<Record>, k: nat, pos: nat, types: seq<Flag>, new_t: seq<Flag>, w: seq<Word>, v: seq<Word>, lo: nat, hi: nat)
    requires SpecOk(sp) && RecsOk(sp, recs) && Column(sp, k, pos) && Typed(sp, recs, k, pos, types, w, lo) && |types| == |recs|
    requires OneGroup(w, lo, hi) && Rearranged(w, v, lo, hi) && Learnt(sp, recs, k, types, new_t) && v[hi].flag
    requires AllFlagged(v, lo, hi + 1) || (sp.keys[k].numeric ==> Known(sp, recs, k, new_t, v, lo, hi))
    ensures Typed(sp, recs, k, pos, new_t, v, hi + 1)
  {
    hide KindOf;
    if sp.keys[k].numeric {
      forall j | 0 <= j < |v| - 1 && !v[j].flag && (j < hi + 1 || pos > sp.keys[k].start)
        ensures Known(sp, recs, k, new_t, v, j, j + 1)
      {
        if lo <= j < hi {
        } else {
          assert j != hi && (lo > 0 ==> j != lo - 1);
          assert Known(sp, recs, k, types, w, j, j + 1);
        }
      }
    }
  }

  // --- process ----------------------------------------------------------------------------------------------------

  /** The state of a sort between two groups. */
  ghost predicate Sorting(sp: Spec, recs: seq<Record>, k: nat, pos: nat, w: seq<Word>, types: seq<Flag>, count: seq<int>, mid: nat)
  {
    && SpecOk(sp) && RecsOk(sp, recs) && k < |sp.keys| && sp.keys[k].start <= pos <= sp.keys[k].end
    && |w| == |types| == |recs| > 0 && mid <= |w| && InRecs(w, recs) && Distinct(Recs(w)) && w[|w| - 1].flag
    && (mid > 0 ==> w[mid - 1].flag)
    && AllZero(count) && Grouped(sp, recs, k, pos, w, mid) && Typed(sp, recs, k, pos, types, w, mid)
  }

  /** What the sort of one group leaves behind. */
  ghost predicate GroupDone(sp: Spec, recs: seq<Record>, k: nat, pos: nat, w: seq<Word>, v: seq<Word>,
                            types: seq<Flag>, new_t: seq<Flag>, count: seq<int>, lo: nat, hi: nat)
    requires SpecOk(sp) && RecsOk(sp, recs) && Column(sp, k, pos) && hi < |v|
  {
    && Rearranged(w, v, lo, hi) && Distinct(Recs(v)) && Sorted(sp, recs, k, pos, v, lo, hi)
    && Learnt(sp, recs, k, types, new_t) && AllZero(count)
    && (AllFlagged(v, lo, hi + 1) || (sp.keys[k].numeric ==> Known(sp, recs, k, new_t, v, lo, hi)))
  }

  lemma DoneStep(sp: Spec, recs: seq<Record>, k: nat, pos: nat, w: seq<Word>, v: seq<Word>, types: seq<Flag>, new_t: seq<Flag>,
                 c0: seq<int>, count: seq<int>, lo: nat, hi: nat)
    requires Sorting(sp, recs, k, pos, w, types, c0, lo) && Column(sp, k, pos) && OneGroup(w, lo, hi)
    requires hi < |v| && GroupDone(sp, recs, k, pos, w, v, types, new_t, count, lo, hi)
    ensures Sorting(sp, recs, k, pos, v, new_t, count, hi + 1)
  {
    GroupStep(sp, recs, k, pos, w, v, lo, hi);
    TypedStep(sp, recs, k, pos, types, new_t, w, v, lo, hi);
    EndKept(w, v, lo, hi);
    hide Grouped, Typed, Distinct, Rearranged, AllZero, Known, Recs, SpecOk, RecsOk, AllFlagged, InRecs;
  }

  /** Sort one group at a column. */
  method SortGroup(sp: Spec, recs: seq<Record>, k: nat, pos: nat, order: array<Word>, types: array<Flag>,
                   count: array<int>, i2: nat, i1: nat)
    requires Sorting(sp, recs, k, pos, order[..], types[..], count[..], i2) && Column(sp, k, pos)
    requires OneGroup(order[..], i2, i1)
    modifies order, types, count
    ensures Sorting(sp, recs, k, pos, order[..], types[..], count[..], i1 + 1)
  {
    ghost var w, t, c0 := order[..], types[..], count[..];
    if i2 < i1 {
      TypedGroup(sp, recs, k, pos, t, w, i2, i1);
    }
    LearntNothing(sp, recs, k, t);
    EndFlag(w, i2, i1);
    hide Sorting, Grouped, Typed, Distinct, Rearranged, Split, InOrderAll, AllZero, NoneFlagged, Learnt, Known, KnownBefore, Recs;
    hide SpecOk, RecsOk, AllFlagged, InRecs, OneGroup, Column;
    if i1 - i2 > 48 {
      DispAdrSort(sp, recs, k, pos, order, types, count, i2, i1);
    } else {
      InsertSort(sp, recs, k, pos, order, i2, i1);
    }
    DoneStep(sp, recs, k, pos, w, order[..], t, types[..], c0, count[..], i2, i1);
  }

  lemma EndFlag(w: seq<Word>, lo: nat, hi: nat)
    requires OneGroup(w, lo, hi)
    ensures lo <= hi < |w| && NoneFlagged(w, lo, hi)
  {
  }

  lemma EndKept(w: seq<Word>, v: seq<Word>, lo: nat, hi: nat)
    requires lo <= hi < |w| && w[|w| - 1].flag && Rearranged(w, v, lo, hi) && v[hi].flag
    ensures |v| == |w| && v[|v| - 1].flag
  {
  }

  lemma SortingEnds(sp: Spec, recs: seq<Record>, k: nat, pos: nat, w: seq<Word>, types: seq<Flag>, count: seq<int>, mid: nat)
    requires Sorting(sp, recs, k, pos, w, types, count, mid)
    ensures |w| == |recs| > 0 && w[|w| - 1].flag && (0 < mid <= |w| ==> w[mid - 1].flag)
  {
  }

  /** The entry that ends the group starting at entry i2. */
  method EndOfGroup(order: array<Word>, i2: nat) returns (i1: nat)
    requires i2 < order.Length && order[order.Length - 1].flag && !order[i2].flag && (i2 > 0 ==> order[i2 - 1].flag)
    ensures OneGroup(order[..], i2, i1)
  {
    i1 := i2 + 1;
    while !order[i1].flag
      invariant i2 < i1 < order.Length && NoneFlagged(order[..], i2, i1)
      decreases order.Length - i1
    {
      i1 := i1 + 1;
    }
  }

  /** Deal with the group that starts at entry i1, or pass over it when it is of one record. */
  method PassGroup(sp: Spec, recs: seq<Record>, k: nat, pos: nat, order: array<Word>, types: array<Flag>,
                   count: array<int>, i1: nat) returns (next: nat)
    requires Sorting(sp, recs, k, pos, order[..], types[..], count[..], i1) && Column(sp, k, pos) && i1 < order.Length
    modifies order, types, count
    ensures i1 < next <= order.Length && Sorting(sp, recs, k, pos, order[..], types[..], count[..], next)
    ensures old(order[i1].flag) ==> order[..] == old(order[..]) && next == i1 + 1
  {
    SortingEnds(sp, recs, k, pos, order[..], types[..], count[..], i1);
    hide Sorting, SpecOk, RecsOk;
    if order[i1].flag {
      NextMid(sp, recs, k, pos, order[..], types[..], count[..], i1);
      return i1 + 1;
    }
    var i2 := EndOfGroup(order, i1);
    hide OneGroup;
    SortGroup(sp, recs, k, pos, order, types, count, i1, i2);
    return i2 + 1;
  }

  /** One pass: sort every group of two or more at a column. */
  method Pass(sp: Spec, recs: seq<Record>, k: nat, pos: nat, order: array<Word>, types: array<Flag>, count: array<int>)
    returns (flag: bool)
    requires Sorting(sp, recs, k, pos, order[..], types[..], count[..], 0) && Column(sp, k, pos)
    modifies order, types, count
    ensures Sorting(sp, recs, k, pos, order[..], types[..], count[..], |recs|)
    ensures flag ==> AllFlagged(order[..], 0, |recs|)
  {
    SortingEnds(sp, recs, k, pos, order[..], types[..], count[..], 0);
    hide Sorting, SpecOk, RecsOk;
    flag := true;
    var i1 := 0;
    while i1 < order.Length
      invariant 0 <= i1 <= order.Length == |recs|
      invariant Sorting(sp, recs, k, pos, order[..], types[..], count[..], i1)
      invariant flag ==> AllFlagged(order[..], 0, i1)
    {
      flag := flag && order[i1].flag;
      i1 := PassGroup(sp, recs, k, pos, order, types, count, i1);
    }
  }

  /** A group of one needs no sorting. */
  lemma NextMid(sp: Spec, recs: seq<Record>, k: nat, pos: nat, w: seq<Word>, types: seq<Flag>, count: seq<int>, mid: nat)
    requires Sorting(sp, recs, k, pos, w, types, count, mid) && mid < |w| && w[mid].flag
    ensures Sorting(sp, recs, k, pos, w, types, count, mid + 1)
  {
    hide Same, Cut, Known;
  }

  /** A finished pass is the start of the next. */
  lemma NextColumn(sp: Spec, recs: seq<Record>, k: nat, pos: nat, w: seq<Word>, types: seq<Flag>, count: seq<int>)
    requires Sorting(sp, recs, k, pos, w, types, count, |recs|) && pos < sp.keys[k].end
    ensures Sorting(sp, recs, k, pos + 1, w, types, count, 0)
  {
    hide Same, Cut, Known;
  }

  /** After the last column of a key come those of the next key. */
  lemma NextKey(sp: Spec, recs: seq<Record>, k: nat, w: seq<Word>, types: seq<Flag>, count: seq<int>)
    requires k + 1 < |sp.keys| && Sorting(sp, recs, k, sp.keys[k].end, w, types, count, 0)
    ensures Sorting(sp, recs, k + 1, sp.keys[k + 1].start, w, types, count, 0)
  {
    forall j | 0 <= j < |w| - 1 && !w[j].flag
      ensures Same(sp, recs, k + 1, sp.keys[k + 1].start, w[j].rec, w[j + 1].rec)
    {
      assert Same(sp, recs, k, sp.keys[k].end, w[j].rec, w[j + 1].rec);
      hide Digit;
    }
    hide Cut, Known, Same;
  }

  // --- the result -------------------------------------------------------------------------------------------------

  /** No record comes before one that stands ahead of it. */
  ghost predicate InSequence(sp: Spec, recs: seq<Record>, w: seq<Word>)
    requires SpecOk(sp) && RecsOk(sp, recs)
  {
    forall i, j :: 0 <= i < j < |w| ==> Before(sp, recs, w[i].rec, w[j].rec)
  }

  /** Neighbours that are not separated by a flag are equal in the whole order. */
  ghost predicate GroupsEqual(sp: Spec, recs: seq<Record>, w: seq<Word>)
    requires SpecOk(sp) && RecsOk(sp, recs)
  {
    forall j :: 0 <= j < |w| - 1 && !w[j].flag ==> Before(sp, recs, w[j].rec, w[j + 1].rec) && Before(sp, recs, w[j + 1].rec, w[j].rec)
  }

  /** Every record once. */
  ghost predicate Permutation(w: seq<Word>, n: nat) {
    |w| == n && Distinct(Recs(w)) && forall j :: 0 <= j < |w| ==> w[j].rec < n
  }

  lemma {:induction false} Neighbours(sp: Spec, recs: seq<Record>, w: seq<Word>, i: nat, j: nat)
    requires SpecOk(sp) && RecsOk(sp, recs) && i < j < |w|
    requires forall x :: 0 <= x < |w| - 1 ==> Before(sp, recs, w[x].rec, w[x + 1].rec)
    ensures Before(sp, recs, w[i].rec, w[j].rec)
    decreases j
  {
    assert Before(sp, recs, w[j - 1].rec, w[j - 1 + 1].rec);
    if i < j - 1 {
      Neighbours(sp, recs, w, i, j - 1);
      LeIsTotalPreorder(sp, recs[w[i].rec], recs[w[j - 1].rec], recs[w[j].rec]);
    }
  }

  lemma AllAgree(sp: Spec, recs: seq<Record>, a: nat, b: nat)
    requires SpecOk(sp) && RecsOk(sp, recs) && Same(sp, recs, |sp.keys| - 1, sp.keys[|sp.keys| - 1].end, a, b)
    ensures Before(sp, recs, a, b) && Before(sp, recs, b, a)
  {
    var k := |sp.keys| - 1;
    AgreeCompare(sp, recs[a], recs[b], k, sp.keys[k].end);
    AgreeCompare(sp, recs[b], recs[a], k, sp.keys[k].end);
  }

  /** Splitting ends in order: after the last column, or when every group is a single record. */
  lemma EndsInSequence(sp: Spec, recs: seq<Record>, k: nat, pos: nat, w: seq<Word>, types: seq<Flag>, count: seq<int>)
    requires Sorting(sp, recs, k, pos, w, types, count, 0)
    requires AllFlagged(w, 0, |recs|) || (k == |sp.keys| - 1 && pos == sp.keys[k].end)
    ensures InSequence(sp, recs, w) && GroupsEqual(sp, recs, w)
  {
    forall j | 0 <= j < |w| - 1
      ensures Before(sp, recs, w[j].rec, w[j + 1].rec)
      ensures !w[j].flag ==> Before(sp, recs, w[j + 1].rec, w[j].rec)
    {
      if w[j].flag {
        assert Cut(sp, recs, w, j);
      } else {
        assert Same(sp, recs, k, pos, w[j].rec, w[j + 1].rec);
        AllAgree(sp, recs, w[j].rec, w[j + 1].rec);
        AllAgree(sp, recs, w[j + 1].rec, w[j].rec);
      }
    }
    forall i, j | 0 <= i < j < |w|
      ensures Before(sp, recs, w[i].rec, w[j].rec)
    {
      Neighbours(sp, recs, w, i, j);
    }
  }

  lemma Start(sp: Spec, recs: seq<Record>, w: seq<Word>, types: seq<Flag>, count: seq<int>)
    requires SpecOk(sp) && RecsOk(sp, recs) && |w| == |types| == |recs| > 0 && AllZero(count)
    requires InRecs(w, recs) && Distinct(Recs(w)) && NoneFlagged(w, 0, |w| - 1) && w[|w| - 1].flag
    ensures Sorting(sp, recs, 0, sp.keys[0].start, w, types, count, 0) && OneGroup(w, 0, |w| - 1)
  {
    forall j | 0 <= j < |w| - 1
      ensures Same(sp, recs, 0, sp.keys[0].start, w[j].rec, w[j + 1].rec) && !w[j].flag
    {
    }
  }

  lemma EndPermutation(sp: Spec, recs: seq<Record>, k: nat, pos: nat, w: seq<Word>, types: seq<Flag>, count: seq<int>, mid: nat)
    requires Sorting(sp, recs, k, pos, w, types, count, mid)
    ensures Permutation(w, |recs|) && AllZero(count) && SpecOk(sp) && RecsOk(sp, recs)
  {
  }

  /** process: sort the whole order array. The passes run over the columns of every key in turn and stop as soon
      as no two records are left in one group. */
  method Process(sp: Spec, recs: seq<Record>, order: array<Word>, types: array<Flag>, count: array<int>)
    requires SpecOk(sp) && RecsOk(sp, recs) && order.Length == types.Length == |recs| > 0
    requires count.Length == RANKS && AllZero(count[..])
    requires forall j :: 0 <= j < order.Length ==> order[j] == Word(j, false)
    modifies order, types, count
    ensures Permutation(order[..], |recs|)
    ensures InSequence(sp, recs, order[..]) && GroupsEqual(sp, recs, order[..])
    ensures AllZero(count[..])
  {
    var n := order.Length;
    order[n - 1] := order[n - 1].(flag := true);
    Start(sp, recs, order[..], types[..], count[..]);
    var key, keypos := 0, sp.keys[0].start;
    SortGroup(sp, recs, key, keypos, order, types, count, 0, n - 1);
    NextColumn(sp, recs, key, keypos, order[..], types[..], count[..]);
    keypos := keypos + 1;
    while true
      invariant Sorting(sp, recs, key, keypos, order[..], types[..], count[..], 0)
      decreases |sp.keys| - key
    {
      var done;
      keypos, done := ProcessKey(sp, recs, key, keypos, order, types, count);
      EndPermutation(sp, recs, key, keypos, order[..], types[..], count[..], 0);
      if done {
        EndsInSequence(sp, recs, key, keypos, order[..], types[..], count[..]);
        return;
      }
      key := key + 1;
      if key == |sp.keys| {
        EndsInSequence(sp, recs, key - 1, keypos, order[..], types[..], count[..]);
        return;
      }
      NextKey(sp, recs, key - 1, order[..], types[..], count[..]);
      keypos := sp.keys[key].start;
    }
  }

  /** The columns of one key. */
  method ProcessKey(sp: Spec, recs: seq<Record>, key: nat, keypos: nat, order: array<Word>, types: array<Flag>, count: array<int>)
    returns (pos: nat, done: bool)
    requires Sorting(sp, recs, key, keypos, order[..], types[..], count[..], 0)
    modifies order, types, count
    ensures Sorting(sp, recs, key, pos, order[..], types[..], count[..], 0)
    ensures if done then AllFlagged(order[..], 0, |recs|) else pos == sp.keys[key].end
  {
    pos := keypos;
    KeyFacts(sp, recs, key, pos, order[..], types[..], count[..]);
    hide Sorting, SpecOk, RecsOk, AllFlagged;
    while pos < sp.keys[key].end
      invariant Sorting(sp, recs, key, pos, order[..], types[..], count[..], 0)
      invariant key < |sp.keys| && sp.keys[key].start <= pos <= sp.keys[key].end
    {
      var flag := Pass(sp, recs, key, pos, order, types, count);
      NextColumn(sp, recs, key, pos, order[..], types[..], count[..]);
      if flag {
        return pos + 1, true;
      }
      pos := pos + 1;
    }
    done := false;
  }

  lemma KeyFacts(sp: Spec, recs: seq<Record>, k: nat, pos: nat, w: seq<Word>, types: seq<Flag>, count: seq<int>)
    requires Sorting(sp, recs, k, pos, w, types, count, 0)
    ensures k < |sp.keys| && sp.keys[k].start <= pos <= sp.keys[k].end
  {
  }
}

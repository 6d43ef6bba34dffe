/** The displacement address sort (sio.c, dispadrsort): one pass over a group of records that puts them in
    order of their rank at one column, moving each along a cycle to its final address. */
module SortDisplace {
  import opened Bytes
  import opened SortKey
  import opened Lists

  /** An entry of the order array: a record number, and the bit that marks the end of a group. */
  datatype Word = Word(rec: nat, flag: bool)

  const FLAGBIT := Word(0, true)
  const RANKS := UCHAR_MAX + 1

  predicate RanksOk(ranks: seq<int>) {
    forall r :: 0 <= r < |ranks| ==> 0 <= ranks[r] < RANKS
  }

  ghost function Recs(w: seq<Word>): (s: seq<nat>)
    ensures |s| == |w| && forall i :: 0 <= i < |w| ==> s[i] == w[i].rec
  {
    seq(|w|, i requires 0 <= i < |w| => w[i].rec)
  }

  ghost predicate Has(c: seq<nat>, lo: int, hi: int, rec: nat) {
    exists k :: 0 <= k < |c| && lo <= k <= hi && c[k] == rec
  }

  /** Only entries lo to hi have moved, among themselves. */
  ghost predicate Shuffled(c: seq<nat>, d: seq<nat>, lo: int, hi: int) {
    && |d| == |c|
    && (forall i :: 0 <= i < |c| && !(lo <= i <= hi) ==> d[i] == c[i])
    && (forall i :: 0 <= i < |c| && lo <= i <= hi ==> Has(c, lo, hi, d[i]))
  }

  ghost predicate Rearranged(w: seq<Word>, v: seq<Word>, lo: int, hi: int) {
    && |v| == |w|
    && (forall i :: 0 <= i < |w| && !(lo <= i <= hi) ==> v[i] == w[i])
    && Shuffled(Recs(w), Recs(v), lo, hi)
  }

  lemma ShuffledSelf(c: seq<nat>, lo: int, hi: int)
    ensures Shuffled(c, c, lo, hi)
  {
    forall i | 0 <= i < |c| && lo <= i <= hi
      ensures Has(c, lo, hi, c[i])
    {
    }
  }

  function Swap<T>(cur: seq<T>, i: nat, j: nat): (c: seq<T>)
    requires i < |cur| && j < |cur|
    ensures |c| == |cur|
  {
    cur[i := cur[j]][j := cur[i]]
  }

  lemma ShuffledSwap(c: seq<nat>, d: seq<nat>, lo: int, hi: int, i: nat, j: nat)
    requires Shuffled(c, d, lo, hi) && Distinct(d) && i < |d| && j < |d| && lo <= i <= hi && lo <= j <= hi
    ensures Shuffled(c, Swap(d, i, j), lo, hi) && Distinct(Swap(d, i, j))
  {
  }

  // --- counting ranks --------------------------------------------------------------------------------------

  predicate Names(cur: seq<nat>, ranks: seq<int>) {
    forall i :: 0 <= i < |cur| ==> cur[i] < |ranks|
  }

  /** How many of the entries lo to hi - 1 have rank b. */
  function Tally(cur: seq<nat>, ranks: seq<int>, lo: nat, hi: nat, b: int): (n: nat)
    requires lo <= hi <= |cur| && Names(cur, ranks)
    ensures n <= hi - lo
    decreases hi
  {
    if lo == hi then 0
    else Tally(cur, ranks, lo, hi - 1, b) + (if ranks[cur[hi - 1]] == b then 1 else 0)
  }

  /** How many of the entries lo to hi - 1 have a rank below b. */
  function Lower(cur: seq<nat>, ranks: seq<int>, lo: nat, hi: nat, b: int): (n: nat)
    requires lo <= hi <= |cur| && Names(cur, ranks)
    ensures n <= hi - lo
    decreases hi
  {
    if lo == hi then 0
    else Lower(cur, ranks, lo, hi - 1, b) + (if ranks[cur[hi - 1]] < b then 1 else 0)
  }

  lemma {:induction false} LowerStep(cur: seq<nat>, ranks: seq<int>, lo: nat, hi: nat, b: int)
    requires lo <= hi <= |cur| && Names(cur, ranks)
    ensures Lower(cur, ranks, lo, hi, b + 1) == Lower(cur, ranks, lo, hi, b) + Tally(cur, ranks, lo, hi, b)
    decreases hi
  {
    if lo < hi {
      LowerStep(cur, ranks, lo, hi - 1, b);
    }
  }

  lemma {:induction false} LowerEnds(cur: seq<nat>, ranks: seq<int>, lo: nat, hi: nat)
    requires lo <= hi <= |cur| && Names(cur, ranks) && RanksOk(ranks)
    ensures Lower(cur, ranks, lo, hi, 0) == 0 && Lower(cur, ranks, lo, hi, RANKS) == hi - lo
    decreases hi
  {
    if lo < hi {
      LowerEnds(cur, ranks, lo, hi - 1);
    }
  }

  lemma {:induction false} TallySplit(cur: seq<nat>, ranks: seq<int>, lo: nat, mid: nat, hi: nat, b: int)
    requires lo <= mid <= hi <= |cur| && Names(cur, ranks)
    ensures Tally(cur, ranks, lo, hi, b) == Tally(cur, ranks, lo, mid, b) + Tally(cur, ranks, mid, hi, b)
    decreases hi
  {
    if mid < hi {
      TallySplit(cur, ranks, lo, mid, hi - 1, b);
    }
  }

  /** A stretch of entries of rank b counts in full. */
  lemma {:induction false} TallyFull(cur: seq<nat>, ranks: seq<int>, lo: nat, hi: nat, b: int)
    requires lo <= hi <= |cur| && Names(cur, ranks)
    requires forall i :: lo <= i < hi ==> ranks[cur[i]] == b
    ensures Tally(cur, ranks, lo, hi, b) == hi - lo
    decreases hi
  {
    if lo < hi {
      TallyFull(cur, ranks, lo, hi - 1, b);
    }
  }

  /** A stretch of entries of rank b, and one more outside it. */
  lemma TallyMore(cur: seq<nat>, ranks: seq<int>, lo: nat, hi: nat, b: int, x: nat, y: nat, i: nat)
    requires lo <= x <= y <= hi <= |cur| && Names(cur, ranks) && lo <= i < hi && !(x <= i < y)
    requires ranks[cur[i]] == b && forall j :: x <= j < y ==> ranks[cur[j]] == b
    ensures Tally(cur, ranks, lo, hi, b) >= y - x + 1
  {
    TallySplit(cur, ranks, lo, x, hi, b);
    TallySplit(cur, ranks, x, y, hi, b);
    TallyFull(cur, ranks, x, y, b);
    if i < x {
      TallySplit(cur, ranks, lo, i, x, b);
      TallySplit(cur, ranks, i, i + 1, x, b);
      TallyFull(cur, ranks, i, i + 1, b);
    } else {
      TallySplit(cur, ranks, y, i, hi, b);
      TallySplit(cur, ranks, i, i + 1, hi, b);
      TallyFull(cur, ranks, i, i + 1, b);
    }
  }

  /** Replacing one entry. */
  lemma {:induction false} TallyUpdate(cur: seq<nat>, ranks: seq<int>, lo: nat, hi: nat, b: int, i: nat, x: nat)
    requires lo <= hi <= |cur| && Names(cur, ranks) && x < |ranks| && i < |cur|
    ensures Tally(cur[i := x], ranks, lo, hi, b) == Tally(cur, ranks, lo, hi, b)
            + (if lo <= i < hi then (if ranks[x] == b then 1 else 0) - (if ranks[cur[i]] == b then 1 else 0) else 0)
    decreases hi
  {
    if lo < hi {
      TallyUpdate(cur, ranks, lo, hi - 1, b, i, x);
    }
  }

  lemma TallySwap(cur: seq<nat>, ranks: seq<int>, lo: nat, hi: nat, b: int, i: nat, j: nat)
    requires lo <= hi <= |cur| && Names(cur, ranks) && lo <= i < hi && lo <= j < hi
    ensures Names(Swap(cur, i, j), ranks)
    ensures Tally(Swap(cur, i, j), ranks, lo, hi, b) == Tally(cur, ranks, lo, hi, b)
  {
    TallyUpdate(cur, ranks, lo, hi, b, i, cur[j]);
    TallyUpdate(cur[i := cur[j]], ranks, lo, hi, b, j, cur[i]);
  }

  // --- buckets ---------------------------------------------------------------------------------------------

  /** The bounds of the buckets of a group: bucket b takes addresses s[b] to s[b + 1] - 1. */
  ghost predicate Bounds(s: seq<int>, lo: int, hi: int) {
    && |s| == RANKS + 1 && s[0] == lo && s[RANKS] == hi + 1
    && forall b, c :: 0 <= b <= c <= RANKS ==> s[b] <= s[c]
  }

  /** The number of addresses in bucket b. */
  ghost function Width(s: seq<int>, b: int): int
    requires |s| == RANKS + 1 && 0 <= b < RANKS
  {
    s[b + 1] - s[b]
  }

  lemma WidthIs(s: seq<int>, b: int)
    requires |s| == RANKS + 1 && 0 <= b < RANKS
    ensures Width(s, b) == s[b + 1] - s[b]
  {
  }

  /** The bounds hold as many addresses as there are records of each rank. */
  ghost predicate Fitted(s: seq<int>, cur: seq<nat>, ranks: seq<int>, lo: nat, hi: nat)
    requires lo <= hi < |cur| && Names(cur, ranks)
  {
    Bounds(s, lo, hi) && forall b :: 0 <= b < RANKS ==> Tally(cur, ranks, lo, hi + 1, b) == Width(s, b)
  }

  ghost predicate InBucket(s: seq<int>, b: int, j: int)
    requires |s| == RANKS + 1
  {
    0 <= b < RANKS && s[b] <= j < s[b + 1]
  }

  /** The bucket that address j lies in, looking down from bucket b. */
  ghost function Bucket(s: seq<int>, j: int, b: nat): (r: int)
    requires |s| == RANKS + 1 && b < RANKS && s[0] <= j < s[b + 1]
    ensures InBucket(s, r, j)
  {
    if s[b] <= j then b else Bucket(s, j, b - 1)
  }

  /** The bucket of every address of a group. */
  ghost function Buckets(s: seq<int>, lo: nat, hi: nat, n: nat): (bk: seq<int>)
    requires Bounds(s, lo, hi) && lo <= hi < n
    ensures |bk| == n && forall j :: lo <= j <= hi ==> InBucket(s, bk[j], j)
  {
    seq(n, j => if lo <= j <= hi then Bucket(s, j, RANKS - 1) else 0)
  }

  lemma BoundsAt(s: seq<int>, lo: int, hi: int, b: int)
    requires Bounds(s, lo, hi) && 0 <= b < RANKS
    ensures lo <= s[b] <= s[b + 1] <= hi + 1
  {
    assert s[0] <= s[b] && s[b + 1] <= s[RANKS];
  }

  lemma OneBucket(s: seq<int>, lo: int, hi: int, j: int, b: int, c: int)
    requires Bounds(s, lo, hi) && InBucket(s, b, j) && InBucket(s, c, j)
    ensures b == c && lo <= j <= hi
  {
    assert s[0] <= s[b] && s[b + 1] <= s[RANKS];
  }

  // --- the sort ------------------------------------------------------------------------------------------------

  predicate RecsOk(sp: Spec, recs: seq<Record>) {
    forall r :: 0 <= r < |recs| ==> |recs[r]| == sp.len
  }

  /** The ranks of all records at a column, given what is known of their numbers. */
  ghost function RanksOf(sp: Spec, recs: seq<Record>, k: nat, pos: nat, types: seq<Flag>): (ranks: seq<int>)
    requires SpecOk(sp) && RecsOk(sp, recs) && Column(sp, k, pos) && |types| == |recs|
    ensures |ranks| == |recs| && RanksOk(ranks)
    ensures forall r :: 0 <= r < |recs| ==> ranks[r] == Rank(sp, recs[r], k, pos, types[r])
  {
    seq(|recs|, r requires 0 <= r < |recs| => Rank(sp, recs[r], k, pos, types[r]))
  }

  /** The rank of one record. */
  method RankAt(sp: Spec, recs: seq<Record>, k: nat, pos: nat, types: array<Flag>, r: nat, ghost ranks: seq<int>) returns (d: int)
    requires SpecOk(sp) && RecsOk(sp, recs) && Column(sp, k, pos) && types.Length == |recs|
    requires ranks == RanksOf(sp, recs, k, pos, types[..]) && r < |ranks|
    ensures d == ranks[r] && 0 <= d < RANKS
  {
    d := Rank(sp, recs[r], k, pos, types[r]);
  }

  ghost predicate Counted(ct: seq<int>, cur: seq<nat>, ranks: seq<int>, lo: nat, hi: nat) {
    && |ct| == RANKS && lo <= hi < |cur| && Names(cur, ranks)
    && forall b :: 0 <= b < RANKS ==> ct[b] == Tally(cur, ranks, lo, hi + 1, b)
  }

  ghost predicate AllZero(ct: seq<int>) {
    |ct| == RANKS && forall b :: 0 <= b < RANKS ==> ct[b] == 0
  }

  /** Count the ranks of a group; the rank of its last record is returned. */
  method CountRanks(sp: Spec, recs: seq<Record>, k: nat, pos: nat, order: array<Word>, types: array<Flag>,
                    count: array<int>, ilo: nat, ihi: nat, ghost ranks: seq<int>) returns (i2: int)
    requires SpecOk(sp) && RecsOk(sp, recs) && Column(sp, k, pos) && types.Length == |recs|
    requires ranks == RanksOf(sp, recs, k, pos, types[..])
    requires ilo <= ihi < order.Length && Names(Recs(order[..]), ranks)
    requires AllZero(count[..])
    modifies count
    ensures Counted(count[..], Recs(order[..]), ranks, ilo, ihi)
    ensures 0 <= i2 < RANKS && i2 == ranks[order[ihi].rec]
  {
    ghost var cur := Recs(order[..]);
    var i1 := ilo;
    i2 := 0;
    while i1 <= ihi
      invariant ilo <= i1 <= ihi + 1
      invariant forall b :: 0 <= b < RANKS ==> count[b] == Tally(cur, ranks, ilo, i1, b)
      invariant i1 > ilo ==> 0 <= i2 < RANKS && i2 == ranks[cur[i1 - 1]]
    {
      assert order[i1].rec == cur[i1];
      i2 := RankAt(sp, recs, k, pos, types, order[i1].rec, ranks);
      count[i2] := count[i2] + 1;
      i1 := i1 + 1;
    }
  }

  /** The bounds of the buckets of a group. */
  ghost function BoundsOf(cur: seq<nat>, ranks: seq<int>, lo: nat, hi: nat): (s: seq<int>)
    requires lo <= hi < |cur| && Names(cur, ranks)
  {
    seq(RANKS + 1, b => lo + Lower(cur, ranks, lo, hi + 1, b))
  }

  lemma {:induction false} LowerMono(cur: seq<nat>, ranks: seq<int>, lo: nat, hi: nat, b: int, c: int)
    requires lo <= hi <= |cur| && Names(cur, ranks) && b <= c
    ensures Lower(cur, ranks, lo, hi, b) <= Lower(cur, ranks, lo, hi, c)
    decreases hi
  {
    if lo < hi {
      LowerMono(cur, ranks, lo, hi - 1, b, c);
    }
  }

  lemma BoundsFit(cur: seq<nat>, ranks: seq<int>, lo: nat, hi: nat)
    requires lo <= hi < |cur| && Names(cur, ranks) && RanksOk(ranks)
    ensures Fitted(BoundsOf(cur, ranks, lo, hi), cur, ranks, lo, hi)
  {
    var s := BoundsOf(cur, ranks, lo, hi);
    LowerEnds(cur, ranks, lo, hi + 1);
    forall b, c | 0 <= b <= c <= RANKS
      ensures s[b] <= s[c]
    {
      LowerMono(cur, ranks, lo, hi + 1, b, c);
    }
    forall b | 0 <= b < RANKS
      ensures Tally(cur, ranks, lo, hi + 1, b) == Width(s, b)
    {
      LowerStep(cur, ranks, lo, hi + 1, b);
    }
  }

  /** The buckets below n that hold something, in order. */
  ghost function Occupied(s: seq<int>, n: nat): (zs: seq<int>)
    requires |s| == RANKS + 1 && n <= RANKS
    ensures forall b :: b in zs <==> 0 <= b < n && Width(s, b) > 0
  {
    if n == 0 then [] else Occupied(s, n - 1) + (if Width(s, n - 1) > 0 then [n - 1] else [])
  }

  ghost predicate StartCounters(ct: seq<int>, s: seq<int>) {
    |ct| == RANKS && |s| == RANKS + 1 && forall b :: 0 <= b < RANKS ==> ct[b] == if Width(s, b) > 0 then s[b] else 0
  }

  ghost predicate Widths(ct: seq<int>, s: seq<int>) {
    |ct| == RANKS && |s| == RANKS + 1 && forall b :: 0 <= b < RANKS ==> ct[b] == Width(s, b) >= 0
  }

  lemma CountedWidths(ct: seq<int>, cur: seq<nat>, ranks: seq<int>, lo: nat, hi: nat)
    requires Counted(ct, cur, ranks, lo, hi) && RanksOk(ranks)
    ensures var s := BoundsOf(cur, ranks, lo, hi);
            Widths(ct, s) && s[0] == lo && Fitted(s, cur, ranks, lo, hi)
  {
    var s := BoundsOf(cur, ranks, lo, hi);
    BoundsFit(cur, ranks, lo, hi);
    forall b | 0 <= b < RANKS
      ensures ct[b] == Width(s, b) >= 0
    {
      BoundsAt(s, lo, hi, b);
      assert Tally(cur, ranks, lo, hi + 1, b) == Width(s, b);
    }
  }

  /** The counters below i have become addresses. */
  ghost predicate Turned(ct: seq<int>, s: seq<int>, i: int) {
    && |ct| == RANKS && |s| == RANKS + 1 && 0 <= i <= RANKS
    && (forall b :: 0 <= b < i ==> ct[b] == if Width(s, b) > 0 then s[b] else 0)
    && (forall b :: i <= b < RANKS ==> ct[b] == Width(s, b) >= 0)
  }

  lemma TurnStep(ct: seq<int>, s: seq<int>, i: int)
    requires Turned(ct, s, i) && i < RANKS
    ensures ct[i] == Width(s, i) == s[i + 1] - s[i] && ct[i] >= 0
    ensures ct[i] != 0 ==> Turned(ct[i := s[i]], s, i + 1)
    ensures ct[i] == 0 ==> Turned(ct, s, i + 1)
  {
    WidthIs(s, i);
    hide Width;
  }

  /** Turn the counts into first addresses; zloc lists the ranks that occur. */
  method Addresses(count: array<int>, ilo: nat, ghost s: seq<int>) returns (zloc: seq<int>)
    requires count.Length == RANKS && Widths(count[..], s) && s[0] == ilo
    modifies count
    ensures StartCounters(count[..], s) && zloc == Occupied(s, RANKS)
  {
    ghost var ct := count[..];
    assert Turned(ct, s, 0);
    hide Width, Turned, Widths, Occupied;
    var address, i1 := ilo, 0;
    zloc := [];
    NoneOccupied(s);
    while i1 < RANKS
      invariant 0 <= i1 <= RANKS && address == s[i1] && count[..] == ct
      invariant Turned(ct, s, i1) && zloc == Occupied(s, i1)
    {
      TurnStep(ct, s, i1);
      OneOccupied(s, i1);
      if count[i1] != 0 {
        var number := count[i1];
        ct := ct[i1 := address];
        count[i1] := address;
        assert count[..] == ct;
        address := address + number;
        zloc := zloc + [i1];
      }
      i1 := i1 + 1;
    }
    AllTurned(ct, s);
  }

  lemma NoneOccupied(s: seq<int>)
    requires |s| == RANKS + 1
    ensures Occupied(s, 0) == []
  {
  }

  lemma OneOccupied(s: seq<int>, n: nat)
    requires |s| == RANKS + 1 && n < RANKS
    ensures Occupied(s, n + 1) == Occupied(s, n) + (if Width(s, n) > 0 then [n] else [])
  {
  }

  lemma AllTurned(ct: seq<int>, s: seq<int>)
    requires Turned(ct, s, RANKS)
    ensures StartCounters(ct, s)
  {
  }

  // --- moving along cycles -----------------------------------------------------------------------------------

  ghost predicate Between(s: seq<int>, ct: seq<int>, b: int)
    requires |s| == RANKS + 1 && |ct| == RANKS && 0 <= b < RANKS
  {
    if Width(s, b) > 0 then s[b] <= ct[b] <= s[b + 1] else ct[b] == 0
  }

  /** Halfway through: ct[b] is the next address of bucket b; the addresses before it hold records of rank b
      and are flagged, those from it on are not. The entry at `hole` has been taken out. */
  ghost predicate Filling(w: seq<Word>, cur: seq<nat>, ct: seq<int>, s: seq<int>, bk: seq<int>, ranks: seq<int>,
                          lo: nat, hi: nat, hole: int)
  {
    && lo <= hi < |cur| && |w| == |cur| == |bk| && |ct| == RANKS && Names(cur, ranks) && Bounds(s, lo, hi)
    && (forall j :: 0 <= j < |w| && j != hole ==> w[j].rec == cur[j])
    && (forall j :: lo <= j <= hi ==> InBucket(s, bk[j], j))
    && (forall j :: lo <= j <= hi && j != hole ==> (w[j].flag <==> j < ct[bk[j]]))
    && (forall j :: lo <= j <= hi && j != hole && w[j].flag ==> ranks[cur[j]] == bk[j])
    && (forall b :: 0 <= b < RANKS ==> Between(s, ct, b))
    && (lo <= hole <= hi ==> w[hole] == FLAGBIT && ct[bk[hole]] <= hole)
  }

  /** A bucket that is full holds only records of its rank, and not the hole. */
  lemma FullBucket(w: seq<Word>, cur: seq<nat>, ct: seq<int>, s: seq<int>, bk: seq<int>, ranks: seq<int>,
                   lo: nat, hi: nat, hole: int, b: int)
    requires Filling(w, cur, ct, s, bk, ranks, lo, hi, hole) && lo <= hole <= hi
    requires 0 <= b < RANKS && ct[b] == s[b + 1]
    ensures lo <= s[b] <= s[b + 1] <= hi + 1
    ensures forall j :: s[b] <= j < s[b + 1] ==> j != hole && ranks[cur[j]] == b
  {
    BoundsAt(s, lo, hi, b);
    forall j | s[b] <= j < s[b + 1]
      ensures j != hole && ranks[cur[j]] == b
    {
      OneBucket(s, lo, hi, j, b, bk[j]);
    }
  }

  /** The record taken out of the hole has a free address in its bucket. */
  lemma RoomLeft(w: seq<Word>, cur: seq<nat>, ct: seq<int>, s: seq<int>, bk: seq<int>, ranks: seq<int>, lo: nat, hi: nat, hole: int)
    requires Filling(w, cur, ct, s, bk, ranks, lo, hi, hole) && lo <= hole <= hi
    requires Fitted(s, cur, ranks, lo, hi) && RanksOk(ranks)
    ensures var b := ranks[cur[hole]];
            && s[b] <= ct[b] < s[b + 1] && lo <= ct[b] <= hi && bk[ct[b]] == b
            && (ct[b] != hole ==> !w[ct[b]].flag)
  {
    var b := ranks[cur[hole]];
    BoundsAt(s, lo, hi, b);
    assert Tally(cur, ranks, lo, hi + 1, b) == Width(s, b);
    TallyMore(cur, ranks, lo, hi + 1, b, lo, lo, hole);
    assert Between(s, ct, b);
    if ct[b] == s[b + 1] {
      FullBucket(w, cur, ct, s, bk, ranks, lo, hi, hole, b);
      TallyMore(cur, ranks, lo, hi + 1, b, s[b], s[b + 1], hole);
      assert false;
    }
    OneBucket(s, lo, hi, ct[b], b, bk[ct[b]]);
  }

  /** Filling, with the entries a rearrangement of c0 that fits the buckets. */
  ghost predicate State(w: seq<Word>, cur: seq<nat>, ct: seq<int>, s: seq<int>, bk: seq<int>, ranks: seq<int>,
                        lo: nat, hi: nat, hole: int, c0: seq<nat>)
  {
    && Filling(w, cur, ct, s, bk, ranks, lo, hi, hole)
    && RanksOk(ranks) && Fitted(s, cur, ranks, lo, hi) && Distinct(cur) && Shuffled(c0, cur, lo, hi)
  }

  lemma TakeOut(w: seq<Word>, cur: seq<nat>, ct: seq<int>, s: seq<int>, bk: seq<int>, ranks: seq<int>,
                lo: nat, hi: nat, i: nat, c0: seq<nat>)
    requires State(w, cur, ct, s, bk, ranks, lo, hi, -1, c0) && lo <= i <= hi && !w[i].flag
    ensures State(w[i := FLAGBIT], cur, ct, s, bk, ranks, lo, hi, i, c0)
    ensures w[i].rec == cur[i]
  {
    hide Fitted, Shuffled, Distinct;
  }

  /** Filling after the record from the hole has been put at the next address a of its bucket. */
  lemma PutFills(w: seq<Word>, cur: seq<nat>, ct: seq<int>, s: seq<int>, bk: seq<int>, ranks: seq<int>,
                 lo: nat, hi: nat, hole: int)
    requires Filling(w, cur, ct, s, bk, ranks, lo, hi, hole) && lo <= hole <= hi && RanksOk(ranks)
    requires var b := ranks[cur[hole]];
             s[b] <= ct[b] < s[b + 1] && lo <= ct[b] <= hi && bk[ct[b]] == b
    ensures var b := ranks[cur[hole]];
            var a := ct[b];
            Filling(w[a := Word(cur[hole], true)], Swap(cur, hole, a), ct[b := a + 1], s, bk, ranks, lo, hi, if a == hole then -1 else hole)
  {
    var b := ranks[cur[hole]];
    var a := ct[b];
    var ct', cur' := ct[b := a + 1], Swap(cur, hole, a);
    assert Names(cur', ranks);
    forall c | 0 <= c < RANKS
      ensures Between(s, ct', c)
    {
      assert Between(s, ct, c);
    }
    hide Width, Bounds;
  }

  lemma FittedSwap(s: seq<int>, cur: seq<nat>, ranks: seq<int>, lo: nat, hi: nat, i: nat, j: nat)
    requires lo <= hi < |cur| && Names(cur, ranks) && Fitted(s, cur, ranks, lo, hi) && lo <= i <= hi && lo <= j <= hi
    ensures Names(Swap(cur, i, j), ranks) && Fitted(s, Swap(cur, i, j), ranks, lo, hi)
  {
    forall b | 0 <= b < RANKS
      ensures Tally(Swap(cur, i, j), ranks, lo, hi + 1, b) == Width(s, b)
    {
      TallySwap(cur, ranks, lo, hi + 1, b, i, j);
      assert Tally(cur, ranks, lo, hi + 1, b) == Width(s, b);
    }
    TallySwap(cur, ranks, lo, hi + 1, 0, i, j);
  }

  /** One step of a cycle. */
  lemma PutStep(w: seq<Word>, cur: seq<nat>, ct: seq<int>, s: seq<int>, bk: seq<int>, ranks: seq<int>,
                lo: nat, hi: nat, hole: int, c0: seq<nat>)
    requires State(w, cur, ct, s, bk, ranks, lo, hi, hole, c0) && lo <= hole <= hi
    ensures var b := ranks[cur[hole]];
            var a := ct[b];
            && cur[hole] < |ranks| && lo <= a <= hi
            && State(w[a := Word(cur[hole], true)], Swap(cur, hole, a), ct[b := a + 1], s, bk, ranks, lo, hi, if a == hole then -1 else hole, c0)
            && (a == hole ==> w[a] == FLAGBIT)
            && (a != hole ==> !w[a].flag && w[a].rec == Swap(cur, hole, a)[hole])
  {
    RoomLeft(w, cur, ct, s, bk, ranks, lo, hi, hole);
    PutFills(w, cur, ct, s, bk, ranks, lo, hi, hole);
    var a := ct[ranks[cur[hole]]];
    FittedSwap(s, cur, ranks, lo, hi, hole, a);
    ShuffledSwap(c0, cur, lo, hi, hole, a);
    hide Fitted, Distinct, Shuffled, Width, Bounds;
  }

  /** The entries of a group that have not reached their address. */
  ghost function Waiting(w: seq<Word>, lo: nat, hi: nat): set<nat>
    requires hi < |w|
  {
    set j | lo <= j <= hi && !w[j].flag
  }

  lemma FewerWaiting(w: seq<Word>, lo: nat, hi: nat, a: nat, x: Word)
    requires lo <= a <= hi < |w| && x.flag
    ensures w[a].flag ==> Waiting(w[a := x], lo, hi) == Waiting(w, lo, hi)
    ensures !w[a].flag ==> Waiting(w[a := x], lo, hi) < Waiting(w, lo, hi)
  {
    if !w[a].flag {
      assert a in Waiting(w, lo, hi) && a !in Waiting(w[a := x], lo, hi);
    }
  }

  /** Nothing outside the group has changed, and what was flagged is flagged. */
  ghost predicate Kept(w: seq<Word>, v: seq<Word>, lo: nat, hi: nat) {
    && |v| == |w|
    && (forall j :: 0 <= j < |w| && !(lo <= j <= hi) ==> v[j] == w[j])
    && (forall j :: 0 <= j < |w| && lo <= j <= hi && w[j].flag ==> v[j].flag)
  }

  lemma KeptPut(w: seq<Word>, v: seq<Word>, lo: nat, hi: nat, a: nat, x: Word)
    requires Kept(w, v, lo, hi) && lo <= a <= hi < |w| && x.flag
    ensures Kept(w, v[a := x], lo, hi)
  {
  }

  /** Put a record at the next address of its rank and take up the entry found there. */
  method PutNext(order: array<Word>, count: array<int>, location: int, rec: nat) returns (temp: Word)
    requires 0 <= location < count.Length && 0 <= count[location] < order.Length
    modifies order, count
    ensures temp == old(order[..])[old(count[location])]
    ensures order[..] == old(order[..])[old(count[location]) := Word(rec, true)]
    ensures count[..] == old(count[..])[location := old(count[location]) + 1]
  {
    var address := count[location];
    count[location] := count[location] + 1;
    temp := order[address];
    order[address] := Word(rec, true);
  }

  /** Follow one cycle from entry i1: each record goes to the next address of its bucket, and the record
      found there is taken up in turn, until the entry taken out first is reached. */
  method FollowCycle(sp: Spec, recs: seq<Record>, k: nat, pos: nat, order: array<Word>, types: array<Flag>,
                     count: array<int>, ilo: nat, ihi: nat, i1: nat, ghost c0: seq<nat>,
                     ghost s: seq<int>, ghost bk: seq<int>, ghost ranks: seq<int>)
    requires SpecOk(sp) && RecsOk(sp, recs) && Column(sp, k, pos) && types.Length == |recs|
    requires ranks == RanksOf(sp, recs, k, pos, types[..]) && ilo <= i1 <= ihi < order.Length && count.Length == RANKS
    requires State(order[..], Recs(order[..]), count[..], s, bk, ranks, ilo, ihi, -1, c0) && !order[i1].flag
    modifies order, count
    ensures State(order[..], Recs(order[..]), count[..], s, bk, ranks, ilo, ihi, -1, c0)
    ensures Kept(old(order[..]), order[..], ilo, ihi) && order[i1].flag
  {
    ghost var w, cur, ct, hole := order[..], Recs(order[..]), count[..], i1 as int;
    ghost var w0 := w;
    KeptPut(w0, w, ilo, ihi, i1, FLAGBIT);
    TakeOut(w, cur, ct, s, bk, ranks, ilo, ihi, i1, c0);
    assert FLAGBIT.flag && |w| == |cur|;
    hide *;
    var pointer := order[i1];
    order[i1] := FLAGBIT;
    w := w[i1 := FLAGBIT];
    while !pointer.flag
      invariant order[..] == w && count[..] == ct && |w| == |cur| == order.Length && |ct| == RANKS
      invariant State(w, cur, ct, s, bk, ranks, ilo, ihi, hole, c0)
      invariant w[i1].flag && if pointer.flag then hole == -1 else hole == i1 && pointer.rec == cur[i1]
      invariant Kept(w0, w, ilo, ihi)
      decreases Waiting(w, ilo, ihi), if pointer.flag then 0 else 1
    {
      PutStep(w, cur, ct, s, bk, ranks, ilo, ihi, i1, c0);
      var location := RankAt(sp, recs, k, pos, types, pointer.rec, ranks);
      ghost var address := ct[location];
      FewerWaiting(w, ilo, ihi, address, Word(pointer.rec, true));
      KeptPut(w0, w, ilo, ihi, address, Word(pointer.rec, true));
      w, ct := w[address := Word(pointer.rec, true)], ct[location := address + 1];
      pointer := PutNext(order, count, location, pointer.rec);
      cur := Swap(cur, i1, address);
      hole := if address == i1 then -1 else i1;
    }
    NoHole(w, cur, ct, s, bk, ranks, ilo, ihi, c0);
  }

  lemma NoHole(w: seq<Word>, cur: seq<nat>, ct: seq<int>, s: seq<int>, bk: seq<int>, ranks: seq<int>,
               lo: nat, hi: nat, c0: seq<nat>)
    requires State(w, cur, ct, s, bk, ranks, lo, hi, -1, c0)
    ensures cur == Recs(w)
  {
    hide Fitted, Distinct, Shuffled;
  }

  ghost predicate AllFlagged(w: seq<Word>, lo: nat, hi: nat) {
    forall j :: 0 <= j < |w| && lo <= j < hi ==> w[j].flag
  }

  lemma KeptTwice(u: seq<Word>, v: seq<Word>, w: seq<Word>, lo: nat, hi: nat, i: nat)
    requires Kept(u, v, lo, hi) && Kept(v, w, lo, hi) && AllFlagged(v, lo, i) && i <= hi < |v| && w[i].flag
    ensures Kept(u, w, lo, hi) && AllFlagged(w, lo, i + 1)
  {
  }

  /** Move every record of a group to its address. */
  method Distribute(sp: Spec, recs: seq<Record>, k: nat, pos: nat, order: array<Word>, types: array<Flag>,
                    count: array<int>, ilo: nat, ihi: nat,
                    ghost s: seq<int>, ghost bk: seq<int>, ghost ranks: seq<int>)
    requires SpecOk(sp) && RecsOk(sp, recs) && Column(sp, k, pos) && types.Length == |recs|
    requires ranks == RanksOf(sp, recs, k, pos, types[..]) && ilo <= ihi < order.Length && count.Length == RANKS
    requires State(order[..], Recs(order[..]), count[..], s, bk, ranks, ilo, ihi, -1, Recs(order[..]))
    modifies order, count
    ensures State(order[..], Recs(order[..]), count[..], s, bk, ranks, ilo, ihi, -1, Recs(old(order[..])))
    ensures AllFlagged(order[..], ilo, ihi + 1) && Kept(old(order[..]), order[..], ilo, ihi)
  {
    ghost var w0 := order[..];
    ghost var c0 := Recs(w0);
    assert Kept(w0, w0, ilo, ihi) && AllFlagged(w0, ilo, ilo);
    hide State, Recs, RecsOk, RanksOf, Kept;
    var i1 := ilo;
    while i1 <= ihi
      invariant ilo <= i1 <= ihi + 1
      invariant State(order[..], Recs(order[..]), count[..], s, bk, ranks, ilo, ihi, -1, c0)
      invariant AllFlagged(order[..], ilo, i1) && Kept(w0, order[..], ilo, ihi)
    {
      ghost var v := order[..];
      if !order[i1].flag {
        FollowCycle(sp, recs, k, pos, order, types, count, ilo, ihi, i1, c0, s, bk, ranks);
        KeptTwice(w0, v, order[..], ilo, ihi, i1);
      }
      i1 := i1 + 1;
    }
  }

  // --- the ends of the new groups --------------------------------------------------------------------------------

  /** Address j is the last of bucket b. */
  ghost predicate LastOf(s: seq<int>, b: int, j: int) {
    |s| == RANKS + 1 && 0 <= b < RANKS && Width(s, b) > 0 && j == s[b + 1] - 1
  }

  /** Address j is the last of one of these buckets. */
  ghost predicate Ends(s: seq<int>, zs: seq<int>, j: int) {
    exists b :: b in zs && LastOf(s, b, j)
  }

  ghost predicate EndsFlagged(w: seq<Word>, lo: nat, hi: nat, s: seq<int>, zs: seq<int>) {
    forall j :: 0 <= j < |w| && lo <= j <= hi ==> (w[j].flag <==> Ends(s, zs, j))
  }

  /** The counters of the buckets zs hold the end of the bucket, and all others 0. */
  ghost predicate CountersLeft(ct: seq<int>, s: seq<int>, zs: seq<int>)
  {
    && |s| == RANKS + 1 && |ct| == RANKS
    && (forall b :: 0 <= b < RANKS && b in zs ==> ct[b] == s[b + 1])
    && (forall b :: 0 <= b < RANKS && b !in zs ==> ct[b] == 0)
  }

  lemma OccupiedRises(s: seq<int>, n: nat)
    requires |s| == RANKS + 1 && n <= RANKS
    ensures forall y, z :: 0 <= y < z < |Occupied(s, n)| ==> Occupied(s, n)[y] < Occupied(s, n)[z]
  {
    if n > 0 {
      OccupiedRises(s, n - 1);
      var zs := Occupied(s, n - 1);
      assert forall z :: 0 <= z < |zs| ==> zs[z] in zs;
    }
  }

  ghost predicate SameButFlags(w: seq<Word>, v: seq<Word>, lo: nat, hi: nat) {
    && |v| == |w|
    && (forall j :: 0 <= j < |w| && !(lo <= j <= hi) ==> v[j] == w[j])
    && (forall j :: 0 <= j < |w| ==> v[j].rec == w[j].rec)
  }

  /** Clear the flags of a group. */
  method ClearFlags(order: array<Word>, ilo: nat, ihi: nat)
    requires ilo <= ihi < order.Length
    modifies order
    ensures SameButFlags(old(order[..]), order[..], ilo, ihi) && NoneFlagged(order[..], ilo, ihi + 1)
  {
    var i1 := ilo;
    while i1 <= ihi
      invariant ilo <= i1 <= ihi + 1
      invariant SameButFlags(old(order[..]), order[..], ilo, ihi)
      invariant NoneFlagged(order[..], ilo, i1)
    {
      order[i1] := order[i1].(flag := false);
      i1 := i1 + 1;
    }
  }

  lemma MarkStep(w: seq<Word>, ct: seq<int>, lo: nat, hi: nat, s: seq<int>, done: seq<int>, left: seq<int>)
    requires Bounds(s, lo, hi) && lo <= hi < |w| && left != [] && CountersLeft(ct, s, left) && EndsFlagged(w, lo, hi, s, done)
    requires 0 <= left[0] < RANKS && Width(s, left[0]) > 0 && left[0] !in left[1..]
    ensures var a := ct[left[0]] - 1;
            && lo <= a <= hi
            && CountersLeft(ct[left[0] := 0], s, left[1..]) && ct[left[0]] == a + 1
            && EndsFlagged(w[a := w[a].(flag := true)], lo, hi, s, done + [left[0]])
  {
    var b := left[0];
    assert b in left;
    BoundsAt(s, lo, hi, b);
    WidthIs(s, b);
    var a := ct[b] - 1;
    forall c | 0 <= c < RANKS
      ensures c in left[1..] <==> c in left && c != b
    {
      assert left == [b] + left[1..];
    }
    var v := w[a := w[a].(flag := true)];
    assert LastOf(s, b, a);
    forall j | 0 <= j < |w| && lo <= j <= hi
      ensures v[j].flag <==> Ends(s, done + [b], j)
    {
      if Ends(s, done, j) {
        var c :| c in done && LastOf(s, c, j);
        assert c in done + [b];
      }
      assert b in done + [b];
      assert Ends(s, done + [b], j) ==> Ends(s, done, j) || j == a;
    }
  }

  lemma FlagStep(w: seq<Word>, v: seq<Word>, lo: nat, hi: nat, a: nat)
    requires SameButFlags(w, v, lo, hi) && lo <= a <= hi < |w|
    ensures SameButFlags(w, v[a := v[a].(flag := true)], lo, hi)
  {
  }

  /** What MarkStep asks of a list of buckets, for the bucket at position i. */
  lemma InList(zs: seq<int>, s: seq<int>, i: nat)
    requires |s| == RANKS + 1 && zs == Occupied(s, RANKS) && i < |zs|
    ensures 0 <= zs[i] < RANKS && Width(s, zs[i]) > 0 && zs[i] !in zs[i + 1..]
    ensures zs[i..][0] == zs[i] && zs[i..][1..] == zs[i + 1..] && zs[..i] + [zs[i]] == zs[..i + 1]
  {
    OccupiedRises(s, RANKS);
    assert zs[i] in zs;
  }

  /** Flag the last address of every bucket that holds something. */
  method MarkEnds(order: array<Word>, count: array<int>, zloc: seq<int>, ilo: nat, ihi: nat, ghost s: seq<int>)
    requires ilo <= ihi < order.Length && count.Length == RANKS && Bounds(s, ilo, ihi)
    requires zloc == Occupied(s, RANKS) && CountersLeft(count[..], s, zloc)
    requires NoneFlagged(order[..], ilo, ihi + 1)
    modifies order, count
    ensures AllZero(count[..])
    ensures SameButFlags(old(order[..]), order[..], ilo, ihi)
    ensures EndsFlagged(order[..], ilo, ihi, s, zloc)
  {
    ghost var w, ct := order[..], count[..];
    ghost var w0 := w;
    assert zloc[..0] == [] && zloc[0..] == zloc && EndsFlagged(w, ilo, ihi, s, []) && |s| == RANKS + 1;
    assert SameButFlags(w0, w, ilo, ihi) && CountersLeft(ct, s, zloc);
    var i1 := 0;
    while i1 < |zloc|
      invariant 0 <= i1 <= |zloc| && order[..] == w && count[..] == ct
      invariant CountersLeft(ct, s, zloc[i1..])
      invariant SameButFlags(w0, w, ilo, ihi)
      invariant EndsFlagged(w, ilo, ihi, s, zloc[..i1])
    {
      hide EndsFlagged, Occupied, Bounds, SameButFlags, CountersLeft, Width;
      var i2 := zloc[i1];
      InList(zloc, s, i1);
      MarkStep(w, ct, ilo, ihi, s, zloc[..i1], zloc[i1..]);
      i1 := i1 + 1;
      var address := count[i2] - 1;
      FlagStep(w0, w, ilo, ihi, address);
      count[i2] := 0;
      ct := ct[i2 := 0];
      assert count[..] == ct && order[..] == w;
      order[address] := order[address].(flag := true);
      w := w[address := w[address].(flag := true)];
      assert count[..] == ct && order[..] == w;
    }
    assert zloc[..i1] == zloc;
  }

  // --- dispadrsort ---------------------------------------------------------------------------------------------------

  function KindOf(sp: Spec, recs: seq<Record>, k: nat, r: nat): Flag
    requires SpecOk(sp) && RecsOk(sp, recs) && k < |sp.keys| && r < |recs|
  {
    NumInfo(Field(sp, recs[r], k))
  }

  /** The kinds of number of the records of a group are known. */
  ghost predicate Known(sp: Spec, recs: seq<Record>, k: nat, types: seq<Flag>, w: seq<Word>, lo: nat, hi: int)
    requires SpecOk(sp) && RecsOk(sp, recs) && k < |sp.keys|
  {
    forall j :: 0 <= j < |w| && lo <= j <= hi && w[j].rec < |recs| == |types| ==> types[w[j].rec] == KindOf(sp, recs, k, w[j].rec)
  }

  /** Nothing has been learnt but kinds of numbers. */
  ghost predicate Learnt(sp: Spec, recs: seq<Record>, k: nat, old_t: seq<Flag>, new_t: seq<Flag>)
    requires SpecOk(sp) && RecsOk(sp, recs) && k < |sp.keys|
  {
    && |new_t| == |old_t|
    && forall r :: 0 <= r < |old_t| && r < |recs| ==> new_t[r] == old_t[r] || new_t[r] == KindOf(sp, recs, k, r)
  }

  ghost predicate InRecs(w: seq<Word>, recs: seq<Record>) {
    forall j :: 0 <= j < |w| ==> w[j].rec < |recs|
  }

  /** Find out what kinds of numbers a group holds. */
  method Classify(sp: Spec, recs: seq<Record>, k: nat, order: array<Word>, types: array<Flag>, ilo: nat, ihi: nat)
    requires SpecOk(sp) && RecsOk(sp, recs) && k < |sp.keys| && types.Length == |recs|
    requires ilo <= ihi < order.Length && InRecs(order[..], recs)
    modifies types
    ensures Known(sp, recs, k, types[..], order[..], ilo, ihi)
    ensures Learnt(sp, recs, k, old(types[..]), types[..])
  {
    hide NumInfo;
    var i1 := ilo;
    while i1 <= ihi
      invariant ilo <= i1 <= ihi + 1
      invariant Known(sp, recs, k, types[..], order[..], ilo, i1 - 1)
      invariant Learnt(sp, recs, k, old(types[..]), types[..])
    {
      types[order[i1].rec] := ScanNumber(recs[order[i1].rec], sp.keys[k]);
      i1 := i1 + 1;
    }
  }

  /** The rank of the record that an entry names. */
  ghost function DigitOf(sp: Spec, recs: seq<Record>, k: nat, pos: nat, r: nat): (d: int)
    requires SpecOk(sp) && RecsOk(sp, recs) && Column(sp, k, pos)
    ensures 0 <= d < RANKS
  {
    if r < |recs| then Digit(sp, recs[r], k, pos) else 0
  }

  /** A group is in order of its ranks at a column, and split where they differ. */
  ghost predicate Split(sp: Spec, recs: seq<Record>, k: nat, pos: nat, w: seq<Word>, lo: nat, hi: nat)
    requires SpecOk(sp) && RecsOk(sp, recs) && Column(sp, k, pos) && hi < |w|
  {
    && w[hi].flag
    && (forall i, j :: lo <= i <= j <= hi ==> DigitOf(sp, recs, k, pos, w[i].rec) <= DigitOf(sp, recs, k, pos, w[j].rec))
    && (forall j :: lo <= j < hi ==> (w[j].flag <==> DigitOf(sp, recs, k, pos, w[j].rec) != DigitOf(sp, recs, k, pos, w[j + 1].rec)))
  }

  ghost predicate NoneFlagged(w: seq<Word>, lo: nat, hi: nat) {
    forall j :: 0 <= j < |w| && lo <= j < hi ==> !w[j].flag
  }

  /** The ranks used are those of the order on records. */
  ghost predicate RanksTrue(sp: Spec, recs: seq<Record>, k: nat, pos: nat, w: seq<Word>, ranks: seq<int>, lo: nat, hi: nat)
    requires SpecOk(sp) && RecsOk(sp, recs) && Column(sp, k, pos)
  {
    forall j :: 0 <= j < |w| && lo <= j <= hi ==> w[j].rec < |ranks| && ranks[w[j].rec] == DigitOf(sp, recs, k, pos, w[j].rec)
  }

  /** When every address is filled the counters stand at the ends of the buckets. */
  lemma AllFilled(w: seq<Word>, cur: seq<nat>, ct: seq<int>, s: seq<int>, bk: seq<int>, ranks: seq<int>, lo: nat, hi: nat, b: int)
    requires Filling(w, cur, ct, s, bk, ranks, lo, hi, -1) && AllFlagged(w, lo, hi + 1)
    requires 0 <= b < RANKS && Width(s, b) > 0
    ensures ct[b] == s[b + 1]
  {
    BoundsAt(s, lo, hi, b);
    WidthIs(s, b);
    var j := s[b + 1] - 1;
    OneBucket(s, lo, hi, j, b, bk[j]);
    assert w[j].flag;
    assert Between(s, ct, b);
  }

  /** The buckets of two addresses are in the order of the addresses; a bucket ends where the next address
      lies in another. */
  lemma BucketOrder(s: seq<int>, lo: int, hi: int, i: int, j: int, b: int, c: int)
    requires Bounds(s, lo, hi) && InBucket(s, b, i) && InBucket(s, c, j) && i <= j
    ensures b <= c && (j == i + 1 ==> (b != c <==> LastOf(s, b, i)))
  {
    BoundsAt(s, lo, hi, b);
    BoundsAt(s, lo, hi, c);
    WidthIs(s, b);
    if b < c {
      assert s[b + 1] <= s[c];
    }
  }

  /** The group after the last step: in order, and split at the ends of the buckets. */
  lemma SplitByBuckets(sp: Spec, recs: seq<Record>, k: nat, pos: nat, u: seq<Word>, ct: seq<int>, w: seq<Word>,
                       s: seq<int>, bk: seq<int>, ranks: seq<int>, zs: seq<int>, lo: nat, hi: nat)
    requires SpecOk(sp) && RecsOk(sp, recs) && Column(sp, k, pos) && InRecs(u, recs) && |ranks| == |recs|
    requires RanksTrue(sp, recs, k, pos, u, ranks, lo, hi)
    requires Filling(u, Recs(u), ct, s, bk, ranks, lo, hi, -1) && AllFlagged(u, lo, hi + 1)
    requires SameButFlags(u, w, lo, hi) && EndsFlagged(w, lo, hi, s, zs) && zs == Occupied(s, RANKS)
    ensures Split(sp, recs, k, pos, w, lo, hi)
  {
    hide Digit, RecsOk, SpecOk, Column;
    forall j | lo <= j <= hi
      ensures DigitOf(sp, recs, k, pos, w[j].rec) == bk[j] && InBucket(s, bk[j], j)
      ensures w[j].flag <==> LastOf(s, bk[j], j)
    {
      assert u[j].flag;
      assert Ends(s, zs, j) ==> LastOf(s, bk[j], j) by {
        if Ends(s, zs, j) {
          var b :| b in zs && LastOf(s, b, j);
          BoundsAt(s, lo, hi, b);
          WidthIs(s, b);
          OneBucket(s, lo, hi, j, b, bk[j]);
        }
      }
      if LastOf(s, bk[j], j) {
        assert bk[j] in zs;
      }
    }
    BoundsAt(s, lo, hi, bk[hi]);
    WidthIs(s, bk[hi]);
    assert hi < |w|;
    hide DigitOf, EndsFlagged, Filling;
    forall i, j | lo <= i <= j <= hi
      ensures DigitOf(sp, recs, k, pos, w[i].rec) <= DigitOf(sp, recs, k, pos, w[j].rec)
      ensures j == i + 1 ==> (w[i].flag <==> DigitOf(sp, recs, k, pos, w[i].rec) != DigitOf(sp, recs, k, pos, w[j].rec))
    {
      BucketOrder(s, lo, hi, i, j, bk[i], bk[j]);
    }
  }

  /** Turn the counts of a group into addresses and move the records there. */
  method MoveAll(sp: Spec, recs: seq<Record>, k: nat, pos: nat, order: array<Word>, types: array<Flag>,
                 count: array<int>, ilo: nat, ihi: nat, ghost ranks: seq<int>)
    returns (zloc: seq<int>, ghost s: seq<int>, ghost bk: seq<int>)
    requires SpecOk(sp) && RecsOk(sp, recs) && Column(sp, k, pos) && types.Length == |recs|
    requires ranks == RanksOf(sp, recs, k, pos, types[..]) && ilo <= ihi < order.Length && count.Length == RANKS
    requires InRecs(order[..], recs) && Distinct(Recs(order[..])) && NoneFlagged(order[..], ilo, ihi + 1)
    requires Counted(count[..], Recs(order[..]), ranks, ilo, ihi)
    modifies order, count
    ensures State(order[..], Recs(order[..]), count[..], s, bk, ranks, ilo, ihi, -1, Recs(old(order[..])))
    ensures AllFlagged(order[..], ilo, ihi + 1) && Kept(old(order[..]), order[..], ilo, ihi)
    ensures |s| == RANKS + 1 && zloc == Occupied(s, RANKS)
  {
    ghost var w0 := order[..];
    ghost var c0 := Recs(w0);
    CountedWidths(count[..], c0, ranks, ilo, ihi);
    s := BoundsOf(c0, ranks, ilo, ihi);
    bk := Buckets(s, ilo, ihi, |w0|);
    hide *;
    zloc := Addresses(count, ilo, s);
    StartState(w0, count[..], s, bk, ranks, ilo, ihi);
    Distribute(sp, recs, k, pos, order, types, count, ilo, ihi, s, bk, ranks);
  }

  /** A group whose counts are known: move the records, and mark the groups they form. */
  method Displace(sp: Spec, recs: seq<Record>, k: nat, pos: nat, order: array<Word>, types: array<Flag>,
                  count: array<int>, ilo: nat, ihi: nat, ghost ranks: seq<int>)
    requires SpecOk(sp) && RecsOk(sp, recs) && Column(sp, k, pos) && types.Length == |recs|
    requires ranks == RanksOf(sp, recs, k, pos, types[..]) && ilo <= ihi < order.Length && count.Length == RANKS
    requires InRecs(order[..], recs) && Distinct(Recs(order[..]))
    requires NoneFlagged(order[..], ilo, ihi + 1) && RanksTrue(sp, recs, k, pos, order[..], ranks, ilo, ihi)
    requires Counted(count[..], Recs(order[..]), ranks, ilo, ihi)
    modifies order, count
    ensures Rearranged(old(order[..]), order[..], ilo, ihi) && Distinct(Recs(order[..]))
    ensures Split(sp, recs, k, pos, order[..], ilo, ihi)
    ensures AllZero(count[..])
  {
    ghost var w0 := order[..];
    assert |ranks| == |recs|;
    hide *;
    ghost var s, bk;
    var zloc;
    zloc, s, bk := MoveAll(sp, recs, k, pos, order, types, count, ilo, ihi, ranks);
    ghost var u, ct := order[..], count[..];
    StateFilling(u, Recs(u), ct, s, bk, ranks, ilo, ihi, -1, Recs(w0));
    FullCounters(u, ct, s, bk, ranks, ilo, ihi, zloc);
    ClearFlags(order, ilo, ihi);
    ghost var v := order[..];
    MarkEnds(order, count, zloc, ilo, ihi, s);
    SameTwice(u, v, order[..], ilo, ihi);
    Finish(sp, recs, k, pos, w0, u, ct, order[..], s, bk, ranks, zloc, ilo, ihi);
  }

  lemma SameTwice(u: seq<Word>, v: seq<Word>, w: seq<Word>, lo: nat, hi: nat)
    requires SameButFlags(u, v, lo, hi) && SameButFlags(v, w, lo, hi)
    ensures SameButFlags(u, w, lo, hi)
  {
  }

  /** What the steps of Displace amount to: w are the entries at first, u after the moves, v at the end. */
  lemma Finish(sp: Spec, recs: seq<Record>, k: nat, pos: nat, w: seq<Word>, u: seq<Word>, ct: seq<int>, v: seq<Word>,
               s: seq<int>, bk: seq<int>, ranks: seq<int>, zs: seq<int>, lo: nat, hi: nat)
    requires SpecOk(sp) && RecsOk(sp, recs) && Column(sp, k, pos) && InRecs(w, recs) && |ranks| == |recs|
    requires lo <= hi < |w| && RanksTrue(sp, recs, k, pos, w, ranks, lo, hi)
    requires State(u, Recs(u), ct, s, bk, ranks, lo, hi, -1, Recs(w)) && AllFlagged(u, lo, hi + 1) && Kept(w, u, lo, hi)
    requires SameButFlags(u, v, lo, hi) && EndsFlagged(v, lo, hi, s, zs) && zs == Occupied(s, RANKS)
    ensures Rearranged(w, v, lo, hi) && Distinct(Recs(v)) && Split(sp, recs, k, pos, v, lo, hi)
  {
    assert Recs(v) == Recs(u);
    forall j | lo <= j <= hi
      ensures u[j].rec < |recs| && ranks[u[j].rec] == DigitOf(sp, recs, k, pos, u[j].rec)
    {
      assert Has(Recs(w), lo, hi, Recs(u)[j]);
    }
    hide DigitOf, EndsFlagged, Occupied, Filling, Fitted;
    SplitByBuckets(sp, recs, k, pos, u, ct, v, s, bk, ranks, zs, lo, hi);
  }

  lemma StateFilling(w: seq<Word>, cur: seq<nat>, ct: seq<int>, s: seq<int>, bk: seq<int>, ranks: seq<int>,
                     lo: nat, hi: nat, hole: int, c0: seq<nat>)
    requires State(w, cur, ct, s, bk, ranks, lo, hi, hole, c0)
    ensures Filling(w, cur, ct, s, bk, ranks, lo, hi, hole) && Bounds(s, lo, hi)
  {
  }

  lemma StartState(w: seq<Word>, ct: seq<int>, s: seq<int>, bk: seq<int>, ranks: seq<int>, lo: nat, hi: nat)
    requires lo <= hi < |w| && |ct| == RANKS && RanksOk(ranks) && Names(Recs(w), ranks) && Distinct(Recs(w))
    requires Fitted(s, Recs(w), ranks, lo, hi) && bk == Buckets(s, lo, hi, |w|)
    requires StartCounters(ct, s) && NoneFlagged(w, lo, hi + 1)
    ensures State(w, Recs(w), ct, s, bk, ranks, lo, hi, -1, Recs(w))
  {
    ShuffledSelf(Recs(w), lo, hi);
    forall b | 0 <= b < RANKS
      ensures Between(s, ct, b)
    {
      WidthIs(s, b);
    }
    forall j | lo <= j <= hi
      ensures j >= ct[bk[j]]
    {
      assert InBucket(s, bk[j], j);
      WidthIs(s, bk[j]);
    }
    hide Width, Bounds, Tally;
  }

  lemma FullCounters(w: seq<Word>, ct: seq<int>, s: seq<int>, bk: seq<int>, ranks: seq<int>, lo: nat, hi: nat, zs: seq<int>)
    requires Filling(w, Recs(w), ct, s, bk, ranks, lo, hi, -1) && AllFlagged(w, lo, hi + 1)
    requires |s| == RANKS + 1 && zs == Occupied(s, RANKS)
    ensures CountersLeft(ct, s, zs)
  {
    forall b | 0 <= b < RANKS
      ensures b in zs ==> ct[b] == s[b + 1]
      ensures b !in zs ==> ct[b] == 0
    {
      assert Between(s, ct, b);
      if Width(s, b) > 0 {
        AllFilled(w, Recs(w), ct, s, bk, ranks, lo, hi, b);
      }
    }
  }
}

/** Putting the sorted records in place (sio.c, writeout): the buffer is rearranged along the cycles of the order
    array with one spare record. */
module SortWrite {
  import opened SortKey
  import opened SortDisplace
  import opened SortGroups
  import opened Lists

  // --- permutations --------------------------------------------------------------------------------------

  ghost predicate Below(c: seq<nat>, m: nat) {
    forall i :: 0 <= i < |c| ==> c[i] < m
  }

  /** Different numbers below m are at most m. */
  lemma {:induction false} Pigeonhole(c: seq<nat>, m: nat)
    requires Distinct(c) && Below(c, m)
    ensures |c| <= m
    decreases m
  {
    assert c == [] || c[0] < m;
    if m > 0 {
      if p :| 0 <= p < |c| && c[p] == m - 1 {
        var d := c[..p] + c[p + 1..];
        assert forall i :: 0 <= i < |d| ==> d[i] == c[if i < p then i else i + 1];
        Pigeonhole(d, m - 1);
      } else {
        Pigeonhole(c, m - 1);
      }
    }
  }

  ghost function Select(c: seq<nat>, recs: seq<Record>): (s: seq<Record>)
    requires Below(c, |recs|)
    ensures |s| == |c| && forall i :: 0 <= i < |c| ==> s[i] == recs[c[i]]
  {
    seq(|c|, i requires 0 <= i < |c| => recs[c[i]])
  }

  lemma SwapSame(s: seq<Record>, i: nat, j: nat)
    requires i < |s| && j < |s|
    ensures multiset(Swap(s, i, j)) == multiset(s)
  {
  }

  /** Some position holds the greatest of n different numbers below n. */
  lemma GreatestAt(c: seq<nat>) returns (p: nat)
    requires Distinct(c) && Below(c, |c|) && c != []
    ensures p < |c| && c[p] == |c| - 1
  {
    if forall i :: 0 <= i < |c| ==> c[i] != |c| - 1 {
      Pigeonhole(c, |c| - 1);
      assert false;
    }
    p :| 0 <= p < |c| && c[p] == |c| - 1;
  }

  lemma GreatestLast(c: seq<nat>, p: nat)
    requires Distinct(c) && Below(c, |c|) && p < |c| && c[p] == |c| - 1
    ensures var d := Swap(c, p, |c| - 1)[..|c| - 1];
            Distinct(d) && Below(d, |c| - 1)
  {
    var d := Swap(c, p, |c| - 1)[..|c| - 1];
    assert forall i :: 0 <= i < |d| ==> d[i] == c[if i == p then |c| - 1 else i];
  }

  lemma SelectNone(c: seq<nat>, recs: seq<Record>)
    requires c == [] && recs == []
    ensures multiset(Select(c, recs)) == multiset(recs)
  {
    assert Select(c, recs) == recs;
  }

  lemma LastOff(s: seq<Record>)
    requires s != []
    ensures multiset(s) == multiset(s[..|s| - 1]) + multiset{s[|s| - 1]}
  {
    assert s == s[..|s| - 1] + [s[|s| - 1]];
  }

  lemma SwapFront(c: seq<nat>, recs: seq<Record>, p: nat)
    requires Distinct(c) && Below(c, |recs|) && |c| == |recs| > 0 && p < |c| && c[p] == |c| - 1
    ensures var n, s, d := |c|, Select(c, recs), Swap(c, p, |c| - 1)[..|c| - 1];
            && Below(d, n - 1) && |Swap(s, p, n - 1)| == n && Swap(s, p, n - 1)[n - 1] == recs[n - 1]
            && Swap(s, p, n - 1)[..n - 1] == Select(d, recs[..n - 1])
  {
    GreatestLast(c, p);
    var n, s, d, front := |c|, Select(c, recs), Swap(c, p, |c| - 1)[..|c| - 1], recs[..|c| - 1];
    hide Distinct, Select;
    forall i | 0 <= i < n - 1
      ensures Swap(s, p, n - 1)[i] == Select(d, front)[i]
    {
      assert d[i] == if i == p then c[n - 1] else c[i];
    }
  }

  /** Moving the greatest index to the end leaves a smaller selection d of the records before it. */
  lemma SwapSelect(c: seq<nat>, recs: seq<Record>, p: nat, d: seq<nat>, front: seq<Record>)
    requires Distinct(c) && Below(c, |recs|) && |c| == |recs| > 0 && p < |c| && c[p] == |c| - 1
    requires d == Swap(c, p, |c| - 1)[..|c| - 1] && front == recs[..|c| - 1]
    ensures Below(d, |front|)
    ensures multiset(Select(c, recs)) == multiset(Select(d, front)) + multiset{recs[|c| - 1]}
  {
    SwapFront(c, recs, p);
    var t := Swap(Select(c, recs), p, |c| - 1);
    SwapSame(Select(c, recs), p, |c| - 1);
    LastOff(t);
    assert t[..|c| - 1] == Select(d, front);
    hide Distinct, Select, Swap, Below;
  }

  lemma {:induction false} SelectAll(c: seq<nat>, recs: seq<Record>)
    requires Distinct(c) && Below(c, |recs|) && |c| == |recs|
    ensures multiset(Select(c, recs)) == multiset(recs)
    decreases |c|
  {
    var n := |c|;
    if n == 0 {
      SelectNone(c, recs);
    } else {
      var p := GreatestAt(c);
      GreatestLast(c, p);
      var d, front := Swap(c, p, n - 1)[..n - 1], recs[..n - 1];
      SwapSelect(c, recs, p, d, front);
      LastOff(recs);
      SelectAll(d, front);
      hide Select, Swap, Distinct, Below;
    }
  }

  /** The records in the order that the entries give. */
  ghost function Applied(w: seq<Word>, recs: seq<Record>): (s: seq<Record>)
    requires Permutation(w, |recs|)
    ensures |s| == |recs| && forall i :: 0 <= i < |w| ==> s[i] == recs[w[i].rec]
  {
    Select(Recs(w), recs)
  }

  /** The records in sorted order are the records. */
  lemma AppliedSame(w: seq<Word>, recs: seq<Record>)
    requires Permutation(w, |recs|)
    ensures multiset(Applied(w, recs)) == multiset(recs)
  {
    SelectAll(Recs(w), recs);
  }

  // --- cycles -------------------------------------------------------------------------------------------------

  /** Between two cycles: an entry that names itself has its record, and every other is as it was. */
  ghost predicate Placed(w0: seq<Word>, b0: seq<Record>, w: seq<Word>, b: seq<Record>)
  {
    && Permutation(w0, |w0|) && |w| == |w0| && |b| == |b0| > |w0|
    && Permutation(w, |w|)
    && (forall x :: 0 <= x < |w| && w[x].rec != x ==> w[x].rec == w0[x].rec && b[x] == b0[x])
    && (forall x :: 0 <= x < |w| && w[x].rec == x ==> b[x] == b0[w0[x].rec])
  }

  /** On the cycle of entry cnt: entry `last` still waits for the record at `next`, and the spare record is that of
      cnt. With cnt linked to `next` the entries are a permutation. */
  ghost predicate Cycling(w0: seq<Word>, b0: seq<Record>, w: seq<Word>, b: seq<Record>, cnt: nat, last: nat, next: nat)
  {
    && Permutation(w0, |w0|) && |w| == |w0| && |b| == |b0| > |w0|
    && cnt < |w| && last < |w| && next < |w| && next == w0[last].rec && w[cnt].rec == cnt && w[last].rec == last
    && Permutation(w[cnt := Word(next, false)], |w|)
    && (forall x :: 0 <= x < |w| && w[x].rec != x ==> w[x].rec == w0[x].rec && b[x] == b0[x])
    && (forall x :: 0 <= x < |w| && w[x].rec == x && x != last ==> b[x] == b0[w0[x].rec])
    && b[|w|] == b0[cnt]
  }

  lemma CycleBegin(w0: seq<Word>, b0: seq<Record>, w: seq<Word>, b: seq<Record>, cnt: nat)
    requires Placed(w0, b0, w, b) && cnt < |w| && w[cnt].rec != cnt
    ensures Cycling(w0, b0, w[cnt := Word(cnt, false)], b[|w| := b[cnt]], cnt, cnt, w[cnt].rec)
  {
    var v := w[cnt := Word(cnt, false)][cnt := Word(w[cnt].rec, false)];
    assert Recs(v) == Recs(w);
    hide Distinct;
  }

  lemma PermutationSwap(w: seq<Word>, v: seq<Word>, i: nat, j: nat)
    requires Permutation(w, |w|) && i < |w| && j < |w| && |v| == |w|
    requires v[i].rec == w[j].rec && v[j].rec == w[i].rec && forall x :: 0 <= x < |w| && x != i && x != j ==> v[x].rec == w[x].rec
    ensures Permutation(v, |v|)
  {
    assert forall x :: 0 <= x < |w| ==> Recs(v)[x] == v[x].rec && Recs(w)[x] == w[x].rec;
  }

  lemma NextUnfixed(w0: seq<Word>, b0: seq<Record>, w: seq<Word>, b: seq<Record>, cnt: nat, last: nat, next: nat)
    requires Cycling(w0, b0, w, b, cnt, last, next) && next != cnt
    ensures w[next].rec != next
  {
    var v := w[cnt := Word(next, false)];
    assert Recs(v)[cnt] == next && Recs(v)[next] == w[next].rec;
  }

  lemma CycleStep(w0: seq<Word>, b0: seq<Record>, w: seq<Word>, b: seq<Record>, cnt: nat, last: nat, next: nat)
    requires Cycling(w0, b0, w, b, cnt, last, next) && next != cnt
    ensures Cycling(w0, b0, w[next := Word(next, false)], b[last := b[next]], cnt, next, w[next].rec)
  {
    NextUnfixed(w0, b0, w, b, cnt, last, next);
    PermutationSwap(w[cnt := Word(next, false)], w[next := Word(next, false)][cnt := Word(w[next].rec, false)], cnt, next);
    assert w[cnt := Word(next, false)][next].rec == w[next].rec;
    hide Distinct, Permutation;
  }

  lemma CycleEnd(w0: seq<Word>, b0: seq<Record>, w: seq<Word>, b: seq<Record>, cnt: nat, last: nat)
    requires Cycling(w0, b0, w, b, cnt, last, cnt)
    ensures Placed(w0, b0, w, b[last := b[|w|]])
  {
    assert Recs(w[cnt := Word(cnt, false)]) == Recs(w);
    hide Distinct;
  }

  ghost function Unplaced(w: seq<Word>): set<nat> {
    set x | 0 <= x < |w| && w[x].rec != x
  }

  lemma FewerUnplaced(w: seq<Word>, x: nat)
    requires x < |w| && w[x].rec != x
    ensures Unplaced(w[x := Word(x, false)]) < Unplaced(w)
  {
    assert x in Unplaced(w) && x !in Unplaced(w[x := Word(x, false)]);
  }

  /** Follow the cycle of entry cnt: its record is saved, each record on the cycle moves down one place, and the
      saved record closes the cycle. */
  method FollowLinks(buffer: array<Record>, order: array<Word>, cnt: nat, ghost w0: seq<Word>, ghost b0: seq<Record>)
    requires Placed(w0, b0, order[..], buffer[..]) && cnt < order.Length && order[cnt].rec != cnt
    modifies buffer, order
    ensures Placed(w0, b0, order[..], buffer[..]) && order[cnt].rec == cnt
    ensures forall x :: 0 <= x < order.Length && old(order[x].rec) == x ==> order[x].rec == x
  {
    ghost var w, b := order[..], buffer[..];
    var saveptr := order.Length;
    CycleBegin(w0, b0, w, b, cnt);
    var ptr1, wrkcnt := cnt, order[cnt].rec;
    buffer[saveptr] := buffer[cnt];
    order[cnt] := Word(cnt, false);
    w, b := w[cnt := Word(cnt, false)], b[|w| := b[cnt]];
    assert order[..] == w && buffer[..] == b;
    while wrkcnt != cnt
      invariant order[..] == w && buffer[..] == b
      invariant Cycling(w0, b0, w, b, cnt, ptr1, wrkcnt)
      invariant forall x :: 0 <= x < order.Length && old(order[x].rec) == x ==> w[x].rec == x
      decreases Unplaced(w)
    {
      NextUnfixed(w0, b0, w, b, cnt, ptr1, wrkcnt);
      CycleStep(w0, b0, w, b, cnt, ptr1, wrkcnt);
      FewerUnplaced(w, wrkcnt);
      hide Permutation, Unplaced;
      var ptr2, tmpcnt := ptr1, order[wrkcnt].rec;
      ptr1 := wrkcnt;
      buffer[ptr2] := buffer[ptr1];
      order[wrkcnt] := Word(wrkcnt, false);
      w, b := w[wrkcnt := Word(wrkcnt, false)], b[ptr2 := b[wrkcnt]];
      assert order[..] == w && buffer[..] == b;
      wrkcnt := tmpcnt;
    }
    CycleEnd(w0, b0, w, b, cnt, ptr1);
    buffer[ptr1] := buffer[saveptr];
    assert buffer[..] == b[ptr1 := b[|w|]];
  }

  /** The rearranging part of writeout: the buffer ends in the order that the entries gave, and they in their own. */
  method Rearrange(buffer: array<Record>, order: array<Word>)
    requires buffer.Length > order.Length && Permutation(order[..], order.Length)
    modifies buffer, order
    ensures buffer[..order.Length] == Applied(old(order[..]), old(buffer[..order.Length]))
    ensures forall x :: 0 <= x < order.Length ==> order[x].rec == x
  {
    ghost var w0, b0 := order[..], buffer[..];
    var cnt := 0;
    assert Placed(w0, b0, w0, b0) && b0[..|w0|] == buffer[..order.Length];
    hide Placed, Permutation, Applied;
    while cnt < order.Length
      invariant 0 <= cnt <= order.Length
      invariant Placed(w0, b0, order[..], buffer[..])
      invariant forall x :: 0 <= x < cnt ==> order[x].rec == x
    {
      if order[cnt].rec != cnt {
        FollowLinks(buffer, order, cnt, w0, b0);
      }
      cnt := cnt + 1;
    }
    AllPlaced(w0, b0, order[..], buffer[..]);
    assert buffer[..order.Length] == buffer[..][..order.Length];
  }

  lemma AllPlaced(w0: seq<Word>, b0: seq<Record>, w: seq<Word>, b: seq<Record>)
    requires Placed(w0, b0, w, b) && forall x :: 0 <= x < |w| ==> w[x].rec == x
    ensures |b0| >= |w0| && b[..|w0|] == Applied(w0, b0[..|w0|])
  {
  }
}

/** What order a list of sort keys gives (sio.c), said on the bytes of the fields. */
module SortMeaning {
  import opened Bytes
  import opened SortKey

  // --- numeric fields ---------------------------------------------------------------------------------------------------------

  /** So many blanks, then digits and decimal points only, of which there is one at least. */
  predicate Unsigned(f: seq<byte>, n: nat) {
    n < |f| && (forall i :: 0 <= i < n ==> f[i] == 32) && forall i :: n <= i < |f| ==> 48 <= f[i] <= 57 || f[i] == 46
  }

  /** So many blanks, a sign, then digits and decimal points only, of which there is one at least. */
  predicate WithSign(f: seq<byte>, n: nat, sign: byte) {
    && n + 1 < |f| && (forall i :: 0 <= i < n ==> f[i] == 32) && f[n] == sign
    && forall i :: n + 1 <= i < |f| ==> 48 <= f[i] <= 57 || f[i] == 46
  }

  lemma LeadIs(f: seq<byte>, n: nat)
    requires n <= |f| && (forall i :: 0 <= i < n ==> f[i] == 32) && (n < |f| ==> f[n] != 32)
    ensures Lead(f) == n
  {
  }

  /** A field is empty when it is blank, negative when a minus sign comes before its digits, a number that is not negative with a plus sign
      or none, and otherwise no number. */
  lemma NumberMeans(f: seq<byte>)
    ensures NumInfo(f) == 0x01 <==> forall i :: 0 <= i < |f| ==> f[i] == 32
    ensures NumInfo(f) == 0x20 <==> exists n: nat :: WithSign(f, n, 45)
    ensures NumInfo(f) == 0 <==> (exists n: nat :: WithSign(f, n, 43)) || exists n: nat :: Unsigned(f, n)
    ensures NumInfo(f) in {0x01, 0x20, 0, 0x15}
  {
    var m := Lead(f);
    if n: nat :| WithSign(f, n, 45) {
      LeadIs(f, n);
    }
    if n: nat :| WithSign(f, n, 43) {
      LeadIs(f, n);
    }
    if n: nat :| Unsigned(f, n) {
      LeadIs(f, n);
    }
    if NumInfo(f) == 0x20 {
      assert WithSign(f, m, 45);
    }
    if NumInfo(f) == 0 {
      assert WithSign(f, m, 43) || Unsigned(f, m);
    }
    if m < |f| {
      assert f[m] != 32;
    }
  }

  // --- what is compared -------------------------------------------------------------------------------------------------------

  /** What counts in one column of a field: a digit by its value, up from 11 or, in a negative number, down from it; in a field that is
      no number always the same; a character by its place in the collating sequence, if there is one and the key is not positional; and
      any other by its code. */
  function Value(sp: Spec, rec: Record, k: nat, i: nat): int
    requires SpecOk(sp) && |rec| == sp.len && k < |sp.keys| && sp.keys[k].start <= i < sp.keys[k].end
  {
    var c := rec[i];
    if sp.keys[k].numeric then
      var flag := NumInfo(rec[sp.keys[k].start..sp.keys[k].end]);
      if flag == 0x01 then 1
      else if flag == 0x15 then 21
      else if c < 48 || c > 57 then 11
      else if flag == 0x20 then 11 - (c as int - 48)
      else 11 + (c as int - 48)
    else if sp.collate && !sp.keys[k].position then sp.priority[c]
    else c
  }

  predicate InKey(sp: Spec, k: nat, i: nat) {
    k < |sp.keys| && sp.keys[k].start <= i < sp.keys[k].end
  }

  predicate SameIn(sp: Spec, a: Record, b: Record, k: nat, i: nat)
    requires SpecOk(sp) && |a| == |b| == sp.len && InKey(sp, k, i)
  {
    Value(sp, a, k, i) == Value(sp, b, k, i)
  }

  /** Two records do not differ in key k before column i. */
  predicate SameTo(sp: Spec, a: Record, b: Record, k: nat, i: nat)
    requires SpecOk(sp) && |a| == |b| == sp.len && k < |sp.keys| && i <= sp.keys[k].end
  {
    forall j :: sp.keys[k].start <= j < i ==> SameIn(sp, a, b, k, j)
  }

  predicate Tie(sp: Spec, a: Record, b: Record, k: nat)
    requires SpecOk(sp) && |a| == |b| == sp.len && k < |sp.keys|
  {
    SameTo(sp, a, b, k, sp.keys[k].end)
  }

  /** Key k puts a before b: in the first column where they differ a has less, or more if the key is descending. */
  ghost predicate First(sp: Spec, a: Record, b: Record, k: nat)
    requires SpecOk(sp) && |a| == |b| == sp.len && k < |sp.keys|
  {
    exists i: nat :: InKey(sp, k, i) && SameTo(sp, a, b, k, i) && LessIn(sp, a, b, k, i)
  }

  predicate LessIn(sp: Spec, a: Record, b: Record, k: nat, i: nat)
    requires SpecOk(sp) && |a| == |b| == sp.len && InKey(sp, k, i)
  {
    if sp.keys[k].descend then Value(sp, a, k, i) > Value(sp, b, k, i) else Value(sp, a, k, i) < Value(sp, b, k, i)
  }

  // --- the order --------------------------------------------------------------------------------------------------------------

  lemma DigitMeans(sp: Spec, a: Record, b: Record, k: nat, i: nat)
    requires SpecOk(sp) && |a| == |b| == sp.len && InKey(sp, k, i)
    ensures Digit(sp, a, k, i) == Digit(sp, b, k, i) <==> SameIn(sp, a, b, k, i)
    ensures Digit(sp, a, k, i) < Digit(sp, b, k, i) <==> LessIn(sp, a, b, k, i)
  {
    hide NumInfo;
  }

  /** The comparison from a column on ends in the key, or goes on behind it. */
  lemma {:induction false} CompareMeans(sp: Spec, a: Record, b: Record, k: nat, pos: nat)
    requires SpecOk(sp) && |a| == |b| == sp.len && k < |sp.keys| && sp.keys[k].start <= pos <= sp.keys[k].end
    requires SameTo(sp, a, b, k, pos)
    ensures First(sp, a, b, k) ==> Compare(sp, a, b, k, pos) < 0
    ensures First(sp, b, a, k) ==> Compare(sp, a, b, k, pos) > 0
    ensures Tie(sp, a, b, k) ==> Compare(sp, a, b, k, pos) == Compare(sp, a, b, k, sp.keys[k].end)
    ensures Tie(sp, a, b, k) || First(sp, a, b, k) || First(sp, b, a, k)
    ensures !(Tie(sp, a, b, k) && First(sp, a, b, k))
    decreases sp.keys[k].end - pos
  {
    hide Digit, Value, LessIn;
    if pos < sp.keys[k].end {
      DigitMeans(sp, a, b, k, pos);
      DigitMeans(sp, b, a, k, pos);
      if SameIn(sp, a, b, k, pos) {
        CompareMeans(sp, a, b, k, pos + 1);
      } else {
        Differ(sp, a, b, k, pos);
        SameBack(sp, a, b, k, pos);
        Differ(sp, b, a, k, pos);
      }
    } else {
      NotFirst(sp, a, b, k);
      NotFirst(sp, b, a, k);
    }
  }

  lemma SameBack(sp: Spec, a: Record, b: Record, k: nat, i: nat)
    requires SpecOk(sp) && |a| == |b| == sp.len && k < |sp.keys| && i <= sp.keys[k].end && SameTo(sp, a, b, k, i)
    ensures SameTo(sp, b, a, k, i)
  {
    forall j | sp.keys[k].start <= j < i
      ensures SameIn(sp, b, a, k, j)
    {
      assert SameIn(sp, a, b, k, j);
    }
  }

  lemma LessDiffers(sp: Spec, a: Record, b: Record, k: nat, i: nat)
    requires SpecOk(sp) && |a| == |b| == sp.len && InKey(sp, k, i) && LessIn(sp, a, b, k, i)
    ensures !SameIn(sp, a, b, k, i)
  {
  }

  /** The first column where two records differ decides. */
  lemma Differ(sp: Spec, a: Record, b: Record, k: nat, i: nat)
    requires SpecOk(sp) && |a| == |b| == sp.len && InKey(sp, k, i) && SameTo(sp, a, b, k, i) && !SameIn(sp, a, b, k, i)
    ensures First(sp, a, b, k) <==> LessIn(sp, a, b, k, i)
    ensures !Tie(sp, a, b, k)
  {
    if First(sp, a, b, k) {
      var j: nat :| InKey(sp, k, j) && SameTo(sp, a, b, k, j) && LessIn(sp, a, b, k, j);
      LessDiffers(sp, a, b, k, j);
    }
  }

  lemma NotFirst(sp: Spec, a: Record, b: Record, k: nat)
    requires SpecOk(sp) && |a| == |b| == sp.len && k < |sp.keys| && (Tie(sp, a, b, k) || Tie(sp, b, a, k))
    ensures !First(sp, a, b, k)
  {
    if Tie(sp, b, a, k) {
      SameBack(sp, b, a, k, sp.keys[k].end);
    }
    if First(sp, a, b, k) {
      var j: nat :| InKey(sp, k, j) && SameTo(sp, a, b, k, j) && LessIn(sp, a, b, k, j);
      LessDiffers(sp, a, b, k, j);
    }
  }

  predicate TiesTo(sp: Spec, a: Record, b: Record, k: nat)
    requires SpecOk(sp) && |a| == |b| == sp.len && k <= |sp.keys|
  {
    forall n :: 0 <= n < k ==> Tie(sp, a, b, n)
  }

  /** THE ORDER OF TWO RECORDS. The first key in which they do not tie decides; they are equal in the order when they tie in all keys. */
  lemma OrderMeans(sp: Spec, a: Record, b: Record)
    requires SpecOk(sp) && |a| == |b| == sp.len
    ensures Le(sp, a, b) <==>
              TiesTo(sp, a, b, |sp.keys|) || exists k: nat :: k < |sp.keys| && TiesTo(sp, a, b, k) && First(sp, a, b, k)
  {
    KeysMean(sp, a, b, 0);
  }

  lemma {:induction false} KeysMean(sp: Spec, a: Record, b: Record, n: nat)
    requires SpecOk(sp) && |a| == |b| == sp.len && n < |sp.keys| && TiesTo(sp, a, b, n)
    ensures Compare(sp, a, b, n, sp.keys[n].start) <= 0 <==>
              TiesTo(sp, a, b, |sp.keys|) || exists k: nat :: k < |sp.keys| && TiesTo(sp, a, b, k) && First(sp, a, b, k)
    decreases |sp.keys| - n
  {
    hide Digit, Value, Tie, First;
    assert SameTo(sp, a, b, n, sp.keys[n].start);
    CompareMeans(sp, a, b, n, sp.keys[n].start);
    if Tie(sp, a, b, n) {
      NotFirst(sp, a, b, n);
      assert TiesTo(sp, a, b, n + 1);
      if n + 1 < |sp.keys| {
        KeysMean(sp, a, b, n + 1);
      } else {
        forall k: nat | k < |sp.keys|
          ensures !First(sp, a, b, k)
        {
          assert Tie(sp, a, b, k);
          NotFirst(sp, a, b, k);
        }
      }
    } else if First(sp, a, b, n) {
      assert TiesTo(sp, a, b, n);
    } else {
      CompareMeans(sp, b, a, n, sp.keys[n].start);
      forall k: nat | k < |sp.keys| && TiesTo(sp, a, b, k)
        ensures !First(sp, a, b, k)
      {
        if k < n {
          assert Tie(sp, a, b, k);
          NotFirst(sp, a, b, k);
        }
      }
    }
  }

  // --- single keys of characters ----------------------------------------------------------------------------------------------

  predicate Alike(a: Record, b: Record, lo: nat, hi: nat)
    requires hi <= |a| == |b|
  {
    forall j :: lo <= j < hi ==> a[j] == b[j]
  }

  lemma CharsTie(sp: Spec, a: Record, b: Record, i: nat)
    requires SpecOk(sp) && |a| == |b| == sp.len && !sp.keys[0].numeric && (!sp.collate || sp.keys[0].position)
    requires i <= sp.keys[0].end
    ensures SameTo(sp, a, b, 0, i) <==> Alike(a, b, sp.keys[0].start, i)
  {
    if SameTo(sp, a, b, 0, i) {
      forall j | sp.keys[0].start <= j < i
        ensures a[j] == b[j]
      {
        assert SameIn(sp, a, b, 0, j);
      }
    }
  }

  /** The one key, of characters without a collating sequence or positional: the bytes decide, at the first column that differs. */
  lemma PlainOrder(sp: Spec, a: Record, b: Record)
    requires SpecOk(sp) && |sp.keys| == 1 && |a| == |b| == sp.len && !sp.keys[0].numeric && (!sp.collate || sp.keys[0].position)
    ensures var lo, hi := sp.keys[0].start, sp.keys[0].end;
            Le(sp, a, b) <==>
              Alike(a, b, lo, hi)
              || exists i: nat :: lo <= i < hi && Alike(a, b, lo, i) && (if sp.keys[0].descend then a[i] > b[i] else a[i] < b[i])
  {
    OneKey(sp, a, b);
    var lo, hi := sp.keys[0].start, sp.keys[0].end;
    CharsTie(sp, a, b, hi);
    if First(sp, a, b, 0) {
      var i: nat :| InKey(sp, 0, i) && SameTo(sp, a, b, 0, i) && LessIn(sp, a, b, 0, i);
      CharsTie(sp, a, b, i);
      assert lo <= i < hi && Alike(a, b, lo, i);
    }
    if i: nat :| lo <= i < hi && Alike(a, b, lo, i) && (if sp.keys[0].descend then a[i] > b[i] else a[i] < b[i]) {
      CharsTie(sp, a, b, i);
      assert InKey(sp, 0, i) && LessIn(sp, a, b, 0, i);
    }
  }

  /** With a single key, it decides. */
  lemma OneKey(sp: Spec, a: Record, b: Record)
    requires SpecOk(sp) && |sp.keys| == 1 && |a| == |b| == sp.len
    ensures Le(sp, a, b) <==> Tie(sp, a, b, 0) || First(sp, a, b, 0)
  {
    hide Tie, First;
    OrderMeans(sp, a, b);
    assert TiesTo(sp, a, b, 1) <==> Tie(sp, a, b, 0);
    assert TiesTo(sp, a, b, 0);
  }

  /** The places of two fields in the collating sequence. */
  predicate PlacedAlike(sp: Spec, a: Record, b: Record, lo: nat, hi: nat)
    requires SpecOk(sp) && hi <= |a| == |b|
  {
    forall j :: lo <= j < hi ==> sp.priority[a[j]] == sp.priority[b[j]]
  }

  lemma PlacesTie(sp: Spec, a: Record, b: Record, i: nat)
    requires SpecOk(sp) && |a| == |b| == sp.len && !sp.keys[0].numeric && sp.collate && !sp.keys[0].position
    requires i <= sp.keys[0].end
    ensures SameTo(sp, a, b, 0, i) <==> PlacedAlike(sp, a, b, sp.keys[0].start, i)
  {
    if SameTo(sp, a, b, 0, i) {
      forall j | sp.keys[0].start <= j < i
        ensures sp.priority[a[j]] == sp.priority[b[j]]
      {
        assert SameIn(sp, a, b, 0, j);
      }
    }
  }

  /** The one key, of characters with a collating sequence: their places in it decide, at the first column where they differ. */
  lemma CollatedOrder(sp: Spec, a: Record, b: Record)
    requires SpecOk(sp) && |sp.keys| == 1 && |a| == |b| == sp.len && !sp.keys[0].numeric && sp.collate && !sp.keys[0].position
    ensures var lo, hi := sp.keys[0].start, sp.keys[0].end;
            Le(sp, a, b) <==>
              PlacedAlike(sp, a, b, lo, hi)
              || exists i: nat :: lo <= i < hi && PlacedAlike(sp, a, b, lo, i)
                                  && (if sp.keys[0].descend then sp.priority[a[i]] > sp.priority[b[i]] else sp.priority[a[i]] < sp.priority[b[i]])
  {
    OneKey(sp, a, b);
    var lo, hi := sp.keys[0].start, sp.keys[0].end;
    PlacesTie(sp, a, b, hi);
    if First(sp, a, b, 0) {
      var i: nat :| InKey(sp, 0, i) && SameTo(sp, a, b, 0, i) && LessIn(sp, a, b, 0, i);
      PlacesTie(sp, a, b, i);
      assert lo <= i < hi && PlacedAlike(sp, a, b, lo, i);
    }
    if i: nat :| lo <= i < hi && PlacedAlike(sp, a, b, lo, i)
                 && (if sp.keys[0].descend then sp.priority[a[i]] > sp.priority[b[i]] else sp.priority[a[i]] < sp.priority[b[i]]) {
      PlacesTie(sp, a, b, i);
      assert InKey(sp, 0, i) && LessIn(sp, a, b, 0, i);
    }
  }
}

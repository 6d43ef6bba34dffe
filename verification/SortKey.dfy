/** Sort keys (sio.c): the character-by-character order that a list of keys imposes on records. */
module SortKey {
  import opened Bytes

  type Record = seq<byte>

  const UCHAR_MAX := 255
  const MINUS: byte := 45
  const PLUS: byte := 43

  /** A key field, columns start to end - 1 of the record. */
  datatype Key = Key(start: nat, end: nat, numeric: bool, descend: bool, position: bool)

  /** What a sort is told: record length, keys, and a collating sequence when there is one. */
  datatype Spec = Spec(len: nat, keys: seq<Key>, collate: bool, priority: seq<byte>)

  predicate SpecOk(sp: Spec) {
    && 0 < |sp.keys| && |sp.priority| == UCHAR_MAX + 1
    && forall k :: 0 <= k < |sp.keys| ==> sp.keys[k].start < sp.keys[k].end <= sp.len
  }

  // --- numeric fields ------------------------------------------------------------------------------------

  const NUMFLAG_NULL := 0x01
  const NUMFLAG_INVALID := 0x15
  const NUMFLAG_NEGATIVE := 0x20

  type Flag = f: int | f == 0 || f == NUMFLAG_NULL || f == NUMFLAG_INVALID || f == NUMFLAG_NEGATIVE

  predicate IsSign(c: byte) {
    c == MINUS || c == PLUS
  }

  predicate IsPlain(c: byte) {
    IsDigit(c) || c == POINT
  }

  /** All characters of f from position n on are digits or points. */
  predicate Plain(f: seq<byte>, n: nat) {
    forall j :: n <= j < |f| ==> IsPlain(f[j])
  }

  /** The number of blanks a field starts with. */
  function Lead(f: seq<byte>): (n: nat)
    ensures n <= |f| && (forall i :: 0 <= i < n ==> f[i] == BLANK) && (n < |f| ==> f[n] != BLANK)
  {
    if f == [] || f[0] != BLANK then 0 else 1 + Lead(f[1..])
  }

  /** What kind of number a field holds: blanks, then a sign or not, then digits and decimal points. */
  function NumInfo(f: seq<byte>): Flag {
    var n := Lead(f);
    if n == |f| then NUMFLAG_NULL
    else if IsSign(f[n]) then
      if n + 1 < |f| && Plain(f, n + 1) then (if f[n] == MINUS then NUMFLAG_NEGATIVE else 0) else NUMFLAG_INVALID
    else if Plain(f, n) then 0 else NUMFLAG_INVALID
  }

  /** The first i characters of f have been scanned with this outcome. */
  ghost predicate Scanned(f: seq<byte>, i: nat, flag: int)
    requires i <= |f|
  {
    var n := Lead(f);
    if i <= n then flag == NUMFLAG_NULL
    else
      && (forall j :: n < j < i ==> IsPlain(f[j]))
      && (if IsSign(f[n]) then n + 1 < |f| && flag == (if f[n] == MINUS then NUMFLAG_NEGATIVE else 0)
          else IsPlain(f[n]) && flag == 0)
  }

  /** numinfo: one pass over the field, leaving at the first character that cannot be part of a number. */
  method ScanNumber(rec: Record, key: Key) returns (numflag: Flag)
    requires key.start <= key.end <= |rec|
    ensures numflag == NumInfo(rec[key.start..key.end])
  {
    ghost var f := rec[key.start..key.end];
    ghost var n := Lead(f);
    hide Lead;
    numflag := NUMFLAG_NULL;
    var i1, i2 := key.start, key.end;
    while i1 < i2
      invariant key.start <= i1 <= i2 && Scanned(f, i1 - key.start, numflag)
    {
      assert rec[i1] == f[i1 - key.start];
      if rec[i1] == BLANK {
        if numflag != NUMFLAG_NULL {
          return NUMFLAG_INVALID;
        }
      } else if IsDigit(rec[i1]) {
        if numflag != NUMFLAG_NEGATIVE {
          numflag := 0;
        }
      } else if rec[i1] == POINT {
        if numflag != NUMFLAG_NEGATIVE {
          numflag := 0;
        }
      } else if rec[i1] == MINUS || rec[i1] == PLUS {
        if numflag != NUMFLAG_NULL || i1 + 1 == i2 {
          return NUMFLAG_INVALID;
        }
        if rec[i1] == MINUS {
          numflag := NUMFLAG_NEGATIVE;
        } else {
          numflag := 0;
        }
      } else {
        return NUMFLAG_INVALID;
      }
      i1 := i1 + 1;
    }
  }

  /** numchar: the rank of a character in a field of a given kind. */
  function NumChar(c: byte, flag: Flag): (r: int)
    ensures 0 <= r <= UCHAR_MAX
  {
    if flag == NUMFLAG_NULL || flag == NUMFLAG_INVALID then flag
    else if IsDigit(c) then (if flag == NUMFLAG_NEGATIVE then 0x0B - (c as int - 48) else 0x0B + (c as int - 48))
    else 0x0B
  }

  // --- the order on records ---------------------------------------------------------------------------------

  function Field(sp: Spec, rec: Record, k: nat): seq<byte>
    requires SpecOk(sp) && |rec| == sp.len && k < |sp.keys|
  {
    rec[sp.keys[k].start..sp.keys[k].end]
  }

  /** A column that takes part in the order: position pos of key k. */
  predicate Column(sp: Spec, k: nat, pos: nat) {
    k < |sp.keys| && sp.keys[k].start <= pos < sp.keys[k].end
  }

  /** The rank of a record at one column, given the kind of number in the field when the key is numeric. */
  function Rank(sp: Spec, rec: Record, k: nat, pos: nat, flag: Flag): (d: int)
    requires SpecOk(sp) && |rec| == sp.len && Column(sp, k, pos)
    ensures 0 <= d <= UCHAR_MAX
  {
    var key := sp.keys[k];
    var d := if key.numeric then NumChar(rec[pos], flag)
             else if !sp.collate || key.position then rec[pos] as int
             else sp.priority[rec[pos]] as int;
    if key.descend then UCHAR_MAX - d else d
  }

  function Digit(sp: Spec, rec: Record, k: nat, pos: nat): (d: int)
    requires SpecOk(sp) && |rec| == sp.len && Column(sp, k, pos)
    ensures 0 <= d <= UCHAR_MAX
  {
    Rank(sp, rec, k, pos, NumInfo(Field(sp, rec, k)))
  }

  /** The order from column pos of key k onward: the difference of the first ranks that differ, or 0. */
  function Compare(sp: Spec, a: Record, b: Record, k: nat, pos: nat): int
    requires SpecOk(sp) && |a| == |b| == sp.len && k < |sp.keys| && sp.keys[k].start <= pos <= sp.keys[k].end
    decreases |sp.keys| - k, sp.keys[k].end - pos
  {
    if pos < sp.keys[k].end then
      var d := Digit(sp, a, k, pos) - Digit(sp, b, k, pos);
      if d != 0 then d else Compare(sp, a, b, k, pos + 1)
    else if k + 1 == |sp.keys| then 0
    else Compare(sp, a, b, k + 1, sp.keys[k + 1].start)
  }

  /** The whole order. */
  predicate Le(sp: Spec, a: Record, b: Record)
    requires SpecOk(sp) && |a| == |b| == sp.len
  {
    Compare(sp, a, b, 0, sp.keys[0].start) <= 0
  }

  lemma {:induction false} CompareOpposite(sp: Spec, a: Record, b: Record, k: nat, pos: nat)
    requires SpecOk(sp) && |a| == |b| == sp.len && k < |sp.keys| && sp.keys[k].start <= pos <= sp.keys[k].end
    ensures Compare(sp, a, b, k, pos) == -Compare(sp, b, a, k, pos)
    decreases |sp.keys| - k, sp.keys[k].end - pos
  {
    if pos < sp.keys[k].end {
      CompareOpposite(sp, a, b, k, pos + 1);
    } else if k + 1 < |sp.keys| {
      CompareOpposite(sp, a, b, k + 1, sp.keys[k + 1].start);
    }
  }

  lemma {:induction false} CompareTransitive(sp: Spec, a: Record, b: Record, c: Record, k: nat, pos: nat)
    requires SpecOk(sp) && |a| == |b| == |c| == sp.len && k < |sp.keys| && sp.keys[k].start <= pos <= sp.keys[k].end
    requires Compare(sp, a, b, k, pos) <= 0 && Compare(sp, b, c, k, pos) <= 0
    ensures Compare(sp, a, c, k, pos) <= 0
    decreases |sp.keys| - k, sp.keys[k].end - pos
  {
    if pos < sp.keys[k].end {
      if Digit(sp, a, k, pos) == Digit(sp, b, k, pos) == Digit(sp, c, k, pos) {
        CompareTransitive(sp, a, b, c, k, pos + 1);
      }
    } else if k + 1 < |sp.keys| {
      CompareTransitive(sp, a, b, c, k + 1, sp.keys[k + 1].start);
    }
  }

  /** The order is a total preorder on records. */
  lemma LeIsTotalPreorder(sp: Spec, a: Record, b: Record, c: Record)
    requires SpecOk(sp) && |a| == |b| == |c| == sp.len
    ensures Le(sp, a, b) || Le(sp, b, a)
    ensures Le(sp, a, b) && Le(sp, b, c) ==> Le(sp, a, c)
  {
    CompareOpposite(sp, a, b, 0, sp.keys[0].start);
    if Le(sp, a, b) && Le(sp, b, c) {
      CompareTransitive(sp, a, b, c, 0, sp.keys[0].start);
    }
  }

  /** Column (j, q) comes before column (k, pos). */
  predicate Earlier(j: nat, q: nat, k: nat, pos: nat) {
    j < k || (j == k && q < pos)
  }

  /** Two records have the same ranks at every column before (k, pos). */
  ghost predicate Agree(sp: Spec, a: Record, b: Record, k: nat, pos: nat)
    requires SpecOk(sp) && |a| == |b| == sp.len
  {
    forall j: nat, q: nat :: Column(sp, j, q) && Earlier(j, q, k, pos) ==> Digit(sp, a, j, q) == Digit(sp, b, j, q)
  }

  lemma {:induction false} AgreeFrom(sp: Spec, a: Record, b: Record, j: nat, q: nat, k: nat, pos: nat)
    requires SpecOk(sp) && |a| == |b| == sp.len && Agree(sp, a, b, k, pos)
    requires j < |sp.keys| && sp.keys[j].start <= q <= sp.keys[j].end
    requires k < |sp.keys| && sp.keys[k].start <= pos <= sp.keys[k].end
    requires j < k || (j == k && q <= pos)
    ensures Compare(sp, a, b, j, q) == Compare(sp, a, b, k, pos)
    decreases |sp.keys| - j, sp.keys[j].end - q
  {
    if j == k && q == pos {
    } else if q < sp.keys[j].end {
      assert Column(sp, j, q) && Earlier(j, q, k, pos);
      AgreeFrom(sp, a, b, j, q + 1, k, pos);
    } else {
      AgreeFrom(sp, a, b, j + 1, sp.keys[j + 1].start, k, pos);
    }
  }

  /** Records that agree before a column are ordered by what follows it. */
  lemma AgreeCompare(sp: Spec, a: Record, b: Record, k: nat, pos: nat)
    requires SpecOk(sp) && |a| == |b| == sp.len && Agree(sp, a, b, k, pos)
    requires k < |sp.keys| && sp.keys[k].start <= pos <= sp.keys[k].end
    ensures Compare(sp, a, b, 0, sp.keys[0].start) == Compare(sp, a, b, k, pos)
  {
    AgreeFrom(sp, a, b, 0, sp.keys[0].start, k, pos);
  }

  // --- comparing two records -----------------------------------------------------------------------------------

  function Sign(n: int): int {
    if n > 0 then 1 else if n < 0 then -1 else 0
  }

  /** memcmp. */
  method MemCmp(a: Record, b: Record, lo: nat, hi: nat) returns (c: int, ghost at: nat)
    requires lo <= hi <= |a| && hi <= |b|
    ensures c == 0 ==> forall i :: lo <= i < hi ==> a[i] == b[i]
    ensures c != 0 ==> lo <= at < hi && (forall i :: lo <= i < at ==> a[i] == b[i]) && Sign(c) == Sign(a[at] as int - b[at] as int)
  {
    var i := lo;
    at := lo;
    while i < hi
      invariant lo <= i == at <= hi && forall i :: lo <= i < at ==> a[i] == b[i]
    {
      if a[i] != b[i] {
        return if a[i] > b[i] then 1 else -1, i;
      }
      i := i + 1;
      at := i;
    }
    c := 0;
  }

  /** A stretch of one key on which two records have the same ranks adds nothing to the comparison. */
  lemma {:induction false} SameStretch(sp: Spec, a: Record, b: Record, k: nat, lo: nat, hi: nat)
    requires SpecOk(sp) && |a| == |b| == sp.len && k < |sp.keys| && sp.keys[k].start <= lo <= hi <= sp.keys[k].end
    requires forall q :: lo <= q < hi ==> Digit(sp, a, k, q) == Digit(sp, b, k, q)
    ensures Compare(sp, a, b, k, lo) == Compare(sp, a, b, k, hi)
    decreases hi - lo
  {
    if lo < hi {
      SameStretch(sp, a, b, k, lo + 1, hi);
    }
  }

  /** comprec: compare two records from a column onward. */
  method CompRec(sp: Spec, rec1: Record, rec2: Record, key: nat, keypos: nat) returns (c: int)
    requires SpecOk(sp) && |rec1| == |rec2| == sp.len
    requires key < |sp.keys| && sp.keys[key].start <= keypos <= sp.keys[key].end
    ensures Sign(c) == Sign(Compare(sp, rec1, rec2, key, keypos))
  {
    var i1, i2 := key, keypos;
    while true
      invariant i1 < |sp.keys| && sp.keys[i1].start <= i2 <= sp.keys[i1].end
      invariant Compare(sp, rec1, rec2, key, keypos) == Compare(sp, rec1, rec2, i1, i2)
      decreases |sp.keys| - i1
    {
      var i4 := CompKey(sp, rec1, rec2, i1, i2);
      if i4 != 0 {
        return i4;
      }
      i1 := i1 + 1;
      if i1 == |sp.keys| {
        return 0;
      }
      i2 := sp.keys[i1].start;
    }
    c := 0;
  }

  /** The part of comprec that compares one key. */
  method CompKey(sp: Spec, rec1: Record, rec2: Record, k: nat, pos: nat) returns (c: int)
    requires SpecOk(sp) && |rec1| == |rec2| == sp.len
    requires k < |sp.keys| && sp.keys[k].start <= pos <= sp.keys[k].end
    ensures c != 0 ==> Sign(c) == Sign(Compare(sp, rec1, rec2, k, pos))
    ensures c == 0 ==> Compare(sp, rec1, rec2, k, pos) == Compare(sp, rec1, rec2, k, sp.keys[k].end)
  {
    hide NumInfo, Lead;
    var key := sp.keys[k];
    var i2, i4 := pos, 0;
    if key.numeric {
      var numflag1 := ScanNumber(rec1, key);
      var numflag2 := ScanNumber(rec2, key);
      while i2 < key.end
        invariant pos <= i2 <= key.end && Compare(sp, rec1, rec2, k, pos) == Compare(sp, rec1, rec2, k, i2)
      {
        i4 := NumChar(rec1[i2], numflag1) - NumChar(rec2[i2], numflag2);
        if i4 != 0 {
          break;
        }
        i2 := i2 + 1;
      }
      if i2 < key.end {
        return if key.descend then -i4 else i4;
      }
    } else if !sp.collate || key.position {
      ghost var at;
      i4, at := MemCmp(rec1, rec2, i2, key.end);
      if i4 != 0 {
        SameStretch(sp, rec1, rec2, k, pos, at);
        return if key.descend then -i4 else i4;
      }
      SameStretch(sp, rec1, rec2, k, pos, key.end);
    } else {
      while i2 < key.end
        invariant pos <= i2 <= key.end && Compare(sp, rec1, rec2, k, pos) == Compare(sp, rec1, rec2, k, i2)
      {
        if rec1[i2] != rec2[i2] {
          i4 := sp.priority[rec1[i2]] as int - sp.priority[rec2[i2]] as int;
          if i4 != 0 {
            return if key.descend then -i4 else i4;
          }
        }
        i2 := i2 + 1;
      }
    }
    c := 0;
  }
}

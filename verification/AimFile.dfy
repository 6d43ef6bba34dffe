/** The index file (aio.c) as a chain of extents. Each extent holds, slot after slot, one bit for
    every record number it covers; the 28-byte extent headers and the file offsets that link them
    are represented by the order of the sequence. */
module AimFile {
  import opened Bits

  datatype Extent = Extent(nrec: int, data: seq<bv8>)

  /** Byte `off` of slot s in an extent whose slots are `size` bytes long. */
  function Pos(s: int, size: int, off: int): int {
    s * size + off
  }

  lemma {:induction false} MulStep(a: int, b: int, z: int)
    requires a < b && 0 <= z
    ensures a * z + z <= b * z
    decreases b - a
  {
    if a + 1 < b {
      MulStep(a, b - 1, z);
    }
  }

  lemma PosInside(s: int, size: int, off: int, width: int)
    requires 0 <= s < width && 0 <= off < size
    ensures 0 <= Pos(s, size, off) < width * size
  {
    MulStep(s, width, size);
    if 0 < s {
      MulStep(0, s, size);
    }
  }

  /** Slots do not overlap: a byte belongs to one slot and one offset. */
  lemma PosUnique(s: int, off: int, s': int, off': int, size: int)
    requires 0 <= off < size && 0 <= off' < size
    requires Pos(s, size, off) == Pos(s', size, off')
    ensures s == s' && off == off'
  {
    if s < s' {
      MulStep(s, s', size);
    } else if s' < s {
      MulStep(s', s, size);
    }
  }

  ghost predicate ExtentOk(x: Extent, width: int) {
    x.nrec > 0 && x.nrec % 8 == 0 && |x.data| == width * (x.nrec / 8)
  }

  ghost predicate ChainOk(exts: seq<Extent>, width: int) {
    |exts| > 0 && forall i :: 0 <= i < |exts| ==> ExtentOk(exts[i], width)
  }

  /** First record number of extent i. */
  function StartOf(exts: seq<Extent>, i: nat): int
    requires i <= |exts|
  {
    if i == 0 then 0 else StartOf(exts, i - 1) + exts[i - 1].nrec
  }

  function Total(exts: seq<Extent>): int {
    StartOf(exts, |exts|)
  }

  /** Extent e covers record number n. */
  ghost predicate InExtent(exts: seq<Extent>, e: int, n: int) {
    0 <= e < |exts| && StartOf(exts, e) <= n < StartOf(exts, e) + exts[e].nrec
  }

  /** The bit of slot s for the r-th record of an extent. */
  ghost predicate Filed(x: Extent, width: int, s: int, r: int)
    requires ExtentOk(x, width)
  {
    0 <= s < width && 0 <= r < x.nrec &&
    (PosInside(s, x.nrec / 8, r / 8, width); Bit(x.data[Pos(s, x.nrec / 8, r / 8)], r % 8))
  }

  ghost predicate AllFiled(x: Extent, width: int, pat: set<int>, r: int)
    requires ExtentOk(x, width)
  {
    forall s :: s in pat ==> Filed(x, width, s, r)
  }

  /** The bit of slot s for record number n of the whole file. */
  ghost predicate At(exts: seq<Extent>, width: int, s: int, n: int)
    requires ChainOk(exts, width)
  {
    exists e :: InExtent(exts, e, n) && Filed(exts[e], width, s, n - StartOf(exts, e))
  }

  /** Record number n has its bit set in every slot of the pattern. */
  ghost predicate Cand(exts: seq<Extent>, width: int, pat: set<int>, n: int)
    requires ChainOk(exts, width)
  {
    0 <= n < Total(exts) && forall s :: s in pat ==> At(exts, width, s, n)
  }

  lemma {:induction false} StartMono(exts: seq<Extent>, width: int, i: nat, j: nat)
    requires ChainOk(exts, width) && i <= j <= |exts|
    ensures StartOf(exts, i) <= StartOf(exts, j)
    ensures i < j ==> StartOf(exts, i) + exts[i].nrec <= StartOf(exts, j) && exts[i].nrec > 0
    ensures StartOf(exts, i) % 8 == 0 && StartOf(exts, i) >= i
    decreases j
  {
    if i < j {
      StartMono(exts, width, i, j - 1);
    } else if 0 < i {
      StartMono(exts, width, i - 1, i - 1);
    }
  }

  lemma ExtentUnique(exts: seq<Extent>, width: int, e: int, e': int, n: int)
    requires ChainOk(exts, width) && InExtent(exts, e, n) && InExtent(exts, e', n)
    ensures e == e'
  {
    if e < e' {
      StartMono(exts, width, e, e');
    } else if e' < e {
      StartMono(exts, width, e', e);
    }
  }

  lemma InTotal(exts: seq<Extent>, width: int, e: int, n: int)
    requires ChainOk(exts, width) && InExtent(exts, e, n)
    ensures 0 <= n < Total(exts)
  {
    StartMono(exts, width, 0, e);
    StartMono(exts, width, e, |exts|);
  }

  /** Within an extent, the file-wide notion of candidate is the extent's own. */
  lemma CandLocal(exts: seq<Extent>, width: int, pat: set<int>, e: int, n: int)
    requires ChainOk(exts, width) && InExtent(exts, e, n)
    ensures Cand(exts, width, pat, n) <==> AllFiled(exts[e], width, pat, n - StartOf(exts, e))
  {
    InTotal(exts, width, e, n);
    forall s
      ensures At(exts, width, s, n) <==> Filed(exts[e], width, s, n - StartOf(exts, e))
    {
      AtLocal(exts, width, e, s, n);
    }
  }

  lemma {:induction false} Locate(exts: seq<Extent>, width: int, n: int, k: nat) returns (e: int)
    requires ChainOk(exts, width) && k <= |exts| && 0 <= n < StartOf(exts, k)
    ensures InExtent(exts, e, n) && e < k
    decreases k
  {
    if n < StartOf(exts, k - 1) {
      e := Locate(exts, width, n, k - 1);
    } else {
      e := k - 1;
    }
  }

  lemma {:induction false} SameStarts(a: seq<Extent>, b: seq<Extent>, k: nat)
    requires k <= |a| && k <= |b| && forall i :: 0 <= i < k ==> a[i].nrec == b[i].nrec
    ensures StartOf(a, k) == StartOf(b, k)
    decreases k
  {
    if k > 0 {
      SameStarts(a, b, k - 1);
    }
  }

  /** `b` is `a` with the bits of the slots in `pat` turned on for record r, and nothing else. */
  ghost predicate BitsAdded(a: Extent, b: Extent, width: int, pat: set<int>, r: int)
    requires ExtentOk(a, width) && ExtentOk(b, width)
  {
    && a.nrec == b.nrec
    && forall s, q :: Filed(b, width, s, q) <==> Filed(a, width, s, q) || (s in pat && q == r)
  }

  /** Setting one bit of one slot of an extent. */
  lemma SetOne(a: Extent, b: Extent, width: int, s: int, r: int)
    requires ExtentOk(a, width) && 0 <= s < width && 0 <= r < a.nrec
    requires 0 <= Pos(s, a.nrec / 8, r / 8) < |a.data|
    requires b == a.(data := a.data[Pos(s, a.nrec / 8, r / 8) := a.data[Pos(s, a.nrec / 8, r / 8)] | Mask(r % 8)])
    ensures ExtentOk(b, width) && BitsAdded(a, b, width, {s}, r)
  {
    var size := a.nrec / 8;
    forall t, q
      ensures Filed(b, width, t, q) <==> Filed(a, width, t, q) || (t == s && q == r)
    {
      PosInside(s, size, r / 8, width);
      if 0 <= t < width && 0 <= q < a.nrec {
        PosInside(t, size, q / 8, width);
        OrBit(a.data[Pos(s, size, r / 8)], r % 8, q % 8);
        if Pos(t, size, q / 8) == Pos(s, size, r / 8) {
          PosUnique(t, q / 8, s, r / 8, size);
        }
      }
    }
  }

  /** The file-wide bit, given the extent that covers the record number. */
  lemma AtLocal(exts: seq<Extent>, width: int, e: int, s: int, n: int)
    requires ChainOk(exts, width) && InExtent(exts, e, n)
    ensures At(exts, width, s, n) <==> Filed(exts[e], width, s, n - StartOf(exts, e))
  {
    if At(exts, width, s, n) {
      var e' :| InExtent(exts, e', n) && Filed(exts[e'], width, s, n - StartOf(exts, e'));
      ExtentUnique(exts, width, e, e', n);
    }
  }

  /** What adding bits to one extent means for the whole file. */
  lemma ChainBitsAdded(a: seq<Extent>, b: seq<Extent>, width: int, e: nat, pat: set<int>, n: int, s: int, q: int)
    requires ChainOk(a, width) && ChainOk(b, width) && |a| == |b| && e < |a|
    requires forall i :: 0 <= i < |a| && i != e ==> a[i] == b[i]
    requires InExtent(a, e, n) && BitsAdded(a[e], b[e], width, pat, n - StartOf(a, e))
    ensures At(b, width, s, q) <==> At(a, width, s, q) || (s in pat && q == n)
  {
    hide At, Filed, ExtentOk, StartOf, BitsAdded;
    SameNrec(a, b, width, e, pat, n - StartOf(a, e));
    SameStarts(a, b, |a|);
    if 0 <= q < Total(a) {
      var i := Locate(a, width, q, |a|);
      SameStarts(a, b, i);
      SameStarts(a, b, e);
      if i != e {
        AtSame(a, b, width, i, s, q);
        if q == n {
          ExtentUnique(a, width, i, e, n);
        }
      } else {
        AtAdded(a, b, width, e, pat, n, s, q);
      }
    } else {
      OutsideTotal(a, width, s, q);
      OutsideTotal(b, width, s, q);
      InTotal(a, width, e, n);
    }
  }

  lemma AtSame(a: seq<Extent>, b: seq<Extent>, width: int, i: int, s: int, q: int)
    requires ChainOk(a, width) && ChainOk(b, width) && InExtent(a, i, q) && InExtent(b, i, q)
    requires a[i] == b[i] && StartOf(a, i) == StartOf(b, i)
    ensures At(a, width, s, q) <==> At(b, width, s, q)
  {
    hide At, Filed, ExtentOk, StartOf;
    AtLocal(a, width, i, s, q);
    AtLocal(b, width, i, s, q);
  }

  lemma SameNrec(a: seq<Extent>, b: seq<Extent>, width: int, e: nat, pat: set<int>, r: int)
    requires ChainOk(a, width) && ChainOk(b, width) && |a| == |b| && e < |a| && BitsAdded(a[e], b[e], width, pat, r)
    requires forall i :: 0 <= i < |a| && i != e ==> a[i] == b[i]
    ensures forall i :: 0 <= i < |a| ==> a[i].nrec == b[i].nrec
  {
    hide Filed;
  }

  lemma AtAdded(a: seq<Extent>, b: seq<Extent>, width: int, e: nat, pat: set<int>, n: int, s: int, q: int)
    requires ChainOk(a, width) && ChainOk(b, width) && InExtent(a, e, q) && InExtent(b, e, q) && StartOf(a, e) == StartOf(b, e)
    requires BitsAdded(a[e], b[e], width, pat, n - StartOf(a, e))
    ensures At(b, width, s, q) <==> At(a, width, s, q) || (s in pat && q == n)
  {
    hide At, Filed, ExtentOk, StartOf, BitsAdded;
    AtLocal(a, width, e, s, q);
    AtLocal(b, width, e, s, q);
    AddedAt(a[e], b[e], width, pat, n - StartOf(a, e), s, q - StartOf(a, e));
  }

  lemma AddedAt(a: Extent, b: Extent, width: int, pat: set<int>, r: int, s: int, q: int)
    requires ExtentOk(a, width) && ExtentOk(b, width) && BitsAdded(a, b, width, pat, r)
    ensures a.nrec == b.nrec && (Filed(b, width, s, q) <==> Filed(a, width, s, q) || (s in pat && q == r))
  {
    hide Filed, ExtentOk;
  }

  lemma OutsideTotal(exts: seq<Extent>, width: int, s: int, n: int)
    requires ChainOk(exts, width) && !(0 <= n < Total(exts))
    ensures !At(exts, width, s, n)
  {
    if At(exts, width, s, n) {
      var e :| InExtent(exts, e, n) && Filed(exts[e], width, s, n - StartOf(exts, e));
      InTotal(exts, width, e, n);
    }
  }

  lemma ZeroExtent(x: Extent, width: int, s: int, r: int)
    requires ExtentOk(x, width) && forall i :: 0 <= i < |x.data| ==> x.data[i] == 0
    ensures !Filed(x, width, s, r)
  {
    if 0 <= s < width && 0 <= r < x.nrec {
      PosInside(s, x.nrec / 8, r / 8, width);
      ZeroByte(x.data[Pos(s, x.nrec / 8, r / 8)]);
    }
  }

  lemma AppendedChain(a: seq<Extent>, x: Extent, width: int)
    requires ChainOk(a, width) && ExtentOk(x, width)
    ensures ChainOk(a + [x], width)
    ensures StartOf(a + [x], |a|) == Total(a) && Total(a + [x]) == Total(a) + x.nrec
  {
    hide ExtentOk;
    SameStarts(a, a + [x], |a|);
    assert forall i :: 0 <= i < |a| + 1 ==> (a + [x])[i] == if i < |a| then a[i] else x;
  }

  /** Appending an extent of zeros leaves every bit of the file as it was. */
  lemma Appended(a: seq<Extent>, b: seq<Extent>, x: Extent, width: int, s: int, q: int)
    requires ChainOk(a, width) && ExtentOk(x, width) && b == a + [x] && ChainOk(b, width)
    requires forall i :: 0 <= i < |x.data| ==> x.data[i] == 0
    ensures At(b, width, s, q) <==> At(a, width, s, q)
  {
    SameStarts(a, b, |a|);
    if 0 <= q < Total(a) {
      var i := Locate(a, width, q, |a|);
      SameStarts(a, b, i);
      AtLocal(a, width, i, s, q);
      AtLocal(b, width, i, s, q);
    } else {
      OutsideTotal(a, width, s, q);
      if 0 <= q < Total(b) {
        assert InExtent(b, |a|, q);
        AtLocal(b, width, |a|, s, q);
        ZeroExtent(x, width, s, q - Total(a));
      } else {
        OutsideTotal(b, width, s, q);
      }
    }
  }

  // --- growing the file ------------------------------------------------------------------------

  function Round32(n: int): int {
    if n % 32 != 0 then n - n % 32 + 32 else n
  }

  /** Size of the extent that aioinsert appends for a record d places past the end of the file,
      when the configured growth is `step`. */
  function GrowBy(step: int, d: int): int {
    Round32(if step < d then d else step)
  }

  /** The new extent holds the record that caused it exactly when the record lies less than one
      growth step past the end, or off a multiple of 32. */
  lemma GrowthFits(step: int, d: int)
    requires 0 < step && 0 <= d
    ensures d < GrowBy(step, d) <==> d < step || d % 32 != 0
  {
  }

  /** A record exactly one growth step past the end of the file: 512 records appended for
      record 512 of the appended extent. */
  lemma GrowthMisses()
    ensures GrowBy(512, 512) == 512 && !(512 < GrowBy(512, 512))
  {
  }

  // --- lists of record numbers ---------------------------------------------------------------------------------------------

  ghost predicate Increasing(s: seq<int>) {
    forall i, j :: 0 <= i < j < |s| ==> s[i] < s[j]
  }

  lemma IncreasingNone()
    ensures Increasing([])
  {
  }

  lemma IncreasingMore(s: seq<int>, n: int)
    requires Increasing(s) && forall k :: k in s ==> k < n
    ensures Increasing(s + [n])
  {
    forall i, j | 0 <= i < j < |s + [n]|
      ensures (s + [n])[i] < (s + [n])[j]
    {
      assert s[i] in s;
    }
  }
}

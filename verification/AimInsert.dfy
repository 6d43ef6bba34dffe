/** Inserting a record into the index file (aio.c), on values: setting the record's bits in one
    extent, and what that does to a walk in progress. */
module AimInsert {
  import opened Bits
  import opened Bytes
  import opened AimFile
  import opened AimHash
  import opened AimWindow
  import opened AimView

  lemma BitsAddedTrans(a: Extent, b: Extent, c: Extent, width: int, pat: set<int>, s: int, r: int)
    requires ExtentOk(a, width) && ExtentOk(b, width) && ExtentOk(c, width)
    requires BitsAdded(a, b, width, pat, r) && BitsAdded(b, c, width, {s}, r)
    ensures BitsAdded(a, c, width, pat + {s}, r)
  {
    hide Filed, ExtentOk;
    forall t, q
      ensures Filed(c, width, t, q) <==> Filed(a, width, t, q) || (t in pat + {s} && q == r)
    {
      assert Filed(c, width, t, q) <==> Filed(b, width, t, q) || (t in {s} && q == r);
      assert Filed(b, width, t, q) <==> Filed(a, width, t, q) || (t in pat && q == r);
    }
  }

  /** No bit is lost. */
  ghost predicate Grown(a: Extent, b: Extent, width: int)
    requires ExtentOk(a, width) && ExtentOk(b, width)
  {
    a.nrec == b.nrec && forall s, q :: Filed(a, width, s, q) ==> Filed(b, width, s, q)
  }

  /** Turning on any bit of an extent's bytes loses none. */
  lemma SetAny(a: Extent, b: Extent, width: int, k: int, j: int)
    requires ExtentOk(a, width) && 0 <= k < |a.data| && 0 <= j < 8
    requires b == a.(data := a.data[k := a.data[k] | Mask(j)])
    ensures ExtentOk(b, width) && Grown(a, b, width)
  {
    forall s, q | Filed(a, width, s, q)
      ensures Filed(b, width, s, q)
    {
      PosInside(s, a.nrec / 8, q / 8, width);
      OrBit(a.data[k], j, q % 8);
    }
  }

  /** Set the bit of record r in every chosen slot. When r lies past the end of the extent the
      bytes touched belong to the neighbouring slots, and a byte past the last slot cannot be read. */
  method SetBits(x0: Extent, width: int, table: array<bv8>, r: int) returns (x: Extent, ok: bool)
    requires ExtentOk(x0, width) && 0 <= r
    requires forall s :: s in Pattern(table[..]) ==> 0 <= s < width
    ensures ExtentOk(x, width) && x.nrec == x0.nrec && Grown(x0, x, width)
    ensures r < x0.nrec ==> ok && BitsAdded(x0, x, width, Pattern(table[..]), r)
  {
    hide Grown, BitsAdded, Pattern;
    ghost var pat := Pattern(table[..]);
    x := x0;
    GrownStart(x0, width, r);
    BelowZero(table[..]);
    var i2 := 0;
    while i2 < table.Length
      invariant 0 <= i2 <= table.Length && ExtentOk(x, width) && x.nrec == x0.nrec && Grown(x0, x, width)
      invariant r < x0.nrec ==> BitsAdded(x0, x, width, Below(pat, 8 * i2), r)
    {
      var b := 0;
      while b < 8
        invariant 0 <= b <= 8 && ExtentOk(x, width) && x.nrec == x0.nrec && Grown(x0, x, width)
        invariant r < x0.nrec ==> BitsAdded(x0, x, width, Below(pat, 8 * i2 + b), r)
      {
        BelowNext(table[..], 8 * i2 + b);
        assert On(table[..], 8 * i2 + b) <==> Bit(table[i2], b);
        if Bit(table[i2], b) {
          var good;
          x, good := SetSlot(x0, x, width, Below(pat, 8 * i2 + b), 8 * i2 + b, r);
          if !good {
            return x, false;
          }
        }
        b := b + 1;
      }
      i2 := i2 + 1;
    }
    BelowAll(table[..]);
    ok := true;
  }

  lemma GrownStart(x: Extent, width: int, r: int)
    requires ExtentOk(x, width)
    ensures Grown(x, x, width) && BitsAdded(x, x, width, {}, r)
  {
  }

  lemma BelowZero(h: seq<bv8>)
    ensures Below(Pattern(h), 0) == {}
  {
  }

  lemma BelowAll(h: seq<bv8>)
    ensures Below(Pattern(h), 8 * |h|) == Pattern(h)
  {
  }

  lemma BelowNext(h: seq<bv8>, s: int)
    requires 0 <= s < 8 * |h|
    ensures Below(Pattern(h), s + 1) == if On(h, s) then Below(Pattern(h), s) + {s} else Below(Pattern(h), s)
    ensures s in Pattern(h) <==> On(h, s)
  {
  }

  /** The read-modify-write of one byte. */
  method SetSlot(ghost x0: Extent, x: Extent, width: int, ghost done: set<int>, s: int, r: int) returns (x': Extent, good: bool)
    requires ExtentOk(x0, width) && ExtentOk(x, width) && x.nrec == x0.nrec && 0 <= s < width && 0 <= r
    requires Grown(x0, x, width) && (r < x0.nrec ==> BitsAdded(x0, x, width, done, r))
    ensures ExtentOk(x', width) && x'.nrec == x0.nrec && Grown(x0, x', width)
    ensures r < x0.nrec ==> good && BitsAdded(x0, x', width, done + {s}, r)
  {
    hide Filed, BitsAdded;
    var k := Pos(s, x.nrec / 8, r / 8);
    if r < x.nrec {
      PosInside(s, x.nrec / 8, r / 8, width);
    }
    if !(0 <= k < |x.data|) {
      return x, false;
    }
    x' := x.(data := x.data[k := x.data[k] | Mask(r % 8)]);
    SetAny(x, x', width, k, r % 8);
    if r < x.nrec {
      SetOne(x, x', width, s, r);
      BitsAddedTrans(x0, x, x', width, done, s, r);
    }
    good := true;
  }

  /** Turn bit r of a window on; `bit` is its place within the byte. */
  method TurnOn(h: array<bv8>, cnt: int, r: int, bit: int)
    requires 0 <= cnt <= h.Length && 0 <= r < 8 * cnt && bit == r % 8
    modifies h
    ensures forall q :: On(h[..cnt], q) <==> old(On(h[..cnt], q)) || q == r
  {
    ghost var before := h[..cnt];
    var i2 := r / 8;
    h[i2] := h[i2] | Mask(bit);
    assert h[..cnt] == before[r / 8 := before[r / 8] | Mask(r % 8)];
    forall q
      ensures On(h[..cnt], q) <==> On(before, q) || q == r
    {
      OnAfterSet(before, r, q);
    }
  }

  /** Does every slot of `a` appear in `b`? */
  method CoversTable(a: array<bv8>, b: array<bv8>) returns (covers: bool)
    requires a.Length == b.Length
    ensures covers <==> Pattern(a[..]) <= Pattern(b[..])
  {
    hide Pattern;
    var i := 0;
    while i < a.Length
      invariant 0 <= i <= a.Length
      invariant forall j :: 0 <= j < i ==> a[j] & b[j] == a[j]
    {
      if a[i] & b[i] != a[i] {
        ByteMissing(a[..], b[..], i);
        return false;
      }
      i := i + 1;
    }
    AllCovered(a[..], b[..]);
    return true;
  }

  lemma AllCovered(a: seq<bv8>, b: seq<bv8>)
    requires |a| == |b| && forall j :: 0 <= j < |a| ==> a[j] & b[j] == a[j]
    ensures Pattern(a) <= Pattern(b)
  {
    forall s | s in Pattern(a)
      ensures s in Pattern(b)
    {
      AndBit(a[s / 8], b[s / 8], s % 8);
    }
  }

  lemma ByteMissing(a: seq<bv8>, b: seq<bv8>, i: nat)
    requires i < |a| == |b| && a[i] & b[i] != a[i]
    ensures !(Pattern(a) <= Pattern(b))
  {
    var k := BitMissing(a[i], b[i]);
    assert On(a, 8 * i + k) && !On(b, 8 * i + k);
    assert 8 * i + k in Pattern(a) && 8 * i + k !in Pattern(b);
  }

  lemma AllBits(a: bv8, b: bv8)
    requires forall k :: 0 <= k < 8 ==> (Bit(a, k) ==> Bit(b, k))
    ensures a & b == a
  {
    assert (Bit(a, 0) ==> Bit(b, 0)) && (Bit(a, 1) ==> Bit(b, 1)) && (Bit(a, 2) ==> Bit(b, 2)) &&
           (Bit(a, 3) ==> Bit(b, 3)) && (Bit(a, 4) ==> Bit(b, 4)) && (Bit(a, 5) ==> Bit(b, 5)) &&
           (Bit(a, 6) ==> Bit(b, 6)) && (Bit(a, 7) ==> Bit(b, 7));
  }

  lemma BitMissing(a: bv8, b: bv8) returns (k: int)
    requires a & b != a
    ensures 0 <= k < 8 && Bit(a, k) && !Bit(b, k)
  {
    hide Bit;
    if forall j :: 0 <= j < 8 ==> (Bit(a, j) ==> Bit(b, j)) {
      AllBits(a, b);
      assert false;
    }
    k :| 0 <= k < 8 && Bit(a, k) && !Bit(b, k);
  }

  // --- a walk in progress while a record is inserted --------------------------------------------------

  /** `b` has the bits of `a` below record number `hi`, plus those of the slots `pat` at number n. */
  ghost predicate FileGains(a: seq<Extent>, b: seq<Extent>, width: int, pat: set<int>, n: int, hi: int)
    requires ChainOk(a, width) && ChainOk(b, width)
  {
    && Total(a) <= Total(b)
    && forall s, q :: q < hi ==> (At(b, width, s, q) <==> At(a, width, s, q) || (s in pat && q == n))
  }

  /** Bits added to one extent are gained by the file. */
  lemma GainsInPlace(a: seq<Extent>, b: seq<Extent>, width: int, e: nat, x: Extent, rec: set<int>, n: int)
    requires ChainOk(a, width) && e < |a| && b == a[e := x] && ExtentOk(x, width)
    requires InExtent(a, e, n) && BitsAdded(a[e], x, width, rec, n - StartOf(a, e))
    ensures ChainOk(b, width) && Total(b) == Total(a) && FileGains(a, b, width, rec, n, Total(b))
  {
    hide Filed, ExtentOk, At;
    assert x.nrec == a[e].nrec;
    SameStarts(a, b, |a|);
    forall s, q
      ensures At(b, width, s, q) <==> At(a, width, s, q) || (s in rec && q == n)
    {
      ChainBitsAdded(a, b, width, e, rec, n, s, q);
    }
  }

  lemma AtPrefix(a: seq<Extent>, b: seq<Extent>, width: int, s: int, q: int)
    requires ChainOk(a, width) && ChainOk(b, width) && a <= b && q < Total(a)
    ensures At(b, width, s, q) <==> At(a, width, s, q)
  {
    hide Filed, ExtentOk, At;
    if 0 <= q {
      var i := Locate(a, width, q, |a|);
      SameStarts(a, b, i);
      assert a[i] == b[i];
      AtLocal(a, width, i, s, q);
      AtLocal(b, width, i, s, q);
    } else {
      OutsideTotal(a, width, s, q);
      OutsideTotal(b, width, s, q);
    }
  }

  /** Extents added at the end do not change what is filed below them. */
  lemma GainsNothingBelow(a: seq<Extent>, b: seq<Extent>, width: int, n: int)
    requires ChainOk(a, width) && ChainOk(b, width) && a <= b
    ensures FileGains(a, b, width, {}, n, Total(a))
  {
    hide At, ExtentOk;
    SameStarts(a, b, |a|);
    StartMono(b, width, |a|, |b|);
    forall s, q | q < Total(a)
      ensures At(b, width, s, q) <==> At(a, width, s, q)
    {
      AtPrefix(a, b, width, s, q);
    }
  }

  lemma GainsByAppending(a: seq<Extent>, b: seq<Extent>, x: Extent, width: int, n: int)
    requires ChainOk(a, width) && ExtentOk(x, width) && b == a + [x]
    requires forall i :: 0 <= i < |x.data| ==> x.data[i] == 0
    ensures ChainOk(b, width) && Total(b) == Total(a) + x.nrec && StartOf(b, |a|) == Total(a)
    ensures forall s, q :: At(b, width, s, q) <==> At(a, width, s, q)
  {
    hide Filed, ExtentOk, At;
    AppendedChain(a, x, width);
    forall s, q
      ensures At(b, width, s, q) <==> At(a, width, s, q)
    {
      Appended(a, b, x, width, s, q);
    }
  }

  /** aioinsert's way to the extent of a record number: e == |exts| when it lies past the end. */
  method FindExtent(exts: seq<Extent>, width: int, n: int) returns (e: nat, start: int)
    requires ChainOk(exts, width) && 0 <= n
    ensures e <= |exts| && start == StartOf(exts, e) <= n
    ensures e < |exts| ==> InExtent(exts, e, n)
    ensures e == |exts| <==> Total(exts) <= n
  {
    hide ExtentOk;
    e, start := 0, 0;
    while e < |exts| && n >= start + exts[e].nrec
      invariant 0 <= e <= |exts| && start == StartOf(exts, e) <= n
      decreases |exts| - e
    {
      e, start := e + 1, start + exts[e].nrec;
    }
    if e < |exts| {
      InTotal(exts, width, e, n);
    }
  }

  /** A new extent, large enough for a record d places past the end if GrowthFits says so. */
  method NewExtent(width: int, step: int, d: int) returns (x: Extent)
    requires 0 < width && 0 < step && 0 <= d
    ensures ExtentOk(x, width) && x.nrec == GrowBy(step, d)
    ensures forall i :: 0 <= i < |x.data| ==> x.data[i] == 0
  {
    var n := GrowBy(step, d);
    MulStep(0, width, n / 8);
    x := Extent(n, seq<bv8>(width * (n / 8), _ => 0));
  }

  /** The record number can be filed where aioinsert puts it: it is inside the file already, or
      inside the extent that is appended for it. */
  predicate Fits(exts: seq<Extent>, sxnrec: int, n: int) {
    var d := n - Total(exts);
    d < 0 || d < sxnrec || d % 32 != 0
  }

  function TotalAfter(exts: seq<Extent>, sxnrec: int, n: int): int {
    if n < Total(exts) then Total(exts) else Total(exts) + GrowBy(sxnrec, n - Total(exts))
  }

  /** Set a record's bits in the file, appending an extent first if need be. */
  method PlaceBits(exts: seq<Extent>, width: int, sxnrec: int, table: array<bv8>, n: int)
    returns (exts': seq<Extent>, ok: bool)
    requires ChainOk(exts, width) && 0 < width && 0 < sxnrec && 0 <= n
    requires forall s :: s in Pattern(table[..]) ==> 0 <= s < width
    ensures ChainOk(exts', width) && Total(exts') == TotalAfter(exts, sxnrec, n)
    ensures |exts'| == |exts| + if n < Total(exts) then 0 else 1
    ensures forall i :: 0 <= i < |exts| ==> exts'[i].nrec == exts[i].nrec
    ensures if Fits(exts, sxnrec, n)
            then ok && n < Total(exts') && FileGains(exts, exts', width, Pattern(table[..]), n, Total(exts'))
            else FileGains(exts, exts', width, {}, n, Total(exts))
  {
    hide ExtentOk, BitsAdded, Grown, At, Pattern, FileGains;
    var e, start := FindExtent(exts, width, n);
    if e < |exts| {
      var x;
      x, ok := SetBits(exts[e], width, table, n - start);
      exts' := exts[e := x];
      GainsInPlace(exts, exts', width, e, x, Pattern(table[..]), n);
      InTotal(exts, width, e, n);
      return;
    }
    exts', ok := PlaceInNew(exts, width, sxnrec, table, n);
  }

  method PlaceInNew(exts: seq<Extent>, width: int, sxnrec: int, table: array<bv8>, n: int)
    returns (exts': seq<Extent>, ok: bool)
    requires ChainOk(exts, width) && 0 < width && 0 < sxnrec && Total(exts) <= n
    requires forall s :: s in Pattern(table[..]) ==> 0 <= s < width
    ensures ChainOk(exts', width) && Total(exts') == Total(exts) + GrowBy(sxnrec, n - Total(exts))
    ensures |exts'| == |exts| + 1 && exts <= exts'
    ensures if Fits(exts, sxnrec, n)
            then ok && n < Total(exts') && FileGains(exts, exts', width, Pattern(table[..]), n, Total(exts'))
            else FileGains(exts, exts', width, {}, n, Total(exts))
  {
    hide ExtentOk, BitsAdded, Grown, At, Pattern;
    var d := n - Total(exts);
    var x0 := NewExtent(width, sxnrec, d);
    var x;
    x, ok := SetBits(x0, width, table, d);
    exts' := exts + [x];
    GrowthFits(sxnrec, d);
    ghost var mid := exts + [x0];
    GainsByAppending(exts, mid, x0, width, n);
    AppendedChain(exts, x, width);
    if d < x0.nrec {
      assert exts' == mid[|exts| := x];
      GainsInPlace(mid, exts', width, |exts|, x, Pattern(table[..]), n);
    } else {
      GainsNothingBelow(exts, exts', width, n);
    }
  }

  lemma CandAfter(v: View, v': View, rec: set<int>, n: int, hi: int, q: int)
    requires ChainOk(v.exts, v.width) && ChainOk(v'.exts, v.width) && v'.width == v.width && v'.pat == v.pat
    requires FileGains(v.exts, v'.exts, v.width, rec, n, hi) && q < hi && 0 <= q < Total(v.exts)
    ensures q != n ==> (Cand(v'.exts, v.width, v.pat, q) <==> Cand(v.exts, v.width, v.pat, q))
    ensures Cand(v.exts, v.width, v.pat, q) || (q == n && v.pat <= rec) ==> Cand(v'.exts, v.width, v.pat, q)
  {
    hide At, ExtentOk;
  }

  /** The candidates hidden after inserting number n, given whether the window shows n. */
  ghost function HiddenAfter(hidden: set<int>, n: int, inWindow: bool, shown: bool, covers: bool): set<int> {
    if inWindow then (if shown then hidden - {n} else hidden + {n})
    else if covers then hidden - {n} else hidden
  }

  /** AND-buffer coherence: after an insertion that turns the record's bit on in the window exactly
      when the record's own slots cover the pattern, the window again shows exactly the visible
      candidates; the only one it may fail to show is a record number whose bits came together from
      several insertions. */
  lemma ShowsAfterInsert(v: View, v': View, window: seq<bv8>, window': seq<bv8>, at: int, rec: set<int>, n: int)
    requires ChainOk(v.exts, v.width) && ChainOk(v'.exts, v.width) && v'.width == v.width && v'.pat == v.pat
    requires Shows(v, window, at) && 0 <= at && at + 8 * |window| <= Total(v.exts)
    requires FileGains(v.exts, v'.exts, v.width, rec, n, at + 8 * |window|)
    requires |window'| == |window|
    requires forall r :: 0 <= r < 8 * |window| ==>
               (On(window', r) <==> On(window, r) || (v.pat <= rec && r == n - at))
    requires at <= n < at + 8 * |window| ==> v'.hidden == HiddenAfter(v.hidden, n, true, On(window', n - at), v.pat <= rec)
    requires !(at <= n < at + 8 * |window|) ==> v'.hidden == HiddenAfter(v.hidden, n, false, false, v.pat <= rec)
    ensures Shows(v', window', at)
  {
    hide Cand, ExtentOk, FileGains, On;
    forall r | 0 <= r < 8 * |window'|
      ensures On(window', r) <==> Live(v', at + r)
    {
      CandAfter(v, v', rec, n, at + 8 * |window|, at + r);
      assert On(window, r) <==> Live(v, at + r);
    }
  }

  /** Inserting keeps every stored record visible whose own slots cover the pattern. */
  lemma VisibleAfterInsert(
    lay: Layout, v: View, stored: set<(int, seq<byte>)>, window: seq<bv8>, at: int, n: int, buf: seq<byte>,
    inWindow: bool, shown: bool)
    requires lay.Valid() && ChainOk(v.exts, v.width)
    requires StoredOk(v.exts, v.width, lay, stored) && StoredVisible(lay, v.pat, stored, v.hidden)
    requires inWindow ==> at <= n < at + 8 * |window| && Shows(v, window, at)
    requires inWindow ==> (shown <==> On(window, n - at) || v.pat <= lay.RecordPattern(buf))
    ensures StoredVisible(lay, v.pat, stored + {(n, buf)},
              HiddenAfter(v.hidden, n, inWindow, shown, v.pat <= lay.RecordPattern(buf)))
  {
    hide ExtentOk, At;
    var hidden' := HiddenAfter(v.hidden, n, inWindow, shown, v.pat <= lay.RecordPattern(buf));
    forall p | p in stored + {(n, buf)} && v.pat <= lay.RecordPattern(p.1)
      ensures p.0 !in hidden'
    {
      if p in stored && p.0 == n {
        assert IsFiled(v.exts, v.width, lay, p.0, p.1);
        assert Cand(v.exts, v.width, v.pat, n);
        if inWindow {
          assert On(window, n - at) <==> Live(v, at + (n - at));
        }
      }
    }
  }

  /** Records filed before are filed after. */
  lemma StoredStill(a: seq<Extent>, b: seq<Extent>, width: int, lay: Layout, stored: set<(int, seq<byte>)>, rec: set<int>, n: int)
    requires lay.Valid() && ChainOk(a, width) && ChainOk(b, width)
    requires StoredOk(a, width, lay, stored) && FileGains(a, b, width, rec, n, Total(a))
    ensures StoredOk(b, width, lay, stored)
  {
    hide ExtentOk, At;
    forall p | p in stored
      ensures IsFiled(b, width, lay, p.0, p.1)
    {
      assert IsFiled(a, width, lay, p.0, p.1);
    }
  }

  /** The record just placed is filed. */
  lemma NewlyFiled(a: seq<Extent>, b: seq<Extent>, width: int, lay: Layout, n: int, buf: seq<byte>)
    requires lay.Valid() && lay.Covers(buf) && ChainOk(a, width) && ChainOk(b, width) && 0 <= n < Total(b)
    requires FileGains(a, b, width, lay.RecordPattern(buf), n, Total(b))
    ensures IsFiled(b, width, lay, n, buf)
  {
    hide ExtentOk, At;
  }

  /** The current extent is still where it was. */
  lemma ExtentStill(a: seq<Extent>, b: seq<Extent>, width: int, e: int, exfrec: int, exnrec: int)
    requires ChainOk(a, width) && ChainOk(b, width) && |a| <= |b|
    requires forall i :: 0 <= i < |a| ==> b[i].nrec == a[i].nrec
    requires ExtentAt(a, e, exfrec, exnrec)
    ensures ExtentAt(b, e, exfrec, exnrec) && exfrec + exnrec <= Total(a) <= Total(b)
  {
    hide ExtentOk;
    SameStarts(a, b, e);
    SameStarts(a, b, |a|);
    StartMono(a, width, e, |a|);
    StartMono(b, width, |a|, |b|);
  }

  lemma GainsNarrower(a: seq<Extent>, b: seq<Extent>, width: int, rec: set<int>, n: int, hi: int, hi': int)
    requires ChainOk(a, width) && ChainOk(b, width) && FileGains(a, b, width, rec, n, hi) && hi' <= hi
    ensures FileGains(a, b, width, rec, n, hi')
  {
  }

  lemma StoredAfter(a: seq<Extent>, b: seq<Extent>, width: int, lay: Layout, stored: set<(int, seq<byte>)>, n: int, buf: seq<byte>)
    requires lay.Valid() && lay.Covers(buf) && ChainOk(a, width) && ChainOk(b, width) && 0 <= n < Total(b)
    requires Total(a) <= Total(b) && FileGains(a, b, width, lay.RecordPattern(buf), n, Total(b))
    requires StoredOk(a, width, lay, stored)
    ensures StoredOk(b, width, lay, stored + {(n, buf)})
  {
    hide ExtentOk, FileGains, IsFiled;
    GainsNarrower(a, b, width, lay.RecordPattern(buf), n, Total(b), Total(a));
    StoredStill(a, b, width, lay, stored, lay.RecordPattern(buf), n);
    NewlyFiled(a, b, width, lay, n, buf);
  }

  lemma HiddenBounds(hidden: set<int>, n: int, inWindow: bool, shown: bool, covers: bool)
    requires inWindow && covers ==> shown
    ensures HiddenAfter(hidden, n, inWindow, shown, covers) <= hidden + {n}
    ensures covers ==> n !in HiddenAfter(hidden, n, inWindow, shown, covers)
  {
  }

  /** Gaining no slots is gaining nothing, whichever record number is named. */
  lemma GainsNobody(a: seq<Extent>, b: seq<Extent>, width: int, n: int, hi: int)
    requires ChainOk(a, width) && ChainOk(b, width) && FileGains(a, b, width, {}, n, hi)
    ensures FileGains(a, b, width, {}, -1, hi)
  {
    hide ExtentOk, At;
  }
}

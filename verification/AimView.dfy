/** The invariant of the index walk (aio.c), as predicates on plain values, and the steps of the
    argument that a window scan finds the nearest candidate. */
module AimView {
  import opened Bits
  import opened Bytes
  import opened AimFile
  import opened AimHash
  import opened AimWindow

  const ANDSIZE := 4096

  /** What a walk looks at: the file, the slots demanded, and the candidates it does not show. */
  datatype View = View(exts: seq<Extent>, width: int, pat: set<int>, hidden: set<int>)

  ghost predicate Live(v: View, n: int)
    requires ChainOk(v.exts, v.width)
  {
    Cand(v.exts, v.width, v.pat, n) && n !in v.hidden
  }

  /** n is the first visible candidate at or after `from`. */
  ghost predicate IsNext(v: View, n: int, from: int)
    requires ChainOk(v.exts, v.width)
  {
    from <= n && Live(v, n) && NoneIn(v, from, n)
  }

  /** n is the last visible candidate at or before `to`. */
  ghost predicate IsPrev(v: View, n: int, to: int)
    requires ChainOk(v.exts, v.width)
  {
    n <= to && Live(v, n) && NoneIn(v, n + 1, to + 1)
  }

  ghost predicate NoneIn(v: View, lo: int, hi: int)
    requires ChainOk(v.exts, v.width)
  {
    forall q :: lo <= q < hi ==> !Live(v, q)
  }

  /** The window shows exactly the visible candidates from record number `at` on. */
  ghost predicate Shows(v: View, window: seq<bv8>, at: int)
    requires ChainOk(v.exts, v.width)
  {
    forall r :: 0 <= r < 8 * |window| ==> (On(window, r) <==> Live(v, at + r))
  }

  lemma AlignedSpan(lo: int, hi: int)
    requires lo % 8 == 0 && hi % 8 == 0
    ensures hi == lo + 8 * ((hi - lo) / 8)
  {
  }

  lemma AlignedBase(exts: seq<Extent>, width: int, e: nat, at: int)
    requires ChainOk(exts, width) && e < |exts| && at % 8 == 0 && StartOf(exts, e) <= at
    ensures 8 * ((at - StartOf(exts, e)) / 8) == at - StartOf(exts, e)
  {
    StartMono(exts, width, e, e);
  }

  lemma LiveLocal(v: View, e: nat, n: int, r: int)
    requires ChainOk(v.exts, v.width) && e < |v.exts| && n !in v.hidden
    requires r == n - StartOf(v.exts, e) && 0 <= r < v.exts[e].nrec
    ensures Live(v, n) <==> AllFiled(v.exts[e], v.width, v.pat, r)
  {
    CandLocal(v.exts, v.width, v.pat, e, n);
  }

  /** A full window from `at`, cut at the end of the extent, is aligned and inside the file. */
  lemma WindowBounds(exts: seq<Extent>, width: int, e: nat, at: int, hi: int)
    requires ChainOk(exts, width) && e < |exts| && at % 8 == 0
    requires StartOf(exts, e) <= at < StartOf(exts, e) + exts[e].nrec
    requires hi == (if at + 8 * ANDSIZE > StartOf(exts, e) + exts[e].nrec then StartOf(exts, e) + exts[e].nrec
                    else at + 8 * ANDSIZE)
    ensures hi % 8 == 0 && at < hi <= Total(exts) && hi <= StartOf(exts, e) + exts[e].nrec
  {
    hide ExtentOk;
    StartMono(exts, width, e, |exts|);
    StartMono(exts, width, e + 1, e + 1);
  }

  /** A window that holds the AND of the chosen slots of extent e shows the visible candidates. */
  lemma ShowsContent(v: View, window: seq<bv8>, at: int, e: nat, start: int, base: int)
    requires ChainOk(v.exts, v.width) && e < |v.exts|
    requires StartOf(v.exts, e) == start <= at && at + 8 * |window| <= start + v.exts[e].nrec
    requires at == start + 8 * base
    requires Content(window, v.exts[e], v.width, v.pat, base)
    requires forall n :: n in v.hidden ==> !(at <= n < at + 8 * |window|)
    ensures Shows(v, window, at)
  {
    forall r | 0 <= r < 8 * |window|
      ensures On(window, r) <==> Live(v, at + r)
    {
      LiveLocal(v, e, at + r, 8 * base + r);
    }
  }

  /** A narrowed window has no set bit below its first or above its last nonzero byte. */
  lemma NarrowedBits(window: seq<bv8>, lo: int, hi: int, r: int)
    requires 0 <= lo <= hi <= |window| && ZeroOutside(window, lo, hi) && On(window, r)
    ensures lo <= r / 8 < hi
  {
    ZeroByte(window[r / 8]);
  }

  /** Un-hiding candidates at or above `at` does not affect what is visible below it. */
  lemma NoneKept(v: View, v': View, lo: int, at: int)
    requires ChainOk(v.exts, v.width) && NoneIn(v, lo, at)
    requires v' == v.(hidden := v'.hidden) && forall n :: n in v.hidden && n < at ==> n in v'.hidden
    ensures NoneIn(v', lo, at)
  {
    forall q | lo <= q < at
      ensures !Live(v', q)
    {
      assert !Live(v, q);
    }
  }

  lemma NoneBelow(v: View, lo: int, mid: int, hi: int)
    requires ChainOk(v.exts, v.width) && NoneIn(v, lo, hi) && mid <= hi
    ensures NoneIn(v, lo, mid)
  {
  }

  lemma ShowsEmpty(v: View, window: seq<bv8>, at: int)
    requires ChainOk(v.exts, v.width) && window == []
    ensures Shows(v, window, at)
  {
  }

  lemma NoneEmpty(v: View, at: int)
    requires ChainOk(v.exts, v.width)
    ensures NoneIn(v, at, at)
  {
  }

  /** The first set bit of a window, seen as a record number. */
  lemma WindowFirst(v: View, window: seq<bv8>, at: int, r: int, rec: int, from: int)
    requires ChainOk(v.exts, v.width) && Shows(v, window, at) && NoneIn(v, from, at)
    requires from == rec || from <= at
    requires rec - at <= r && 0 <= r < 8 * |window| && On(window, r)
    requires forall q :: rec - at <= q < r ==> !On(window, q)
    requires rec <= from
    ensures IsNext(v, at + r, from)
  {
    assert On(window, r) <==> Live(v, at + r);
    forall q | from <= q < at + r
      ensures !Live(v, q)
    {
      if at <= q {
        assert On(window, q - at) <==> Live(v, at + (q - at));
      }
    }
  }

  lemma WindowNone(v: View, window: seq<bv8>, at: int, rec: int, from: int)
    requires ChainOk(v.exts, v.width) && Shows(v, window, at) && NoneIn(v, from, at) && rec <= from
    requires forall q :: rec - at <= q ==> !On(window, q)
    ensures NoneIn(v, from, at + 8 * |window|)
  {
    forall q | from <= q < at + 8 * |window|
      ensures !Live(v, q)
    {
      if at <= q {
        assert On(window, q - at) <==> Live(v, at + (q - at));
      }
    }
  }

  /** The last set bit of a window, seen as a record number. */
  lemma WindowLast(v: View, window: seq<bv8>, at: int, r: int, rec: int)
    requires ChainOk(v.exts, v.width) && Shows(v, window, at) && NoneIn(v, at + 8 * |window|, rec + 1)
    requires 0 <= r <= rec - at && r < 8 * |window| && On(window, r)
    requires forall q :: r < q <= rec - at ==> !On(window, q)
    ensures IsPrev(v, at + r, rec)
  {
    assert On(window, r) <==> Live(v, at + r);
    forall q | at + r < q <= rec
      ensures !Live(v, q)
    {
      if q < at + 8 * |window| {
        assert On(window, q - at) <==> Live(v, at + (q - at));
      }
    }
  }

  lemma WindowNoneDown(v: View, window: seq<bv8>, at: int, rec: int)
    requires ChainOk(v.exts, v.width) && Shows(v, window, at) && NoneIn(v, at + 8 * |window|, rec + 1)
    requires forall q :: q <= rec - at ==> !On(window, q)
    ensures NoneIn(v, at, rec + 1)
  {
    forall q | at <= q < rec + 1
      ensures !Live(v, q)
    {
      if q < at + 8 * |window| {
        assert On(window, q - at) <==> Live(v, at + (q - at));
      }
    }
  }

  /** Un-hiding candidates below `at` does not affect what is visible from there on. */
  lemma NoneKeptAbove(v: View, v': View, mid: int, at: int, hi: int)
    requires ChainOk(v.exts, v.width) && NoneIn(v, mid, hi) && mid <= at
    requires v' == v.(hidden := v'.hidden) && forall n :: n in v.hidden && n >= at ==> n in v'.hidden
    ensures NoneIn(v', at, hi)
  {
    forall q | at <= q < hi
      ensures !Live(v', q)
    {
      assert !Live(v, q);
    }
  }

  lemma AtStart(exts: seq<Extent>, width: int, e: nat)
    requires ChainOk(exts, width) && e < |exts| && StartOf(exts, e) <= 0
    ensures e == 0
  {
    StartMono(exts, width, 0, e);
  }

  /** The extent that ends at or after `at` and starts before it is aligned like the window. */
  lemma WindowBoundsDown(exts: seq<Extent>, width: int, e: nat, hi: int, lo: int)
    requires ChainOk(exts, width) && e < |exts| && hi % 8 == 0
    requires StartOf(exts, e) < hi <= StartOf(exts, e) + exts[e].nrec
    requires lo == (if hi - 8 * ANDSIZE < StartOf(exts, e) then StartOf(exts, e) else hi - 8 * ANDSIZE)
    ensures lo % 8 == 0 && 0 <= StartOf(exts, e) <= lo < hi <= Total(exts)
  {
    hide ExtentOk;
    StartMono(exts, width, e, |exts|);
    StartMono(exts, width, e, e);
  }

  // --- the parts of the invariant, each a predicate on plain values --------------------------------

  ghost predicate FileOk(lay: Layout, delslot: int, exts: seq<Extent>) {
    lay.Valid() && 0 <= delslot <= 1 && ChainOk(exts, lay.slots + delslot)
  }

  /** The pattern table agrees with the lookup table it was hashed from. */
  ghost predicate KeysOk(lay: Layout, lup: seq<Entry>, keyMatch: seq<byte>, table: seq<bv8>) {
    && lay.Valid()
    && lay.TableOk(lup) && |keyMatch| == |lup|
    && Pattern(table) == lay.TablePattern(lup, keyMatch)
  }

  ghost predicate InSlots(pat: set<int>, slots: int) {
    forall s :: s in pat ==> 0 <= s < slots
  }

  ghost predicate ExtentAt(exts: seq<Extent>, exidx: int, exfrec: int, exnrec: int) {
    0 <= exidx < |exts| && exfrec == StartOf(exts, exidx) && exnrec == exts[exidx].nrec
  }

  /** The window [lo, hi) is empty or lies inside the current extent, and its bytes show the
      visible candidates. */
  ghost predicate WindowOk(v: View, exfrec: int, exend: int, lo: int, hi: int, window: seq<bv8>)
    requires ChainOk(v.exts, v.width)
  {
    && 0 <= lo <= hi && lo % 8 == 0 && hi == lo + 8 * |window|
    && (lo < hi ==> exfrec <= lo && hi <= exend)
    && Shows(v, window, lo)
  }

  /** Record `buf` is filed as number n: its bit is set in every slot of its own pattern. */
  ghost predicate IsFiled(exts: seq<Extent>, width: int, lay: Layout, n: int, buf: seq<byte>)
    requires ChainOk(exts, width) && lay.Valid()
  {
    lay.Covers(buf) && Cand(exts, width, lay.RecordPattern(buf), n)
  }

  ghost predicate StoredOk(exts: seq<Extent>, width: int, lay: Layout, stored: set<(int, seq<byte>)>)
    requires ChainOk(exts, width) && lay.Valid()
  {
    forall p :: p in stored ==> IsFiled(exts, width, lay, p.0, p.1)
  }

  /** No stored record whose own slots cover the pattern is hidden. */
  ghost predicate StoredVisible(lay: Layout, pat: set<int>, stored: set<(int, seq<byte>)>, hidden: set<int>)
    requires lay.Valid()
  {
    forall p :: p in stored && pat <= lay.RecordPattern(p.1) ==> p.0 !in hidden
  }

  lemma VisibleStill(lay: Layout, pat: set<int>, stored: set<(int, seq<byte>)>, hidden: set<int>, hidden': set<int>)
    requires lay.Valid() && StoredVisible(lay, pat, stored, hidden) && hidden' <= hidden
    ensures StoredVisible(lay, pat, stored, hidden')
  {
  }

  lemma KeyPatternInSlots(lay: Layout, e: Entry, m: byte)
    requires lay.Valid() && e.key < |lay.keys|
    ensures InSlots(lay.KeyPattern(e, m), lay.slots)
  {
    forall s | s in lay.Trigrams(e.text, |e.text|, {BLANK, m})
      ensures 0 <= s < lay.slots
    {
      var p: nat :| p < |e.text| && lay.AllPlain(e.text, p, {BLANK, m}) &&
                    s == lay.Hash(e.text[p], e.text[p + 1], e.text[p + 2]);
    }
  }

  lemma {:induction false} RecordPatternInSlots(lay: Layout, buf: seq<byte>, n: nat)
    requires lay.Valid() && n <= |lay.keys|
    ensures InSlots(lay.RecordPatternTo(buf, n), lay.slots)
  {
    if n > 0 {
      RecordPatternInSlots(lay, buf, n - 1);
      var f := lay.Field(buf, lay.keys[n - 1]);
      forall s | s in lay.Trigrams(f, |f|, {BLANK})
        ensures 0 <= s < lay.slots
      {
        var p: nat :| p < |f| && lay.AllPlain(f, p, {BLANK}) && s == lay.Hash(f[p], f[p + 1], f[p + 2]);
      }
    }
  }
}

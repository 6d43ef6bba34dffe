/** The deleted-record slot of the index file (aio.c, versions 9 and 10): one more slot after the search
    slots, whose set bits are the record numbers free for reuse, and a low-water mark in the header.
    The file is a single extent. */
module AimFree {
  import opened Bits
  import opened AimFile
  import opened AimWindow

  const CHUNK := 1024

  /** `b` is `a` with the bit of slot s turned off for record r, and nothing else. */
  ghost predicate BitRemoved(a: Extent, b: Extent, width: int, s: int, r: int)
    requires ExtentOk(a, width) && ExtentOk(b, width)
  {
    && a.nrec == b.nrec
    && forall t, q :: Filed(b, width, t, q) <==> Filed(a, width, t, q) && !(t == s && q == r)
  }

  /** Clearing one bit of one slot of an extent. */
  lemma ClearOne(a: Extent, b: Extent, width: int, s: int, r: int)
    requires ExtentOk(a, width) && 0 <= s < width && 0 <= r < a.nrec
    requires 0 <= Pos(s, a.nrec / 8, r / 8) < |a.data|
    requires b == a.(data := a.data[Pos(s, a.nrec / 8, r / 8) := a.data[Pos(s, a.nrec / 8, r / 8)] & !Mask(r % 8)])
    ensures ExtentOk(b, width) && BitRemoved(a, b, width, s, r)
  {
    var size := a.nrec / 8;
    forall t, q
      ensures Filed(b, width, t, q) <==> Filed(a, width, t, q) && !(t == s && q == r)
    {
      PosInside(s, size, r / 8, width);
      if 0 <= t < width && 0 <= q < a.nrec {
        PosInside(t, size, q / 8, width);
        ClearBit(a.data[Pos(s, size, r / 8)], r % 8, q % 8);
        if Pos(t, size, q / 8) == Pos(s, size, r / 8) {
          PosUnique(t, q / 8, s, r / 8, size);
        }
      }
    }
  }

  /** The lowest set bit of a byte. */
  method LowestBit(c: bv8) returns (k: int)
    requires c != 0
    ensures 0 <= k < 8 && Bit(c, k) && forall j :: 0 <= j < k ==> !Bit(c, j)
  {
    ZeroByte(c);
    k := 0;
    while !Bit(c, k)
      invariant 0 <= k < 8 && forall j :: 0 <= j < k ==> !Bit(c, j)
      decreases 8 - k
    {
      if k == 7 {
        assert false;
      }
      k := k + 1;
    }
  }

  /** Record r is free: its bit in the last slot, number s, is on. */
  ghost predicate IsFree(x: Extent, s: int, r: int)
    requires ExtentOk(x, s + 1)
  {
    Filed(x, s + 1, s, r)
  }

  ghost function FreeSet(x: Extent, s: int): set<int>
    requires ExtentOk(x, s + 1)
  {
    set r: int | 0 <= r < x.nrec && IsFree(x, s, r)
  }

  ghost predicate NoneBelow(x: Extent, s: int, n: int)
    requires ExtentOk(x, s + 1)
  {
    forall r :: 0 <= r < n ==> !IsFree(x, s, r)
  }

  /** A zero byte of the slot rules out eight record numbers. */
  lemma ZeroSlotByte(x: Extent, s: int, off: int)
    requires ExtentOk(x, s + 1) && 0 <= s && 0 <= off < x.nrec / 8
    requires SlotByte(x, s + 1, s, off) == 0 && NoneBelow(x, s, 8 * off)
    ensures NoneBelow(x, s, 8 * off + 8)
  {
    hide Filed;
    forall r | 8 * off <= r < 8 * off + 8
      ensures !IsFree(x, s, r)
    {
      FiledByte(x, s + 1, s, r);
      ZeroByte(SlotByte(x, s + 1, s, off));
    }
  }

  lemma FreeAdded(a: Extent, b: Extent, s: int, r: int)
    requires ExtentOk(a, s + 1) && ExtentOk(b, s + 1) && BitsAdded(a, b, s + 1, {s}, r) && 0 <= r < a.nrec
    ensures FreeSet(b, s) == FreeSet(a, s) + {r}
  {
    hide Filed;
    forall q
      ensures IsFree(b, s, q) <==> IsFree(a, s, q) || q == r
    {
      assert Filed(b, s + 1, s, q) <==> Filed(a, s + 1, s, q) || (s in {s} && q == r);
    }
  }

  lemma FreeRemoved(a: Extent, b: Extent, s: int, r: int)
    requires ExtentOk(a, s + 1) && ExtentOk(b, s + 1) && BitRemoved(a, b, s + 1, s, r)
    ensures FreeSet(b, s) == FreeSet(a, s) - {r}
  {
    hide Filed;
    forall q
      ensures IsFree(b, s, q) <==> IsFree(a, s, q) && q != r
    {
      assert Filed(b, s + 1, s, q) <==> Filed(a, s + 1, s, q) && !(s == s && q == r);
    }
  }

  /** The lowest bit of the first nonzero byte is the smallest free record number. */
  lemma LowestFree(x: Extent, s: int, off: int, c: bv8, k: int)
    requires ExtentOk(x, s + 1) && 0 <= s && 0 <= off < x.nrec / 8 && 0 <= k < 8
    requires NoneBelow(x, s, 8 * off)
    requires c == SlotByte(x, s + 1, s, off) && Bit(c, k) && forall j :: 0 <= j < k ==> !Bit(c, j)
    ensures 8 * off + k in FreeSet(x, s) && forall r :: r in FreeSet(x, s) ==> 8 * off + k <= r
  {
    hide Filed;
    forall r | 8 * off <= r <= 8 * off + k
      ensures IsFree(x, s, r) <==> r == 8 * off + k
    {
      FiledByte(x, s + 1, s, r);
    }
  }

  lemma NoneFree(x: Extent, s: int)
    requires ExtentOk(x, s + 1) && NoneBelow(x, s, x.nrec)
    ensures FreeSet(x, s) == {}
  {
  }

  /** A header value of 0 says that the set is empty; otherwise no member lies in a byte below that of
      the record number it stands for. */
  ghost predicate MarkOk(free: set<int>, mark: int) {
    forall r :: r in free ==> mark > 0 && (mark - 1) / 8 <= r / 8
  }

  lemma NoMark(free: set<int>)
    requires MarkOk(free, 0)
    ensures free == {}
  {
    forall r
      ensures r !in free
    {
    }
  }

  /** Nothing is free below the byte of the low-water mark. */
  lemma NoneBelowMark(x: Extent, s: int, low: int)
    requires ExtentOk(x, s + 1) && 0 <= s && low <= x.nrec
    requires MarkOk(FreeSet(x, s), low + 1)
    ensures NoneBelow(x, s, low / 8 * 8)
  {
    forall r | 0 <= r < low / 8 * 8
      ensures !IsFree(x, s, r)
    {
      assert r in FreeSet(x, s) <==> IsFree(x, s, r);
    }
  }

  class FreeRecords {
    const slots: int              // number of search slots; the deleted-record slot comes after them
    var ext: Extent
    var mark: int                 // header: 0, or one more than a record number
    var precnum: int

    /** The record numbers that may be reused. */
    ghost function Free(): set<int>
      requires ExtentOk(ext, slots + 1)
      reads this
    {
      FreeSet(ext, slots)
    }

    /** The low-water mark never lies above the byte of the lowest free record. */
    ghost predicate Valid()
      reads this
    {
      && 0 < slots && ExtentOk(ext, slots + 1)
      && 0 <= mark <= ext.nrec
      && MarkOk(Free(), mark)
    }

    constructor (slots: int, nrec: int)
      requires 0 < slots && 0 < nrec && nrec % 8 == 0
      ensures Valid() && Free() == {} && this.slots == slots && ext.nrec == nrec
    {
      MulStep(0, slots + 1, nrec / 8);
      this.slots := slots;
      ext := Extent(nrec, seq<bv8>((slots + 1) * (nrec / 8), _ => 0));
      mark, precnum := 0, 0;
      new;
      forall r
        ensures !IsFree(ext, slots, r)
      {
        if 0 <= r < nrec {
          PosInside(slots, nrec / 8, r / 8, slots + 1);
          ZeroByte(0);
        }
      }
    }

    /** aiodelrec: add the shared record number to the set, if the file covers it. */
    method DelRec() returns (code: int)
      requires Valid() && 0 <= precnum
      modifies `ext, `mark
      ensures Valid() && ext.nrec == old(ext.nrec)
      ensures code == if precnum < ext.nrec then 0 else 1
      ensures code == 0 ==> Free() == old(Free()) + {precnum}
      ensures code == 0 ==> BitsAdded(old(ext), ext, slots + 1, {slots}, precnum)
      ensures code == 1 ==> ext == old(ext) && mark == old(mark)
    {
      var recnum := precnum;
      if recnum >= ext.nrec {
        return 1;
      }
      var size := ext.nrec / 8;
      PosInside(slots, size, recnum / 8, slots + 1);
      var k := Pos(slots, size, recnum / 8);
      ghost var before := ext;
      ext := ext.(data := ext.data[k := ext.data[k] | Mask(recnum % 8)]);
      SetOne(before, ext, slots + 1, slots, recnum);
      FreeAdded(before, ext, slots, recnum);
      hide Filed, BitsAdded, FreeSet, ExtentOk;
      var low := if mark == 0 then recnum + 8 else mark - 1;
      if recnum / 8 < low / 8 {
        mark := recnum + 1;
      }
      return 0;
    }

    /** aiogetrec: take the smallest record number out of the set, or report that there is none. */
    method GetRec() returns (code: int)
      requires Valid()
      modifies `ext, `mark, `precnum
      ensures Valid() && ext.nrec == old(ext.nrec)
      ensures code == if old(Free()) == {} then 1 else 0
      ensures code == 0 ==> precnum in old(Free()) && forall r :: r in old(Free()) ==> precnum <= r
      ensures code == 0 ==> Free() == old(Free()) - {precnum}
      ensures code == 0 ==> BitRemoved(old(ext), ext, slots + 1, slots, precnum)
      ensures code == 1 ==> ext == old(ext) && mark == 0 && precnum == old(precnum)
    {
      hide Filed, BitRemoved, FreeSet;
      if mark == 0 {
        NoMark(Free());
        return 1;
      }
      var recnum := mark - 1;
      NoneBelowMark(ext, slots, recnum);
      var off, found := FindByte(recnum / 8);
      if !found {
        mark := 0;
        return 1;
      }
      var size := ext.nrec / 8;
      var c := SlotByte(ext, slots + 1, slots, off);
      var i4 := LowestBit(c);
      var n := 8 * off + i4;
      LowestFree(ext, slots, off, c, i4);
      PosInside(slots, size, off, slots + 1);
      var k := Pos(slots, size, off);
      ghost var before := ext;
      ext := ext.(data := ext.data[k := c & !Mask(i4)]);
      ClearOne(before, ext, slots + 1, slots, n);
      FreeRemoved(before, ext, slots, n);
      if n / 8 != recnum / 8 {
        mark := n + 1;
      }
      precnum := n;
      return 0;
    }

    /** Read the slot in chunks, from byte `from` on, for a byte with a bit turned on. */
    method FindByte(from: int) returns (off: int, found: bool)
      requires Valid() && 0 <= from < ext.nrec / 8
      requires NoneBelow(ext, slots, 8 * from)
      ensures found ==> from <= off < ext.nrec / 8 && SlotByte(ext, slots + 1, slots, off) != 0
      ensures found ==> NoneBelow(ext, slots, 8 * off)
      ensures !found ==> Free() == {}
    {
      hide Filed;
      var size := ext.nrec / 8;
      var offwork, offwork3 := from, size - from;
      while offwork3 != 0
        invariant 0 <= offwork3 == size - offwork
        invariant from <= offwork && NoneBelow(ext, slots, 8 * offwork)
        decreases offwork3
      {
        var i2 := if offwork3 < CHUNK then offwork3 else CHUNK;
        var i3 := 0;
        while i3 < i2 && SlotByte(ext, slots + 1, slots, offwork + i3) == 0
          invariant 0 <= i3 <= i2 && NoneBelow(ext, slots, 8 * (offwork + i3))
        {
          ZeroSlotByte(ext, slots, offwork + i3);
          i3 := i3 + 1;
        }
        if i3 != i2 {
          return size - offwork3 + i3, true;
        }
        offwork, offwork3 := offwork + i2, offwork3 - i2;
      }
      NoneFree(ext, slots);
      return 0, false;
    }
  }

  /** Deletion and reuse together are a sorted set: taking records until there are none returns
      every free record once, in increasing order. */
  method Drain(f: FreeRecords) returns (taken: seq<int>)
    requires f.Valid()
    modifies f
    ensures f.Valid() && f.Free() == {}
    ensures Increasing(taken)
    ensures forall r :: r in taken <==> r in old(f.Free())
  {
    hide ExtentOk, Filed, BitRemoved, FreeSet, Increasing;
    taken := [];
    IncreasingNone();
    var code := f.GetRec();
    while code == 0
      invariant f.Valid() && (code == 0 || code == 1)
      invariant code == 1 ==> f.Free() == {}
      invariant Increasing(taken)
      invariant forall r :: r in old(f.Free()) <==> r in taken || r in f.Free() || (code == 0 && r == f.precnum)
      invariant code == 0 ==> forall r :: r in f.Free() ==> f.precnum < r
      invariant code == 0 ==> forall r :: r in taken ==> r < f.precnum
      decreases code == 0, f.Free()
    {
      IncreasingMore(taken, f.precnum);
      taken := taken + [f.precnum];
      code := f.GetRec();
    }
  }

  // --- later extents ----------------------------------------------------------------------------------

  /** Byte offset, inside a later extent of `nrec` records, that the source computes for the deleted
      bit of the extent's record r. */
  function LaterOffset(slots: int, nrec: int, r: int): int {
    slots * (nrec / 256) + r / 8
  }

  /** In a later extent the source's offset is never that of the deleted-record slot: with two or more
      search slots it is the offset of a byte of a search slot. */
  lemma LaterExtentsClash(slots: int, nrec: int, r: int)
    requires 2 <= slots && 0 < nrec && nrec % 8 == 0 && 0 <= r < nrec
    ensures LaterOffset(slots, nrec, r) < Pos(slots, nrec / 8, 0) <= Pos(slots, nrec / 8, r / 8)
  {
    var size := nrec / 8;
    assert nrec / 256 == size / 32;
    var gap := size - size / 32;
    MulDistributes(slots, size / 32, gap);
    if slots > 2 {
      MulStep(2, slots, gap);
    }
  }

  lemma {:induction false} MulDistributes(n: int, a: int, b: int)
    requires 0 <= n
    ensures n * (a + b) == n * a + n * b
  {
    if n > 0 {
      MulDistributes(n - 1, a, b);
    }
  }
}

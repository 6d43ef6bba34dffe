/** The window of the index walk (aio.c): building the AND of the chosen slots over a stretch of
    one extent, and searching it for the next set bit in either direction. */
module AimWindow {
  import opened Bits
  import opened Bytes
  import opened AimFile
  import opened AimHash

  /** Bit r of the window is on exactly when record 8 * base + r of the extent is filed under every
      slot of the pattern. */
  ghost predicate Content(buf: seq<bv8>, x: Extent, width: int, pat: set<int>, base: int)
    requires ExtentOk(x, width)
  {
    forall r :: 0 <= r < 8 * |buf| ==> (On(buf, r) <==> AllFiled(x, width, pat, 8 * base + r))
  }

  ghost predicate ZeroOutside(buf: seq<bv8>, lo: int, hi: int) {
    forall i :: 0 <= i < |buf| && !(lo <= i < hi) ==> buf[i] == 0
  }

  /** Byte `off` of slot s of an extent. */
  function SlotByte(x: Extent, width: int, s: int, off: int): bv8
    requires x.nrec > 0 && |x.data| == width * (x.nrec / 8)
    requires 0 <= s < width && 0 <= off < x.nrec / 8
  {
    PosInside(s, x.nrec / 8, off, width);
    x.data[Pos(s, x.nrec / 8, off)]
  }

  lemma FiledByte(x: Extent, width: int, s: int, r: int)
    requires ExtentOk(x, width) && 0 <= s < width && 0 <= r < x.nrec
    ensures Filed(x, width, s, r) <==> Bit(SlotByte(x, width, s, r / 8), r % 8)
  {
    PosInside(s, x.nrec / 8, r / 8, width);
  }

  /** A file read of bytes lo to hi of the window out of slot s. */
  method ReadSlot(x: Extent, width: int, s: int, base: int, lo: int, hi: int, dst: array<bv8>)
    requires ExtentOk(x, width) && 0 <= s < width
    requires 0 <= base && 0 <= lo <= hi <= dst.Length && base + hi <= x.nrec / 8
    modifies dst
    ensures forall i :: 0 <= i < dst.Length && !(lo <= i < hi) ==> dst[i] == old(dst[i])
    ensures forall i :: lo <= i < hi ==> dst[i] == SlotByte(x, width, s, base + i)
  {
    var i := lo;
    while i < hi
      invariant lo <= i <= hi
      invariant forall j :: 0 <= j < dst.Length && !(lo <= j < i) ==> dst[j] == old(dst[j])
      invariant forall j :: lo <= j < i ==> dst[j] == SlotByte(x, width, s, base + j)
    {
      dst[i] := SlotByte(x, width, s, base + i);
      i := i + 1;
    }
  }

  /** The first slot is read straight into the window. */
  method FirstSlot(x: Extent, width: int, s: int, base: int, andbuf: array<bv8>, cnt: int)
    requires ExtentOk(x, width) && 0 <= s < width
    requires 0 <= base && 0 < cnt <= andbuf.Length && base + cnt <= x.nrec / 8
    modifies andbuf
    ensures Content(andbuf[..cnt], x, width, {s}, base)
  {
    ReadSlot(x, width, s, base, 0, cnt, andbuf);
    forall r | 0 <= r < 8 * cnt
      ensures On(andbuf[..cnt], r) <==> AllFiled(x, width, {s}, 8 * base + r)
    {
      FiledByte(x, width, s, 8 * base + r);
      assert s in {s};
    }
  }

  /** One bit of a window after ANDing in slot s between lo and hi. */
  lemma AndContent(
    before: seq<bv8>, after: seq<bv8>, x: Extent, width: int, pat: set<int>, s: int, base: int, lo: int, hi: int, r: int)
    requires ExtentOk(x, width) && 0 <= s < width && 0 <= base
    requires |before| == |after| && 0 <= lo <= hi <= |before| && base + |before| <= x.nrec / 8
    requires 0 <= r < 8 * |before|
    requires On(before, r) <==> AllFiled(x, width, pat, 8 * base + r)
    requires lo <= r / 8 < hi ==> after[r / 8] == before[r / 8] & SlotByte(x, width, s, base + r / 8)
    requires !(lo <= r / 8 < hi) ==> after[r / 8] == before[r / 8] == 0
    ensures On(after, r) <==> AllFiled(x, width, pat + {s}, 8 * base + r)
  {
    hide Filed, SlotByte, Bit;
    FiledByte(x, width, s, 8 * base + r);
    if lo <= r / 8 < hi {
      AndBit(before[r / 8], SlotByte(x, width, s, base + r / 8), r % 8);
    } else {
      ZeroByte(before[r / 8]);
    }
    assert AllFiled(x, width, pat + {s}, 8 * base + r) <==>
           AllFiled(x, width, pat, 8 * base + r) && Filed(x, width, s, 8 * base + r) by {
      assert s in pat + {s};
    }
  }

  /** A later slot is read into a work buffer, only where the window is not yet known to be zero,
      and ANDed in. */
  method NextSlot(
    x: Extent, width: int, ghost pat: set<int>, s: int, base: int,
    andbuf: array<bv8>, workbuf: array<bv8>, cnt: int, lo: int, hi: int)
    requires ExtentOk(x, width) && 0 <= s < width && andbuf != workbuf
    requires 0 <= base && 0 < cnt <= andbuf.Length && cnt <= workbuf.Length && base + cnt <= x.nrec / 8
    requires 0 <= lo <= hi <= cnt
    requires Content(andbuf[..cnt], x, width, pat, base) && ZeroOutside(andbuf[..cnt], lo, hi)
    modifies andbuf, workbuf
    ensures Content(andbuf[..cnt], x, width, pat + {s}, base) && ZeroOutside(andbuf[..cnt], lo, hi)
  {
    ghost var before := andbuf[..cnt];
    ReadSlot(x, width, s, base, lo, hi, workbuf);
    AndInto(andbuf, workbuf, cnt, lo, hi);
    ghost var after := andbuf[..cnt];
    forall r | 0 <= r < 8 * cnt
      ensures On(after, r) <==> AllFiled(x, width, pat + {s}, 8 * base + r)
    {
      AndContent(before, after, x, width, pat, s, base, lo, hi, r);
    }
  }

  method AndInto(andbuf: array<bv8>, workbuf: array<bv8>, cnt: int, lo: int, hi: int)
    requires andbuf != workbuf && 0 <= lo <= hi <= cnt <= andbuf.Length && cnt <= workbuf.Length
    modifies andbuf
    ensures forall j :: lo <= j < hi ==> andbuf[j] == old(andbuf[j]) & workbuf[j]
    ensures forall j :: 0 <= j < andbuf.Length && !(lo <= j < hi) ==> andbuf[j] == old(andbuf[j])
  {
    ghost var w, v := andbuf[..], workbuf[..];
    var i := lo;
    while i < hi
      invariant lo <= i <= hi && workbuf[..] == v
      invariant forall j :: 0 <= j < andbuf.Length ==> andbuf[j] == if lo <= j < i then w[j] & v[j] else w[j]
    {
      assert workbuf[i] == v[i];
      andbuf[i] := andbuf[i] & workbuf[i];
      i := i + 1;
    }
    assert forall j :: lo <= j < hi ==> v[j] == workbuf[j];
  }

  /** The slots of a pattern below a bound. */
  ghost function Below(pat: set<int>, n: int): set<int> {
    set s | s in pat && s < n
  }

  /** The AND of all chosen slots over `cnt` bytes of an extent. The window is built exactly,
      although zero bytes at either end are narrowed away as the slots are read and the loop stops
      early once nothing is left. */
  method BuildAnd(x: Extent, width: int, table: array<bv8>, base: int, andbuf: array<bv8>, cnt: int)
    returns (nonzero: int, size: int)
    requires ExtentOk(x, width) && andbuf != table
    requires 0 <= base && 0 < cnt <= andbuf.Length && base + cnt <= x.nrec / 8
    requires Pattern(table[..]) != {} && forall s :: s in Pattern(table[..]) ==> 0 <= s < width
    modifies andbuf
    ensures Content(andbuf[..cnt], x, width, Pattern(table[..]), base)
    ensures 0 <= nonzero <= size <= cnt && ZeroOutside(andbuf[..cnt], nonzero, size)
  {
    hide Content, ZeroOutside, Below, Pattern, On;
    var workbuf := new bv8[cnt];
    ghost var t, pat := table[..], Pattern(table[..]);
    var first := true;
    nonzero, size := 0, cnt;
    BelowEnds(t);
    var i2 := 0;
    while i2 < table.Length
      invariant 0 <= i2 <= table.Length
      invariant 0 <= nonzero <= size <= cnt
      invariant first <==> Below(pat, 8 * i2) == {}
      invariant first ==> nonzero == 0 && size == cnt
      invariant !first ==> Content(andbuf[..cnt], x, width, Below(pat, 8 * i2), base)
      invariant !first ==> ZeroOutside(andbuf[..cnt], nonzero, size)
    {
      var b := 0;
      while b < 8
        invariant 0 <= b <= 8
        invariant 0 <= nonzero <= size <= cnt
        invariant first <==> Below(pat, 8 * i2 + b) == {}
        invariant first ==> nonzero == 0 && size == cnt
        invariant !first ==> Content(andbuf[..cnt], x, width, Below(pat, 8 * i2 + b), base)
        invariant !first ==> ZeroOutside(andbuf[..cnt], nonzero, size)
      {
        var s := 8 * i2 + b;
        BelowMore(t, i2, b);
        if Bit(table[i2], b) {
          if first {
            first := false;
            FirstSlot(x, width, s, base, andbuf, cnt);
            assert Below(pat, s + 1) == {s};
            AllIn(andbuf[..cnt]);
          } else {
            NextSlot(x, width, Below(pat, s), s, base, andbuf, workbuf, cnt, nonzero, size);
          }
          nonzero, size := Narrow(andbuf, cnt, nonzero, size);
          if nonzero == size {
            NoneInside(andbuf[..cnt], nonzero);
            AllZero(andbuf[..cnt], x, width, Below(pat, s + 1), pat, base);
            return;
          }
        }
        b := b + 1;
      }
      i2 := i2 + 1;
    }
  }

  lemma BelowEnds(t: seq<bv8>)
    ensures Below(Pattern(t), 0) == {} && Below(Pattern(t), 8 * |t|) == Pattern(t)
  {
  }

  /** The slot of one bit of a pattern table. */
  lemma BelowMore(t: seq<bv8>, i: nat, b: nat)
    requires i < |t| && b < 8
    ensures var pat, s := Pattern(t), 8 * i + b;
            && Below(pat, s + 1) <= pat
            && (if Bit(t[i], b) then s in pat && Below(pat, s + 1) == Below(pat, s) + {s} else Below(pat, s + 1) == Below(pat, s))
  {
    var pat, s := Pattern(t), 8 * i + b;
    assert Bit(t[i], b) <==> On(t, s);
    if Bit(t[i], b) {
      assert Below(pat, s + 1) == Below(pat, s) + {s};
    } else {
      assert Below(pat, s + 1) == Below(pat, s);
    }
  }

  lemma AllIn(buf: seq<bv8>)
    ensures ZeroOutside(buf, 0, |buf|)
  {
  }

  lemma NoneInside(buf: seq<bv8>, n: int)
    requires ZeroOutside(buf, n, n)
    ensures forall i :: 0 <= i < |buf| ==> buf[i] == 0
  {
  }

  /** A window that is zero for some of the slots is zero for all of them. */
  lemma AllZero(buf: seq<bv8>, x: Extent, width: int, part: set<int>, pat: set<int>, base: int)
    requires ExtentOk(x, width) && Content(buf, x, width, part, base) && part <= pat
    requires forall i :: 0 <= i < |buf| ==> buf[i] == 0
    ensures Content(buf, x, width, pat, base)
  {
    forall r | 0 <= r < 8 * |buf|
      ensures !On(buf, r) && !AllFiled(x, width, pat, 8 * base + r)
    {
      ZeroByte(buf[r / 8]);
      assert On(buf, r) <==> AllFiled(x, width, part, 8 * base + r);
    }
  }

  /** Narrow the stretch that may hold a nonzero byte, from both ends. */
  method Narrow(andbuf: array<bv8>, cnt: int, lo: int, hi: int) returns (nonzero: int, size: int)
    requires 0 <= lo <= hi <= cnt <= andbuf.Length
    requires ZeroOutside(andbuf[..cnt], lo, hi)
    ensures lo <= nonzero <= size <= hi
    ensures ZeroOutside(andbuf[..cnt], nonzero, size)
  {
    nonzero, size := lo, hi;
    while nonzero < size && andbuf[nonzero] == 0
      invariant lo <= nonzero <= size
      invariant ZeroOutside(andbuf[..cnt], nonzero, hi)
    {
      nonzero := nonzero + 1;
    }
    while size > nonzero && andbuf[size - 1] == 0
      invariant nonzero <= size <= hi
      invariant ZeroOutside(andbuf[..cnt], nonzero, size)
    {
      size := size - 1;
    }
  }

  // --- searching the window ------------------------------------------------------------------------

  /** C's division by 8, which truncates toward zero. */
  function CDiv8(n: int): int {
    if n < 0 then -(-n / 8) else n / 8
  }

  /** Search upward from byte `start` for the first set bit at or after bit `from`; a negative
      start passes the window over. */
  method ScanForward(andbuf: array<bv8>, cnt: int, start: int, from: int) returns (found: bool, r: int)
    requires 0 <= cnt <= andbuf.Length
    requires start >= 0 ==> forall q :: from <= q && On(andbuf[..cnt], q) ==> start <= q / 8
    ensures start < 0 ==> !found
    ensures found ==> from <= r && 0 <= r < 8 * cnt && On(andbuf[..cnt], r)
    ensures found ==> forall q :: from <= q < r ==> !On(andbuf[..cnt], q)
    ensures !found && start >= 0 ==> forall q :: from <= q ==> !On(andbuf[..cnt], q)
  {
    ghost var buf := andbuf[..cnt];
    var andi := start;
    while 0 <= andi < cnt
      invariant 0 <= start ==> start <= andi
      invariant start < 0 ==> andi == start
      invariant start >= 0 ==> forall q :: from <= q && On(buf, q) ==> andi <= q / 8
      decreases cnt - andi
    {
      if andbuf[andi] != 0 {
        var i1 := if 8 * andi >= from then 0 else from - 8 * andi;
        while 0 <= i1 < 8
          invariant 0 <= i1
          invariant forall q :: from <= q && On(buf, q) ==> 8 * andi + (if i1 < 8 then i1 else 8) <= q
          decreases 8 - i1
        {
          if Bit(andbuf[andi], i1) {
            return true, 8 * andi + i1;
          }
          assert !On(buf, 8 * andi + i1);
          i1 := i1 + 1;
        }
      } else {
        ZeroByte(andbuf[andi]);
        assert forall q :: 8 * andi <= q < 8 * andi + 8 ==> !On(buf, q);
      }
      andi := andi + 1;
    }
    return false, 0;
  }

  lemma OnAt(h: seq<bv8>, a: nat, i: nat)
    requires a < |h| && i < 8
    ensures On(h, 8 * a + i) <==> Bit(h[a], i)
  {
  }

  lemma OnInside(h: seq<bv8>)
    ensures forall q :: On(h, q) ==> 0 <= q < 8 * |h|
  {
  }

  lemma NoneAt(h: seq<bv8>, a: nat)
    requires a < |h| && h[a] == 0
    ensures forall q :: 8 * a <= q < 8 * a + 8 ==> !On(h, q)
  {
    ZeroByte(h[a]);
  }

  /** Search downward from byte `start` for the last set bit at or before bit `to`. */
  method ScanBackward(andbuf: array<bv8>, cnt: int, start: int, to: int) returns (found: bool, r: int)
    requires 0 <= cnt <= andbuf.Length
    requires forall q :: q <= to && On(andbuf[..cnt], q) ==> q / 8 <= start < cnt
    ensures found ==> 0 <= r <= to && r < 8 * cnt && On(andbuf[..cnt], r)
    ensures found ==> forall q :: r < q <= to ==> !On(andbuf[..cnt], q)
    ensures !found ==> forall q :: q <= to ==> !On(andbuf[..cnt], q)
  {
    hide On;
    ghost var buf := andbuf[..cnt];
    var andi := start;
    while 0 <= andi < cnt
      invariant andi < cnt || andi == start
      invariant forall q :: q <= to && On(buf, q) ==> q / 8 <= andi < cnt
      decreases andi
    {
      if andbuf[andi] != 0 {
        var i1 := if 8 * andi + 7 <= to then 7 else to - 8 * andi;
        while 0 <= i1 < 8
          invariant i1 < 8
          invariant forall q :: q <= to && On(buf, q) ==> q <= 8 * andi + (if i1 >= 0 then i1 else -1)
          decreases i1
        {
          OnAt(buf, andi, i1);
          if Bit(andbuf[andi], i1) {
            return true, 8 * andi + i1;
          }
          i1 := i1 - 1;
        }
      } else {
        NoneAt(buf, andi);
      }
      andi := andi - 1;
    }
    OnInside(buf);
    return false, 0;
  }
}

/** The buffer of a record file (rio.c): a read buffer or a dirty write buffer over the bytes of a file, and the
    plain file that it stands for. */
module RioBuffer {
  import opened Bytes
  import opened RioCodec

  // --- plain files -----------------------------------------------------------------------------------------

  /** The byte at place i after a write: a gap before the data is filled with zeros. */
  function OverByte(d: seq<byte>, pos: nat, data: seq<byte>, i: nat): byte {
    if pos <= i < pos + |data| then data[i - pos] else if i < |d| then d[i] else 0
  }

  function OverLength(d: seq<byte>, pos: nat, data: seq<byte>): nat {
    if data == [] then |d| else if pos + |data| > |d| then pos + |data| else |d|
  }

  /** A file after a write. */
  function Overlay(d: seq<byte>, pos: nat, data: seq<byte>): (r: seq<byte>)
    ensures |r| == OverLength(d, pos, data)
    ensures forall i :: 0 <= i < |r| ==> r[i] == OverByte(d, pos, data, i)
  {
    seq(OverLength(d, pos, data), i requires i >= 0 => OverByte(d, pos, data, i))
  }

  /** A write that starts within the last one or right behind it is one write. */
  lemma OverlayJoin(d: seq<byte>, p: nat, a: seq<byte>, q: nat, b: seq<byte>)
    requires p <= q <= p + |a|
    ensures Overlay(Overlay(d, p, a), q, b) == Overlay(d, p, Overlay(a, q - p, b))
  {
  }

  lemma OverlayBounds(d: seq<byte>, pos: nat, data: seq<byte>)
    ensures |d| <= |Overlay(d, pos, data)|
    ensures |Overlay(d, pos, data)| <= |d| || |Overlay(d, pos, data)| <= pos + |data|
  {
  }

  lemma OverlayNone(d: seq<byte>, pos: nat)
    ensures Overlay(d, pos, []) == d
  {
  }

  // --- the record file ---------------------------------------------------------------------------------------

  const ERR_INVAR := -55

  /** A record as it is written, with its end mark. */
  function Marked(rec: seq<byte>, unc: bool, plain: bool): seq<byte> {
    (if unc then rec else Compress(rec, plain)) + [EOR]
  }

  /** The bytes that rioput writes: at the end of the file an end of file mark follows. */
  function Written(rec: seq<byte>, unc: bool, plain: bool, npos: nat, fsiz: nat): seq<byte> {
    var m := Marked(rec, unc, plain);
    if npos + |m| >= fsiz then m + [EOF] else m
  }

  lemma WrittenIs(rec: seq<byte>, c: seq<byte>, unc: bool, plain: bool, npos: nat, fsiz: nat)
    requires c == if unc then rec else Compress(rec, plain)
    ensures Written(rec, unc, plain, npos, fsiz) == c + (if npos + |c| + 1 >= fsiz then [EOR, EOF] else [EOR])
    ensures |Marked(rec, unc, plain)| == |c| + 1
  {
  }

  const NONE := 0
  const READING := 1
  const WRITING := 2

  class RecordFile {
    const bsiz: nat                     // 0 for no buffer
    const buffer: array<byte>
    const unc: bool                     // records are not compressed
    const plain: bool                   // digits are not compressed
    var disk: seq<byte>
    var lpos: nat
    var npos: nat
    var fsiz: nat
    var bflg: int
    var bpos: nat
    var blen: nat
    var bwst: nat

    /** The bytes waiting to be written. */
    ghost function Dirty(): seq<byte>
      requires bwst <= blen <= buffer.Length
      reads `bwst, `blen, buffer
    {
      buffer[bwst..blen]
    }

    /** The buffer agrees with the file. */
    ghost predicate Coherent()
      reads `disk, `bflg, `bpos, `blen, `bwst, buffer
    {
      && buffer.Length == bsiz + 2
      && (bflg == NONE || bflg == READING || bflg == WRITING) && (bsiz == 0 ==> bflg == NONE)
      && (bflg == READING ==> Loaded(disk, bpos, bsiz, blen) && buffer[1..1 + blen] == LoadedBytes(disk, bpos, bsiz))
      && (bflg == WRITING ==> bwst <= blen <= bsiz)
    }

    /** The plain file. */
    ghost function View(): seq<byte>
      requires Coherent()
      reads `disk, `bflg, `bpos, `blen, `bwst, buffer
    {
      if bflg == WRITING then Overlay(disk, bpos + bwst, Dirty()) else disk
    }

    ghost predicate Valid()
      reads this, buffer
    {
      Coherent() && |View()| <= fsiz
    }

    /** A new file holds only an end of file mark. */
    constructor Prepare(bsiz: nat, unc: bool, plain: bool)
      ensures Valid() && View() == [EOF] && lpos == npos == 0 && fsiz == 1 && fresh(buffer)
      ensures this.bsiz == bsiz && this.unc == unc && this.plain == plain
    {
      this.bsiz, this.unc, this.plain := bsiz, unc, plain;
      buffer := new byte[bsiz + 2](_ => 0);
      disk := [EOF];
      lpos, npos, fsiz, bflg, bpos, blen, bwst := 0, 0, 1, NONE, 0, 0, 0;
    }

    /** rioxwb: write out the dirty bytes. */
    method WriteBack()
      requires Coherent() && bflg == WRITING
      modifies `disk, `bflg, `fsiz
      ensures Coherent() && bflg == NONE && disk == View() == old(View())
      ensures fsiz == if bwst == blen || bpos + blen <= old(fsiz) then old(fsiz) else bpos + blen
    {
      bflg := NONE;
      var i2 := blen - bwst;
      if i2 == 0 {
        return;
      }
      var offset := bpos + bwst;
      disk := Overlay(disk, offset, buffer[bwst..blen]);
      offset := offset + i2;
      if offset > fsiz {
        fsiz := offset;
      }
    }

    /** The first half of rioxgb: have the block of an offset in the buffer. */
    method LoadBlock(offset: nat)
      requires Coherent() && bsiz > 0 && bflg != WRITING
      modifies `bflg, `bpos, `blen, buffer
      ensures Coherent() && bflg == READING && View() == old(View())
      ensures bpos <= offset < bpos + bsiz
    {
      if bflg != READING || offset < bpos || offset >= bpos + bsiz {
        BlockOf(offset, bsiz);
        bpos := offset / bsiz * bsiz;
        var bytes := LoadedBytes(disk, bpos, bsiz);
        CopyIn(buffer, 1, bytes);
        blen := |bytes|;
        bflg := READING;
      }
    }

    /** Have a write buffer that takes a byte at this offset: the dirty bytes are written out when it lies before
        them, beyond them or past the block, and a new write buffer is started. */
    method Aim(offset: nat)
      requires Coherent() && bsiz > 0
      modifies `disk, `bflg, `fsiz, `bpos, `blen, `bwst
      ensures Coherent() && bflg == WRITING && View() == old(View())
      ensures bpos + bwst <= offset <= bpos + blen && offset < bpos + bsiz
      ensures old(fsiz) <= fsiz && (fsiz <= old(fsiz) || fsiz <= |View()|)
    {
      if bflg == WRITING {
        if offset < bpos + bwst || offset > bpos + blen || offset == bpos + bsiz {
          WriteBack();
        }
      }
      if bflg != WRITING {
        BlockOf(offset, bsiz);
        bflg := WRITING;
        bpos := offset / bsiz * bsiz;
        blen := offset - bpos;
        bwst := blen;
        OverlayNone(disk, offset);
        assert Dirty() == [];
      }
    }

    /** Copy some bytes into the write buffer. */
    method Fill(offset: nat, bytes: seq<byte>)
      requires Coherent() && bflg == WRITING && bytes != []
      requires bpos + bwst <= offset <= bpos + blen && offset + |bytes| <= bpos + bsiz
      modifies `blen, buffer
      ensures Coherent() && bflg == WRITING && View() == Overlay(old(View()), offset, bytes)
    {
      hide Overlay, OverByte, OverLength, Loaded, LoadedBytes;
      ghost var b, dirty, from, blen0 := buffer[..], Dirty(), bpos + bwst, blen;
      assert dirty == b[bwst..blen];
      var i2 := offset - bpos;
      CopyIn(buffer, i2, bytes);
      ghost var c := buffer[..];
      assert c == b[..i2] + bytes + b[i2 + |bytes|..];
      FilledDirty(b, c, bwst, blen0, i2, bytes);
      i2 := i2 + |bytes|;
      if i2 > blen {
        blen := i2;
      }
      assert buffer[..] == c && Dirty() == c[bwst..blen];
      OverlayJoin(disk, from, dirty, offset, bytes);
    }

    /** Write n bytes at the next position, through the buffer when there is one. */
    method PutBytes(src: array<byte>, n: nat)
      requires Coherent() && src != buffer && n <= src.Length
      modifies `disk, `bflg, `fsiz, `bpos, `blen, `bwst, buffer
      ensures Coherent() && View() == Overlay(old(View()), npos, src[..n])
      ensures old(fsiz) <= fsiz && (fsiz <= old(fsiz) || fsiz <= |View()|)
    {
      if bsiz == 0 {
        PutDirect(src, n);
      } else {
        PutBuffered(src, n);
      }
    }

    /** The loop over the blocks. */
    method PutBuffered(src: array<byte>, n: nat)
      requires Coherent() && bsiz > 0 && src != buffer && n <= src.Length
      modifies `disk, `bflg, `fsiz, `bpos, `blen, `bwst, buffer
      ensures Coherent() && View() == Overlay(old(View()), npos, src[..n])
      ensures old(fsiz) <= fsiz && (fsiz <= old(fsiz) || fsiz <= |View()|)
    {
      ghost var v0, data := View(), src[..n];
      OverlayNone(v0, npos);
      hide Overlay, Loaded, LoadedBytes;
      var offset, i4 := npos, n;
      assert data[..0] == [] && data[..n] == data;
      while i4 > 0
        invariant 0 <= i4 <= n && offset == npos + n - i4
        invariant Coherent() && View() == Overlay(v0, npos, data[..n - i4])
        invariant old(fsiz) <= fsiz && (fsiz <= old(fsiz) || fsiz <= |View()|)
      {
        var k := n - i4;
        var i3 := PutChunk(src, n, k, offset);
        PutMore(v0, npos, data, k, i3);
        offset := offset + i3;
        i4 := i4 - i3;
      }
    }

    /** riosetpos: the position moves; a buffer that does not reach the new position is given up. */
    method SetPos(pos: nat)
      requires Valid()
      modifies `disk, `bflg, `fsiz, `lpos, `npos
      ensures Valid() && View() == old(View()) && lpos == npos == pos && fsiz == old(fsiz)
    {
      if bflg == READING && (pos < bpos || pos >= bpos + blen) {
        bflg := NONE;
      } else if bflg == WRITING && (pos < bpos + bwst || pos > bpos + blen || pos == bpos + bsiz) {
        WriteBack();
      }
      lpos, npos := pos, pos;
    }

    /** Account for n bytes written at the next position. */
    method Advance(n: nat)
      requires Coherent()
      modifies `lpos, `npos, `fsiz
      ensures Coherent() && View() == old(View()) && lpos == old(npos) && npos == old(npos) + n
      ensures fsiz == if npos > old(fsiz) then npos else old(fsiz)
    {
      lpos := npos;
      npos := npos + n;
      if npos > fsiz {
        fsiz := npos;
      }
    }

    /** Write n bytes and account for them; the next position is before the last of them when it is an end of file mark. */
    method WriteSized(p: array<byte>, n: nat, eofflg: bool)
      requires Valid() && 0 < n <= p.Length && p != buffer
      modifies this, buffer
      ensures Valid() && View() == Overlay(old(View()), old(npos), p[..n])
      ensures lpos == old(npos) && npos == old(npos) + n - (if eofflg then 1 else 0)
      ensures fsiz == if old(npos) + n > old(fsiz) then old(npos) + n else old(fsiz)
    {
      hide Overlay, Loaded, LoadedBytes;
      PutBytes(p, n);
      Advance(n);
      if eofflg {
        npos := npos - 1;
      }
    }

    /** Append the marks to n bytes, write them, and put back what the marks replaced. */
    method WriteMarked(p: array<byte>, n: nat, eofflg: bool)
      requires Valid() && n + 2 <= p.Length && p != buffer
      modifies this, buffer, p
      ensures Valid() && p[..] == old(p[..])
      ensures var bytes := old(p[..n]) + (if eofflg then [EOR, EOF] else [EOR]);
              && View() == Overlay(old(View()), old(npos), bytes)
              && lpos == old(npos) && npos == old(npos) + n + 1
              && fsiz == if old(npos) + |bytes| > old(fsiz) then old(npos) + |bytes| else old(fsiz)
    {
      ghost var w := p[..];
      var save0, save1 := p[n], p[n + 1];
      AddMarks(p, n, eofflg);
      MarksAdded(w, p[..], n, eofflg);
      var size := if eofflg then n + 2 else n + 1;
      hide Overlay, Loaded, LoadedBytes, RecordFile.Coherent, RecordFile.View, RecordFile.Valid;
      ghost var v, bytes := p[..], w[..n] + (if eofflg then [EOR, EOF] else [EOR]);
      assert p[..size] == v[..size] == bytes && |bytes| == size;
      WriteSized(p, size, eofflg);
      assert p[..] == v;
      StoreBack(p, n, save0, save1);
      assert old(p[..n]) == w[..n];
    }

    /** rioput: write a record at the next position, with its end mark, and with an end of file mark behind it when
        it reaches the end of the file. In the caller's buffer two bytes are borrowed for the marks and put back. */
    method Put(record: array<byte>, recsize: nat, work: array<byte>) returns (code: int)
      requires Valid() && record.Length >= recsize + 2 && record != buffer && work != buffer && record != work
      modifies this, buffer, record, work
      ensures code == if recsize + 4 > work.Length then ERR_INVAR else 0
      ensures Valid() && record[..] == old(record[..])
      ensures code != 0 ==> View() == old(View()) && lpos == old(lpos) && npos == old(npos) && fsiz == old(fsiz)
      ensures code == 0 ==> var bytes := Written(old(record[..recsize]), unc, plain, old(npos), old(fsiz));
                            && View() == Overlay(old(View()), old(npos), bytes)
                            && lpos == old(npos) && npos == old(npos) + |Marked(old(record[..recsize]), unc, plain)|
                            && fsiz == if old(npos) + |bytes| > old(fsiz) then old(npos) + |bytes| else old(fsiz)
    {
      hide Overlay, Compress, Marked, Written, RecordFile.Valid, RecordFile.View, RecordFile.Coherent;
      if recsize + 4 > work.Length {
        return ERR_INVAR;
      }
      var p, n := record, recsize;
      if !unc {
        n := Comp(record, recsize, plain, work);
        p := work;
      }
      WrittenIs(old(record[..recsize]), p[..n], unc, plain, npos, fsiz);
      var eofflg := npos + n + 1 >= fsiz;
      WriteMarked(p, n, eofflg);
      code := 0;
    }

    /** rioparput: write part of a record, without marks. */
    method ParPut(record: array<byte>, recsize: nat, work: array<byte>) returns (code: int)
      requires Valid() && record.Length >= recsize && record != buffer && work != buffer && record != work
      modifies this, buffer, work
      ensures code == if recsize + 4 > work.Length then ERR_INVAR else 0
      ensures Valid()
      ensures code != 0 ==> View() == old(View()) && lpos == old(lpos) && npos == old(npos) && fsiz == old(fsiz)
      ensures code == 0 ==> var bytes := if unc then record[..recsize] else Compress(record[..recsize], plain);
                            && View() == Overlay(old(View()), old(npos), bytes)
                            && lpos == old(npos) && npos == old(npos) + |bytes|
                            && fsiz == if npos > old(fsiz) then npos else old(fsiz)
    {
      if recsize + 4 > work.Length {
        return ERR_INVAR;
      }
      var p, n := record, recsize;
      if !unc {
        n := Comp(record, recsize, plain, work);
        p := work;
      }
      hide Overlay, Compress, Loaded, LoadedBytes;
      OverlayBounds(View(), npos, p[..n]);
      PutBytes(p, n);
      Advance(n);
      code := 0;
    }

    /** rioflush. */
    method Flush()
      requires Valid()
      modifies `disk, `bflg, `fsiz
      ensures Valid() && bflg == NONE && disk == View() == old(View()) && fsiz == old(fsiz)
    {
      if bflg == WRITING {
        WriteBack();
      }
      bflg := NONE;
    }

    /** fiowrite. */
    method PutDirect(src: array<byte>, n: nat)
      requires Coherent() && bsiz == 0 && src != buffer && n <= src.Length
      modifies `disk
      ensures Coherent() && View() == Overlay(old(View()), npos, src[..n])
    {
      disk := Overlay(disk, npos, src[..n]);
    }

    /** Write as much as the block takes. */
    method PutChunk(src: array<byte>, n: nat, k: nat, offset: nat) returns (i3: nat)
      requires Coherent() && bsiz > 0 && src != buffer && k < n <= src.Length
      modifies `disk, `bflg, `fsiz, `bpos, `blen, `bwst, buffer
      ensures 0 < i3 && k + i3 <= n
      ensures Coherent() && View() == Overlay(old(View()), offset, src[..n][k..k + i3])
      ensures old(fsiz) <= fsiz && (fsiz <= old(fsiz) || fsiz <= |old(View())|)
    {
      Aim(offset);
      hide Overlay, Loaded, LoadedBytes;
      i3 := bsiz - (offset - bpos);
      if n - k < i3 {
        i3 := n - k;
      }
      assert src[..n][k..k + i3] == src[k..k + i3];
      Fill(offset, src[k..k + i3]);
    }

    /** rioxgb, forward: up to `bytes` bytes at `off` behind the next position, as many as the block holds; they
        start at place p of the buffer. */
    method ReadForward(bytes: nat, off: nat) returns (i2: nat, p: nat)
      requires Coherent() && bsiz > 0 && bflg != WRITING && bytes > 0
      modifies `bflg, `bpos, `blen, buffer
      ensures Coherent() && bflg == READING && View() == old(View())
      ensures i2 <= bytes && (i2 == 0 <==> npos + off >= |disk|)
      ensures i2 > 0 ==> 1 <= p && p + i2 < buffer.Length && InFile(disk, npos + off, buffer[p..p + i2])
    {
      var offset := npos + off;
      LoadBlock(offset);
      if offset >= bpos + blen {
        return 0, 0;
      }
      var i1 := bpos + blen - offset;
      p := blen - i1 + 1;
      i2 := if i1 < bytes then i1 else bytes;
      ghost var b := buffer[..];
      assert b[1..1 + blen] == buffer[1..1 + blen] && b[p..p + i2] == buffer[p..p + i2];
      BlockSlice(disk, bpos, bsiz, b[1..1 + blen], offset, i2);
      SliceOfSlice(b, 1, 1 + blen, p - 1, p - 1 + i2);
    }

    /** rioxgb, backward: up to `bytes` bytes that end `off` before the last position; the last of them is at
        place p of the buffer. */
    method ReadBackward(bytes: nat, off: nat) returns (i2: int, p: nat)
      requires Coherent() && bsiz > 0 && bflg != WRITING && bytes > 0
      modifies `bflg, `bpos, `blen, buffer
      ensures Coherent() && View() == old(View()) && bflg != WRITING
      ensures off >= lpos ==> i2 == 0
      ensures off < lpos && lpos - off > |disk| ==> i2 == ERR_RANGE
      ensures off < lpos && lpos - off <= |disk| ==>
                && 0 < i2 <= bytes && i2 <= p && p + 1 < buffer.Length && i2 <= lpos - off
                && InFile(disk, lpos - off - i2, buffer[p - i2 + 1..p + 1])
    {
      hide InFile, Overlay;
      var offset := lpos - off - 1;
      if offset < 0 {
        return 0, 0;
      }
      LoadBlock(offset);
      if offset >= bpos + blen {
        return ERR_RANGE, 0;
      }
      var i1 := offset - bpos + 1;
      p := i1;
      i2 := if i1 < bytes then i1 else bytes;
      ghost var b := buffer[..];
      assert b[1..1 + blen] == buffer[1..1 + blen] && b[p - i2 + 1..p + 1] == buffer[p - i2 + 1..p + 1];
      BlockSlice(disk, bpos, bsiz, b[1..1 + blen], offset + 1 - i2, i2);
      SliceOfSlice(b, 1, 1 + blen, p - i2, p);
    }
  }

  /** These bytes stand at a place of the file. */
  ghost predicate InFile(d: seq<byte>, pos: nat, bytes: seq<byte>) {
    pos + |bytes| <= |d| && d[pos..pos + |bytes|] == bytes
  }

  lemma BlockSlice(d: seq<byte>, bpos: nat, bsiz: nat, block: seq<byte>, offset: nat, n: nat)
    requires block == LoadedBytes(d, bpos, bsiz) && bpos <= offset && offset + n <= bpos + |block| && n > 0
    ensures InFile(d, offset, block[offset - bpos..offset - bpos + n])
  {
    assert block == d[bpos..bpos + |block|];
    SliceOfSlice(d, bpos, bpos + |block|, offset - bpos, offset - bpos + n);
  }

  lemma SliceOfSlice(b: seq<byte>, lo: nat, hi: nat, x: nat, y: nat)
    requires lo <= hi <= |b| && x <= y <= hi - lo
    ensures b[lo..hi][x..y] == b[lo + x..lo + y]
  {
    var s, t := b[lo..hi][x..y], b[lo + x..lo + y];
    assert forall i :: 0 <= i < |s| ==> s[i] == t[i];
  }

  method AddMarks(p: array<byte>, n: nat, eofflg: bool)
    requires n + 2 <= p.Length
    modifies p
    ensures p[..] == old(p[..])[n := EOR][n + 1 := if eofflg then EOF else old(p[n + 1])]
  {
    p[n] := EOR;
    if eofflg {
      p[n + 1] := EOF;
    }
  }

  lemma MarksAdded(w: seq<byte>, v: seq<byte>, n: nat, eofflg: bool)
    requires n + 2 <= |w| && v == w[n := EOR][n + 1 := if eofflg then EOF else w[n + 1]]
    ensures v[..if eofflg then n + 2 else n + 1] == w[..n] + (if eofflg then [EOR, EOF] else [EOR])
    ensures v[n := w[n]][n + 1 := w[n + 1]] == w
  {
  }

  method StoreBack(p: array<byte>, n: nat, save0: byte, save1: byte)
    requires n + 2 <= p.Length
    modifies p
    ensures p[..] == old(p[..])[n := save0][n + 1 := save1]
  {
    p[n], p[n + 1] := save0, save1;
  }

  /** The dirty bytes after a copy into the buffer. */
  lemma FilledDirty(b: seq<byte>, c: seq<byte>, bwst: nat, blen: nat, at: nat, bytes: seq<byte>)
    requires bwst <= at <= blen && at + |bytes| <= |b| && blen <= |b| && bytes != []
    requires c == b[..at] + bytes + b[at + |bytes|..]
    ensures var end := if at + |bytes| > blen then at + |bytes| else blen;
            c[bwst..end] == Overlay(b[bwst..blen], at - bwst, bytes)
  {
  }

  lemma PutMore(v0: seq<byte>, pos: nat, src: seq<byte>, k: nat, n: nat)
    requires k + n <= |src|
    ensures Overlay(Overlay(v0, pos, src[..k]), pos + k, src[k..k + n]) == Overlay(v0, pos, src[..k + n])
    ensures |Overlay(v0, pos, src[..k])| <= |Overlay(v0, pos, src[..k + n])|
  {
    OverlayJoin(v0, pos, src[..k], pos + k, src[k..k + n]);
    assert Overlay(src[..k], k, src[k..k + n]) == src[..k + n];
  }

  lemma BlockOf(offset: nat, bsiz: nat)
    requires bsiz > 0
    ensures 0 <= offset / bsiz * bsiz <= offset < offset / bsiz * bsiz + bsiz
  {
  }

  /** memcpy into a buffer. */
  method CopyIn(buffer: array<byte>, at: nat, bytes: seq<byte>)
    requires at + |bytes| <= buffer.Length
    modifies buffer
    ensures buffer[..] == old(buffer[..at]) + bytes + old(buffer[at + |bytes|..])
    ensures buffer[at..at + |bytes|] == bytes
  {
    forall i | 0 <= i < |bytes| {
      buffer[at + i] := bytes[i];
    }
  }

  /** So many of the n bytes asked for at pos are there. */
  predicate Loaded(d: seq<byte>, pos: nat, n: nat, got: nat) {
    got == |LoadedBytes(d, pos, n)|
  }

  function LoadedBytes(d: seq<byte>, pos: nat, n: nat): (s: seq<byte>)
    ensures |s| <= n
  {
    if pos >= |d| then [] else if |d| - pos < n then d[pos..] else d[pos..pos + n]
  }
}

/** Reading a record backward (rio.c, rioprev): the record that ends at the last position is found by looking for the
    end mark of the one before it. */
module RioPrev {
  import opened Bytes
  import opened RioCodec
  import opened RioBuffer
  import opened RioGet

  // --- what a backward read comes to -----------------------------------------------------------------------------

  /** How many bytes at the end of v, before place i, are below EOR. */
  function BackBelow(v: seq<byte>, i: nat): (n: nat)
    requires i <= |v|
    ensures n <= i && (forall j :: i - n <= j < i ==> v[j] < EOR) && (n < i ==> v[i - n - 1] >= EOR)
  {
    if i > 0 && v[i - 1] < EOR then 1 + BackBelow(v, i - 1) else 0
  }

  function BackDeleted(v: seq<byte>, i: nat): (n: nat)
    requires i <= |v|
    ensures n <= i && (forall j :: i - n <= j < i ==> v[j] == DEL) && (n < i ==> v[i - n - 1] != DEL)
  {
    if i > 0 && v[i - 1] == DEL then 1 + BackDeleted(v, i - 1) else 0
  }

  /** The bytes before lpos that are looked at: what a record may take, and one more to see what stands before it,
      or all there are. */
  function Reach(lpos: nat, recsize: nat): nat {
    if recsize + 2 > lpos then lpos else recsize + 2
  }

  /** Decoding a record from its bytes, the last of which is its end mark. */
  function Unpack(b: seq<byte>, recsize: nat, unc: bool, plain: bool): Outcome
    requires b != []
  {
    if unc then Got(b[..|b| - 1], |b|)
    else
      var o := Expand(b, 0, [], recsize, plain, ERR_NOEOR);
      if o.Got? then Got(o.data, |b|) else Failed(ERR_NOEOR, |b|)
  }

  /** Reading backward from the end of v; `more` says that v is one byte longer than a record may be. */
  function ReadBack(v: seq<byte>, more: bool, recsize: nat, unc: bool, plain: bool): Outcome
    requires v != []
  {
    var k := |v|;
    if v[k - 1] == DEL then
      var n := BackDeleted(v, k);
      if n == k then Gone(if more then k - 1 else k)
      else if v[k - 1 - n] != EOR then Failed(ERR_NOEOR, n)
      else Gone(n)
    else if v[k - 1] != EOR then Failed(ERR_BADCH, 1)
    else
      var n := BackBelow(v, k - 1) + 1;
      if n == k && more then Failed(ERR_RANGE, n)
      else if n < k && v[k - 1 - n] != EOR && v[k - 1 - n] != DEL then Failed(ERR_NOEOR, n)
      else Unpack(v[k - n..], recsize, unc, plain)
  }

  // --- scanning --------------------------------------------------------------------------------------------------------

  /** Scan n bytes that end at place p for one that is not below EOR, stopped by a sentinel before them. */
  method ScanBack(buf: array<byte>, p: nat, n: nat) returns (i3: nat)
    requires n <= p < buf.Length
    modifies buf
    ensures buf[..] == old(buf[..])
    ensures i3 <= n && (forall j :: p - i3 < j <= p ==> buf[j] < EOR) && (i3 < n ==> buf[p - i3] >= EOR)
  {
    var c1 := buf[p - n];
    buf[p - n] := DEL;
    i3 := 0;
    while buf[p - i3] < EOR
      invariant i3 <= n && forall j :: p - i3 < j <= p ==> buf[j] < EOR
      invariant buf[..] == old(buf[..])[p - n := DEL]
      decreases n - i3
    {
      i3 := i3 + 1;
    }
    buf[p - n] := c1;
  }

  method ScanBackDeleted(buf: array<byte>, p: nat, n: nat) returns (i3: nat)
    requires n <= p < buf.Length
    modifies buf
    ensures buf[..] == old(buf[..])
    ensures i3 <= n && (forall j :: p - i3 < j <= p ==> buf[j] == DEL) && (i3 < n ==> buf[p - i3] != DEL)
  {
    var c1 := buf[p - n];
    buf[p - n] := 0;
    i3 := 0;
    while buf[p - i3] == DEL
      invariant i3 <= n && forall j :: p - i3 < j <= p ==> buf[j] == DEL
      invariant buf[..] == old(buf[..])[p - n := 0]
      decreases n - i3
    {
      i3 := i3 + 1;
    }
    buf[p - n] := c1;
  }

  // --- chunks ----------------------------------------------------------------------------------------------------------

  /** n bytes of v that end `off` before its end are in the buffer, the last of them at place p. */
  ghost predicate HeldBack(buf: array<byte>, v: seq<byte>, off: nat, p: nat, n: nat)
    reads buf
  {
    0 < n <= p && p + 1 < buf.Length && off + n <= |v| && Chunk(v, |v| - off - n, buf[p - n + 1..p + 1])
  }

  lemma HeldBackAt(buf: array<byte>, v: seq<byte>, off: nat, p: nat, n: nat)
    requires HeldBack(buf, v, off, p, n)
    ensures 0 < n <= p && p + 1 < buf.Length && off + n <= |v|
    ensures forall j :: p - n < j <= p ==> buf[j] == v[|v| - off - 1 - p + j]
    ensures v[|v| - off - n..|v| - off] == buf[p - n + 1..p + 1]
  {
    var c := buf[p - n + 1..p + 1];
    forall j | p - n < j <= p
      ensures buf[j] == v[|v| - off - 1 - p + j]
    {
      assert c[j - (p - n + 1)] == buf[j];
      ChunkAt(v, |v| - off - n, c, j - (p - n + 1));
    }
  }

  /** The bytes before those already looked at. */
  method NextBack(f: RecordFile, off: nat, ghost v: seq<byte>, k: nat) returns (i2: nat, p: nat)
    requires f.Coherent() && f.bsiz > 0 && f.bflg != WRITING && off < k <= f.lpos <= |f.disk|
    requires v == f.disk[f.lpos - k..f.lpos]
    modifies f`bflg, f`bpos, f`blen, f.buffer
    ensures f.Coherent() && f.bflg != WRITING && f.View() == old(f.View())
    ensures HeldBack(f.buffer, v, off, p, i2)
  {
    var n;
    n, p := f.ReadBackward(k - off, off);
    i2 := n;
    ghost var c := f.buffer[p - i2 + 1..p + 1];
    SliceOfSlice(f.disk, f.lpos - k, f.lpos, k - off - i2, k - off);
  }

  // --- a deleted record ------------------------------------------------------------------------------------------------

  ghost predicate TailDeleted(v: seq<byte>, n: nat) {
    n <= |v| && forall j :: |v| - n <= j < |v| ==> v[j] == DEL
  }

  ghost predicate TailBelow(v: seq<byte>, n: nat) {
    1 <= n <= |v| && forall j :: |v| - n <= j < |v| - 1 ==> v[j] < EOR
  }

  lemma BackDeletedIs(v: seq<byte>, i: nat, n: nat)
    requires n <= i <= |v| && (forall j :: i - n <= j < i ==> v[j] == DEL) && (n < i ==> v[i - n - 1] != DEL)
    ensures BackDeleted(v, i) == n
  {
    if n > 0 {
      BackDeletedIs(v, i - 1, n - 1);
    }
  }

  lemma BackBelowIs(v: seq<byte>, i: nat, n: nat)
    requires n <= i <= |v| && (forall j :: i - n <= j < i ==> v[j] < EOR) && (n < i ==> v[i - n - 1] >= EOR)
    ensures BackBelow(v, i) == n
  {
    if n > 0 {
      BackBelowIs(v, i - 1, n - 1);
    }
  }

  /** Look at a block for the start of the marks of a deleted record. */
  method DeletedBlock(f: RecordFile, i1: nat, p: nat, i2: nat, ghost v: seq<byte>) returns (n: nat, c1: byte, done: bool)
    requires f.Coherent() && f.bflg != WRITING && HeldBack(f.buffer, v, i1, p, i2) && TailDeleted(v, i1)
    modifies f.buffer
    ensures f.Coherent() && f.View() == old(f.View())
    ensures if done then n == BackDeleted(v, |v|) && n < |v| && c1 == v[|v| - 1 - n] else n == i1 + i2 && TailDeleted(v, n)
  {
    HeldBackAt(f.buffer, v, i1, p, i2);
    ghost var b := f.buffer[..];
    var i3 := ScanBackDeleted(f.buffer, p, i2);
    assert b == f.buffer[..];
    n := i1 + i3;
    done := i3 < i2;
    c1 := f.buffer[p - i3];
    assert TailDeleted(v, n) by {
      forall j | |v| - n <= j < |v| - i1
        ensures v[j] == DEL
      {
        assert f.buffer[j - |v| + i1 + 1 + p] == DEL;
      }
    }
    if done {
      BackDeletedIs(v, |v|, n);
    }
  }

  /** Count the marks of a deleted record. */
  method CountBack(f: RecordFile, k: nat, p0: nat, i2_0: nat, ghost v: seq<byte>) returns (n: nat, c1: byte)
    requires f.Coherent() && f.bsiz > 0 && f.bflg != WRITING && 0 < k == |v| && k <= f.lpos <= |f.disk|
    requires v == f.disk[f.lpos - k..f.lpos] && HeldBack(f.buffer, v, 0, p0, i2_0)
    modifies f`bflg, f`bpos, f`blen, f.buffer
    ensures f.Coherent() && f.bflg != WRITING && f.View() == old(f.View())
    ensures n == BackDeleted(v, k) && (n < k ==> c1 == v[k - 1 - n])
  {
    var p, i2, done := p0, i2_0, false;
    n, c1 := 0, 0;
    hide HeldBack, BackDeleted;
    while true
      invariant f.Coherent() && f.bflg != WRITING && f.View() == old(f.View())
      invariant p >= 0 && i2 >= 0 && HeldBack(f.buffer, v, n, p, i2) && TailDeleted(v, n)
      decreases k - n
    {
      hide TailDeleted;
      HeldBackAt(f.buffer, v, n, p, i2);
      n, c1, done := DeletedBlock(f, n, p, i2, v);
      if done {
        return;
      }
      if n == k {
        WholeDeleted(v);
        return;
      }
      TailFits(v, n);
      i2, p := NextBack(f, n, v, k);
    }
  }

  lemma WholeDeleted(v: seq<byte>)
    requires TailDeleted(v, |v|)
    ensures BackDeleted(v, |v|) == |v|
  {
    BackDeletedIs(v, |v|, |v|);
  }

  lemma TailFits(v: seq<byte>, n: nat)
    requires TailDeleted(v, n)
    ensures n <= |v|
  {
  }

  // --- the start of a record ---------------------------------------------------------------------------------------------

  /** The last n bytes of v have been copied to the places of the work buffer before k. */
  ghost predicate Collected(work: seq<byte>, v: seq<byte>, n: nat) {
    n <= |v| <= |work| && work[|v| - n..|v|] == v[|v| - n..]
  }

  lemma CollectMore(work: seq<byte>, new_w: seq<byte>, v: seq<byte>, n: nat, bytes: seq<byte>)
    requires Collected(work, v, n) && n + |bytes| <= |v| && v[|v| - n - |bytes|..|v| - n] == bytes
    requires new_w == work[..|v| - n - |bytes|] + bytes + work[|v| - n..]
    ensures Collected(new_w, v, n + |bytes|)
  {
    var k := |v|;
    assert new_w[k - n..k] == work[k - n..k];
    assert new_w[k - n - |bytes|..k] == bytes + new_w[k - n..k];
    assert v[k - n - |bytes|..] == bytes + v[k - n..];
  }

  /** What a scan of a block says of the end of v. */
  lemma BelowTail(v: seq<byte>, b: seq<byte>, n0: nat, p: nat, i2: nat, i3: nat, skip: nat)
    requires 0 < i2 <= p < |b| && n0 + i2 <= |v| && skip == (if n0 == 0 then 1 else 0) && skip <= i3 <= i2
    requires forall j :: p - i2 < j <= p ==> b[j] == v[|v| - n0 - 1 - p + j]
    requires (forall j :: p - i3 < j <= p - skip ==> b[j] < EOR) && (i3 < i2 ==> b[p - i3] >= EOR)
    requires n0 > 0 ==> TailBelow(v, n0)
    ensures TailBelow(v, n0 + i3)
    ensures i3 < i2 ==> BackBelow(v, |v| - 1) == n0 + i3 - 1 && b[p - i3] == v[|v| - 1 - n0 - i3]
  {
    var k, n := |v|, n0 + i3;
    forall j | k - n <= j < k - 1
      ensures v[j] < EOR
    {
      if j < k - n0 {
        assert b[j - k + n0 + 1 + p] == v[j];
      }
    }
    if i3 < i2 {
      BackBelowIs(v, k - 1, n - 1);
    }
  }

  /** The bytes of a block that belong to the record. */
  lemma PartOf(v: seq<byte>, b: seq<byte>, n0: nat, p: nat, i2: nat, i3: nat)
    requires i3 <= i2 <= p < |b| && n0 + i2 <= |v|
    requires forall j :: p - i2 < j <= p ==> b[j] == v[|v| - n0 - 1 - p + j]
    ensures v[|v| - n0 - i3..|v| - n0] == b[p - i3 + 1..p + 1]
  {
    var x, y := v[|v| - n0 - i3..|v| - n0], b[p - i3 + 1..p + 1];
    forall i | 0 <= i < i3
      ensures x[i] == y[i]
    {
      assert b[p - i3 + 1 + i] == v[|v| - n0 - i3 + i];
    }
  }

  /** Scan a block for the start of the record, behind the end mark when it is the first block. */
  method MarkScan(f: RecordFile, n0: nat, p: nat, i2: nat, ghost v: seq<byte>) returns (i3: nat, c1: byte)
    requires f.Coherent() && f.bflg != WRITING && HeldBack(f.buffer, v, n0, p, i2) && (n0 > 0 ==> TailBelow(v, n0))
    modifies f.buffer
    ensures f.Coherent() && f.View() == old(f.View())
    ensures i3 <= i2 <= p < f.buffer.Length - 1 && n0 + i2 <= |v| && TailBelow(v, n0 + i3)
    ensures v[|v| - n0 - i3..|v| - n0] == f.buffer[p - i3 + 1..p + 1]
    ensures i3 < i2 ==> n0 + i3 == BackBelow(v, |v| - 1) + 1 && c1 == v[|v| - 1 - n0 - i3]
  {
    HeldBackAt(f.buffer, v, n0, p, i2);
    ghost var b := f.buffer[..];
    var skip := if n0 == 0 then 1 else 0;
    i3 := ScanBack(f.buffer, p - skip, i2 - skip);
    i3 := i3 + skip;
    assert b == f.buffer[..];
    c1 := f.buffer[p - i3];
    BelowTail(v, b, n0, p, i2, i3, skip);
    PartOf(v, b, n0, p, i2, i3);
    assert f.buffer[p - i3 + 1..p + 1] == b[p - i3 + 1..p + 1];
  }

  /** Scan a block for the start of the record, and copy what belongs to it. */
  method MarkBlock(f: RecordFile, work: array<byte>, n0: nat, p: nat, i2: nat, k: nat, ghost v: seq<byte>)
    returns (n: nat, c1: byte, done: bool)
    requires f.Coherent() && f.bflg != WRITING && HeldBack(f.buffer, v, n0, p, i2) && work != f.buffer && k == |v| <= work.Length
    requires (n0 > 0 ==> TailBelow(v, n0)) && Collected(work[..], v, n0)
    modifies f.buffer, work
    ensures f.Coherent() && f.View() == old(f.View())
    ensures TailBelow(v, n) && Collected(work[..], v, n)
    ensures if done then n == BackBelow(v, |v| - 1) + 1 && n < |v| && c1 == v[|v| - 1 - n] else n == n0 + i2
  {
    hide Collected, HeldBack, TailBelow, BackBelow, Loaded, LoadedBytes, Overlay;
    var i3;
    i3, c1 := MarkScan(f, n0, p, i2, v);
    n := n0 + i3;
    done := i3 < i2;
    Collect(work, k - n, f.buffer[p - i3 + 1..p + 1], v, n0);
  }

  /** Copy more bytes to the work buffer. */
  method Collect(work: array<byte>, at: nat, bytes: seq<byte>, ghost v: seq<byte>, ghost n0: nat)
    requires Collected(work[..], v, n0) && at + n0 + |bytes| == |v| && v[at..at + |bytes|] == bytes
    modifies work
    ensures Collected(work[..], v, n0 + |bytes|)
  {
    ghost var w := work[..];
    CopyIn(work, at, bytes);
    CollectMore(w, work[..], v, n0, bytes);
  }

  lemma NoneCollected(work: seq<byte>, v: seq<byte>)
    requires |v| <= |work|
    ensures Collected(work, v, 0)
  {
  }

  /** Find the start of the record that ends v, and collect it in the work buffer. */
  method FindMark(f: RecordFile, work: array<byte>, k: nat, p0: nat, i2_0: nat, ghost v: seq<byte>) returns (n: nat, c1: byte)
    requires f.Coherent() && f.bsiz > 0 && f.bflg != WRITING && 0 < k == |v| && k <= f.lpos <= |f.disk|
    requires v == f.disk[f.lpos - k..f.lpos] && HeldBack(f.buffer, v, 0, p0, i2_0) && work != f.buffer && k <= work.Length
    modifies f`bflg, f`bpos, f`blen, f.buffer, work
    ensures f.Coherent() && f.bflg != WRITING && f.View() == old(f.View())
    ensures n == BackBelow(v, k - 1) + 1 && (n < k ==> c1 == v[k - 1 - n]) && Collected(work[..], v, n)
  {
    hide HeldBack, BackBelow, Collected, Loaded, LoadedBytes, Overlay;
    var p, i2, done := p0, i2_0, false;
    n, c1 := 0, 0;
    NoneCollected(work[..], v);
    while true
      invariant f.Coherent() && f.bflg != WRITING && f.View() == old(f.View())
      invariant p >= 0 && i2 >= 0 && HeldBack(f.buffer, v, n, p, i2) && (n > 0 ==> TailBelow(v, n)) && Collected(work[..], v, n)
      decreases k - n
    {
      hide TailBelow;
      HeldBackAt(f.buffer, v, n, p, i2);
      n, c1, done := MarkBlock(f, work, n, p, i2, k, v);
      if done {
        return;
      }
      if n == k {
        WholeBelow(v);
        return;
      }
      BelowFits(v, n);
      ghost var w := work[..];
      i2, p := NextBack(f, n, v, k);
      assert work[..] == w;
    }
  }

  lemma WholeBelow(v: seq<byte>)
    requires TailBelow(v, |v|)
    ensures BackBelow(v, |v| - 1) == |v| - 1
  {
    BackBelowIs(v, |v| - 1, |v| - 1);
  }

  lemma BelowFits(v: seq<byte>, n: nat)
    requires TailBelow(v, n)
    ensures n <= |v|
  {
  }

  // --- decoding --------------------------------------------------------------------------------------------------------

  /** The bytes of a record, and its end mark. */
  ghost predicate RecordBytes(b: seq<byte>) {
    b != [] && b[|b| - 1] == EOR && forall j :: 0 <= j < |b| - 1 ==> b[j] < EOR
  }

  lemma UnpackEnd(b: seq<byte>, mark: bool, out: seq<byte>, recsize: nat, plain: bool)
    requires RecordBytes(b)
    requires Decoding(Expand(b, 0, [], recsize, plain, ERR_NOEOR), b, |b| - 1, mark, out, recsize, plain, ERR_NOEOR)
    ensures Unpack(b, recsize, false, plain) == if mark then Failed(ERR_NOEOR, |b|) else Got(out, |b|)
  {
    var n := |b|;
    if mark {
      assert Expand(b, n, out + Blanks(EOR as nat), recsize, plain, ERR_NOEOR) == Failed(ERR_NOEOR, n);
      assert Expand(b, n - 2, out, recsize, plain, ERR_NOEOR).Failed?;
    } else {
      assert Expand(b, n - 1, out, recsize, plain, ERR_NOEOR) == Got(out, n);
    }
  }

  lemma UnpackStart(b: seq<byte>, recsize: nat, plain: bool)
    ensures Decoding(Expand(b, 0, [], recsize, plain, ERR_NOEOR), b, 0, false, [], recsize, plain, ERR_NOEOR)
  {
  }

  /** Decode the record collected in the work buffer; `at` is its place there, n its length with the end mark. */
  method UnpackRecord(work: array<byte>, at: nat, n: nat, record: array<byte>, recsize: nat, unc: bool, plain: bool, ghost b: seq<byte>)
    returns (code: int)
    requires work != record && recsize < record.Length && 0 < n <= recsize + 1 && at + n <= work.Length
    requires b == work[at..at + n] && RecordBytes(b)
    modifies record
    ensures Reports(Unpack(b, recsize, unc, plain), code, n, record[..])
  {
    if unc {
      CopyIn(record, 0, work[at..at + n - 1]);
      assert work[at..at + n - 1] == b[..n - 1];
      CopiedWhole(b, record[..], recsize, plain);
      code := n - 1;
    } else {
      code := UnpackCoded(work, at, n, record, recsize, plain, b);
    }
  }

  lemma CopiedWhole(b: seq<byte>, rec: seq<byte>, recsize: nat, plain: bool)
    requires b != [] && |b| <= |rec| && rec[0..|b| - 1] == b[..|b| - 1]
    ensures Reports(Unpack(b, recsize, true, plain), |b| - 1, |b|, rec)
  {
    assert rec[..|b| - 1] == rec[0..|b| - 1];
  }

  method UnpackCoded(work: array<byte>, at: nat, n: nat, record: array<byte>, recsize: nat, plain: bool, ghost b: seq<byte>)
    returns (code: int)
    requires work != record && recsize < record.Length && 0 < n <= recsize + 1 && at + n <= work.Length
    requires b == work[at..at + n] && RecordBytes(b)
    modifies record
    ensures Reports(Unpack(b, recsize, false, plain), code, n, record[..])
  {
    ghost var o := Expand(b, 0, [], recsize, plain, ERR_NOEOR);
    UnpackStart(b, recsize, plain);
    assert record[..0] == [];
    assert Chunk(b, 0, work[at..at + (n - 1)]) by {
      assert work[at..at + (n - 1)] == b[..n - 1];
    }
    hide Expand, Decoding, Unpack;
    var recpos, mark, status, i3 := DecodeChunk(work, at, n - 1, record, recsize, plain, 0, false, o, b, 0, ERR_NOEOR);
    if status != GOING {
      assert work[at + i3 - 1] == b[i3 - 1];
      UnpackFailed(b, recsize, plain, i3);
      return ERR_NOEOR;
    }
    UnpackEnd(b, mark, record[..recpos], recsize, plain);
    if mark {
      return ERR_NOEOR;
    }
    assert |b| == n && record[..][..recpos] == record[..recpos];
    code := recpos;
  }

  lemma UnpackFailed(b: seq<byte>, recsize: nat, plain: bool, used: nat)
    requires RecordBytes(b) && Expand(b, 0, [], recsize, plain, ERR_NOEOR) == Failed(ERR_NOEOR, used)
    ensures Unpack(b, recsize, false, plain) == Failed(ERR_NOEOR, |b|)
  {
  }

  // --- rioprev ---------------------------------------------------------------------------------------------------------

  /** After the start of a record has been found, n bytes before the end, check what stands before it, and decode. */
  method PrevRecord(work: array<byte>, at: nat, k: nat, n: nat, c1: byte, more: bool, record: array<byte>, recsize: nat,
                    unc: bool, plain: bool, ghost v: seq<byte>) returns (code: int)
    requires work != record && recsize < record.Length && 0 < n <= k == |v| && at + n <= work.Length
    requires k <= recsize + 2 && (more <==> k == recsize + 2)
    requires v[k - 1] == EOR && n == BackBelow(v, k - 1) + 1 && (n < k ==> c1 == v[k - 1 - n]) && work[at..at + n] == v[k - n..]
    modifies record
    ensures Reports(ReadBack(v, more, recsize, unc, plain), code, n, record[..])
  {
    if n == k && more {
      return ERR_RANGE;
    }
    if n < k && c1 != EOR && c1 != DEL {
      return ERR_NOEOR;
    }
    ghost var b := v[k - n..];
    assert forall j :: 0 <= j < n - 1 ==> b[j] == v[k - n + j];
    code := UnpackRecord(work, at, n, record, recsize, unc, plain, b);
  }

  /** A backward read through the buffer. */
  method PrevBuffered(f: RecordFile, record: array<byte>, recsize: nat, work: array<byte>, k: nat, ghost v: seq<byte>)
    returns (code: int, used: nat)
    requires f.Coherent() && f.bsiz > 0 && f.bflg != WRITING && 0 < k == Reach(f.lpos, recsize) && f.lpos <= |f.disk|
    requires v == f.disk[f.lpos - k..f.lpos] && recsize + 4 <= work.Length && recsize < record.Length
    requires record != f.buffer && work != f.buffer && record != work
    modifies f`bflg, f`bpos, f`blen, f.buffer, record, work
    ensures f.Coherent() && f.bflg != WRITING && f.View() == old(f.View())
    ensures Reports(ReadBack(v, k == recsize + 2, recsize, f.unc, f.plain), code, used, record[..])
  {
    hide *;
    ReachFits(f.lpos, recsize);
    var i2, p := NextBack(f, 0, v, k);
    HeldBackAt(f.buffer, v, 0, p, i2);
    var c := f.buffer[p];
    if c == DEL {
      code, used := PrevDeleted(f, recsize, k, p, i2, v, record);
    } else if c == EOR {
      code, used := PrevMarked(f, record, recsize, work, k, p, i2, v);
    } else {
      NoMark(v, k == recsize + 2, recsize, f.unc, f.plain, record[..]);
      code, used := ERR_BADCH, 1;
    }
  }

  lemma ReachFits(lpos: nat, recsize: nat)
    ensures Reach(lpos, recsize) <= lpos
  {
  }

  lemma NoMark(v: seq<byte>, more: bool, recsize: nat, unc: bool, plain: bool, rec: seq<byte>)
    requires v != [] && v[|v| - 1] != EOR && v[|v| - 1] != DEL
    ensures Reports(ReadBack(v, more, recsize, unc, plain), ERR_BADCH, 1, rec)
  {
  }

  /** Going back over a record. */
  method PrevMarked(f: RecordFile, record: array<byte>, recsize: nat, work: array<byte>, k: nat, p: nat, i2: nat, ghost v: seq<byte>)
    returns (code: int, used: nat)
    requires f.Coherent() && f.bsiz > 0 && f.bflg != WRITING && 0 < k == Reach(f.lpos, recsize) && f.lpos <= |f.disk|
    requires v == f.disk[f.lpos - k..f.lpos] && recsize + 4 <= work.Length && recsize < record.Length
    requires record != f.buffer && work != f.buffer && record != work && HeldBack(f.buffer, v, 0, p, i2) && v[k - 1] == EOR
    modifies f`bflg, f`bpos, f`blen, f.buffer, record, work
    ensures f.Coherent() && f.bflg != WRITING && f.View() == old(f.View())
    ensures Reports(ReadBack(v, k == recsize + 2, recsize, f.unc, f.plain), code, used, record[..])
  {
    hide BackBelow, ReadBack, Reports, Loaded, LoadedBytes, Overlay, HeldBack, Reach, Collected;
    ReachBound(f.lpos, recsize);
    var c1;
    used, c1 := FindMark(f, work, k, p, i2, v);
    ghost var w := work[..];
    WorkSlice(w, k, used, v);
    assert w[k - used..k] == work[k - used..k];
    code := PrevRecord(work, k - used, k, used, c1, k == recsize + 2, record, recsize, f.unc, f.plain, v);
  }

  lemma ReachBound(lpos: nat, recsize: nat)
    ensures Reach(lpos, recsize) <= recsize + 2 && Reach(lpos, recsize) <= lpos
  {
  }

  lemma WorkSlice(work: seq<byte>, k: nat, n: nat, v: seq<byte>)
    requires Collected(work, v, n) && k == |v|
    ensures n <= k <= |work| && work[k - n..k] == v[k - n..]
  {
  }

  /** Going back over a deleted record. */
  method PrevDeleted(f: RecordFile, recsize: nat, k: nat, p: nat, i2: nat, ghost v: seq<byte>, record: array<byte>)
    returns (code: int, used: nat)
    requires f.Coherent() && f.bsiz > 0 && f.bflg != WRITING && 0 < k == |v| && k <= f.lpos <= |f.disk|
    requires v == f.disk[f.lpos - k..f.lpos] && HeldBack(f.buffer, v, 0, p, i2) && v[k - 1] == DEL
    modifies f`bflg, f`bpos, f`blen, f.buffer
    ensures f.Coherent() && f.bflg != WRITING && f.View() == old(f.View())
    ensures Reports(ReadBack(v, k == recsize + 2, recsize, f.unc, f.plain), code, used, record[..])
  {
    var c1;
    used, c1 := CountBack(f, k, p, i2, v);
    code := -2;
    if used == k {
      used := if k == recsize + 2 then k - 1 else k;
    } else if c1 != EOR {
      code := ERR_NOEOR;
    }
  }

  /** A backward read without a buffer. */
  method PrevDirect(f: RecordFile, record: array<byte>, recsize: nat, work: array<byte>, k: nat, ghost v: seq<byte>)
    returns (code: int, used: nat)
    requires 0 < k == Reach(f.lpos, recsize) && f.lpos <= |f.disk|
    requires v == f.disk[f.lpos - k..f.lpos] && recsize + 4 <= work.Length && recsize < record.Length && record != work
    modifies record, work
    ensures Reports(ReadBack(v, k == recsize + 2, recsize, f.unc, f.plain), code, used, record[..])
  {
    var bytes := f.disk[f.lpos - k..f.lpos];
    CopyIn(work, 1, bytes);
    WorkAt(work[..], k, v);
    hide Reports, ReadBack, BackBelow, BackDeleted, Reach;
    if work[k] == DEL {
      code, used := DirectDeleted(f, recsize, work, k, v, record);
    } else if work[k] != EOR {
      NoMark(v, k == recsize + 2, recsize, f.unc, f.plain, record[..]);
      code, used := ERR_BADCH, 1;
    } else {
      code, used := DirectMarked(f, record, recsize, work, k, v);
    }
  }

  lemma WorkAt(w: seq<byte>, k: nat, v: seq<byte>)
    requires k + 1 <= |w| && k == |v| && w[1..1 + k] == v
    ensures forall j :: 1 <= j <= k ==> w[j] == v[j - 1]
  {
    assert forall j :: 1 <= j <= k ==> w[j] == w[1..1 + k][j - 1];
  }

  method DirectDeleted(f: RecordFile, recsize: nat, work: array<byte>, k: nat, ghost v: seq<byte>, record: array<byte>)
    returns (code: int, used: nat)
    requires 0 < k == |v| < work.Length && record != work && v[k - 1] == DEL
    requires forall j :: 1 <= j <= k ==> work[j] == v[j - 1]
    modifies work
    ensures Reports(ReadBack(v, k == recsize + 2, recsize, f.unc, f.plain), code, used, record[..])
  {
    ghost var w := work[..];
    used := ScanBackDeleted(work, k, k);
    assert w == work[..] && forall j :: 1 <= j <= k ==> w[j] == v[j - 1];
    forall j | k - used <= j < k
      ensures v[j] == DEL
    {
      assert work[j + 1] == DEL;
    }
    BackDeletedIs(v, k, used);
    code := if used < k && work[k - used] != EOR then ERR_NOEOR else -2;
    DeletedReport(v, k == recsize + 2, recsize, f.unc, f.plain, record[..], code, used);
    if used == k && k == recsize + 2 {
      used := k - 1;
    }
  }

  method DirectMarked(f: RecordFile, record: array<byte>, recsize: nat, work: array<byte>, k: nat, ghost v: seq<byte>)
    returns (code: int, used: nat)
    requires 0 < k == |v| < work.Length && k <= recsize + 2 && recsize < record.Length && record != work && v[k - 1] == EOR
    requires forall j :: 1 <= j <= k ==> work[j] == v[j - 1]
    modifies work, record
    ensures Reports(ReadBack(v, k == recsize + 2, recsize, f.unc, f.plain), code, used, record[..])
  {
    hide Reports, ReadBack, BackBelow;
    ghost var w := work[..];
    var n := ScanBack(work, k - 1, k - 1);
    assert w == work[..] && forall j :: 1 <= j <= k ==> w[j] == v[j - 1];
    forall j | k - 1 - n <= j < k - 1
      ensures v[j] < EOR
    {
      assert work[j + 1] < EOR;
    }
    used := n + 1;
    BackBelowIs(v, k - 1, n);
    ShiftedPart(w, v, k - used, k);
    code := PrevRecord(work, k + 1 - used, k, used, work[k - used], k == recsize + 2, record, recsize, f.unc, f.plain, v);
  }

  lemma DeletedReport(v: seq<byte>, more: bool, recsize: nat, unc: bool, plain: bool, rec: seq<byte>, code: int, n: nat)
    requires v != [] && v[|v| - 1] == DEL && n == BackDeleted(v, |v|)
    requires code == if n < |v| && v[|v| - 1 - n] != EOR then ERR_NOEOR else -2
    ensures Reports(ReadBack(v, more, recsize, unc, plain), code, if n == |v| && more then n - 1 else n, rec)
  {
  }

  /** The bytes looked at before a position in the file. */
  function Before(d: seq<byte>, lpos: nat, recsize: nat): seq<byte>
    requires lpos <= |d|
  {
    d[lpos - Reach(lpos, recsize)..lpos]
  }

  /** What a backward read returns and where it leaves the positions. */
  ghost predicate WentBack(d: seq<byte>, lpos: nat, npos: nat, recsize: nat, unc: bool, plain: bool,
                           code: int, new_lpos: nat, new_npos: nat, rec: seq<byte>)
  {
    if lpos == 0 then code == -1 && new_lpos == 0 && new_npos == 0
    else if lpos > |d| then code == ERR_RANGE && new_lpos == lpos && new_npos == npos
    else
      && new_npos == lpos && new_lpos <= lpos
      && Reports(ReadBack(Before(d, lpos, recsize), Reach(lpos, recsize) == recsize + 2, recsize, unc, plain), code, lpos - new_lpos, rec)
  }

  /** A backward read from a position in the file. */
  method PrevAt(f: RecordFile, record: array<byte>, recsize: nat, work: array<byte>, k: nat, ghost v: seq<byte>)
    returns (code: int, used: nat)
    requires f.Coherent() && f.bflg != WRITING && 0 < k == Reach(f.lpos, recsize) && f.lpos <= |f.disk|
    requires v == f.disk[f.lpos - k..f.lpos] && recsize + 4 <= work.Length && recsize < record.Length
    requires record != f.buffer && work != f.buffer && record != work
    modifies f`bflg, f`bpos, f`blen, f.buffer, record, work
    ensures f.Coherent() && f.bflg != WRITING && f.View() == old(f.View()) && used <= k
    ensures Reports(ReadBack(v, k == recsize + 2, recsize, f.unc, f.plain), code, used, record[..])
  {
    assert |v| == k;
    hide LoadedBytes, Loaded, Reports, ReadBack, Reach;
    if f.bsiz > 0 {
      code, used := PrevBuffered(f, record, recsize, work, k, v);
    } else {
      code, used := PrevDirect(f, record, recsize, work, k, v);
    }
    UsedFits(v, k == recsize + 2, recsize, f.unc, f.plain, code, used, record[..]);
  }

  /** rioprev with nothing to write out. */
  method PrevFlushed(f: RecordFile, record: array<byte>, recsize: nat, work: array<byte>) returns (code: int)
    requires f.Coherent() && f.bflg != WRITING && recsize + 4 <= work.Length && recsize < record.Length
    requires record != f.buffer && work != f.buffer && record != work && (f.bsiz == 0 ==> f.lpos <= |f.disk|)
    modifies f`bflg, f`bpos, f`blen, f`lpos, f`npos, f.buffer, record, work
    ensures f.Coherent() && f.bflg != WRITING && f.View() == old(f.View())
    ensures WentBack(old(f.View()), old(f.lpos), old(f.npos), recsize, f.unc, f.plain, code, f.lpos, f.npos, record[..])
  {
    hide Loaded, LoadedBytes, Overlay, ReadBack, Reports;
    if f.lpos == 0 {
      f.npos := 0;
      return -1;
    }
    if f.lpos > |f.disk| {
      var i2, p := f.ReadBackward(recsize + 2, 0);
      return i2;
    }
    var k := Reach(f.lpos, recsize);
    ghost var v := Before(f.disk, f.lpos, recsize);
    var used;
    code, used := PrevAt(f, record, recsize, work, k, v);
    f.npos := f.lpos;
    f.lpos := f.lpos - used;
  }

  // --- from beyond the end of the file -----------------------------------------------------------------------------------------

  /** Reading backward without a buffer from a position past the end of the file. The bytes w that the read does find are taken
      to end at that position; one byte before them that was not read is looked at, and holds what it held before. */
  function ReadBeyond(w: seq<byte>, stale: byte, recsize: nat, unc: bool, plain: bool): Outcome
    requires w != []
  {
    var k := |w|;
    if w[k - 1] == DEL then
      var n := BackDeleted(w, k);
      if (if n == k then stale else w[k - 1 - n]) != EOR then Failed(ERR_NOEOR, n) else Gone(n)
    else if w[k - 1] != EOR then Failed(ERR_BADCH, 1)
    else
      var n := BackBelow(w, k - 1) + 1;
      if n == k then Failed(ERR_RANGE, n)
      else if w[k - 1 - n] != EOR && w[k - 1 - n] != DEL then Failed(ERR_NOEOR, n)
      else Unpack(w[k - n..], recsize, unc, plain)
  }

  /** What a backward read without a buffer comes to past the end of the file. */
  ghost predicate WentBeyond(d: seq<byte>, lpos: nat, npos: nat, recsize: nat, unc: bool, plain: bool, stale: byte,
                             code: int, new_lpos: nat, new_npos: nat, rec: seq<byte>)
    requires lpos > |d|
  {
    var w := LoadedBytes(d, lpos - Reach(lpos, recsize), Reach(lpos, recsize));
    if w == [] then code == ERR_RANGE && new_lpos == lpos && new_npos == npos
    else
      && new_npos == lpos && new_lpos <= lpos
      && Reports(ReadBeyond(w, stale, recsize, unc, plain), code, lpos - new_lpos, rec)
  }

  /** Without a buffer, a backward read from past the end of the file does what it does with one exactly when no byte of the
      file is in its reach. */
  lemma BeyondAgrees(d: seq<byte>, lpos: nat, npos: nat, recsize: nat, unc: bool, plain: bool, stale: byte, code: int,
                     new_lpos: nat, new_npos: nat, rec: seq<byte>)
    requires lpos > |d| && WentBeyond(d, lpos, npos, recsize, unc, plain, stale, code, new_lpos, new_npos, rec)
    ensures WentBack(d, lpos, npos, recsize, unc, plain, code, new_lpos, new_npos, rec) <==> |d| + Reach(lpos, recsize) <= lpos
  {
    BeyondMoves(LoadedBytes(d, lpos - Reach(lpos, recsize), Reach(lpos, recsize)), stale, recsize, unc, plain, code, lpos - new_lpos, rec);
  }

  lemma BeyondMoves(w: seq<byte>, stale: byte, recsize: nat, unc: bool, plain: bool, code: int, used: int, rec: seq<byte>)
    ensures w != [] && used >= 0 && Reports(ReadBeyond(w, stale, recsize, unc, plain), code, used, rec) ==> 0 < used <= |w|
  {
  }

  /** Such a read can return a record from a place where there is none: of a file of two records "A" and "B", read back from one
      byte past its end, it gives "B". */
  lemma BeyondGivesRecord(stale: byte)
    ensures var d: seq<byte> := [65, EOR, 66, EOR];
            && LoadedBytes(d, 5 - Reach(5, 80), Reach(5, 80)) == d
            && ReadBeyond(d, stale, 80, true, true) == Got([66], 2)
  {
    var d: seq<byte> := [65, EOR, 66, EOR];
    BackBelowIs(d, 3, 1);
    assert d[2..] == [66, EOR] && [66 as byte, EOR][..1] == [66];
  }

  /** A backward read without a buffer from past the end of the file. */
  method PrevBeyond(f: RecordFile, record: array<byte>, recsize: nat, work: array<byte>, ghost w: seq<byte>)
    returns (code: int, used: nat)
    requires recsize + 4 <= work.Length && recsize < record.Length && record != work && f.lpos > |f.disk|
    requires w == LoadedBytes(f.disk, f.lpos - Reach(f.lpos, recsize), Reach(f.lpos, recsize)) && w != []
    modifies record, work
    ensures used <= |w|
    ensures Reports(ReadBeyond(w, old(work[0]), recsize, f.unc, f.plain), code, used, record[..])
  {
    var bytes := LoadedBytes(f.disk, f.lpos - Reach(f.lpos, recsize), Reach(f.lpos, recsize));
    var i2 := |bytes|;
    ghost var stale := work[0];
    CopyIn(work, 1, bytes);
    WorkAt(work[..], i2, w);
    assert forall j :: 1 <= j <= i2 ==> work[..][j] == w[j - 1];
    if work[i2] == DEL {
      code, used := BeyondDeleted(work, i2, w, stale);
    } else if work[i2] != EOR {
      code, used := ERR_BADCH, 1;
    } else {
      code, used := BeyondMarked(work, i2, w, stale, record, recsize, f.unc, f.plain);
    }
    BeyondMoves(w, stale, recsize, f.unc, f.plain, code, used, record[..]);
  }

  method BeyondDeleted(work: array<byte>, i2: nat, ghost w: seq<byte>, ghost stale: byte) returns (code: int, used: nat)
    requires 0 < i2 == |w| < work.Length && w[i2 - 1] == DEL && stale == work[0] && forall j :: 1 <= j <= i2 ==> work[j] == w[j - 1]
    modifies work
    ensures used == BackDeleted(w, i2)
    ensures code == if (if used == i2 then stale else w[i2 - 1 - used]) != EOR then ERR_NOEOR else -2
  {
    ghost var v := work[..];
    used := ScanBackDeleted(work, i2, i2);
    assert v == work[..] && v[0] == stale && forall j :: 1 <= j <= i2 ==> v[j] == w[j - 1];
    forall j | i2 - used <= j < i2
      ensures w[j] == DEL
    {
      assert work[j + 1] == DEL;
    }
    BackDeletedIs(w, i2, used);
    code := if work[i2 - used] != EOR then ERR_NOEOR else -2;
  }

  /** A part of the work buffer, which holds w from its second byte on. */
  lemma ShiftedPart(v: seq<byte>, w: seq<byte>, a: nat, n: nat)
    requires a <= n == |w| < |v| && forall j :: 1 <= j <= n ==> v[j] == w[j - 1]
    ensures v[a + 1..n + 1] == w[a..]
  {
    forall j | 0 <= j < n - a
      ensures v[a + 1..n + 1][j] == w[a..][j]
    {
      assert v[a + 1 + j] == w[a + j];
    }
  }

  /** The marked record that the bytes found end with. */
  method BeyondMarked(work: array<byte>, i2: nat, ghost w: seq<byte>, ghost stale: byte, record: array<byte>, recsize: nat,
                      unc: bool, plain: bool)
    returns (code: int, used: nat)
    requires 0 < i2 == |w| < work.Length && w[i2 - 1] == EOR && forall j :: 1 <= j <= i2 ==> work[j] == w[j - 1]
    requires i2 <= recsize + 2 && recsize < record.Length && record != work
    modifies work, record
    ensures Reports(ReadBeyond(w, stale, recsize, unc, plain), code, used, record[..])
  {
    ghost var v := work[..];
    var n := ScanBack(work, i2 - 1, i2 - 1);
    assert v == work[..] && forall j :: 1 <= j <= i2 ==> v[j] == w[j - 1];
    forall j | i2 - 1 - n <= j < i2 - 1
      ensures w[j] < EOR
    {
      assert work[j + 1] < EOR;
    }
    used := n + 1;
    BackBelowIs(w, i2 - 1, n);
    if used == i2 {
      return ERR_RANGE, used;
    }
    if work[i2 - used] != EOR && work[i2 - used] != DEL {
      return ERR_NOEOR, used;
    }
    ghost var b := w[i2 - used..];
    ShiftedPart(v, w, i2 - used, i2);
    code := UnpackRecord(work, i2 + 1 - used, used, record, recsize, unc, plain, b);
  }

  /** rioprev, with a buffer that needs not be written. */
  method PrevDirectly(f: RecordFile, record: array<byte>, recsize: nat, work: array<byte>) returns (code: int)
    requires f.Coherent() && f.bflg != WRITING && recsize + 4 <= work.Length && recsize < record.Length && f.bsiz == 0 && f.lpos > |f.disk|
    requires record != f.buffer && work != f.buffer && record != work
    modifies f`lpos, f`npos, record, work
    ensures f.Coherent() && f.bflg != WRITING && f.View() == old(f.View())
    ensures WentBeyond(f.disk, old(f.lpos), old(f.npos), recsize, f.unc, f.plain, old(work[0]), code, f.lpos, f.npos, record[..])
  {
    hide ReadBeyond, Reports, LoadedBytes, Overlay;
    ghost var w := LoadedBytes(f.disk, f.lpos - Reach(f.lpos, recsize), Reach(f.lpos, recsize));
    if |LoadedBytes(f.disk, f.lpos - Reach(f.lpos, recsize), Reach(f.lpos, recsize))| == 0 {
      return ERR_RANGE;
    }
    var used;
    code, used := PrevBeyond(f, record, recsize, work, w);
    f.npos := f.lpos;
    f.lpos := f.lpos - used;
  }

  /** rioprev: read the record before the last position. The outcome is that of reading the plain file backward, whatever the
      buffer, and the file itself does not change. The exception is a read without a buffer from past the end of the file. */
  method Prev(f: RecordFile, record: array<byte>, recsize: nat, work: array<byte>) returns (code: int)
    requires f.Valid() && recsize < record.Length && record != f.buffer && record != work && work != f.buffer
    modifies f, f.buffer, record, work
    ensures f.Valid() && f.View() == old(f.View()) && f.fsiz == old(f.fsiz)
    ensures recsize + 4 > work.Length ==> code == ERR_INVAR && f.lpos == old(f.lpos) && f.npos == old(f.npos)
    ensures recsize + 4 <= work.Length && f.bsiz == 0 && old(f.lpos) > |old(f.View())| ==>
              WentBeyond(old(f.View()), old(f.lpos), old(f.npos), recsize, f.unc, f.plain, old(work[0]), code, f.lpos, f.npos, record[..])
    ensures recsize + 4 <= work.Length && !(f.bsiz == 0 && old(f.lpos) > |old(f.View())|) ==>
              WentBack(old(f.View()), old(f.lpos), old(f.npos), recsize, f.unc, f.plain, code, f.lpos, f.npos, record[..])
  {
    hide WentBack, WentBeyond, Overlay, Loaded, LoadedBytes;
    if recsize + 4 > work.Length {
      return ERR_INVAR;
    }
    if f.bflg == WRITING {
      f.WriteBack();
    }
    if f.bsiz == 0 && f.lpos > |f.disk| {
      code := PrevDirectly(f, record, recsize, work);
    } else {
      code := PrevFlushed(f, record, recsize, work);
    }
  }

  lemma UsedFits(v: seq<byte>, more: bool, recsize: nat, unc: bool, plain: bool, code: int, used: nat, rec: seq<byte>)
    requires v != [] && Reports(ReadBack(v, more, recsize, unc, plain), code, used, rec)
    ensures used <= |v|
  {
  }
}

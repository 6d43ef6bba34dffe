/** Reading a record forward (rio.c, rioget): what is read depends only on the bytes of the file, not on where the
    blocks of the buffer end. */
module RioGet {
  import opened Bytes
  import opened RioCodec
  import opened RioBuffer

  // --- what a read comes to ----------------------------------------------------------------------------------

  /** How many bytes at the start of w, from place i on, are below `limit`. */
  function BelowFrom(w: seq<byte>, i: nat, limit: byte): (n: nat)
    requires i <= |w|
    ensures i <= n <= |w| && (n < |w| ==> w[n] >= limit) && forall j :: i <= j < n ==> w[j] < limit
    decreases |w| - i
  {
    if i < |w| && w[i] < limit then BelowFrom(w, i + 1, limit) else i
  }

  function Below(w: seq<byte>, limit: byte): nat {
    BelowFrom(w, 0, limit)
  }

  /** How many of the bytes at the start of w mark a deleted record. */
  function DeletedFrom(w: seq<byte>, i: nat): (n: nat)
    requires i <= |w|
    ensures i <= n <= |w| && (n < |w| ==> w[n] != DEL) && forall j :: i <= j < n ==> w[j] == DEL
    decreases |w| - i
  {
    if i < |w| && w[i] == DEL then DeletedFrom(w, i + 1) else i
  }

  /** The error for a record that does not end within the bytes that could hold it; in a compressed part an
      unbuffered read does not tell the end of the file from the end of the record area. */
  function Tail(w: seq<byte>, recsize: nat, buffered: bool): int {
    if |w| == recsize + 1 || !buffered then ERR_NOEOR else ERR_NOEOF
  }

  /** Reading a record that is neither deleted nor the end of the file. */
  function Parse(w: seq<byte>, recsize: nat, unc: bool, plain: bool, buffered: bool): Outcome {
    var n := Below(w, Limit(plain));
    if n == |w| then Failed(if |w| == recsize + 1 then ERR_NOEOR else ERR_NOEOF, n)
    else if w[n] <= SPC && !unc then Expand(w, n, w[..n], recsize, plain, Tail(w, recsize, buffered))
    else if w[n] == EOR then Got(w[..n], n + 1)
    else Failed(ERR_BADCH, n + 1)
  }

  /** Reading from a place where the bytes w stand, at most one more than a record holds. */
  function Read(w: seq<byte>, recsize: nat, unc: bool, plain: bool, buffered: bool): Outcome {
    if w == [] then Failed(ERR_RANGE, 0)
    else if w[0] == DEL then
      var n := DeletedFrom(w, 0);
      if n == |w| && |w| < recsize + 1 && buffered then Failed(ERR_NOEOF, n) else Gone(n)
    else if w[0] == EOF then AtEnd
    else Parse(w, recsize, unc, plain, buffered)
  }

  /** What rioget returns, how far it moves and what it leaves in the caller's buffer. */
  ghost predicate Reports(o: Outcome, code: int, used: nat, rec: seq<byte>) {
    match o
    case Got(data, u) => code == |data| && used == u && |data| <= |rec| && rec[..|data|] == data
    case AtEnd => code == -1 && used == 0
    case Gone(u) => code == -2 && used == u
    case Failed(c, u) => code == c && used == u
  }

  // --- scanning with a sentinel -----------------------------------------------------------------------------------

  /** Scan n bytes at place p for one that is not below `limit`. A sentinel behind them stops the scan; the byte it
      replaces is put back. */
  method ScanBelow(buf: array<byte>, p: nat, n: nat, limit: byte) returns (i3: nat)
    requires p + n < buf.Length && limit <= DEL
    modifies buf
    ensures buf[..] == old(buf[..])
    ensures i3 <= n && (forall j :: p <= j < p + i3 ==> buf[j] < limit) && (i3 < n ==> buf[p + i3] >= limit)
  {
    var c1 := buf[p + n];
    buf[p + n] := DEL;
    i3 := 0;
    while buf[p + i3] < limit
      invariant i3 <= n && forall j :: p <= j < p + i3 ==> buf[j] < limit
      invariant buf[..] == old(buf[..])[p + n := DEL]
      decreases n - i3
    {
      i3 := i3 + 1;
    }
    buf[p + n] := c1;
  }

  /** The same for the bytes of a deleted record. */
  method ScanDeleted(buf: array<byte>, p: nat, n: nat) returns (i3: nat)
    requires p + n < buf.Length
    modifies buf
    ensures buf[..] == old(buf[..])
    ensures i3 <= n && (forall j :: p <= j < p + i3 ==> buf[j] == DEL) && (i3 < n ==> buf[p + i3] != DEL)
  {
    var c1 := buf[p + n];
    buf[p + n] := 0;
    i3 := 0;
    while buf[p + i3] == DEL
      invariant i3 <= n && forall j :: p <= j < p + i3 ==> buf[j] == DEL
      invariant buf[..] == old(buf[..])[p + n := 0]
      decreases n - i3
    {
      i3 := i3 + 1;
    }
    buf[p + n] := c1;
  }

  // --- chunks -----------------------------------------------------------------------------------------------------

  /** The bytes c are part of w, from place `at` on. */
  ghost predicate Chunk(w: seq<byte>, at: nat, c: seq<byte>) {
    at + |c| <= |w| && w[at..at + |c|] == c
  }

  lemma FileChunk(d: seq<byte>, pos: nat, i5: nat, at: nat, c: seq<byte>)
    requires InFile(d, pos + at, c) && at + |c| <= i5 && c != []
    ensures Chunk(LoadedBytes(d, pos, i5), at, c)
  {
    var w := LoadedBytes(d, pos, i5);
    assert w == d[pos..pos + |w|];
    SliceOfSlice(d, pos, pos + |w|, at, at + |c|);
  }

  /** n bytes of w, from place `at` on, are in the buffer at place p. */
  ghost predicate Held(buf: array<byte>, w: seq<byte>, at: nat, p: nat, n: nat, recsize: nat)
    reads buf
  {
    0 < n && p + n < buf.Length && Chunk(w, at, buf[p..p + n]) && at + n <= recsize + 1
  }

  /** The next bytes of the record, or 0 at the end of the file. */
  method NextChunk(f: RecordFile, recsize: nat, at: nat, ghost w: seq<byte>) returns (i2: nat, p: nat)
    requires f.Coherent() && f.bsiz > 0 && f.bflg != WRITING && at <= recsize
    requires w == LoadedBytes(f.disk, f.npos, recsize + 1) && at <= |w|
    modifies f`bflg, f`bpos, f`blen, f.buffer
    ensures f.Coherent() && f.bflg == READING && f.View() == old(f.View())
    ensures i2 == 0 <==> at == |w|
    ensures i2 > 0 ==> Held(f.buffer, w, at, p, i2, recsize)
  {
    i2, p := f.ReadForward(recsize + 1 - at, at);
    if i2 > 0 {
      FileChunk(f.disk, f.npos, recsize + 1, at, f.buffer[p..p + i2]);
    }
  }

  // --- a deleted record -------------------------------------------------------------------------------------------

  lemma DeletedCount(w: seq<byte>, i: nat, n: nat)
    requires i <= n <= |w| && (forall j :: i <= j < n ==> w[j] == DEL) && (n < |w| ==> w[n] != DEL)
    ensures DeletedFrom(w, i) == n
    decreases n - i
  {
    if i < n {
      DeletedCount(w, i + 1, n);
    }
  }

  lemma BelowCount(w: seq<byte>, i: nat, limit: byte, n: nat)
    requires i <= n <= |w| && (forall j :: i <= j < n ==> w[j] < limit) && (n < |w| ==> w[n] >= limit)
    ensures BelowFrom(w, i, limit) == n
    decreases n - i
  {
    if i < n {
      BelowCount(w, i + 1, limit, n);
    }
  }

  /** All of w before place n marks a deleted record. */
  ghost predicate AllDeleted(w: seq<byte>, n: nat) {
    n <= |w| && forall j :: 0 <= j < n ==> w[j] == DEL
  }

  ghost predicate AllBelow(w: seq<byte>, n: nat, limit: byte) {
    n <= |w| && forall j :: 0 <= j < n ==> w[j] < limit
  }

  lemma MoreDeleted(w: seq<byte>, at: nat, c: seq<byte>, i3: nat)
    requires AllDeleted(w, at) && Chunk(w, at, c) && i3 <= |c| && forall j :: 0 <= j < i3 ==> c[j] == DEL
    ensures AllDeleted(w, at + i3)
    ensures i3 < |c| ==> w[at + i3] == c[i3]
  {
    var v := w[at..at + |c|];
    forall j | at <= j < at + i3
      ensures w[j] == DEL
    {
      assert w[j] == v[j - at];
    }
    assert i3 < |c| ==> w[at + i3] == v[i3];
  }

  lemma MoreBelow(w: seq<byte>, at: nat, c: seq<byte>, i3: nat, limit: byte)
    requires AllBelow(w, at, limit) && Chunk(w, at, c) && i3 <= |c| && forall j :: 0 <= j < i3 ==> c[j] < limit
    ensures AllBelow(w, at + i3, limit) && w[..at + i3] == w[..at] + c[..i3]
    ensures i3 < |c| ==> w[at + i3] == c[i3]
  {
    var v := w[at..at + |c|];
    forall j | at <= j < at + i3
      ensures w[j] == c[j - at]
    {
      assert w[j] == v[j - at];
    }
    assert i3 < |c| ==> w[at + i3] == v[i3];
  }

  /** Look at the bytes in the buffer for the end of the marks of a deleted record. */
  method DeletedChunk(f: RecordFile, recsize: nat, i1: nat, i2: nat, p: nat, ghost w: seq<byte>) returns (i3: nat, done: bool)
    requires f.Coherent() && f.bflg == READING && |w| <= recsize + 1
    requires Held(f.buffer, w, i1, p, i2, recsize) && AllDeleted(w, i1)
    modifies f.buffer
    ensures f.Coherent() && f.View() == old(f.View())
    ensures i1 + i3 <= |w| && if done then DeletedFrom(w, 0) == i1 + i3 && !(i1 + i3 == |w| && |w| < recsize + 1)
                              else i3 == i2 && i1 + i3 <= recsize && AllDeleted(w, i1 + i3)
  {
    ghost var c := f.buffer[p..p + i2];
    i3 := ScanDeleted(f.buffer, p, i2);
    assert forall j :: 0 <= j < i3 ==> c[j] == f.buffer[p + j];
    MoreDeleted(w, i1, c, i3);
    done := i3 < i2 || i1 + i2 == recsize + 1;
    if done {
      DeletedEnd(w, i1, c, i3, recsize);
    }
  }

  /** The marks of a deleted record, over as many blocks as they take. */
  method CountDeleted(f: RecordFile, recsize: nat, i2_0: nat, p0: nat, ghost w: seq<byte>) returns (code: int, used: nat)
    requires f.Coherent() && f.bsiz > 0 && f.bflg == READING && w == LoadedBytes(f.disk, f.npos, recsize + 1)
    requires Held(f.buffer, w, 0, p0, i2_0, recsize)
    modifies f`bflg, f`bpos, f`blen, f.buffer
    ensures f.Coherent() && f.bflg == READING && f.View() == old(f.View())
    ensures var n := DeletedFrom(w, 0);
            used == n && code == if n == |w| && |w| < recsize + 1 then ERR_NOEOF else -2
  {
    var i1, i2, p := 0, i2_0, p0;
    code, used := 0, 0;
    hide LoadedBytes, Loaded, Chunk, Held;
    while true
      invariant f.Coherent() && f.bflg == READING && f.View() == old(f.View())
      invariant i1 >= 0 && i2 >= 0 && p >= 0 && Held(f.buffer, w, i1, p, i2, recsize) && AllDeleted(w, i1)
      decreases recsize + 1 - i1
    {
      hide AllDeleted;
      HeldSome(f.buffer, w, i1, p, i2, recsize);
      var i3, done := DeletedChunk(f, recsize, i1, i2, p, w);
      if done {
        return -2, i1 + i3;
      }
      i1 := i1 + i2;
      i2, p := NextChunk(f, recsize, i1, w);
      if i2 == 0 {
        AllDeletedEnd(w);
        return ERR_NOEOF, i1;
      }
    }
  }

  lemma HeldSome(buf: array<byte>, w: seq<byte>, at: nat, p: nat, n: nat, recsize: nat)
    requires Held(buf, w, at, p, n, recsize)
    ensures n > 0 && at + n <= |w| && at + n <= recsize + 1 && p + n < buf.Length && Chunk(w, at, buf[p..p + n])
  {
  }

  lemma AllDeletedEnd(w: seq<byte>)
    requires AllDeleted(w, |w|)
    ensures DeletedFrom(w, 0) == |w|
  {
    DeletedCount(w, 0, |w|);
  }

  lemma DeletedEnd(w: seq<byte>, at: nat, c: seq<byte>, i3: nat, recsize: nat)
    requires Chunk(w, at, c) && i3 <= |c| && AllDeleted(w, at + i3) && |w| <= recsize + 1
    requires if i3 < |c| then w[at + i3] != DEL else at + i3 == recsize + 1
    ensures DeletedFrom(w, 0) == at + i3 && !(at + i3 == |w| && |w| < recsize + 1)
  {
    DeletedCount(w, 0, at + i3);
  }

  // --- decoding ------------------------------------------------------------------------------------------------------

  const GOING := 0
  const ENDED := 1

  /** Decoding has reached place a of w, with `out` decoded; a blank mark waits for its count. */
  function Rest(w: seq<byte>, a: nat, mark: bool, out: seq<byte>, recsize: nat, plain: bool, tail: int): Outcome
    requires a <= |w| && (mark ==> a > 0)
  {
    Expand(w, if mark then a - 1 else a, out, recsize, plain, tail)
  }

  /** Add a decoded byte, unless the record area is full. */
  method Emit(record: array<byte>, recsize: nat, pos0: nat, c1: byte) returns (recpos: nat, status: int)
    requires pos0 <= recsize < record.Length
    modifies record
    ensures record[recsize..] == old(record[recsize..])
    ensures if pos0 == recsize then status == ERR_NOEOR && recpos == pos0 && record[..] == old(record[..])
            else status == GOING && recpos == pos0 + 1 && record[..recpos] == old(record[..pos0]) + [c1]
  {
    recpos, status := pos0, GOING;
    if recpos == recsize {
      return recpos, ERR_NOEOR;
    }
    record[recpos] := c1;
    recpos := recpos + 1;
  }

  /** The count of a run of blanks. */
  method DecodeBlanks(c: byte, record: array<byte>, recsize: nat, pos0: nat) returns (recpos: nat, status: int)
    requires pos0 <= recsize < record.Length
    modifies record
    ensures recpos <= recsize && record[recsize..] == old(record[recsize..])
    ensures if pos0 + c as int > recsize then status == ERR_NOEOR
            else status == GOING && record[..recpos] == old(record[..pos0]) + Blanks(c as nat)
  {
    ghost var out := record[..pos0];
    recpos, status := pos0, GOING;
    var i4 := c as nat;
    if i4 == 0 {
      NoBlanks(out);
      return;
    }
    i4 := i4 - 1;
    if recpos + i4 > recsize {
      i4 := recsize - recpos;
    }
    CopyIn(record, recpos, Blanks(i4));
    recpos := recpos + i4;
    assert record[..recpos] == out + Blanks(i4);
    OneMoreBlank(out, i4 + 1);
    recpos, status := Emit(record, recsize, recpos, BLANK);
  }

  /** A pair of digits. */
  method DecodePair(c: byte, record: array<byte>, recsize: nat, pos0: nat) returns (recpos: nat, status: int)
    requires pos0 <= recsize < record.Length && 0x80 <= c < SPC
    modifies record
    ensures recpos <= recsize && record[recsize..] == old(record[recsize..])
    ensures if pos0 + 2 > recsize then status == ERR_NOEOR
            else status == GOING && record[..recpos] == old(record[..pos0]) + [First(c), Second(c)]
  {
    recpos := pos0;
    ghost var out := record[..pos0];
    if recpos != recsize {
      recpos, status := Emit(record, recsize, recpos, First(c));
      assert out + [First(c), Second(c)] == (out + [First(c)]) + [Second(c)];
    }
    recpos, status := Emit(record, recsize, recpos, Second(c));
  }

  /** One byte of a compressed record. */
  method DecodeByte(c: byte, record: array<byte>, recsize: nat, plain: bool, pos0: nat, mark0: bool,
                    ghost w: seq<byte>, ghost a: nat, ghost tail: int)
    returns (recpos: nat, mark: bool, status: int)
    requires pos0 <= recsize < record.Length && a < |w| && w[a] == c && (mark0 ==> a > 0 && w[a - 1] == SPC)
    modifies record
    ensures recpos <= recsize && (mark ==> c == SPC) && record[recsize..] == old(record[recsize..])
    ensures var o := Rest(w, a, mark0, old(record[..pos0]), recsize, plain, tail);
            if status == GOING then o == Rest(w, a + 1, mark, record[..recpos], recsize, plain, tail)
            else if status == ENDED then c == EOR && o == Got(record[..recpos], a + 1)
            else (status == ERR_NOEOR || (status == ERR_BADCH && c > EOR)) && o == Failed(status, a + 1)
  {
    recpos, mark, status := pos0, false, GOING;
    if mark0 {
      recpos, status := DecodeBlanks(c, record, recsize, pos0);
    } else if c == SPC {
      mark := true;
    } else if !plain && 0x80 <= c < SPC {
      recpos, status := DecodePair(c, record, recsize, pos0);
    } else if c == EOR {
      status := ENDED;
    } else if c > EOR {
      status := ERR_BADCH;
    } else {
      recpos, status := Emit(record, recsize, pos0, c);
    }
  }

  lemma NoBlanks(out: seq<byte>)
    ensures out + Blanks(0) == out
  {
  }

  lemma OneMoreBlank(out: seq<byte>, n: nat)
    requires n > 0
    ensures out + Blanks(n) == (out + Blanks(n - 1)) + [BLANK]
  {
  }

  /** Decoding has come to place a: what is still to come out of it is o. */
  ghost predicate Decoding(o: Outcome, w: seq<byte>, a: nat, mark: bool, out: seq<byte>, recsize: nat, plain: bool, tail: int) {
    a <= |w| && |out| <= recsize && (mark ==> a > 0 && w[a - 1] == SPC) && o == Rest(w, a, mark, out, recsize, plain, tail)
  }

  lemma ChunkAt(w: seq<byte>, at: nat, c: seq<byte>, i: nat)
    requires Chunk(w, at, c) && i < |c|
    ensures at + i < |w| && w[at + i] == c[i]
  {
    assert w[at..at + |c|][i] == c[i];
  }

  /** Decode the bytes in a buffer. */
  method DecodeChunk(buf: array<byte>, p: nat, n: nat, record: array<byte>, recsize: nat, plain: bool, pos0: nat, mark0: bool,
                     ghost o: Outcome, ghost w: seq<byte>, ghost at: nat, ghost tail: int)
    returns (recpos: nat, mark: bool, status: int, i3: nat)
    requires buf != record && pos0 <= recsize < record.Length && p + n <= buf.Length && Chunk(w, at, buf[p..p + n])
    requires Decoding(o, w, at, mark0, record[..pos0], recsize, plain, tail)
    modifies record
    ensures recpos <= recsize && i3 <= n && record[recsize..] == old(record[recsize..])
    ensures if status == GOING then i3 == n && Decoding(o, w, at + n, mark, record[..recpos], recsize, plain, tail)
            else if status == ENDED then o == Got(record[..recpos], at + i3)
            else status < 0 && o == Failed(status, at + i3)
    ensures status != GOING ==> i3 > 0 && (status == ERR_NOEOR || buf[p + i3 - 1] >= EOR)
  {
    ghost var c := buf[p..p + n];
    recpos, mark, status, i3 := pos0, mark0, GOING, 0;
    while i3 < n
      invariant i3 <= n && recpos <= recsize && record[recsize..] == old(record[recsize..])
      invariant status == GOING && Decoding(o, w, at + i3, mark, record[..recpos], recsize, plain, tail)
    {
      ChunkAt(w, at, c, i3);
      var b := buf[p + i3];
      assert b == c[i3];
      recpos, mark, status := DecodeByte(b, record, recsize, plain, recpos, mark, w, at + i3, tail);
      i3 := i3 + 1;
      if status != GOING {
        return;
      }
    }
  }

  /** Decode one block, and have the next one in the buffer unless the record ends. */
  method DecodeBlock(f: RecordFile, record: array<byte>, recsize: nat, at: nat, p0: nat, n: nat, pos0: nat, mark0: bool,
                     ghost o: Outcome, ghost w: seq<byte>, ghost tail: int)
    returns (done: bool, code: int, i1: nat, i2: nat, p: nat, recpos: nat, mark: bool)
    requires f.Coherent() && f.bsiz > 0 && f.bflg == READING && w == LoadedBytes(f.disk, f.npos, recsize + 1)
    requires record != f.buffer && recsize < record.Length && tail == Tail(w, recsize, true)
    requires Held(f.buffer, w, at, p0, n, recsize) && pos0 <= recsize
    requires Decoding(o, w, at, mark0, record[..pos0], recsize, f.plain, tail)
    modifies f`bflg, f`bpos, f`blen, f.buffer, record
    ensures f.Coherent() && f.bflg == READING && f.View() == old(f.View()) && record[recsize..] == old(record[recsize..])
    ensures done ==> Reports(o, code, i1, record[..])
    ensures !done ==> at < i1 <= recsize && Held(f.buffer, w, i1, p, i2, recsize) && recpos <= recsize
    ensures !done ==> Decoding(o, w, i1, mark, record[..recpos], recsize, f.plain, tail)
  {
    hide LoadedBytes, Loaded, Chunk, Held, Expand, Decoding, Rest, RecordFile.Coherent, RecordFile.View;
    HeldSome(f.buffer, w, at, p0, n, recsize);
    done, code, i1, i2, p := true, 0, 0, 0, 0;
    var status, i3;
    recpos, mark, status, i3 := DecodeChunk(f.buffer, p0, n, record, recsize, f.plain, pos0, mark0, o, w, at, tail);
    i1 := at + i3;
    if status != GOING {
      code := if status == ENDED then recpos else status;
      return;
    }
    ghost var out, rest := record[..recpos], record[recsize..];
    if i1 == recsize + 1 {
      DecodeOver(o, w, i1, mark, out, recsize, f.plain, tail);
      code := ERR_NOEOR;
      return;
    }
    i2, p := NextChunk(f, recsize, i1, w);
    if i2 == 0 {
      DecodeOver(o, w, i1, mark, out, recsize, f.plain, tail);
      code := ERR_NOEOF;
      return;
    }
    done := false;
    assert record[..recpos] == out && record[recsize..] == rest;
  }

  /** The rest of a compressed record, block by block; i2 bytes at place p of the buffer are the first of it. */
  method DecodeRecord(f: RecordFile, record: array<byte>, recsize: nat, n: nat, p0: nat, i2_0: nat,
                      ghost o: Outcome, ghost w: seq<byte>, ghost tail: int)
    returns (code: int, used: nat)
    requires f.Coherent() && f.bsiz > 0 && f.bflg == READING && w == LoadedBytes(f.disk, f.npos, recsize + 1)
    requires record != f.buffer && recsize < record.Length && tail == Tail(w, recsize, true)
    requires Held(f.buffer, w, n, p0, i2_0, recsize) && n <= recsize
    requires Decoding(o, w, n, false, record[..n], recsize, f.plain, tail)
    modifies f`bflg, f`bpos, f`blen, f.buffer, record
    ensures f.Coherent() && f.bflg == READING && f.View() == old(f.View())
    ensures Reports(o, code, used, record[..]) && record[recsize..] == old(record[recsize..])
  {
    var i2, p, recpos, mark := i2_0, p0, n, false;
    used := n;
    hide LoadedBytes, Loaded, Held, Decoding, Tail, Reports;
    while true
      invariant f.Coherent() && f.bflg == READING && f.View() == old(f.View())
      invariant used <= recsize && i2 >= 0 && p >= 0 && Held(f.buffer, w, used, p, i2, recsize) && 0 <= recpos <= recsize
      invariant Decoding(o, w, used, mark, record[..recpos], recsize, f.plain, tail)
      invariant record[recsize..] == old(record[recsize..])
      decreases recsize + 1 - used
    {
      var done;
      done, code, used, i2, p, recpos, mark := DecodeBlock(f, record, recsize, used, p, i2, recpos, mark, o, w, tail);
      if done {
        return;
      }
    }
    code := 0;
  }

  lemma DecodeOver(o: Outcome, w: seq<byte>, a: nat, mark: bool, out: seq<byte>, recsize: nat, plain: bool, tail: int)
    requires Decoding(o, w, a, mark, out, recsize, plain, tail) && a == |w|
    ensures o == Failed(tail, a)
  {
  }

  // --- the plain part ------------------------------------------------------------------------------------------------

  /** The bytes before place n are plain and have been copied. */
  ghost predicate Copied(w: seq<byte>, n: nat, rec: seq<byte>, limit: byte) {
    AllBelow(w, n, limit) && n <= |rec| && rec[..n] == w[..n]
  }

  /** The first byte that is not plain, at place n. */
  lemma ParseSpecial(w: seq<byte>, n: nat, recsize: nat, unc: bool, plain: bool)
    requires AllBelow(w, n, Limit(plain)) && n < |w| && w[n] >= Limit(plain)
    ensures Parse(w, recsize, unc, plain, true) ==
              if w[n] <= SPC && !unc then Rest(w, n, false, w[..n], recsize, plain, Tail(w, recsize, true))
              else if w[n] == EOR then Got(w[..n], n + 1)
              else Failed(ERR_BADCH, n + 1)
  {
    BelowCount(w, 0, Limit(plain), n);
  }

  lemma ParseOver(w: seq<byte>, recsize: nat, unc: bool, plain: bool)
    requires AllBelow(w, |w|, Limit(plain))
    ensures Parse(w, recsize, unc, plain, true) == Failed(if |w| == recsize + 1 then ERR_NOEOR else ERR_NOEOF, |w|)
  {
    BelowCount(w, 0, Limit(plain), |w|);
  }

  /** Scan one block for a byte that is not plain, and copy what comes before it. */
  method ScanBlock(f: RecordFile, record: array<byte>, recsize: nat, i1: nat, p: nat, i2: nat, ghost w: seq<byte>)
    returns (i3: nat, c1: byte)
    requires f.Coherent() && f.bflg == READING && record != f.buffer && recsize + 1 < record.Length
    requires Held(f.buffer, w, i1, p, i2, recsize) && Copied(w, i1, record[..], Limit(f.plain))
    modifies f.buffer, record
    ensures f.Coherent() && f.View() == old(f.View()) && i3 <= i2
    ensures Held(f.buffer, w, i1, p, i2, recsize) && Copied(w, i1 + i3, record[..], Limit(f.plain))
    ensures i3 < i2 ==> i1 + i3 < |w| && w[i1 + i3] == c1 && c1 >= Limit(f.plain)
  {
    ghost var c := f.buffer[p..p + i2];
    i3 := ScanBelow(f.buffer, p, i2, Limit(f.plain));
    assert f.buffer[p..p + i2] == c && forall j :: 0 <= j < i3 ==> c[j] == f.buffer[p + j];
    assert i3 < i2 ==> c[i3] == f.buffer[p + i3];
    MoreBelow(w, i1, c, i3, Limit(f.plain));
    assert f.buffer[p..p + i3] == c[..i3];
    CopyIn(record, i1, f.buffer[p..p + i3]);
    assert record[..i1 + i3] == w[..i1 + i3];
    c1 := if i3 < i2 then f.buffer[p + i3] else 0;
  }

  /** The part of a block behind its plain bytes. */
  lemma HeldRest(buf: array<byte>, w: seq<byte>, at: nat, p: nat, n: nat, recsize: nat, k: nat)
    requires Held(buf, w, at, p, n, recsize) && k < n
    ensures Held(buf, w, at + k, p + k, n - k, recsize)
  {
    var c := buf[p..p + n];
    assert buf[p + k..p + n] == c[k..];
    assert w[at + k..at + n] == w[at..at + n][k..];
  }

  /** Deal with one block of a record, and have the next one in the buffer unless the record ends. */
  method ParseBlock(f: RecordFile, record: array<byte>, recsize: nat, at: nat, p0: nat, n: nat, ghost w: seq<byte>)
    returns (done: bool, code: int, i1: nat, i2: nat, p: nat)
    requires f.Coherent() && f.bsiz > 0 && f.bflg == READING && w == LoadedBytes(f.disk, f.npos, recsize + 1)
    requires record != f.buffer && recsize + 1 < record.Length
    requires Held(f.buffer, w, at, p0, n, recsize) && Copied(w, at, record[..], Limit(f.plain))
    modifies f`bflg, f`bpos, f`blen, f.buffer, record
    ensures f.Coherent() && f.bflg == READING && f.View() == old(f.View())
    ensures done ==> Reports(Parse(w, recsize, f.unc, f.plain, true), code, i1, record[..])
    ensures !done ==> at < i1 <= recsize && Held(f.buffer, w, i1, p, i2, recsize) && Copied(w, i1, record[..], Limit(f.plain))
  {
    HeldSome(f.buffer, w, at, p0, n, recsize);
    hide LoadedBytes, Loaded, Chunk, Held, Parse, Copied, Overlay;
    done, code, i2, p := true, 0, 0, 0;
    var i3, c1 := ScanBlock(f, record, recsize, at, p0, n, w);
    i1 := at + n;
    if i3 < n {
      code, i1 := ParseEnd(f, record, recsize, at, p0, n, i3, c1, w);
      return;
    }
    ghost var rec := record[..];
    CopiedBelow(w, i1, rec, Limit(f.plain));
    if i1 == recsize + 1 {
      ParseOver(w, recsize, f.unc, f.plain);
      code := ERR_NOEOR;
      return;
    }
    i2, p := NextChunk(f, recsize, i1, w);
    if i2 == 0 {
      ParseOver(w, recsize, f.unc, f.plain);
      code := ERR_NOEOF;
      return;
    }
    assert record[..] == rec;
    done := false;
  }

  lemma CopiedBelow(w: seq<byte>, n: nat, rec: seq<byte>, limit: byte)
    requires Copied(w, n, rec, limit)
    ensures AllBelow(w, n, limit)
  {
  }

  /** A record that is neither deleted nor the end of the file. */
  method ParseRecord(f: RecordFile, record: array<byte>, recsize: nat, p0: nat, i2_0: nat, ghost w: seq<byte>)
    returns (code: int, used: nat)
    requires f.Coherent() && f.bsiz > 0 && f.bflg == READING && w == LoadedBytes(f.disk, f.npos, recsize + 1)
    requires record != f.buffer && recsize + 1 < record.Length && Held(f.buffer, w, 0, p0, i2_0, recsize)
    modifies f`bflg, f`bpos, f`blen, f.buffer, record
    ensures f.Coherent() && f.bflg == READING && f.View() == old(f.View())
    ensures Reports(Parse(w, recsize, f.unc, f.plain, true), code, used, record[..])
  {
    var i2, p := i2_0, p0;
    code, used := 0, 0;
    assert Copied(w, 0, record[..], Limit(f.plain));
    hide LoadedBytes, Loaded, Held, Copied, Parse, Reports;
    while true
      invariant f.Coherent() && f.bflg == READING && f.View() == old(f.View())
      invariant used <= recsize && i2 >= 0 && p >= 0 && Held(f.buffer, w, used, p, i2, recsize)
      invariant Copied(w, used, record[..], Limit(f.plain))
      decreases recsize + 1 - used
    {
      var done;
      done, code, used, i2, p := ParseBlock(f, record, recsize, used, p, i2, w);
      if done {
        return;
      }
    }
  }

  /** The byte c1 that is not plain: a compressed part starts, or the record ends. */
  method ParseEnd(f: RecordFile, record: array<byte>, recsize: nat, i1: nat, p: nat, i2: nat, i3: nat, c1: byte, ghost w: seq<byte>)
    returns (code: int, used: nat)
    requires f.Coherent() && f.bsiz > 0 && f.bflg == READING && w == LoadedBytes(f.disk, f.npos, recsize + 1)
    requires record != f.buffer && recsize + 1 < record.Length && Held(f.buffer, w, i1, p, i2, recsize) && i3 < i2
    requires Copied(w, i1 + i3, record[..], Limit(f.plain)) && i1 + i3 < |w| && w[i1 + i3] == c1 >= Limit(f.plain)
    modifies f`bflg, f`bpos, f`blen, f.buffer, record
    ensures f.Coherent() && f.bflg == READING && f.View() == old(f.View())
    ensures Reports(Parse(w, recsize, f.unc, f.plain, true), code, used, record[..])
  {
    var n := i1 + i3;
    ParseSpecial(w, n, recsize, f.unc, f.plain);
    if c1 <= SPC && !f.unc {
      HeldRest(f.buffer, w, i1, p, i2, recsize, i3);
      assert record[..n] == w[..n];
      code, used := DecodeRecord(f, record, recsize, n, p + i3, i2 - i3, Parse(w, recsize, f.unc, f.plain, true), w, Tail(w, recsize, true));
      return;
    }
    used := n + 1;
    code := if c1 == EOR then n else ERR_BADCH;
  }

  // --- rioget ----------------------------------------------------------------------------------------------------------

  /** A read through the buffer. */
  method GetBuffered(f: RecordFile, record: array<byte>, recsize: nat, ghost w: seq<byte>) returns (code: int, used: nat)
    requires f.Coherent() && f.bsiz > 0 && f.bflg != WRITING && w == LoadedBytes(f.disk, f.npos, recsize + 1)
    requires record != f.buffer && recsize + 1 < record.Length
    modifies f`bflg, f`bpos, f`blen, f.buffer, record
    ensures f.Coherent() && f.bflg != WRITING && f.View() == old(f.View())
    ensures Reports(Read(w, recsize, f.unc, f.plain, true), code, used, record[..])
  {
    var i2, p := NextChunk(f, recsize, 0, w);
    if i2 == 0 {
      return ERR_RANGE, 0;
    }
    HeldSome(f.buffer, w, 0, p, i2, recsize);
    ChunkAt(w, 0, f.buffer[p..p + i2], 0);
    assert w[0] == f.buffer[p];
    hide LoadedBytes, Loaded, Chunk, Held, Parse;
    if f.buffer[p] == DEL {
      code, used := CountDeleted(f, recsize, i2, p, w);
    } else if f.buffer[p] == EOF {
      code, used := -1, 0;
    } else {
      code, used := ParseRecord(f, record, recsize, p, i2, w);
    }
  }

  lemma ParseSame(w: seq<byte>, recsize: nat, unc: bool, plain: bool, n: nat)
    requires AllBelow(w, n, Limit(plain)) && (n < |w| ==> w[n] >= Limit(plain)) && |w| <= recsize + 1
    ensures n == |w| || w[n] > SPC || unc ==> Parse(w, recsize, unc, plain, false) == Parse(w, recsize, unc, plain, true)
    ensures n < |w| && w[n] <= SPC && !unc ==>
              Parse(w, recsize, unc, plain, false) == Rest(w, n, false, w[..n], recsize, plain, ERR_NOEOR)
  {
    BelowCount(w, 0, Limit(plain), n);
  }

  /** The compressed rest of a record that has been read whole. */
  method DecodeDirect(record: array<byte>, recsize: nat, i3: nat, i2: nat, plain: bool, work: array<byte>, ghost o: Outcome, ghost w: seq<byte>)
    returns (code: int, used: nat)
    requires record != work && recsize + 1 < record.Length && recsize + 1 <= work.Length
    requires i3 < i2 == |w| <= recsize + 1 && record[..i2] == w && o == Rest(w, i3, false, w[..i3], recsize, plain, ERR_NOEOR)
    modifies record, work
    ensures record[recsize..] == old(record[recsize..])
    ensures Reports(o, code, used, record[..])
  {
    var rest := record[i3..i2];
    assert record[..i3] == w[..i3] && rest == w[i3..i2];
    hide Rest, Expand;
    CopyIn(work, 0, rest);
    var recpos, mark, status, n := DecodeChunk(work, 0, i2 - i3, record, recsize, plain, i3, false, o, w, i3, ERR_NOEOR);
    used := i3 + n;
    if status == GOING {
      DecodeOver(o, w, used, mark, record[..recpos], recsize, plain, ERR_NOEOR);
    }
    code := if status == ENDED then recpos else if status == GOING then ERR_NOEOR else status;
  }

  /** The scan of an unbuffered read, which is made in the caller's own buffer. */
  method ParseDirect(record: array<byte>, recsize: nat, i2: nat, unc: bool, plain: bool, work: array<byte>, ghost w: seq<byte>)
    returns (code: int, used: nat)
    requires record != work && recsize + 1 < record.Length && recsize + 1 <= work.Length
    requires i2 == |w| <= recsize + 1 && record[..i2] == w
    modifies record, work
    ensures record[recsize + 1..] == old(record[recsize + 1..])
    ensures Reports(Parse(w, recsize, unc, plain, false), code, used, record[..])
  {
    ghost var rec, rest := record[..], record[recsize + 1..];
    var i3 := ScanBelow(record, 0, i2, Limit(plain));
    assert rec[..i2] == w && forall j :: 0 <= j < i2 ==> w[j] == rec[j];
    assert rec == record[..] && rec[recsize + 1..] == rest && record[..i2] == w;
    ParseSame(w, recsize, unc, plain, i3);
    hide Parse, Rest;
    if i3 == i2 {
      ParseOver(w, recsize, unc, plain);
      return if i3 > recsize then ERR_NOEOR else ERR_NOEOF, i3;
    }
    var c1 := record[i3];
    ParseSpecial(w, i3, recsize, unc, plain);
    if c1 <= SPC && !unc {
      code, used := DecodeDirect(record, recsize, i3, i2, plain, work, Parse(w, recsize, unc, plain, false), w);
      assert record[recsize + 1..] == record[recsize..][1..];
      return;
    }
    used := i3 + 1;
    code := if c1 == EOR then i3 else ERR_BADCH;
    assert record[..i3] == w[..i3];
  }

  lemma {:induction false} ExpandFits(w: seq<byte>, i: nat, out: seq<byte>, recsize: nat, plain: bool, tail: int)
    requires i <= |w| && |out| <= recsize
    ensures var o := Expand(w, i, out, recsize, plain, tail);
            o.Got? ==> |o.data| <= recsize
    decreases |w| - i
  {
    if i < |w| {
      if w[i] == SPC {
        if i + 1 < |w| && |out| + w[i + 1] as int <= recsize {
          ExpandFits(w, i + 2, out + Blanks(w[i + 1] as nat), recsize, plain, tail);
        }
      } else if !plain && 0x80 <= w[i] < SPC {
        if |out| + 2 <= recsize {
          ExpandFits(w, i + 1, out + [First(w[i]), Second(w[i])], recsize, plain, tail);
        }
      } else if w[i] < EOR && |out| + 1 <= recsize {
        ExpandFits(w, i + 1, out + [w[i]], recsize, plain, tail);
      }
    }
  }

  /** A record that has been read fits the record area. */
  lemma ReadFits(w: seq<byte>, recsize: nat, unc: bool, plain: bool, buffered: bool)
    requires |w| <= recsize + 1
    ensures var o := Read(w, recsize, unc, plain, buffered);
            o.Got? ==> |o.data| <= recsize
  {
    var n := Below(w, Limit(plain));
    if n < |w| {
      ExpandFits(w, n, w[..n], recsize, plain, Tail(w, recsize, buffered));
    }
  }

  /** The three kinds of reads, told apart by the first byte. */
  method ReadArea(record: array<byte>, recsize: nat, i2: nat, unc: bool, plain: bool, work: array<byte>, ghost w: seq<byte>)
    returns (code: int, used: nat)
    requires record != work && recsize + 1 < record.Length && recsize + 1 <= work.Length
    requires 0 < i2 == |w| <= recsize + 1 && record[..i2] == w
    modifies record, work
    ensures record[recsize + 1..] == old(record[recsize + 1..])
    ensures Reports(Read(w, recsize, unc, plain, false), code, used, record[..])
  {
    ghost var rec := record[..];
    assert w[0] == record[0];
    hide Parse;
    if record[0] == DEL {
      used := ScanDeleted(record, 0, i2);
      assert rec[..i2] == w && forall j :: 0 <= j < i2 ==> w[j] == rec[j];
      DeletedCount(w, 0, used);
      assert rec == record[..] && rec[recsize + 1..] == record[recsize + 1..];
      code := -2;
    } else if record[0] == EOF {
      code, used := -1, 0;
    } else {
      code, used := ParseDirect(record, recsize, i2, unc, plain, work, w);
    }
  }

  /** A read without a buffer: the record is read into the caller's buffer, where it may take one byte more than
      the record area, and what stood behind the area is put back. */
  method GetDirect(f: RecordFile, record: array<byte>, recsize: nat, work: array<byte>, ghost w: seq<byte>)
    returns (code: int, used: nat)
    requires record != work && recsize + 1 < record.Length && recsize + 1 <= work.Length
    requires w == LoadedBytes(f.disk, f.npos, recsize + 1)
    modifies record, work
    ensures Reports(Read(w, recsize, f.unc, f.plain, false), code, used, record[..])
    ensures record[recsize..] == old(record[recsize..])
  {
    ghost var rec := record[..];
    var save0 := record[recsize];
    var bytes := LoadedBytes(f.disk, f.npos, recsize + 1);
    if |bytes| < 1 {
      return ERR_RANGE, 0;
    }
    CopyIn(record, 0, bytes);
    SaveTail(rec, record[..], recsize, bytes);
    assert record[..|bytes|] == w;
    code, used := ReadArea(record, recsize, |bytes|, f.unc, f.plain, work, w);
    ghost var before := record[..];
    assert before[recsize + 1..] == record[recsize + 1..];
    ReadFits(w, recsize, f.unc, f.plain, false);
    hide Read;
    record[recsize] := save0;
    assert record[..] == before[recsize := save0];
    ReportsKept(Read(w, recsize, f.unc, f.plain, false), code, used, before, record[..], recsize);
    PutTail(rec, before, recsize);
    assert record[recsize..] == record[..][recsize..];
  }

  lemma SaveTail(rec: seq<byte>, v: seq<byte>, recsize: nat, bytes: seq<byte>)
    requires |bytes| <= recsize + 1 < |rec| && v == rec[..0] + bytes + rec[|bytes|..]
    ensures v[recsize + 1..] == rec[recsize + 1..]
  {
  }

  lemma PutTail(rec: seq<byte>, before: seq<byte>, recsize: nat)
    requires recsize + 1 < |rec| == |before| && before[recsize + 1..] == rec[recsize + 1..]
    ensures before[recsize := rec[recsize]][recsize..] == rec[recsize..]
  {
    var x, y := before[recsize := rec[recsize]][recsize..], rec[recsize..];
    assert x[1..] == before[recsize + 1..] && y[1..] == rec[recsize + 1..];
    assert x == [x[0]] + x[1..] && y == [y[0]] + y[1..];
  }

  /** The record is inside the record area. */
  lemma ReportsKept(o: Outcome, code: int, used: nat, rec: seq<byte>, new_rec: seq<byte>, recsize: nat)
    requires Reports(o, code, used, rec) && recsize < |rec| == |new_rec| && new_rec == rec[recsize := new_rec[recsize]]
    requires o.Got? ==> |o.data| <= recsize
    ensures Reports(o, code, used, new_rec)
  {
    if o.Got? {
      assert rec[..|o.data|] == new_rec[..|o.data|];
    }
  }

  /** rioget: read the record at the next position. The outcome is that of reading the plain file, whatever the
      buffer, and the file itself does not change. */
  method Get(f: RecordFile, record: array<byte>, recsize: nat, work: array<byte>) returns (code: int)
    requires f.Valid() && recsize + 1 < record.Length && record != f.buffer && record != work && work != f.buffer
    modifies f, f.buffer, record, work
    ensures f.Valid() && f.View() == old(f.View()) && f.fsiz == old(f.fsiz)
    ensures recsize + 4 > work.Length ==> code == ERR_INVAR && f.lpos == old(f.lpos) && f.npos == old(f.npos)
    ensures recsize + 4 <= work.Length ==>
              var w := LoadedBytes(old(f.View()), old(f.npos), recsize + 1);
              && f.npos >= old(f.npos)
              && Reports(Read(w, recsize, f.unc, f.plain, f.bsiz > 0), code, f.npos - old(f.npos), record[..])
              && f.lpos == if w == [] then old(f.lpos) else old(f.npos)
  {
    if recsize + 4 > work.Length {
      return ERR_INVAR;
    }
    if f.bflg == WRITING {
      f.WriteBack();
    }
    ghost var w := LoadedBytes(f.disk, f.npos, recsize + 1);
    hide Overlay, LoadedBytes, Loaded, Reports, Read;
    var used;
    if f.bsiz > 0 {
      code, used := GetBuffered(f, record, recsize, w);
    } else {
      code, used := GetDirect(f, record, recsize, work, w);
    }
    EmptyRead(w, recsize, f.unc, f.plain, f.bsiz > 0, code, used, record[..]);
    if code != ERR_RANGE {
      f.lpos := f.npos;
    }
    f.npos := f.npos + used;
  }

  lemma {:induction false} ExpandCode(w: seq<byte>, i: nat, out: seq<byte>, recsize: nat, plain: bool, tail: int)
    requires i <= |w| && (tail == ERR_NOEOR || tail == ERR_NOEOF)
    ensures var o := Expand(w, i, out, recsize, plain, tail);
            o.Got? || (o.Failed? && o.code < 0 && o.code != ERR_RANGE)
    decreases |w| - i
  {
    if i < |w| {
      if w[i] == SPC {
        if i + 1 < |w| && |out| + w[i + 1] as int <= recsize {
          ExpandCode(w, i + 2, out + Blanks(w[i + 1] as nat), recsize, plain, tail);
        }
      } else if !plain && 0x80 <= w[i] < SPC {
        if |out| + 2 <= recsize {
          ExpandCode(w, i + 1, out + [First(w[i]), Second(w[i])], recsize, plain, tail);
        }
      } else if w[i] < EOR && |out| + 1 <= recsize {
        ExpandCode(w, i + 1, out + [w[i]], recsize, plain, tail);
      }
    }
  }

  /** Errors are negative. */
  lemma ReadCode(w: seq<byte>, recsize: nat, unc: bool, plain: bool, buffered: bool)
    ensures var o := Read(w, recsize, unc, plain, buffered); o.Failed? ==> o.code < 0
  {
    var n := Below(w, Limit(plain));
    if n < |w| {
      ExpandCode(w, n, w[..n], recsize, plain, Tail(w, recsize, buffered));
    }
  }

  /** Only a read where nothing stands is out of range. */
  lemma EmptyRead(w: seq<byte>, recsize: nat, unc: bool, plain: bool, buffered: bool, code: int, used: nat, rec: seq<byte>)
    requires Reports(Read(w, recsize, unc, plain, buffered), code, used, rec)
    ensures code == ERR_RANGE <==> w == []
    ensures w == [] ==> used == 0
  {
    var n := Below(w, Limit(plain));
    if n < |w| {
      ExpandCode(w, n, w[..n], recsize, plain, Tail(w, recsize, buffered));
    }
  }

  // --- with and without a buffer ---------------------------------------------------------------------------------------------

  /** The bytes from position i on are characters, pairs of digits and runs of blanks, the last of which may lack its length:
      there is no mark among them. */
  predicate NoMark(w: seq<byte>, i: nat)
    requires i <= |w|
    decreases |w| - i
  {
    i == |w| || (if w[i] == SPC then i + 1 == |w| || NoMark(w, i + 2) else w[i] < EOR && NoMark(w, i + 1))
  }

  /** The characters that such bytes stand for. */
  function Chars(w: seq<byte>, i: nat, plain: bool): nat
    requires i <= |w|
    decreases |w| - i
  {
    if i == |w| then 0
    else if w[i] == SPC then (if i + 1 == |w| then 0 else w[i + 1] + Chars(w, i + 2, plain))
    else (if !plain && 0x80 <= w[i] < SPC then 2 else 1) + Chars(w, i + 1, plain)
  }

  /** The error for a record that does not end shows exactly where no mark comes and there is room for all characters. */
  lemma {:induction false} TailShows(w: seq<byte>, i: nat, out: seq<byte>, recsize: nat, plain: bool)
    requires i <= |w| && |out| <= recsize
    ensures Expand(w, i, out, recsize, plain, ERR_NOEOR) == Expand(w, i, out, recsize, plain, ERR_NOEOF) <==>
              !(NoMark(w, i) && |out| + Chars(w, i, plain) <= recsize)
    decreases |w| - i
  {
    if i < |w| {
      if w[i] == SPC {
        if i + 1 < |w| && |out| + w[i + 1] as int <= recsize {
          TailShows(w, i + 2, out + Blanks(w[i + 1] as nat), recsize, plain);
        }
      } else if !plain && 0x80 <= w[i] < SPC {
        if |out| + 2 <= recsize {
          TailShows(w, i + 1, out + [First(w[i]), Second(w[i])], recsize, plain);
        }
      } else if w[i] < EOR && |out| + 1 <= recsize {
        TailShows(w, i + 1, out + [w[i]], recsize, plain);
      }
    }
  }

  /** Bytes that the end of the file cuts off: fewer than a record may take, they all mark a deleted record, or a compressed
      part of a record that has room for them runs up to their end. */
  predicate CutOff(w: seq<byte>, recsize: nat, unc: bool, plain: bool) {
    && w != [] && |w| < recsize + 1
    && (if w[0] == DEL then forall j :: 0 <= j < |w| ==> w[j] == DEL
        else
          var n := Below(w, Limit(plain));
          w[0] != EOF && !unc && n < |w| && w[n] <= SPC && NoMark(w, n) && n + Chars(w, n, plain) <= recsize)
  }

  /** A read comes to the same with and without a buffer, except where the end of the file cuts the bytes off. */
  lemma BuffersAgree(w: seq<byte>, recsize: nat, unc: bool, plain: bool)
    requires |w| <= recsize + 1
    ensures Read(w, recsize, unc, plain, true) == Read(w, recsize, unc, plain, false) <==> !CutOff(w, recsize, unc, plain)
  {
    if w != [] && w[0] != DEL && w[0] != EOF {
      var n := Below(w, Limit(plain));
      if n < |w| && w[n] <= SPC && !unc {
        TailShows(w, n, w[..n], recsize, plain);
      }
    }
  }

  /** A file that ends in a deleted record, or in a run of blanks without its length, is read differently. */
  lemma BuffersDiffer()
    ensures Read([DEL], 80, false, true, true) == Failed(ERR_NOEOF, 1) && Read([DEL], 80, false, true, false) == Gone(1)
    ensures Read([SPC], 80, false, true, true) == Failed(ERR_NOEOF, 1) && Read([SPC], 80, false, true, false) == Failed(ERR_NOEOR, 1)
  {
    assert DeletedFrom([DEL], 0) == DeletedFrom([DEL], 1) == 1;
    assert Below([SPC], SPC) == 0;
    assert Expand([SPC], 0, [SPC][..0], 80, true, ERR_NOEOF) == Failed(ERR_NOEOF, 1);
    assert Expand([SPC], 0, [SPC][..0], 80, true, ERR_NOEOR) == Failed(ERR_NOEOR, 1);
  }
}

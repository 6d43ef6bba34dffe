/** Runs over one record file (rio.c): whatever the buffer, and however writes, parts, seeks, reads in both directions and flushes
    follow each other, every call does what it would do to the plain file. */
module RioRun {
  import opened Bytes
  import opened RioCodec
  import opened RioBuffer
  import opened RioGet
  import opened RioPrev

  datatype Op =
    | PutOp(rec: seq<byte>)
    | ParPutOp(part: seq<byte>)
    | SeekOp(pos: nat)
    | GetOp(recsize: nat)
    | PrevOp(recsize: nat)
    | FlushOp

  /** A plain file with its last and next position, and the size that is known. */
  datatype Plain = Plain(bytes: seq<byte>, lpos: nat, npos: nat, fsiz: nat)

  /** How the file was opened, and how long the records are that may be handled. */
  datatype Mode = Mode(buffered: bool, unc: bool, plain: bool, worksize: nat)

  function Larger(a: nat, b: nat): nat {
    if a > b then a else b
  }

  /** What a call does to the plain file, the code it returns and what it leaves in the caller's record. */
  ghost predicate Does(m: Mode, st: Plain, op: Op, code: int, rec: seq<byte>, new_st: Plain) {
    if Need(op) + 4 > m.worksize && !op.SeekOp? && !op.FlushOp? then code == ERR_INVAR && new_st == st
    else
      match op
      case PutOp(r) =>
        var bytes := Written(r, m.unc, m.plain, st.npos, st.fsiz);
        code == 0 && new_st == Plain(Overlay(st.bytes, st.npos, bytes), st.npos, st.npos + |Marked(r, m.unc, m.plain)|,
                                     Larger(st.npos + |bytes|, st.fsiz))
      case ParPutOp(r) =>
        var bytes := if m.unc then r else Compress(r, m.plain);
        code == 0 && new_st == Plain(Overlay(st.bytes, st.npos, bytes), st.npos, st.npos + |bytes|, Larger(st.npos + |bytes|, st.fsiz))
      case SeekOp(pos) => code == 0 && new_st == st.(lpos := pos, npos := pos)
      case FlushOp => code == 0 && new_st == st
      case GetOp(n) =>
        var w := LoadedBytes(st.bytes, st.npos, n + 1);
        && new_st.npos >= st.npos && Reports(Read(w, n, m.unc, m.plain, m.buffered), code, new_st.npos - st.npos, rec)
        && new_st == st.(lpos := if w == [] then st.lpos else st.npos, npos := new_st.npos)
      case PrevOp(n) =>
        && new_st == st.(lpos := new_st.lpos, npos := new_st.npos)
        && (if !m.buffered && st.lpos > |st.bytes|
            then exists stale :: WentBeyond(st.bytes, st.lpos, st.npos, n, m.unc, m.plain, stale, code, new_st.lpos, new_st.npos, rec)
            else WentBack(st.bytes, st.lpos, st.npos, n, m.unc, m.plain, code, new_st.lpos, new_st.npos, rec))
  }

  /** The record bytes that a call handles. */
  function Need(op: Op): nat {
    match op
    case PutOp(r) => |r|
    case ParPutOp(r) => |r|
    case GetOp(n) => n
    case PrevOp(n) => n
    case _ => 0
  }

  ghost predicate StandsFor(f: RecordFile, st: Plain)
    reads f, f.buffer
  {
    f.Valid() && st == Plain(f.View(), f.lpos, f.npos, f.fsiz)
  }

  function ModeOf(f: RecordFile, worksize: nat): Mode {
    Mode(f.bsiz > 0, f.unc, f.plain, worksize)
  }

  /** Nothing is left open by Does: two runs of a call on the same plain file, with buffers of whatever sizes, return the same
      code and the same data and leave the same plain file. */
  lemma OneOutcome(m: Mode, st: Plain, op: Op, code: int, rec: seq<byte>, s: Plain, code1: int, rec1: seq<byte>, s1: Plain)
    requires Does(m, st, op, code, rec, s) && Does(m, st, op, code1, rec1, s1)
    requires m.buffered || !op.PrevOp? || st.lpos <= |st.bytes|
    ensures code == code1 && s == s1
    ensures (op.GetOp? || op.PrevOp?) && code >= 0 ==> code <= |rec| && code <= |rec1| && rec[..code] == rec1[..code]
  {
    hide Read, ReadBack, Overlay, Written, Marked, Compress, LoadedBytes;
    if Need(op) + 4 <= m.worksize {
      match op {
        case GetOp(n) =>
          var w := LoadedBytes(st.bytes, st.npos, n + 1);
          ReadCode(w, n, m.unc, m.plain, m.buffered);
          SameReport(Read(w, n, m.unc, m.plain, m.buffered), code, s.npos - st.npos, rec, code1, s1.npos - st.npos, rec1);
        case PrevOp(n) =>
          if 0 < st.lpos <= |st.bytes| {
            var v := Before(st.bytes, st.lpos, n);
            BackCode(v, Reach(st.lpos, n) == n + 2, n, m.unc, m.plain);
            SameReport(ReadBack(v, Reach(st.lpos, n) == n + 2, n, m.unc, m.plain), code, st.lpos - s.lpos, rec, code1, st.lpos - s1.lpos, rec1);
          }
        case _ =>
      }
    }
  }

  lemma BackCode(v: seq<byte>, more: bool, recsize: nat, unc: bool, plain: bool)
    requires v != []
    ensures var o := ReadBack(v, more, recsize, unc, plain); o.Failed? ==> o.code < 0
  {
  }

  lemma SameReport(o: Outcome, code: int, used: nat, rec: seq<byte>, code1: int, used1: nat, rec1: seq<byte>)
    requires Reports(o, code, used, rec) && Reports(o, code1, used1, rec1) && (o.Failed? ==> o.code < 0)
    ensures code == code1 && used == used1
    ensures code >= 0 ==> code <= |rec| && code <= |rec1| && rec[..code] == rec1[..code]
  {
  }

  /** One call. */
  method Do(f: RecordFile, op: Op, record: array<byte>, work: array<byte>, ghost st: Plain) returns (code: int, rec: seq<byte>, ghost new_st: Plain)
    requires StandsFor(f, st) && Need(op) + 2 <= record.Length
    requires record != f.buffer && work != f.buffer && record != work
    modifies f, f.buffer, record, work
    ensures StandsFor(f, new_st) && Does(ModeOf(f, work.Length), st, op, code, rec, new_st)
  {
    hide Read, ReadBack, Overlay, Written, Marked, Compress, LoadedBytes, Before, Reach, WentBack, WentBeyond, Reports;
    match op {
      case PutOp(r) =>
        CopyIn(record, 0, r);
        assert record[..|r|] == record[0..0 + |r|] == r;
        code := f.Put(record, |r|, work);
      case ParPutOp(r) =>
        CopyIn(record, 0, r);
        assert record[..|r|] == record[0..0 + |r|] == r;
        code := f.ParPut(record, |r|, work);
      case SeekOp(pos) =>
        f.SetPos(pos);
        code := 0;
      case GetOp(n) => code := Get(f, record, n, work);
      case PrevOp(n) => code := Prev(f, record, n, work);
      case FlushOp =>
        f.Flush();
        code := 0;
    }
    rec := record[..];
    new_st := Plain(f.View(), f.lpos, f.npos, f.fsiz);
  }

  /** BUFFER COHERENCE: over any interleaving of calls, for every buffer size including none, each call does to the plain file what
      it should, and in the end the disk bytes with the dirty ones over them are the plain file. */
  method Run(f: RecordFile, ops: seq<Op>, record: array<byte>, work: array<byte>, ghost st: Plain)
    returns (codes: seq<int>, recs: seq<seq<byte>>, ghost trace: seq<Plain>)
    requires StandsFor(f, st) && forall i :: 0 <= i < |ops| ==> Need(ops[i]) + 2 <= record.Length
    requires record != f.buffer && work != f.buffer && record != work
    modifies f, f.buffer, record, work
    ensures |codes| == |recs| == |ops| && |trace| == |ops| + 1
    ensures trace[0] == st && StandsFor(f, trace[|ops|])
    ensures forall i, k :: 0 <= i < |ops| && k == i + 1 ==> Does(ModeOf(f, work.Length), trace[i], ops[i], codes[i], recs[i], trace[k])
  {
    hide StandsFor, Does;
    codes, recs, trace := [], [], [st];
    for n := 0 to |ops|
      invariant |codes| == |recs| == n && |trace| == n + 1 && trace[0] == st && StandsFor(f, trace[n])
      invariant forall i, k :: 0 <= i < n && k == i + 1 ==> Does(ModeOf(f, work.Length), trace[i], ops[i], codes[i], recs[i], trace[k])
    {
      ghost var s;
      var code, rec;
      code, rec, s := Do(f, ops[n], record, work, trace[n]);
      codes, recs, trace := codes + [code], recs + [rec], trace + [s];
    }
  }
}

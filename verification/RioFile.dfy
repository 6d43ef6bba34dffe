/** Whole record files (rio.c): what is written record by record is read back in order, and backward in reverse. */
module RioFile {
  import opened Bytes
  import opened RioCodec
  import opened RioBuffer
  import opened RioGet
  import opened RioPrev

  // --- one record ----------------------------------------------------------------------------------------------------

  /** A record that fits and may be stored. */
  predicate Fits(r: seq<byte>, recsize: nat, plain: bool) {
    |r| <= recsize && Storable(r, plain)
  }

  /** Decoding passes over plain bytes unchanged. */
  lemma {:induction false} ExpandPlain(w: seq<byte>, i: nat, n: nat, recsize: nat, plain: bool, tail: int)
    requires i <= n <= |w| && n <= recsize && forall j :: 0 <= j < n ==> w[j] < Limit(plain)
    ensures Expand(w, i, w[..i], recsize, plain, tail) == Expand(w, n, w[..n], recsize, plain, tail)
    decreases n - i
  {
    if i < n {
      assert w[..i] + [w[i]] == w[..i + 1];
      ExpandPlain(w, i + 1, n, recsize, plain, tail);
    }
  }

  lemma MarkedLow(r: seq<byte>, recsize: nat, unc: bool, plain: bool)
    requires Fits(r, recsize, plain)
    ensures var m := Marked(r, unc, plain);
            && 1 <= |m| <= recsize + 1 && m[|m| - 1] == EOR && forall j :: 0 <= j < |m| - 1 ==> m[j] < EOR
  {
    CompressBounds(r, plain);
  }

  /** Decoding a record with its mark, wherever it stands. */
  lemma MarkedBack(w: seq<byte>, r: seq<byte>, recsize: nat, plain: bool, tail: int)
    requires Fits(r, recsize, plain) && Stands(w, 0, Marked(r, false, plain))
    ensures Expand(w, 0, [], recsize, plain, tail) == Got(r, |Marked(r, false, plain)|)
  {
    ExpandBack(w, 0, [], recsize, plain, tail, r, Compress(r, plain));
    assert [] + r == r;
  }

  lemma ExpandStop(w: seq<byte>, n: nat, recsize: nat, plain: bool, tail: int)
    requires n < |w| && w[n] == EOR
    ensures Expand(w, n, w[..n], recsize, plain, tail) == Got(w[..n], n + 1)
  {
  }

  /** The plain bytes that a mark m starts with, where it stands. */
  lemma PlainStart(w: seq<byte>, m: seq<byte>, plain: bool)
    requires Stands(w, 0, m) && m != [] && m[|m| - 1] == EOR && forall j :: 0 <= j < |m| - 1 ==> m[j] < EOR
    ensures var n := Below(w, Limit(plain));
            n < |m| <= |w| && w[n] <= EOR && w[0] <= EOR && forall j :: 0 <= j < n ==> w[j] < Limit(plain)
  {
    assert forall j :: 0 <= j < |m| ==> w[j] == w[0..0 + |m|][j];
  }

  /** Reading where a record stands gives that record. */
  lemma ReadMarked(w: seq<byte>, r: seq<byte>, recsize: nat, unc: bool, plain: bool, buffered: bool)
    requires Fits(r, recsize, plain) && Stands(w, 0, Marked(r, unc, plain))
    ensures Read(w, recsize, unc, plain, buffered) == Got(r, |Marked(r, unc, plain)|)
  {
    var m := Marked(r, unc, plain);
    MarkedLow(r, recsize, unc, plain);
    PlainStart(w, m, plain);
    var n := Below(w, Limit(plain));
    if unc {
      PlainRecord(w, r, plain);
    } else {
      var tail := Tail(w, recsize, buffered);
      assert w[..0] == [];
      ExpandPlain(w, 0, n, recsize, plain, tail);
      MarkedBack(w, r, recsize, plain, tail);
      if w[n] == EOR {
        ExpandStop(w, n, recsize, plain, tail);
      }
    }
    hide Compress, Expand, Marked, Below, Stands;
  }

  lemma PlainRecord(w: seq<byte>, r: seq<byte>, plain: bool)
    requires Storable(r, plain) && Stands(w, 0, r + [EOR])
    ensures Below(w, Limit(plain)) == |r| && |r| < |w| && w[..|r|] == r && w[|r|] == EOR
  {
    var m := r + [EOR];
    assert forall j :: 0 <= j < |m| ==> w[j] == w[0..0 + |m|][j] == m[j];
    assert forall j :: 0 <= j < |r| ==> w[j] == r[j];
    BelowCount(w, 0, Limit(plain), |r|);
  }

  lemma BelowMarked(v: seq<byte>, m: seq<byte>, at: nat)
    requires at + |m| == |v| && v[at..] == m && m != [] && m[|m| - 1] == EOR && (forall j :: 0 <= j < |m| - 1 ==> m[j] < EOR)
    requires at > 0 ==> v[at - 1] == EOR
    ensures v[|v| - 1] == EOR && BackBelow(v, |v| - 1) == |m| - 1
  {
    assert forall j :: at <= j < |v| ==> v[j] == m[j - at];
    BackBelowIs(v, |v| - 1, |m| - 1);
  }

  /** Reading back from where a record ends gives that record, when the one before it has its end mark. */
  lemma ReadBackMarked(v: seq<byte>, r: seq<byte>, recsize: nat, unc: bool, plain: bool, at: nat, more: bool)
    requires Fits(r, recsize, plain) && at + |Marked(r, unc, plain)| == |v| && v[at..] == Marked(r, unc, plain)
    requires at > 0 ==> v[at - 1] == EOR
    requires at == 0 ==> !more
    ensures ReadBack(v, more, recsize, unc, plain) == Got(r, |Marked(r, unc, plain)|)
  {
    var m := Marked(r, unc, plain);
    MarkedLow(r, recsize, unc, plain);
    BelowMarked(v, m, at);
    if unc {
      assert m[..|m| - 1] == r;
    } else {
      assert m[0..0 + |m|] == m;
      MarkedBack(m, r, recsize, plain, ERR_NOEOR);
    }
    hide Compress, Expand, BackBelow;
  }

  // --- whole files ------------------------------------------------------------------------------------------------------

  /** The bytes of a list of records. */
  function Body(rs: seq<seq<byte>>, unc: bool, plain: bool): seq<byte> {
    if rs == [] then [] else Body(rs[..|rs| - 1], unc, plain) + Marked(rs[|rs| - 1], unc, plain)
  }

  predicate AllFit(rs: seq<seq<byte>>, recsize: nat, plain: bool) {
    forall i :: 0 <= i < |rs| ==> Fits(rs[i], recsize, plain)
  }

  lemma BodyStep(rs: seq<seq<byte>>, i: nat, unc: bool, plain: bool)
    requires i < |rs|
    ensures Body(rs[..i + 1], unc, plain) == Body(rs[..i], unc, plain) + Marked(rs[i], unc, plain)
  {
    assert rs[..i + 1][..i] == rs[..i];
  }

  lemma BodyEnds(rs: seq<seq<byte>>, unc: bool, plain: bool)
    ensures rs != [] ==> Body(rs, unc, plain) != [] && Body(rs, unc, plain)[|Body(rs, unc, plain)| - 1] == EOR
  {
    if rs != [] {
      var b, m := Body(rs[..|rs| - 1], unc, plain), Marked(rs[|rs| - 1], unc, plain);
      assert (b + m)[|b + m| - 1] == m[|m| - 1];
    }
  }

  lemma {:induction false} BodyPrefix(rs: seq<seq<byte>>, i: nat, unc: bool, plain: bool)
    requires i <= |rs|
    ensures |Body(rs[..i], unc, plain)| <= |Body(rs, unc, plain)|
    ensures Body(rs, unc, plain)[..|Body(rs[..i], unc, plain)|] == Body(rs[..i], unc, plain)
    decreases |rs| - i
  {
    if i == |rs| {
      assert rs[..i] == rs;
    } else {
      BodyPrefix(rs, i + 1, unc, plain);
      BodyStep(rs, i, unc, plain);
      var a, b, c := Body(rs[..i], unc, plain), Body(rs[..i + 1], unc, plain), Body(rs, unc, plain);
      assert c[..|a|] == c[..|b|][..|a|] == a;
    }
  }

  /** The file that holds a list of records. */
  function FileOf(rs: seq<seq<byte>>, unc: bool, plain: bool): seq<byte> {
    Body(rs, unc, plain) + [EOF]
  }

  /** Record i stands in the file, behind the records before it. */
  lemma RecordStands(rs: seq<seq<byte>>, i: nat, unc: bool, plain: bool)
    requires i < |rs|
    ensures var a, b, d := |Body(rs[..i], unc, plain)|, |Body(rs[..i + 1], unc, plain)|, FileOf(rs, unc, plain);
            a <= b < |d| && d[a..b] == Marked(rs[i], unc, plain) && b == a + |Marked(rs[i], unc, plain)|
  {
    BodyPrefix(rs, i + 1, unc, plain);
    BodyStep(rs, i, unc, plain);
    var x, y, c, d := Body(rs[..i], unc, plain), Body(rs[..i + 1], unc, plain), Body(rs, unc, plain), FileOf(rs, unc, plain);
    assert d[|x|..|y|] == c[..|y|][|x|..];
  }

  /** Writing one more record at the end of the file. */
  lemma WriteNext(rs: seq<seq<byte>>, i: nat, unc: bool, plain: bool)
    requires i < |rs|
    ensures var pos := |Body(rs[..i], unc, plain)|;
            Overlay(FileOf(rs[..i], unc, plain), pos, Written(rs[i], unc, plain, pos, pos + 1)) == FileOf(rs[..i + 1], unc, plain)
  {
    BodyStep(rs, i, unc, plain);
    var b, m := Body(rs[..i], unc, plain), Marked(rs[i], unc, plain);
    assert m != [];
    var x, y := Overlay(b + [EOF], |b|, m + [EOF]), b + m + [EOF];
    assert |x| == |y| && forall j :: 0 <= j < |x| ==> x[j] == y[j];
  }

  /** A marked record at the next position stands at the start of what is read. */
  lemma WindowStands(d: seq<byte>, a: nat, m: seq<byte>, recsize: nat)
    requires a + |m| <= |d| && d[a..a + |m|] == m && 1 <= |m| <= recsize + 1
    ensures LoadedBytes(d, a, recsize + 1) != [] && Stands(LoadedBytes(d, a, recsize + 1), 0, m)
  {
    assert LoadedBytes(d, a, recsize + 1)[0..0 + |m|] == d[a..a + |m|];
  }

  /** A marked record before the last position b ends what is looked at. */
  lemma WindowEnds(d: seq<byte>, a: nat, m: seq<byte>, recsize: nat, b: nat, v: seq<byte>)
    requires b == a + |m| <= |d| && d[a..b] == m && 1 <= |m| <= recsize + 1 && (a > 0 ==> d[a - 1] == EOR)
    requires v == Before(d, b, recsize)
    ensures |m| <= |v| && v[|v| - |m|..] == m && (|v| > |m| ==> v[|v| - |m| - 1] == EOR)
    ensures |v| == |m| ==> Reach(b, recsize) != recsize + 2
  {
    var k := Reach(b, recsize);
    assert v[k - |m|..] == d[a..b];
    if k > |m| {
      assert v[k - |m| - 1] == d[a - 1];
    }
  }

  /** Reading forward at record i. */
  lemma ReadAt(rs: seq<seq<byte>>, i: nat, recsize: nat, unc: bool, plain: bool, buffered: bool)
    requires AllFit(rs, recsize, plain) && i < |rs|
    ensures var w := LoadedBytes(FileOf(rs, unc, plain), |Body(rs[..i], unc, plain)|, recsize + 1);
            w != [] && Read(w, recsize, unc, plain, buffered) == Got(rs[i], |Marked(rs[i], unc, plain)|)
    ensures |Body(rs[..i + 1], unc, plain)| == |Body(rs[..i], unc, plain)| + |Marked(rs[i], unc, plain)|
  {
    RecordStands(rs, i, unc, plain);
    MarkedLow(rs[i], recsize, unc, plain);
    hide Marked, Body, Read, LoadedBytes, Stands, FileOf;
    var a, d, m := |Body(rs[..i], unc, plain)|, FileOf(rs, unc, plain), Marked(rs[i], unc, plain);
    WindowStands(d, a, m, recsize);
    ReadMarked(LoadedBytes(d, a, recsize + 1), rs[i], recsize, unc, plain, buffered);
  }

  /** Reading forward behind the last record. */
  lemma ReadEnd(rs: seq<seq<byte>>, recsize: nat, unc: bool, plain: bool, buffered: bool)
    ensures var w := LoadedBytes(FileOf(rs, unc, plain), |Body(rs, unc, plain)|, recsize + 1);
            w != [] && Read(w, recsize, unc, plain, buffered) == AtEnd
  {
  }

  lemma EndBefore(rs: seq<seq<byte>>, i: nat, unc: bool, plain: bool)
    requires i <= |rs|
    ensures var a := |Body(rs[..i], unc, plain)|;
            a < |FileOf(rs, unc, plain)| && (a > 0 ==> FileOf(rs, unc, plain)[a - 1] == EOR)
  {
    BodyEnds(rs[..i], unc, plain);
    BodyPrefix(rs, i, unc, plain);
    var a := |Body(rs[..i], unc, plain)|;
    if a > 0 {
      assert Body(rs, unc, plain)[..a][a - 1] == FileOf(rs, unc, plain)[a - 1];
    }
  }

  /** Reading backward from the end of record i. */
  lemma ReadBackAt(rs: seq<seq<byte>>, i: nat, recsize: nat, unc: bool, plain: bool)
    requires AllFit(rs, recsize, plain) && i < |rs|
    ensures var d, b := FileOf(rs, unc, plain), |Body(rs[..i + 1], unc, plain)|;
            && 0 < b <= |d| && Before(d, b, recsize) != []
            && ReadBack(Before(d, b, recsize), Reach(b, recsize) == recsize + 2, recsize, unc, plain)
               == Got(rs[i], |Marked(rs[i], unc, plain)|)
    ensures |Body(rs[..i + 1], unc, plain)| == |Body(rs[..i], unc, plain)| + |Marked(rs[i], unc, plain)|
  {
    RecordStands(rs, i, unc, plain);
    MarkedLow(rs[i], recsize, unc, plain);
    EndBefore(rs, i, unc, plain);
    hide Marked, Body, ReadBack, Reach, FileOf, Fits;
    var d, x, y := FileOf(rs, unc, plain), |Body(rs[..i], unc, plain)|, |Body(rs[..i + 1], unc, plain)|;
    BackAt(d, x, rs[i], recsize, unc, plain, Marked(rs[i], unc, plain), y, Before(d, y, recsize));
  }

  lemma BackAt(d: seq<byte>, a: nat, r: seq<byte>, recsize: nat, unc: bool, plain: bool, m: seq<byte>, b: nat, v: seq<byte>)
    requires Fits(r, recsize, plain) && m == Marked(r, unc, plain) && b == a + |m| <= |d| && d[a..b] == m
    requires (a > 0 ==> d[a - 1] == EOR) && v == Before(d, b, recsize)
    ensures v != [] && ReadBack(v, Reach(b, recsize) == recsize + 2, recsize, unc, plain) == Got(r, |m|)
  {
    MarkedLow(r, recsize, unc, plain);
    WindowEnds(d, a, m, recsize, b, v);
    hide Marked, ReadBack, Before, Reach;
    ReadBackMarked(v, r, recsize, unc, plain, |v| - |m|, Reach(b, recsize) == recsize + 2);
  }

  // --- a run -----------------------------------------------------------------------------------------------------------

  /** The file holds these records and the next position is behind them. */
  ghost predicate AtEndOf(f: RecordFile, rs: seq<seq<byte>>)
    reads f, f.buffer
  {
    && f.Valid() && f.View() == FileOf(rs, f.unc, f.plain) && f.npos == |Body(rs, f.unc, f.plain)| && f.fsiz == f.npos + 1
  }

  /** Write a list of records to a new file. */
  method WriteAll(f: RecordFile, rs: seq<seq<byte>>, recsize: nat, record: array<byte>, work: array<byte>)
    requires AtEndOf(f, []) && AllFit(rs, recsize, f.plain)
    requires recsize + 2 <= record.Length && recsize + 4 <= work.Length
    requires record != f.buffer && work != f.buffer && record != work
    modifies f, f.buffer, record, work
    ensures AtEndOf(f, rs)
  {
    assert rs[..0] == [];
    var i := 0;
    while i < |rs|
      invariant 0 <= i <= |rs| && AtEndOf(f, rs[..i])
    {
      WriteOne(f, rs, i, recsize, record, work);
      i := i + 1;
    }
    assert rs[..i] == rs;
  }

  /** Write the next record. */
  method WriteOne(f: RecordFile, rs: seq<seq<byte>>, i: nat, recsize: nat, record: array<byte>, work: array<byte>)
    requires i < |rs| && AtEndOf(f, rs[..i]) && AllFit(rs, recsize, f.plain)
    requires recsize + 2 <= record.Length && recsize + 4 <= work.Length
    requires record != f.buffer && work != f.buffer && record != work
    modifies f, f.buffer, record, work
    ensures AtEndOf(f, rs[..i + 1])
  {
    assert |rs[i]| <= recsize;
    hide Marked, Body, Written, Overlay, FileOf, Loaded, LoadedBytes, AllFit, Fits;
    ghost var unc, plain, v0, pos := f.unc, f.plain, f.View(), f.npos;
    CopyIn(record, 0, rs[i]);
    assert record[..|rs[i]|] == record[0..0 + |rs[i]|] == rs[i];
    var code := f.Put(record, |rs[i]|, work);
    WrittenNext(rs, i, unc, plain, v0, f.View(), pos, f.npos, f.fsiz);
  }

  /** What the state is after a record has been written at the end. */
  lemma WrittenNext(rs: seq<seq<byte>>, i: nat, unc: bool, plain: bool, v0: seq<byte>, v: seq<byte>, pos: nat, npos: nat,
                    fsiz: nat)
    requires i < |rs| && v0 == FileOf(rs[..i], unc, plain) && pos == |Body(rs[..i], unc, plain)|
    requires npos == pos + |Marked(rs[i], unc, plain)|
    requires var bytes := Written(rs[i], unc, plain, pos, pos + 1);
             && v == Overlay(v0, pos, bytes) && fsiz == if pos + |bytes| > pos + 1 then pos + |bytes| else pos + 1
    ensures v == FileOf(rs[..i + 1], unc, plain) && npos == |Body(rs[..i + 1], unc, plain)| && fsiz == npos + 1
  {
    BodyStep(rs, i, unc, plain);
    WriteNext(rs, i, unc, plain);
    WrittenAtEnd(rs[i], unc, plain, pos);
    hide Marked, Body, Written, Overlay, FileOf;
  }

  lemma WrittenAtEnd(r: seq<byte>, unc: bool, plain: bool, pos: nat)
    ensures |Written(r, unc, plain, pos, pos + 1)| == |Marked(r, unc, plain)| + 1
  {
  }

  /** The file holds these records. */
  ghost predicate Holds(f: RecordFile, rs: seq<seq<byte>>)
    reads f, f.buffer
  {
    f.Valid() && f.View() == FileOf(rs, f.unc, f.plain)
  }

  /** Read every record from the start of the file, until its end. */
  method ReadAll(f: RecordFile, recsize: nat, record: array<byte>, work: array<byte>, ghost rs: seq<seq<byte>>)
    returns (out: seq<seq<byte>>, code: int)
    requires Holds(f, rs) && AllFit(rs, recsize, f.plain)
    requires recsize + 2 <= record.Length && recsize + 4 <= work.Length
    requires record != f.buffer && work != f.buffer && record != work
    modifies f, f.buffer, record, work
    ensures Holds(f, rs) && out == rs && code == -1
    ensures f.lpos == f.npos == |Body(rs, f.unc, f.plain)|
  {
    f.SetPos(0);
    out := [];
    assert rs[..0] == [];
    while true
      invariant |out| <= |rs| && out == rs[..|out|] && Holds(f, rs) && f.npos == |Body(rs[..|out|], f.unc, f.plain)|
      decreases |rs| - |out|
    {
      code := GetOne(f, recsize, record, work, rs, |out|);
      if code < 0 {
        return;
      }
      out := out + [record[..code]];
    }
  }

  /** Read record i, or the end of the file behind the last. */
  method GetOne(f: RecordFile, recsize: nat, record: array<byte>, work: array<byte>, ghost rs: seq<seq<byte>>, ghost i: nat)
    returns (code: int)
    requires Holds(f, rs) && AllFit(rs, recsize, f.plain) && i <= |rs| && f.npos == |Body(rs[..i], f.unc, f.plain)|
    requires recsize + 2 <= record.Length && recsize + 4 <= work.Length
    requires record != f.buffer && work != f.buffer && record != work
    modifies f, f.buffer, record, work
    ensures Holds(f, rs)
    ensures i < |rs| ==> code == |rs[i]| <= record.Length && record[..code] == rs[i]
    ensures i < |rs| ==> f.npos == |Body(rs[..i + 1], f.unc, f.plain)|
    ensures i == |rs| ==> code == -1 && f.lpos == f.npos == |Body(rs, f.unc, f.plain)|
  {
    if i < |rs| {
      ReadAt(rs, i, recsize, f.unc, f.plain, f.bsiz > 0);
    } else {
      assert rs[..i] == rs;
      ReadEnd(rs, recsize, f.unc, f.plain, f.bsiz > 0);
    }
    hide Body, FileOf, Marked, Read, LoadedBytes, Overlay, Fits;
    code := Get(f, record, recsize, work);
    assert i < |rs| ==> record[..][..code] == record[..code];
  }

  /** Read back from the end of the file to its start. */
  method ReadAllBack(f: RecordFile, recsize: nat, record: array<byte>, work: array<byte>, ghost rs: seq<seq<byte>>)
    returns (out: seq<seq<byte>>, code: int)
    requires Holds(f, rs) && AllFit(rs, recsize, f.plain) && f.lpos == |Body(rs, f.unc, f.plain)|
    requires recsize + 2 <= record.Length && recsize + 4 <= work.Length
    requires record != f.buffer && work != f.buffer && record != work
    modifies f, f.buffer, record, work
    ensures Holds(f, rs) && code == -1 && f.lpos == f.npos == 0
    ensures |out| == |rs| && forall j :: 0 <= j < |out| ==> out[j] == rs[|rs| - 1 - j]
  {
    out := [];
    assert rs[..|rs|] == rs;
    while true
      invariant |out| <= |rs| && Holds(f, rs) && f.lpos == |Body(rs[..|rs| - |out|], f.unc, f.plain)|
      invariant forall j :: 0 <= j < |out| ==> out[j] == rs[|rs| - 1 - j]
      decreases |rs| - |out|
    {
      code := PrevOne(f, recsize, record, work, rs, |rs| - |out|);
      if code < 0 {
        return;
      }
      out := out + [record[..code]];
    }
  }

  lemma BodyNone(rs: seq<seq<byte>>, unc: bool, plain: bool)
    requires rs == []
    ensures Body(rs, unc, plain) == []
  {
  }

  /** Read record i - 1 backward, or the start of the file before the first. */
  method PrevOne(f: RecordFile, recsize: nat, record: array<byte>, work: array<byte>, ghost rs: seq<seq<byte>>, ghost i: nat)
    returns (code: int)
    requires Holds(f, rs) && AllFit(rs, recsize, f.plain) && i <= |rs| && f.lpos == |Body(rs[..i], f.unc, f.plain)|
    requires recsize + 2 <= record.Length && recsize + 4 <= work.Length
    requires record != f.buffer && work != f.buffer && record != work
    modifies f, f.buffer, record, work
    ensures Holds(f, rs)
    ensures i > 0 ==> code == |rs[i - 1]| <= record.Length && record[..code] == rs[i - 1]
    ensures i > 0 ==> f.lpos == |Body(rs[..i - 1], f.unc, f.plain)|
    ensures i == 0 ==> code == -1 && f.lpos == f.npos == 0
  {
    hide Body, FileOf, Marked, ReadBack, Before, Reach, LoadedBytes, Loaded, Overlay, Fits, AllFit, WentBack;
    ghost var d, lpos, npos, unc, plain := f.View(), f.lpos, f.npos, f.unc, f.plain;
    EndBefore(rs, i, unc, plain);
    code := Prev(f, record, recsize, work);
    BackFrom(rs, i, recsize, unc, plain, d, lpos, npos, code, f.lpos, f.npos, record[..]);
    assert i > 0 ==> record[..][..code] == record[..code];
  }

  /** What a backward read from the end of record i - 1 gives. */
  lemma BackFrom(rs: seq<seq<byte>>, i: nat, recsize: nat, unc: bool, plain: bool, d: seq<byte>, lpos: nat, npos: nat, code: int,
                 new_lpos: nat, new_npos: nat, rec: seq<byte>)
    requires AllFit(rs, recsize, plain) && i <= |rs| && d == FileOf(rs, unc, plain) && lpos == |Body(rs[..i], unc, plain)|
    requires WentBack(d, lpos, npos, recsize, unc, plain, code, new_lpos, new_npos, rec)
    ensures i > 0 ==> code == |rs[i - 1]| <= |rec| && rec[..code] == rs[i - 1] && new_lpos == |Body(rs[..i - 1], unc, plain)|
    ensures i == 0 ==> code == -1 && new_lpos == new_npos == 0
  {
    if i > 0 {
      ReadBackAt(rs, i - 1, recsize, unc, plain);
      hide Body, FileOf, Marked, ReadBack, Before, Reach, WentBack, AllFit;
      BackOne(d, lpos, npos, recsize, unc, plain, code, new_lpos, new_npos, rec, rs[i - 1]);
    } else {
      BodyNone(rs[..i], unc, plain);
      hide Body, FileOf, WentBack, AllFit;
      BackNone(d, lpos, npos, recsize, unc, plain, code, new_lpos, new_npos, rec);
    }
  }

  lemma BackOne(d: seq<byte>, lpos: nat, npos: nat, recsize: nat, unc: bool, plain: bool, code: int, new_lpos: nat, new_npos: nat,
                rec: seq<byte>, r: seq<byte>)
    requires WentBack(d, lpos, npos, recsize, unc, plain, code, new_lpos, new_npos, rec) && 0 < lpos <= |d|
    requires Before(d, lpos, recsize) != []
    requires ReadBack(Before(d, lpos, recsize), Reach(lpos, recsize) == recsize + 2, recsize, unc, plain) == Got(r, |Marked(r, unc, plain)|)
    ensures code == |r| <= |rec| && rec[..code] == r && lpos - new_lpos == |Marked(r, unc, plain)|
  {
    hide ReadBack, Before, Reach, Marked;
  }

  lemma BackNone(d: seq<byte>, lpos: nat, npos: nat, recsize: nat, unc: bool, plain: bool, code: int, new_lpos: nat, new_npos: nat,
                 rec: seq<byte>)
    requires WentBack(d, lpos, npos, recsize, unc, plain, code, new_lpos, new_npos, rec) && lpos == 0
    ensures code == -1 && new_lpos == 0 && new_npos == 0
  {
  }

  /** Forward and backward reading are inverse: the records written to a new file are read in order up to the end
      of the file, and then backward in reverse down to its start, for every buffer size, with or without
      compression. */
  method WriteReadBack(bsiz: nat, unc: bool, plain: bool, rs: seq<seq<byte>>, recsize: nat)
    returns (there: seq<seq<byte>>, end: int, back: seq<seq<byte>>, begin: int)
    requires AllFit(rs, recsize, plain)
    ensures there == rs && end == -1 && begin == -1
    ensures |back| == |rs| && forall j :: 0 <= j < |back| ==> back[j] == rs[|rs| - 1 - j]
  {
    var f := new RecordFile.Prepare(bsiz, unc, plain);
    var record := new byte[recsize + 2](_ => 0);
    var work := new byte[recsize + 4](_ => 0);
    WriteAll(f, rs, recsize, record, work);
    there, end := ReadAll(f, recsize, record, work, rs);
    back, begin := ReadAllBack(f, recsize, record, work, rs);
  }
}

/** Runs over files (fio.c): whatever is closed and reopened behind the scenes, each call does what it would do to plain files
    that are always open. */
module FioRun {
  import opened Bytes
  import opened FioTable
  import opened Fio
  import RioBuffer
  import opened Lists

  datatype Op =
    | OpenOp(name: string, mode: int)
    | CloseOp(fnum: int)
    | ReadOp(fnum: int, pos: nat, count: nat)
    | WriteOp(fnum: int, pos: nat, data: seq<byte>)
    | SizeOp(fnum: int)
    | TruncOp(fnum: int, size: nat)
    | TouchOp(fnum: int)
    | IdleOp                            // close the least recently used file

  /** What a call gives back: a number, and the bytes read. */
  datatype Out = Out(value: int, data: seq<byte>)

  // --- plain files --------------------------------------------------------------------------------------------------------

  /** A file behind an open number, with the mode it was first opened with. */
  datatype Opened = Opened(name: string, mode: int)

  /** Plain files, and the open numbers. */
  datatype Plain = Plain(disk: Disk, files: map<int, Opened>)

  ghost predicate IsOpenName(st: Plain, name: string) {
    exists k :: k in st.files && st.files[k].name == name
  }

  /** The mode that a file is open with, or that it is now opened with. */
  ghost function ModeOf(st: Plain, name: string, mode: int): int {
    if k :| k in st.files && st.files[k].name == name then st.files[k].mode else mode
  }

  predicate Known(st: Plain, fnum: int) {
    fnum in st.files && st.files[fnum].name in st.disk
  }

  /** The calls that plain files refuse. */
  ghost predicate Refused(st: Plain, op: Op) {
    match op
    case OpenOp(name, mode) =>
      || mode < SRO || mode > EFC || name == ""
      || (if IsOpenName(st, name) then !MayShare(mode, ModeOf(st, name, mode))
          else if name in st.disk then mode == EFC else mode <= MXC)
    case ReadOp(fnum, _, count) => count > 0 && fnum !in st.files
    case WriteOp(fnum, _, data) => data != [] && (fnum !in st.files || ReadOnly(st.files[fnum].mode))
    case TruncOp(fnum, _) => fnum !in st.files || ReadOnly(st.files[fnum].mode)
    case CloseOp(fnum) => fnum !in st.files
    case SizeOp(fnum) => fnum !in st.files
    case TouchOp(fnum) => fnum !in st.files
    case IdleOp => false
  }

  /** What a call that is not refused gives back. */
  ghost predicate Answers(st: Plain, op: Op, out: Out) {
    match op
    case OpenOp(_, _) => out.value >= 1 && out.value !in st.files && (forall k :: 1 <= k < out.value ==> k in st.files) && out.data == []
    case ReadOp(fnum, pos, count) =>
      out.data == (if Known(st, fnum) then RioBuffer.LoadedBytes(st.disk[st.files[fnum].name], pos, count) else []) && out.value == |out.data|
    case SizeOp(fnum) => Known(st, fnum) && out == Out(|st.disk[st.files[fnum].name]|, [])
    case _ => out == Out(0, [])
  }

  /** What it does to the plain files and the open numbers. */
  ghost function Step(st: Plain, op: Op, out: Out): Plain {
    match op
    case OpenOp(name, mode) =>
      var d := if !IsOpenName(st, name) && (name !in st.disk || mode == PRP || mode == MTC) then st.disk[name := []] else st.disk;
      Plain(d, st.files[out.value := Opened(name, ModeOf(st, name, mode))])
    case CloseOp(fnum) => st.(files := st.files - {fnum})
    case WriteOp(fnum, pos, data) =>
      if Known(st, fnum) && data != []
      then st.(disk := st.disk[st.files[fnum].name := RioBuffer.Overlay(st.disk[st.files[fnum].name], pos, data)]) else st
    case TruncOp(fnum, size) =>
      if Known(st, fnum) then st.(disk := st.disk[st.files[fnum].name := Cut(st.disk[st.files[fnum].name], size)]) else st
    case _ => st
  }

  /** The plain files after the calls that succeeded. */
  ghost function After(st: Plain, ops: seq<Op>, outs: seq<Out>, done: seq<bool>): Plain
    requires |ops| == |outs| == |done|
  {
    if ops == [] then st
    else
      var n := |ops| - 1;
      var s := After(st, ops[..n], outs[..n], done[..n]);
      if done[n] then Step(s, ops[n], outs[n]) else s
  }

  /** The files that nobody else may open, whose handles are never closed to make room. */
  ghost function Exclusive(st: Plain): set<string> {
    set k | k in st.files && st.files[k].mode > SHR :: st.files[k].name
  }

  // --- the files as plain files ---------------------------------------------------------------------------------------------

  function RecordOf(ftab: seq<int>, fnum: int): int {
    if 1 <= fnum <= |ftab| then ftab[fnum - 1] else NIL
  }

  ghost function FilesOf(ftab: seq<int>, htabs: map<int, HTab>): map<int, Opened> {
    map fnum | 1 <= fnum <= |ftab| && RecordOf(ftab, fnum) in htabs ::
      Opened(htabs[RecordOf(ftab, fnum)].fnam, htabs[RecordOf(ftab, fnum)].mode)
  }

  ghost predicate NoLocks(htabs: map<int, HTab>) {
    forall h :: h in htabs ==> !htabs[h].lckflg && htabs[h].locks == []
  }

  /** The files stand for these plain files: no locks are held, and the sizes known are true. */
  ghost predicate StandsFor(f: Files, st: Plain)
    reads f
  {
    && f.Valid() && NoLocks(f.htabs) && SizesTrue(f.htabs, f.disk)
    && f.disk == st.disk && FilesOf(f.ftab, f.htabs) == st.files
  }

  /** Numbers and records. */
  lemma FileAt(ftab: seq<int>, htabs: map<int, HTab>, opencnt: nat, lastuse: nat, os: map<int, OsFile>, disk: Disk, fnum: int)
    requires Right(ftab, htabs, opencnt, lastuse, os, disk)
    ensures var files := FilesOf(ftab, htabs);
            && (fnum in files <==> 1 <= fnum <= |ftab| && ftab[fnum - 1] != NIL)
            && (fnum in files ==> ftab[fnum - 1] in htabs && htabs[ftab[fnum - 1]].fnam in disk
                                  && files[fnum] == Opened(htabs[ftab[fnum - 1]].fnam, htabs[ftab[fnum - 1]].mode))
  {
    if 1 <= fnum <= |ftab| && ftab[fnum - 1] != NIL {
      assert FioTable.Known(htabs[ftab[fnum - 1]], os, disk);
    }
  }

  /** A name is open when a record has it, and the record's mode is that of its open numbers. */
  lemma NameAt(ftab: seq<int>, htabs: map<int, HTab>, opencnt: nat, lastuse: nat, os: map<int, OsFile>, disk: Disk, name: string, mode: int)
    requires Right(ftab, htabs, opencnt, lastuse, os, disk)
    ensures var st := Plain(disk, FilesOf(ftab, htabs));
            && (IsOpenName(st, name) <==> NameOpen(htabs, name))
            && (forall h :: h in htabs && htabs[h].fnam == name ==> ModeOf(st, name, mode) == htabs[h].mode)
            && (!NameOpen(htabs, name) ==> ModeOf(st, name, mode) == mode)
  {
    var st := Plain(disk, FilesOf(ftab, htabs));
    forall h | h in htabs && htabs[h].fnam == name
      ensures IsOpenName(st, name) && ModeOf(st, name, mode) == htabs[h].mode
    {
      var i := UsedBy(ftab, h);
      assert RecordOf(ftab, i + 1) == h;
      assert i + 1 in st.files && st.files[i + 1].name == name;
    }
  }

  lemma FilesKept(ftab: seq<int>, a: map<int, HTab>, b: map<int, HTab>)
    requires Kept(a, b)
    ensures FilesOf(ftab, a) == FilesOf(ftab, b) && (NoLocks(a) ==> NoLocks(b))
  {
  }

  // --- the limit --------------------------------------------------------------------------------------------------------------

  lemma {:induction false} NamesOfSet(htabs: map<int, HTab>, s: set<int>)
    requires Apart(htabs) && forall h :: h in s ==> h in htabs
    ensures |s| == |set h | h in s :: htabs[h].fnam|
    decreases |s|
  {
    var names := set h | h in s :: htabs[h].fnam;
    if s != {} {
      var h := Pick(s);
      var t := s - {h};
      NamesOfSet(htabs, t);
      var less := set k | k in t :: htabs[k].fnam;
      assert names == less + {htabs[h].fnam};
      assert htabs[h].fnam !in less;
    } else {
      assert names == {};
    }
  }

  lemma SmallerSet(a: set<string>, b: set<string>)
    requires a <= b
    ensures |a| <= |b|
  {
    if a != b {
      assert b == a + (b - a);
    }
  }

  /** When no handle can be closed, and no locks are held, the open handles are those of files that are open exclusively. */
  lemma AtTheLimit(ftab: seq<int>, htabs: map<int, HTab>, opencnt: nat, lastuse: nat, os: map<int, OsFile>, disk: Disk)
    requires Right(ftab, htabs, opencnt, lastuse, os, disk) && NoLocks(htabs) && forall k :: k in htabs ==> !Eligible(htabs[k])
    ensures |os.Keys| <= |Exclusive(Plain(disk, FilesOf(ftab, htabs)))|
  {
    OpenCount(ftab, htabs, opencnt, lastuse, os, disk);
    var s, st := OpenFiles(htabs), Plain(disk, FilesOf(ftab, htabs));
    var names := set h | h in s :: htabs[h].fnam;
    NamesOfSet(htabs, s);
    forall n | n in names
      ensures n in Exclusive(st)
    {
      var h :| h in s && htabs[h].fnam == n;
      var i := UsedBy(ftab, h);
      assert RecordOf(ftab, i + 1) == h;
      assert i + 1 in st.files && st.files[i + 1].mode > SHR;
    }
    SmallerSet(names, Exclusive(st));
  }

  // --- one call ----------------------------------------------------------------------------------------------------------------

  /** What a call comes to: it is done, with the right answer, unless plain files refuse it, or as many files are open exclusively
      as the operating system allows to be open. */
  ghost predicate Does(oslimit: nat, st: Plain, op: Op, out: Out, done: bool) {
    if done then !Refused(st, op) && Answers(st, op, out) else Refused(st, op) || |Exclusive(st)| >= oslimit
  }

  ghost function Next(st: Plain, op: Op, out: Out, done: bool): Plain {
    if done then Step(st, op, out) else st
  }

  lemma Limit(f: Files, st: Plain)
    requires StandsFor(f, st) && |f.os.Keys| >= f.oslimit && forall k :: k in f.htabs ==> !Eligible(f.htabs[k])
    ensures |Exclusive(st)| >= f.oslimit
  {
    AtTheLimit(f.ftab, f.htabs, f.opencnt, f.lastuse, f.os, f.disk);
    assert st == Plain(f.disk, FilesOf(f.ftab, f.htabs));
  }

  method DoRead(f: Files, op: Op, ghost st: Plain) returns (out: Out, done: bool)
    requires StandsFor(f, st) && op.ReadOp?
    modifies f`htabs, f`os, f`opencnt, f`lastuse, f`disk, f`nextg
    ensures StandsFor(f, Next(st, op, out, done)) && Does(f.oslimit, st, op, out, done)
  {
    hide Right, Kept, RioBuffer.LoadedBytes, FilesOf, NoLocks, SizesTrue, Exclusive, Eligible, LocksOk;
    ghost var a := f.htabs;
    FileAt(f.ftab, f.htabs, f.opencnt, f.lastuse, f.os, f.disk, op.fnum);
    var code, data := f.Read(op.fnum, op.pos, op.count);
    FilesKept(f.ftab, a, f.htabs);
    FileAt(f.ftab, f.htabs, f.opencnt, f.lastuse, f.os, f.disk, op.fnum);
    out, done := Out(code, data), code >= 0;
    if code == ERR_EXCMF {
      Limit(f, st);
    }
  }

  method DoWrite(f: Files, op: Op, ghost st: Plain) returns (out: Out, done: bool)
    requires StandsFor(f, st) && op.WriteOp?
    modifies f`htabs, f`os, f`opencnt, f`lastuse, f`disk, f`nextg
    ensures StandsFor(f, Next(st, op, out, done)) && Does(f.oslimit, st, op, out, done)
  {
    hide Right, Kept, FilesOf, NoLocks, SizesTrue, Exclusive, Eligible, LocksOk, RioBuffer.Overlay;
    ghost var a := f.htabs;
    FileAt(f.ftab, f.htabs, f.opencnt, f.lastuse, f.os, f.disk, op.fnum);
    var code := f.Write(op.fnum, op.pos, op.data);
    FilesKept(f.ftab, a, f.htabs);
    FileAt(f.ftab, f.htabs, f.opencnt, f.lastuse, f.os, f.disk, op.fnum);
    out, done := Out(0, []), code == 0;
    if code == ERR_EXCMF {
      Limit(f, st);
    }
  }

  method DoTrunc(f: Files, op: Op, ghost st: Plain) returns (out: Out, done: bool)
    requires StandsFor(f, st) && op.TruncOp?
    modifies f`htabs, f`os, f`opencnt, f`lastuse, f`disk, f`nextg
    ensures StandsFor(f, Next(st, op, out, done)) && Does(f.oslimit, st, op, out, done)
  {
    hide Right, Kept, FilesOf, NoLocks, SizesTrue, Exclusive, Eligible, LocksOk, Cut;
    ghost var a := f.htabs;
    FileAt(f.ftab, f.htabs, f.opencnt, f.lastuse, f.os, f.disk, op.fnum);
    var code := f.Trunc(op.fnum, op.size);
    FilesKept(f.ftab, a, f.htabs);
    FileAt(f.ftab, f.htabs, f.opencnt, f.lastuse, f.os, f.disk, op.fnum);
    out, done := Out(0, []), code == 0;
    if code == ERR_EXCMF {
      Limit(f, st);
    }
  }

  method DoSize(f: Files, op: Op, ghost st: Plain) returns (out: Out, done: bool)
    requires StandsFor(f, st) && op.SizeOp?
    modifies f`htabs, f`os, f`opencnt, f`lastuse, f`disk, f`nextg
    ensures StandsFor(f, Next(st, op, out, done)) && Does(f.oslimit, st, op, out, done)
  {
    hide Right, Kept, FilesOf, NoLocks, SizesTrue, Exclusive, Eligible, LocksOk;
    ghost var a := f.htabs;
    FileAt(f.ftab, f.htabs, f.opencnt, f.lastuse, f.os, f.disk, op.fnum);
    if op.fnum in st.files {
      SizeAt(f.htabs, f.disk, f.ftab[op.fnum - 1]);
    }
    var code, size := f.GetSize(op.fnum);
    FilesKept(f.ftab, a, f.htabs);
    FileAt(f.ftab, f.htabs, f.opencnt, f.lastuse, f.os, f.disk, op.fnum);
    out, done := Out(size, []), code == 0;
    if code == ERR_EXCMF {
      Limit(f, st);
    }
  }

  method DoTouch(f: Files, op: Op, ghost st: Plain) returns (out: Out, done: bool)
    requires StandsFor(f, st) && op.TouchOp?
    modifies f`htabs, f`os, f`opencnt, f`lastuse, f`disk, f`nextg
    ensures StandsFor(f, Next(st, op, out, done)) && Does(f.oslimit, st, op, out, done)
  {
    hide Right, Kept, Idled, FilesOf, NoLocks, SizesTrue, Exclusive, Eligible, LocksOk;
    ghost var a := f.htabs;
    FileAt(f.ftab, f.htabs, f.opencnt, f.lastuse, f.os, f.disk, op.fnum);
    KeptNone(a);
    var code := f.Touch(op.fnum);
    if f.IsOpen(op.fnum) {
      KeptIdled(a, f.htabs, f.ftab[op.fnum - 1]);
      SizesTouched(a, f.htabs, f.ftab[op.fnum - 1], f.disk);
    }
    FilesKept(f.ftab, a, f.htabs);
    out, done := Out(0, []), code == 0;
    if code == ERR_EXCMF {
      Limit(f, st);
    }
  }

  method DoIdle(f: Files, ghost st: Plain) returns (out: Out, done: bool)
    requires StandsFor(f, st)
    modifies f`htabs, f`os, f`opencnt
    ensures StandsFor(f, Next(st, IdleOp, out, done)) && Does(f.oslimit, st, IdleOp, out, done)
  {
    hide Right, Kept, FilesOf, NoLocks, SizesTrue, Exclusive, LocksOk;
    ghost var a, h := f.htabs, NIL;
    KeptNone(a);
    var rc;
    rc, h := f.CloseOldest();
    if rc == 0 {
      IdledOne(a, h);
      assert f.htabs == a[h := a[h].(hndl := NIL, lckflg := false, locks := [])];
      KeptClosed(a, f.htabs);
      SizesIdled(a, f.htabs, f.disk);
    }
    FilesKept(f.ftab, a, f.htabs);
    out, done := Out(0, []), true;
  }

  lemma KeptClosed(a: map<int, HTab>, b: map<int, HTab>)
    requires Idled(a, b)
    ensures Kept(a, b)
  {
  }

  method DoClose(f: Files, op: Op, ghost st: Plain) returns (out: Out, done: bool)
    requires StandsFor(f, st) && op.CloseOp?
    modifies f`ftab, f`htabs, f`os, f`opencnt
    ensures StandsFor(f, Next(st, op, out, done)) && Does(f.oslimit, st, op, out, done)
  {
    hide Right, FilesOf, NoLocks, SizesTrue, Exclusive, Eligible, LocksOk, Staying, Emptied;
    ghost var ftab, a := f.ftab, f.htabs;
    FileAt(f.ftab, f.htabs, f.opencnt, f.lastuse, f.os, f.disk, op.fnum);
    ClosedFiles(f.ftab, f.htabs, f.opencnt, f.lastuse, f.os, f.disk, op.fnum);
    var code := f.Close(op.fnum);
    out, done := Out(0, []), code == 0;
  }

  /** The open numbers after one has been closed. */
  lemma ClosedFiles(ftab: seq<int>, a: map<int, HTab>, opencnt: nat, lastuse: nat, os: map<int, OsFile>, disk: Disk, fnum: int)
    requires Right(ftab, a, opencnt, lastuse, os, disk) && NoLocks(a) && SizesTrue(a, disk)
    ensures 1 <= fnum <= |ftab| && ftab[fnum - 1] in a ==>
              var h := ftab[fnum - 1]; var locks := Staying(a[h].locks, fnum - 1, -1);
              var b := if a[h].opct > 1 then a[h := a[h].(opct := a[h].opct - 1, locks := locks)] else a - {h};
              && FilesOf(Emptied(ftab, fnum - 1), b) == FilesOf(ftab, a) - {fnum} && NoLocks(b) && SizesTrue(b, disk)
  {
    if 1 <= fnum <= |ftab| && ftab[fnum - 1] in a {
      var h := ftab[fnum - 1];
      var locks := Staying(a[h].locks, fnum - 1, -1);
      var b := if a[h].opct > 1 then a[h := a[h].(opct := a[h].opct - 1, locks := locks)] else a - {h};
      hide Staying, Right, FilesOf;
      RightShared(ftab, a, opencnt, lastuse, os, disk);
      StayingSome(a[h].locks, fnum - 1);
      assert locks == [];
      FilesEmptied(ftab, a, b, fnum);
    }
  }

  lemma RightShared(ftab: seq<int>, a: map<int, HTab>, opencnt: nat, lastuse: nat, os: map<int, OsFile>, disk: Disk)
    requires Right(ftab, a, opencnt, lastuse, os, disk)
    ensures Shared(ftab, a)
  {
  }

  lemma FilesEmptied(ftab: seq<int>, a: map<int, HTab>, b: map<int, HTab>, fnum: int)
    requires Shared(ftab, a) && 1 <= fnum <= |ftab| && ftab[fnum - 1] in a
    requires var h := ftab[fnum - 1];
             if a[h].opct > 1 then h in b && b == a[h := b[h]] && b[h].fnam == a[h].fnam && b[h].mode == a[h].mode else b == a - {h}
    ensures FilesOf(Emptied(ftab, fnum - 1), b) == FilesOf(ftab, a) - {fnum}
  {
    var h := ftab[fnum - 1];
    var x, y := FilesOf(Emptied(ftab, fnum - 1), b), FilesOf(ftab, a) - {fnum};
    forall k
      ensures k in x <==> k in y
      ensures k in x ==> x[k] == y[k]
    {
      if k in y {
        assert RecordOf(Emptied(ftab, fnum - 1), k) == RecordOf(ftab, k);
        if a[h].opct <= 1 && RecordOf(ftab, k) == h {
          TwoUses(ftab, k - 1, fnum - 1);
        }
      }
      if k in x {
        assert RecordOf(ftab, k) == RecordOf(Emptied(ftab, fnum - 1), k);
      }
    }
  }

  /** The open numbers after a file has been opened. */
  lemma OpenedFiles(ftab: seq<int>, a: map<int, HTab>, opencnt: nat, lastuse: nat, os: map<int, OsFile>, disk: Disk,
                    new_f: seq<int>, b: map<int, HTab>, new_d: Disk, i: nat, name: string, mode: int, create: int)
    requires Right(ftab, a, opencnt, lastuse, os, disk) && NoLocks(a) && SizesTrue(a, disk)
    requires OpenedAs(ftab, a, disk, new_f, b, new_d, i, name, mode, create) && 0 <= create <= 1 && (create == 1 ==> name !in disk)
    requires i < |ftab| ==> ftab[i] == NIL
    ensures var st := Plain(disk, FilesOf(ftab, a));
            && FilesOf(new_f, b) == st.files[i + 1 := Opened(name, ModeOf(st, name, mode))]
            && new_d == (if !IsOpenName(st, name) && (name !in disk || mode == PRP || mode == MTC) then disk[name := []] else disk)
    ensures NoLocks(b) && SizesTrue(b, new_d)
  {
    hide Right, NoLocks, SizesTrue, FilesOf, OpenedAs, ModeOf, IsOpenName, NameOpen, Filled;
    NameAt(ftab, a, opencnt, lastuse, os, disk, name, mode);
    TableShared(ftab, a, opencnt, lastuse, os, disk);
    OpenedFacts(ftab, a, disk, new_f, b, new_d, i, name, mode, create);
    OpenedSizes(ftab, a, disk, new_f, b, new_d, i, name, mode, create);
    NewFiles(ftab, a, new_f, b, i);
  }

  lemma TableShared(ftab: seq<int>, a: map<int, HTab>, opencnt: nat, lastuse: nat, os: map<int, OsFile>, disk: Disk)
    requires Right(ftab, a, opencnt, lastuse, os, disk)
    ensures NIL !in a && forall j :: 0 <= j < |ftab| && ftab[j] != NIL ==> ftab[j] in a
  {
  }

  lemma OpenedSizes(ftab: seq<int>, a: map<int, HTab>, disk: Disk, new_f: seq<int>, b: map<int, HTab>, new_d: Disk, i: nat,
                    name: string, mode: int, create: int)
    requires OpenedAs(ftab, a, disk, new_f, b, new_d, i, name, mode, create) && NoLocks(a) && SizesTrue(a, disk)
    ensures NoLocks(b) && SizesTrue(b, new_d)
  {
    forall k | k in b && b[k].fsiz != NIL
      ensures b[k].fnam in new_d && b[k].fsiz == |new_d[b[k].fnam]|
    {
      assert k in a && b[k].fnam == a[k].fnam;
      assert a[k].fnam == name ==> NameOpen(a, name);
    }
  }

  lemma OpenedFacts(ftab: seq<int>, a: map<int, HTab>, disk: Disk, new_f: seq<int>, b: map<int, HTab>, new_d: Disk, i: nat,
                    name: string, mode: int, create: int)
    requires OpenedAs(ftab, a, disk, new_f, b, new_d, i, name, mode, create) && 0 <= create <= 1 && (create == 1 ==> name !in disk)
    ensures i < |new_f| && i <= |ftab| && new_f[i] in b && new_f == Filled(ftab, i, new_f[i])
    ensures forall k :: k in b ==> k in a || k == new_f[i]
    ensures forall k :: k in a ==> k in b && b[k].fnam == a[k].fnam && b[k].mode == a[k].mode
    ensures b[new_f[i]].fnam == name
    ensures NameOpen(a, name) ==> new_f[i] in a && a[new_f[i]].fnam == name && b[new_f[i]].mode == a[new_f[i]].mode && new_d == disk
                                  && MayShare(mode, a[new_f[i]].mode)
    ensures !NameOpen(a, name) ==> b[new_f[i]].mode == mode && (create == 0 ==> name in disk && mode != EFC)
                                   && new_d == if name !in disk || mode == PRP || mode == MTC then disk[name := []] else disk
    ensures NIL !in a ==> NIL !in b
  {
  }

  lemma NewFiles(ftab: seq<int>, a: map<int, HTab>, new_f: seq<int>, b: map<int, HTab>, i: nat)
    requires NIL !in a && i <= |ftab| && i < |new_f| && new_f[i] in b && new_f == Filled(ftab, i, new_f[i]) && (i < |ftab| ==> ftab[i] == NIL)
    requires forall k :: k in b ==> k in a || k == new_f[i]
    requires forall k :: k in a ==> k in b && b[k].fnam == a[k].fnam && b[k].mode == a[k].mode
    requires forall j :: 0 <= j < |ftab| && ftab[j] != NIL ==> ftab[j] in a
    ensures NIL !in b ==> FilesOf(new_f, b) == FilesOf(ftab, a)[i + 1 := Opened(b[new_f[i]].fnam, b[new_f[i]].mode)]
  {
    if NIL !in b {
      var x, y := FilesOf(new_f, b), FilesOf(ftab, a)[i + 1 := Opened(b[new_f[i]].fnam, b[new_f[i]].mode)];
      forall k
        ensures k in x <==> k in y
        ensures k in x ==> x[k] == y[k]
      {
        if k != i + 1 {
          assert 1 <= k <= |ftab| ==> RecordOf(new_f, k) == RecordOf(ftab, k);
        } else {
          assert RecordOf(new_f, k) == new_f[i];
        }
      }
    }
  }

  method DoOpen(f: Files, op: Op, ghost st: Plain) returns (out: Out, done: bool)
    requires StandsFor(f, st) && op.OpenOp?
    modifies f
    ensures StandsFor(f, Next(st, op, out, done)) && Does(f.oslimit, st, op, out, done)
  {
    hide Right, FilesOf, NoLocks, SizesTrue, Exclusive, Eligible, LocksOk, Idled, OpenedAs, Filled;
    ghost var ftab, a, opencnt, lastuse, os := f.ftab, f.htabs, f.opencnt, f.lastuse, f.os;
    var code := f.Open(op.name, op.mode);
    NameAt(ftab, a, opencnt, lastuse, os, st.disk, op.name, op.mode);
    out, done := Out(code, []), code > 0;
    if done {
      OpenDone(ftab, a, opencnt, lastuse, os, st, f.ftab, f.htabs, f.disk, op, code);
    } else {
      KeptClosed(a, f.htabs);
      FilesKept(ftab, a, f.htabs);
      SizesIdled(a, f.htabs, f.disk);
      if code == ERR_EXCMF {
        Limit(f, st);
      }
    }
  }

  lemma OpenDone(ftab: seq<int>, a: map<int, HTab>, opencnt: nat, lastuse: nat, os: map<int, OsFile>, st: Plain,
                 new_f: seq<int>, b: map<int, HTab>, new_d: Disk, op: Op, code: int)
    requires Right(ftab, a, opencnt, lastuse, os, st.disk) && NoLocks(a) && SizesTrue(a, st.disk) && FilesOf(ftab, a) == st.files
    requires op.OpenOp? && SRO <= op.mode <= EFC && op.name != "" && 1 <= code <= |ftab| + 1
    requires !(1 <= code <= |ftab| && ftab[code - 1] != NIL) && forall i :: 0 <= i < code - 1 ==> ftab[i] != NIL
    requires OpenedAs(ftab, a, st.disk, new_f, b, new_d, code - 1, op.name, op.mode, 0)
             || (op.mode > MXC && op.name !in st.disk && OpenedAs(ftab, a, st.disk, new_f, b, new_d, code - 1, op.name, op.mode, 1))
    ensures !Refused(st, op) && Answers(st, op, Out(code, []))
    ensures NoLocks(b) && SizesTrue(b, new_d) && Plain(new_d, FilesOf(new_f, b)) == Step(st, op, Out(code, []))
  {
    hide Right, NoLocks, SizesTrue, FilesOf, OpenedAs, ModeOf, IsOpenName, NameOpen, Filled, MayShare;
    assert st == Plain(st.disk, FilesOf(ftab, a));
    var create := if OpenedAs(ftab, a, st.disk, new_f, b, new_d, code - 1, op.name, op.mode, 0) then 0 else 1;
    NameAt(ftab, a, opencnt, lastuse, os, st.disk, op.name, op.mode);
    OpenedFacts(ftab, a, st.disk, new_f, b, new_d, code - 1, op.name, op.mode, create);
    OpenedFiles(ftab, a, opencnt, lastuse, os, st.disk, new_f, b, new_d, code - 1, op.name, op.mode, create);
    forall k | 1 <= k <= code
      ensures k in st.files <==> k < code
    {
      FileAt(ftab, a, opencnt, lastuse, os, st.disk, k);
    }
  }

  // --- a run ---------------------------------------------------------------------------------------------------------------------

  /** One call. */
  method Do(f: Files, op: Op, ghost st: Plain) returns (out: Out, done: bool)
    requires StandsFor(f, st)
    modifies f
    ensures StandsFor(f, Next(st, op, out, done)) && Does(f.oslimit, st, op, out, done)
  {
    hide StandsFor, Next, Does;
    match op {
      case OpenOp(_, _) => out, done := DoOpen(f, op, st);
      case CloseOp(_) => out, done := DoClose(f, op, st);
      case ReadOp(_, _, _) => out, done := DoRead(f, op, st);
      case WriteOp(_, _, _) => out, done := DoWrite(f, op, st);
      case SizeOp(_) => out, done := DoSize(f, op, st);
      case TruncOp(_, _) => out, done := DoTrunc(f, op, st);
      case TouchOp(_) => out, done := DoTouch(f, op, st);
      case IdleOp => out, done := DoIdle(f, st);
    }
  }

  lemma AfterNone(st: Plain, ops: seq<Op>)
    ensures After(st, ops[..0], [], []) == st
  {
  }

  lemma AfterMore(st: Plain, ops: seq<Op>, outs: seq<Out>, done: seq<bool>, op: Op, out: Out, d: bool)
    requires |ops| == |outs| == |done|
    ensures After(st, ops + [op], outs + [out], done + [d]) == Next(After(st, ops, outs, done), op, out, d)
  {
    var n := |ops|;
    assert (ops + [op])[..n] == ops && (outs + [out])[..n] == outs && (done + [d])[..n] == done;
  }

  /** REFINEMENT OF PLAIN FILES: over any run of calls that open, share, read, write, size, cut, touch, idle and close files, each
      call that succeeds gives what plain files that are always open would give, at that point of the run; a call fails only
      where plain files would refuse it, or when as many files are open exclusively as the operating system allows to be open. In
      the end the files are the plain files. */
  method Run(f: Files, ops: seq<Op>, ghost st: Plain) returns (outs: seq<Out>, done: seq<bool>)
    requires StandsFor(f, st)
    modifies f
    ensures |outs| == |done| == |ops| && StandsFor(f, After(st, ops, outs, done))
    ensures forall i :: 0 <= i < |ops| ==> Does(f.oslimit, After(st, ops[..i], outs[..i], done[..i]), ops[i], outs[i], done[i])
  {
    hide StandsFor, Next, Does, After;
    outs, done := [], [];
    AfterNone(st, ops);
    for n := 0 to |ops|
      invariant |outs| == |done| == n && StandsFor(f, After(st, ops[..n], outs, done))
      invariant forall i :: 0 <= i < n ==> Does(f.oslimit, After(st, ops[..i], outs[..i], done[..i]), ops[i], outs[i], done[i])
    {
      ghost var o, d0 := outs, done;
      var out, d := Do(f, ops[n], After(st, ops[..n], outs, done));
      AfterMore(st, ops[..n], outs, done, ops[n], out, d);
      assert ops[..n] + [ops[n]] == ops[..n + 1];
      outs, done := outs + [out], done + [d];
      assert outs[..n] == o && done[..n] == d0;
      assert forall i :: 0 <= i < n ==> outs[..i] == o[..i] && done[..i] == d0[..i];
    }
    assert ops[..|ops|] == ops;
  }

  /** A program starts with no files open. */
  method Start(openlimit: nat, oslimit: nat, disk: Disk) returns (f: Files)
    ensures fresh(f) && StandsFor(f, Plain(disk, map[])) && f.oslimit == oslimit
  {
    f := new Files(openlimit, oslimit, disk);
  }
}

/** What it means that a file is open exclusively (fio.c), with the modes as numbers: 1 shared for reading, 2 shared read only with writers
    elsewhere, 3 shared, 4 exclusive for reading, 5 exclusive, 6 multiply exclusive, 7 exclusive and emptied, 8 multiply exclusive and
    emptied, 9 exclusive and new. */
module FioMeaning {
  import opened Bytes
  import opened FioTable
  import opened Fio
  import opened FioRun
  import RioBuffer

  /** The modes in which a file may have several open numbers. */
  predicate Many(mode: int) {
    mode == 1 || mode == 2 || mode == 3 || mode == 6 || mode == 8
  }

  /** Files with several open numbers have modes that allow it, and the same one under each number. */
  ghost predicate Sharing(st: Plain) {
    && (forall k :: k in st.files ==> 1 <= st.files[k].mode <= 9)
    && forall j, k :: j in st.files && k in st.files && j != k && st.files[j].name == st.files[k].name ==>
      st.files[j].mode == st.files[k].mode && Many(st.files[j].mode)
  }

  /** The mode that a file was first opened with. */
  lemma ModeIs(st: Plain, name: string, mode: int, k: int)
    requires Sharing(st) && k in st.files && st.files[k].name == name
    ensures ModeOf(st, name, mode) == st.files[k].mode
  {
    var j :| j in st.files && st.files[j].name == name && ModeOf(st, name, mode) == st.files[j].mode;
    assert j != k ==> st.files[j].mode == st.files[k].mode;
  }

  /** WHEN AN OPEN IS REFUSED. A file that is open may be opened again only in the mode it was first opened with, and only if that is 1, 2, 3,
      6 or 8, or in mode 6 when it was first opened in mode 8. A file that is not open must exist for modes up to 6, and must not for
      mode 9. */
  lemma OpenMeans(st: Plain, name: string, mode: int, k: int)
    requires Sharing(st) && name != "" && 1 <= mode <= 9
    ensures k in st.files && st.files[k].name == name ==>
              var m := st.files[k].mode;
              Refused(st, OpenOp(name, mode)) <==> !((mode == m && Many(m)) || (mode == 6 && m == 8))
    ensures (forall j :: j in st.files ==> st.files[j].name != name) ==>
              (Refused(st, OpenOp(name, mode)) <==> if name in st.disk then mode == 9 else mode <= 6)
  {
    if k in st.files && st.files[k].name == name {
      ModeIs(st, name, mode, k);
    }
  }

  /** What plain files refuse otherwise: a number that is not in use, and writing in modes 1, 2 and 4. The files that keep a handle of the
      operating system are those in modes from 4 on. */
  lemma RefusalMeans(st: Plain, name: string, mode: int, fnum: int, pos: nat, count: nat, data: seq<byte>)
    ensures mode < 1 || mode > 9 || name == "" ==> Refused(st, OpenOp(name, mode))
    ensures var w := fnum !in st.files || st.files[fnum].mode == 1 || st.files[fnum].mode == 2 || st.files[fnum].mode == 4;
            && (Refused(st, WriteOp(fnum, pos, data)) <==> data != [] && w)
            && (Refused(st, TruncOp(fnum, pos)) <==> w)
    ensures Refused(st, ReadOp(fnum, pos, count)) <==> count > 0 && fnum !in st.files
    ensures Refused(st, CloseOp(fnum)) <==> fnum !in st.files
    ensures Refused(st, SizeOp(fnum)) <==> fnum !in st.files
    ensures Refused(st, TouchOp(fnum)) <==> fnum !in st.files
    ensures !Refused(st, IdleOp)
    ensures forall n :: n in Exclusive(st) <==> exists k :: k in st.files && st.files[k].mode >= 4 && st.files[k].name == n
  {
  }

  /** The files whose handles are closed to make room: those in modes up to 3 that have no locks. */
  lemma EligibleMeans(h: HTab)
    ensures Eligible(h) <==> h.hndl != -1 && h.mode <= 3 && !h.lckflg && |h.locks| == 0
  {
  }

  /** A file cut to a size: its bytes up to there, and zeros behind its end. */
  lemma CutMeans(d: seq<byte>, size: nat, i: nat)
    ensures |Cut(d, size)| == size
    ensures i < size ==> Cut(d, size)[i] == if i < |d| then d[i] else 0
  {
  }

  /** What an open that succeeds does: the new number stands for the file, which is emptied in modes 7 and 8 unless it is open already, and
      made when it does not exist. */
  lemma OpenedMeans(st: Plain, name: string, mode: int, out: Out)
    ensures var new_st := Step(st, OpenOp(name, mode), out);
            && new_st.files.Keys == st.files.Keys + {out.value} && new_st.files[out.value].name == name
            && (forall k :: k in st.files && k != out.value ==> new_st.files[k] == st.files[k])
            && ((forall k :: k in st.files ==> st.files[k].name != name) ==>
                  new_st.files[out.value].mode == mode
                  && new_st.disk == if mode == 7 || mode == 8 || name !in st.disk then st.disk[name := []] else st.disk)
            && ((exists k :: k in st.files && st.files[k].name == name) ==> new_st.disk == st.disk)
  {
    if k :| k in st.files && st.files[k].name == name {
      assert IsOpenName(st, name);
    }
  }

  /** What the other calls do that succeed. */
  lemma StepMeans(st: Plain, fnum: int, pos: nat, data: seq<byte>, count: nat, out: Out)
    ensures Step(st, CloseOp(fnum), out) == Plain(st.disk, map k | k in st.files && k != fnum :: st.files[k])
    ensures fnum in st.files && st.files[fnum].name in st.disk ==>
              var n := st.files[fnum].name;
              && Step(st, TruncOp(fnum, pos), out) == Plain(st.disk[n := Cut(st.disk[n], pos)], st.files)
              && (data != [] ==> Step(st, WriteOp(fnum, pos, data), out)
                                 == Plain(st.disk[n := RioBuffer.Overlay(st.disk[n], pos, data)], st.files))
    ensures Step(st, WriteOp(fnum, pos, []), out) == Step(st, ReadOp(fnum, pos, count), out) == Step(st, SizeOp(fnum), out)
            == Step(st, TouchOp(fnum), out) == Step(st, IdleOp, out) == st
  {
    assert st.files - {fnum} == map k | k in st.files && k != fnum :: st.files[k];
  }

  /** What the calls give back that succeed: the least number that is free, the bytes from a position on, and the size. */
  lemma AnswerMeans(st: Plain, name: string, mode: int, fnum: int, pos: nat, count: nat, out: Out)
    requires fnum in st.files && st.files[fnum].name in st.disk
    ensures Answers(st, OpenOp(name, mode), out) ==> out.value >= 1 && out.value !in st.files && forall k :: 1 <= k < out.value ==> k in st.files
    ensures Answers(st, ReadOp(fnum, pos, count), out) ==>
              var d := st.disk[st.files[fnum].name];
              && out.value == |out.data| == (if pos >= |d| then 0 else if |d| - pos < count then |d| - pos else count)
              && forall i :: 0 <= i < |out.data| ==> out.data[i] == d[pos + i]
    ensures Answers(st, SizeOp(fnum), out) ==> out.value == |st.disk[st.files[fnum].name]|
  {
  }

  /** One call keeps this. */
  lemma SharingNext(st: Plain, op: Op, out: Out, done: bool, oslimit: nat)
    requires Sharing(st) && Does(oslimit, st, op, out, done)
    ensures Sharing(Next(st, op, out, done))
  {
    hide Step, ModeOf, IsOpenName;
    if done && op.OpenOp? {
      forall k | k in st.files && st.files[k].name == op.name
        ensures ModeOf(st, op.name, op.mode) == st.files[k].mode && Many(st.files[k].mode)
      {
        ModeIs(st, op.name, op.mode, k);
        OpenMeans(st, op.name, op.mode, k);
      }
      OpenNext(st, op, out);
    } else if done {
      OtherNext(st, op, out);
    }
  }

  lemma OpenNext(st: Plain, op: Op, out: Out)
    requires op.OpenOp?
    ensures Step(st, op, out).files == st.files[out.value := Opened(op.name, ModeOf(st, op.name, op.mode))]
    ensures (forall k :: k in st.files ==> st.files[k].name != op.name) ==> ModeOf(st, op.name, op.mode) == op.mode
  {
  }

  lemma OtherNext(st: Plain, op: Op, out: Out)
    requires !op.OpenOp?
    ensures forall k :: k in Step(st, op, out).files ==> k in st.files && Step(st, op, out).files[k] == st.files[k]
  {
  }

  /** Every state of a run. */
  lemma {:induction false} SharingAfter(st: Plain, ops: seq<Op>, outs: seq<Out>, done: seq<bool>, oslimit: nat)
    requires Sharing(st) && |ops| == |outs| == |done|
    requires forall i :: 0 <= i < |ops| ==> Does(oslimit, After(st, ops[..i], outs[..i], done[..i]), ops[i], outs[i], done[i])
    ensures Sharing(After(st, ops, outs, done))
    decreases |ops|
  {
    hide Sharing, Does, Step;
    if ops != [] {
      var n := |ops| - 1;
      var o, u, d := ops[..n], outs[..n], done[..n];
      forall i | 0 <= i < n
        ensures Does(oslimit, After(st, o[..i], u[..i], d[..i]), o[i], u[i], d[i])
      {
        assert o[..i] == ops[..i] && u[..i] == outs[..i] && d[..i] == done[..i];
      }
      SharingAfter(st, o, u, d, oslimit);
      SharingNext(After(st, o, u, d), ops[n], outs[n], done[n], oslimit);
    }
  }

  lemma SharingIs(st: Plain)
    requires Sharing(st)
    ensures forall j, k :: j in st.files && k in st.files && st.files[j].name == st.files[k].name && st.files[j].mode in {4, 5, 7, 9} ==> j == k
    ensures forall j, k :: j in st.files && k in st.files && st.files[j].name == st.files[k].name && j != k ==>
              st.files[j].mode == st.files[k].mode && st.files[j].mode in {1, 2, 3, 6, 8}
  {
  }

  lemma SharedOpen(st: Plain, op: Op, k: int, out: Out, oslimit: nat)
    requires Sharing(st) && op.OpenOp? && op.name != "" && k in st.files && st.files[k].name == op.name && st.files[k].mode == op.mode <= 3
    requires Does(oslimit, st, op, out, false)
    ensures |Exclusive(st)| >= oslimit
  {
    OpenMeans(st, op.name, op.mode, k);
  }

  /** EXCLUSIVE FILES ARE EXCLUSIVE: a program opens files, shares them, reads, writes and closes them in any order. At each point of the run a
      file that was first opened in mode 4, 5, 7 or 9 has one open number, and two numbers stand for one file only if its mode is 1, 2, 3,
      6 or 8; and an open of a file in the shared mode it is open with fails only at the limit of the operating system. */
  method RunFromStart(openlimit: nat, oslimit: nat, disk: Disk, ops: seq<Op>) returns (f: Files, outs: seq<Out>, done: seq<bool>)
    ensures fresh(f) && |outs| == |done| == |ops| && StandsFor(f, After(Plain(disk, map[]), ops, outs, done))
    ensures forall i :: 0 <= i <= |ops| ==>
              var files := After(Plain(disk, map[]), ops[..i], outs[..i], done[..i]).files;
              && (forall j, k :: j in files && k in files && files[j].name == files[k].name && files[j].mode in {4, 5, 7, 9} ==> j == k)
              && (forall j, k :: j in files && k in files && files[j].name == files[k].name && j != k ==> files[j].mode in {1, 2, 3, 6, 8})
    ensures forall i, k :: 0 <= i < |ops| && ops[i].OpenOp? && ops[i].name != "" ==>
              var st := After(Plain(disk, map[]), ops[..i], outs[..i], done[..i]);
              k in st.files && st.files[k].name == ops[i].name && ops[i].mode == st.files[k].mode && st.files[k].mode <= 3 && !done[i] ==>
                |Exclusive(st)| >= oslimit
  {
    hide StandsFor, Does, After;
    ghost var st := Plain(disk, map[]);
    f := Start(openlimit, oslimit, disk);
    outs, done := Run(f, ops, st);
    forall i | 0 <= i <= |ops|
      ensures Sharing(After(st, ops[..i], outs[..i], done[..i]))
    {
      var o, u, d := ops[..i], outs[..i], done[..i];
      forall j | 0 <= j < i
        ensures Does(oslimit, After(st, o[..j], u[..j], d[..j]), o[j], u[j], d[j])
      {
        assert o[..j] == ops[..j] && u[..j] == outs[..j] && d[..j] == done[..j];
      }
      SharingAfter(st, o, u, d, oslimit);
      SharingIs(After(st, o, u, d));
    }
    forall i, k | 0 <= i < |ops| && ops[i].OpenOp? && ops[i].name != "" && !done[i]
      ensures var s := After(st, ops[..i], outs[..i], done[..i]);
              k in s.files && s.files[k].name == ops[i].name && ops[i].mode == s.files[k].mode && s.files[k].mode <= 3 ==> |Exclusive(s)| >= oslimit
    {
      var s := After(st, ops[..i], outs[..i], done[..i]);
      if k in s.files && s.files[k].name == ops[i].name && ops[i].mode == s.files[k].mode && s.files[k].mode <= 3 {
        SharedOpen(s, ops[i], k, outs[i], oslimit);
      }
    }
  }
}

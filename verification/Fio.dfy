/** Files by open number (fio.c): more of them than the operating system can hold open, each as good as a plain file. */
module Fio {
  import opened Bytes
  import opened FioTable
  import RioBuffer
  import opened Lists

  const ERR_NOTOP := -21
  const ERR_FNOTF := -22
  const ERR_NOACC := -23
  const ERR_EXIST := -24
  const ERR_EXCMF := -25
  const ERR_BADNM := -26
  const ERR_LKERR := -41
  const ERR_RONLY := -53
  const ERR_OPERR := -54
  const ERR_INVAR := -55

  /** The files that may not be written. */
  predicate ReadOnly(mode: int) {
    mode == SRO || mode == SRA || mode == ERO
  }

  /** A file cut or extended to a size. */
  function Cut(d: seq<byte>, size: nat): seq<byte> {
    if size <= |d| then d[..size] else d + seq(size - |d|, _ => 0)
  }

  /** Whether a file that is open may be opened once more. */
  predicate MayShare(mode: int, other: int) {
    || (mode == other && (mode <= SHR || mode == MXC || mode == MTC))
    || (other == MTC && mode == MXC)
  }

  class Files {
    const openlimit: nat
    const oslimit: nat
    var ftab: seq<int>
    var htabs: map<int, HTab>
    var nexth: nat
    var opencnt: nat
    var lastuse: nat
    // the operating system
    var disk: Disk
    var os: map<int, OsFile>
    var nextg: nat

    ghost predicate Valid()
      reads this
    {
      && Right(ftab, htabs, opencnt, lastuse, os, disk) && LocksOk(ftab, htabs)
      && (forall h :: h in htabs ==> h < nexth) && (forall g :: g in os ==> g < nextg)
    }

    /** The open number is in use. */
    predicate IsOpen(fnum: int)
      reads `ftab
    {
      1 <= fnum <= |ftab| && ftab[fnum - 1] != NIL
    }

    /** The file behind an open number. */
    ghost function File(fnum: int): HTab
      requires IsOpen(fnum) && ftab[fnum - 1] in htabs
      reads `ftab, `htabs
    {
      htabs[ftab[fnum - 1]]
    }

    constructor (openlimit: nat, oslimit: nat, disk: Disk)
      ensures Valid() && ftab == [] && this.disk == disk && this.openlimit == openlimit && this.oslimit == oslimit
    {
      this.openlimit, this.oslimit, this.disk := openlimit, oslimit, disk;
      ftab, htabs, nexth, opencnt, lastuse, os, nextg := [], map[], 0, 0, 0, map[], 0;
    }

    // --- the operating system ---------------------------------------------------------------------------------------------

    /** open: for the first time, to create the file, or again. */
    method OsOpen(name: string, mode: int, kind: int) returns (code: int, g: int)
      requires SRO <= mode <= EFC && 0 <= kind <= 2 && (kind == 1 ==> mode >= PRP)
      modifies `disk, `os, `nextg
      ensures code in {0, ERR_EXCMF, ERR_FNOTF, ERR_EXIST} && nextg >= old(nextg)
      ensures code == ERR_EXCMF <==> |old(os).Keys| >= oslimit
      ensures code == ERR_FNOTF <==> |old(os).Keys| < oslimit && name !in old(disk) && kind != 1
      ensures code == ERR_EXIST <==> |old(os).Keys| < oslimit && name in old(disk) && mode == EFC && kind != 2
      ensures code != 0 ==> os == old(os) && disk == old(disk) && nextg == old(nextg)
      ensures code == 0 ==> g == old(nextg) && nextg == g + 1 && os == old(os)[g := OsFile(name, 0)]
      ensures code == 0 ==> disk == if (kind == 1 && name !in old(disk)) || (kind != 2 && (mode == PRP || mode == MTC))
                                    then old(disk)[name := []] else old(disk)
    {
      if |os.Keys| >= oslimit {
        return ERR_EXCMF, NIL;
      }
      if name !in disk && kind != 1 {
        return ERR_FNOTF, NIL;
      }
      if name in disk && mode == EFC && kind != 2 {
        return ERR_EXIST, NIL;
      }
      if (kind == 1 && name !in disk) || (kind != 2 && (mode == PRP || mode == MTC)) {
        disk := disk[name := []];
      }
      code, g := 0, nextg;
      os := os[g := OsFile(name, 0)];
      nextg := nextg + 1;
    }

    /** lseek unless the position is -1, and read. */
    method OsRead(g: int, count: nat, offset: int) returns (data: seq<byte>)
      requires g in os && os[g].name in disk && offset >= NIL
      modifies `os
      ensures var pos := if offset == NIL then old(os)[g].pos else offset;
              data == RioBuffer.LoadedBytes(disk[old(os)[g].name], pos, count) && os == old(os)[g := old(os)[g].(pos := pos + |data|)]
    {
      if offset != NIL {
        os := os[g := os[g].(pos := offset)];
      }
      data := RioBuffer.LoadedBytes(disk[os[g].name], os[g].pos, count);
      os := os[g := os[g].(pos := os[g].pos + |data|)];
    }

    /** lseek unless the position is -1, and write. */
    method OsWrite(g: int, data: seq<byte>, offset: int)
      requires g in os && os[g].name in disk && offset >= NIL
      modifies `os, `disk
      ensures var pos := if offset == NIL then old(os)[g].pos else offset;
              && os == old(os)[g := old(os)[g].(pos := pos + |data|)]
              && disk == old(disk)[old(os)[g].name := RioBuffer.Overlay(old(disk)[old(os)[g].name], pos, data)]
    {
      if offset != NIL {
        os := os[g := os[g].(pos := offset)];
      }
      disk := disk[os[g].name := RioBuffer.Overlay(disk[os[g].name], os[g].pos, data)];
      os := os[g := os[g].(pos := os[g].pos + |data|)];
    }

    // --- closing and reopening ------------------------------------------------------------------------------------------------

    /** The choice of a file to close. */
    ghost predicate Best(n: nat, fnum: int)
      requires n <= |ftab|
      reads `ftab, `htabs
    {
      && NIL <= fnum < n
      && (fnum != NIL ==> ftab[fnum] in htabs && Eligible(htabs[ftab[fnum]]))
      && (forall i :: 0 <= i < n && ftab[i] in htabs && Eligible(htabs[ftab[i]]) ==>
            fnum != NIL && htabs[ftab[fnum]].luse <= htabs[ftab[i]].luse)
    }

    /** The search of fioclru(0): the least recently used of the files that may be closed. */
    method FindOldest() returns (fnum: int)
      requires NIL !in htabs && forall i :: 0 <= i < |ftab| && ftab[i] != NIL ==> ftab[i] in htabs
      ensures Best(|ftab|, fnum)
    {
      fnum := NIL;
      var fnum1 := 0;
      while fnum1 < |ftab|
        invariant fnum1 <= |ftab| && Best(fnum1, fnum)
      {
        if ftab[fnum1] != NIL {
          var h1 := htabs[ftab[fnum1]];
          if h1.hndl != NIL && h1.mode <= SHR && !h1.lckflg && h1.locks == [] {
            if fnum == NIL || h1.luse < htabs[ftab[fnum]].luse {
              fnum := fnum1;
            }
          }
        }
        fnum1 := fnum1 + 1;
      }
    }

    /** Close the handle of a file, and give up its locks. */
    method CloseHandle(h: int)
      requires Valid() && h in htabs && htabs[h].hndl != NIL
      modifies `htabs, `os, `opencnt
      ensures Valid() && htabs == old(htabs)[h := old(htabs)[h].(hndl := NIL, lckflg := false, locks := [])]
      ensures opencnt == old(opencnt) - 1
    {
      hide Right;
      RightClosed(ftab, htabs, opencnt, lastuse, os, disk, h);
      os := os - {htabs[h].hndl};
      htabs := htabs[h := htabs[h].(hndl := NIL, lckflg := false, locks := [])];
      opencnt := opencnt - 1;
    }

    /** fioclru(0): close the least recently used file among those that are shared and have no locks. */
    method CloseOldest() returns (rc: int, ghost h: int)
      requires Valid()
      modifies `htabs, `os, `opencnt
      ensures Valid() && (rc == 0 || rc == 1)
      ensures rc == 1 <==> forall k :: k in old(htabs) ==> !Eligible(old(htabs)[k])
      ensures rc == 1 ==> htabs == old(htabs) && os == old(os) && opencnt == old(opencnt)
      ensures rc == 0 ==> h in old(htabs) && Eligible(old(htabs)[h]) && opencnt == old(opencnt) - 1
                          && htabs == old(htabs)[h := old(htabs)[h].(hndl := NIL)]
      ensures rc == 0 ==> forall k :: k in htabs && k != h && Eligible(old(htabs)[k]) ==> old(htabs)[h].luse < old(htabs)[k].luse
    {
      h := NIL;
      TableFacts();
      var fnum := FindOldest();
      if fnum == NIL {
        return 1, NIL;
      }
      h := ftab[fnum];
      assert htabs[h].(hndl := NIL) == htabs[h].(hndl := NIL, lckflg := false, locks := []);
      CloseHandle(ftab[fnum]);
      rc := 0;
    }

    /** Every file has an open number, and the times of use differ. */
    lemma TableFacts()
      requires Valid()
      ensures forall i :: 0 <= i < |ftab| && ftab[i] != NIL ==> ftab[i] in htabs
      ensures forall h :: h in htabs ==> exists i :: 0 <= i < |ftab| && ftab[i] == h
      ensures forall g, h :: g in htabs && h in htabs && g != h ==> htabs[g].luse != htabs[h].luse
      ensures NIL !in htabs
    {
      forall h | h in htabs
        ensures exists i :: 0 <= i < |ftab| && ftab[i] == h
      {
        var i := UsedBy(ftab, h);
      }
    }

    /** fioclru(handle): close the file behind an open number, whatever its mode and its locks. */
    method CloseGiven(fnum: int) returns (rc: int)
      requires Valid() && fnum > 0
      modifies `htabs, `os, `opencnt
      ensures Valid()
      ensures rc == if IsOpen(fnum) && ftab[fnum - 1] in old(htabs) && old(htabs)[ftab[fnum - 1]].hndl != NIL then 0 else 1
      ensures rc == 1 ==> htabs == old(htabs) && os == old(os)
      ensures rc == 0 ==> var h := ftab[fnum - 1]; htabs == old(htabs)[h := old(htabs)[h].(hndl := NIL, lckflg := false, locks := [])]
    {
      TableFacts();
      if fnum > |ftab| || ftab[fnum - 1] == NIL || htabs[ftab[fnum - 1]].hndl == NIL {
        return 1;
      }
      CloseHandle(ftab[fnum - 1]);
      rc := 0;
    }

    /** Close files while too many are open. */
    method MakeRoom()
      requires Valid()
      modifies `htabs, `os, `opencnt
      ensures Valid() && Idled(old(htabs), htabs)
      ensures opencnt < openlimit || forall k :: k in htabs ==> !Eligible(htabs[k])
    {
      hide Right;
      var rc := 0;
      while opencnt >= openlimit && rc == 0
        invariant Valid() && Idled(old(htabs), htabs)
        invariant rc != 0 ==> forall k :: k in htabs ==> !Eligible(htabs[k])
        decreases opencnt, if rc == 0 then 1 else 0
      {
        ghost var b, h := htabs, NIL;
        rc, h := CloseOldest();
        if rc == 0 {
          IdledOne(b, h);
          IdledMore(old(htabs), b, htabs);
        }
      }
    }

    /** Open the handle of a file again, if the operating system lets us. */
    method TryOpen(h: int) returns (code: int)
      requires Valid() && h in htabs && htabs[h].hndl == NIL
      modifies `htabs, `os, `opencnt, `disk, `nextg
      ensures Valid() && disk == old(disk) && (code == 0 || code == ERR_EXCMF)
      ensures code == 0 ==> htabs[h := old(htabs)[h]] == old(htabs) && h in htabs && htabs[h].hndl != NIL
                            && htabs[h] == old(htabs)[h].(hndl := htabs[h].hndl, npos := 0)
      ensures code != 0 ==> htabs == old(htabs) && os == old(os) && opencnt == old(opencnt) && |os.Keys| >= oslimit
    {
      hide Right, SameFiles;
      ghost var os0, htabs0 := os, htabs;
      FileFacts(ftab, htabs, opencnt, lastuse, os, disk, h);
      var g;
      code, g := OsOpen(htabs[h].fnam, htabs[h].mode, 2);
      if code == 0 {
        RightReopened(ftab, htabs, opencnt, lastuse, os0, disk, h, g);
        opencnt := opencnt + 1;
        htabs := htabs[h := htabs[h].(hndl := g, npos := 0)];
        assert htabs[h := htabs0[h]] == htabs0;
      }
    }

    /** Open the handle of a file again, closing others if need be. It fails only when no file can be closed. */
    method OpenHandle(h: int) returns (code: int)
      requires Valid() && h in htabs && htabs[h].hndl == NIL
      modifies `htabs, `os, `opencnt, `disk, `nextg
      ensures Valid() && disk == old(disk) && (code == 0 || code == ERR_EXCMF)
      ensures h in htabs && Idled(old(htabs), htabs[h := old(htabs)[h]])
      ensures code == 0 ==> htabs[h].hndl != NIL && htabs[h] == old(htabs)[h].(hndl := htabs[h].hndl, npos := 0)
      ensures code != 0 ==> htabs[h] == old(htabs)[h] && |os.Keys| >= oslimit && forall k :: k in htabs ==> !Eligible(htabs[k])
    {
      hide Right;
      MakeRoom();
      var rc := 0;
      ghost var b := htabs;
      assert htabs[h := htabs[h]] == htabs;
      code := TryOpen(h);
      while code == ERR_EXCMF && rc == 0
        invariant Valid() && disk == old(disk) && (code == 0 || code == ERR_EXCMF)
        invariant h in htabs && Idled(old(htabs), htabs[h := old(htabs)[h]])
        invariant code == 0 ==> htabs[h].hndl != NIL && htabs[h] == old(htabs)[h].(hndl := htabs[h].hndl, npos := 0)
        invariant code != 0 ==> htabs[h] == old(htabs)[h] && |os.Keys| >= oslimit
        invariant rc != 0 ==> forall k :: k in htabs ==> !Eligible(htabs[k])
        decreases if code == ERR_EXCMF && rc == 0 then opencnt + 1 else 0
      {
        b := htabs;
        ghost var k;
        rc, k := CloseOldest();
        if rc == 0 {
          assert b[h := old(htabs)[h]] == b;
          IdledOne(b, k);
          assert htabs == b[k := b[k].(hndl := NIL, lckflg := false, locks := [])];
          IdledMore(old(htabs), b, htabs);
          assert htabs[h := htabs[h]] == htabs;
          code := TryOpen(h);
        }
      }
    }

    /** What an open number stands for. */
    lemma NumberFacts(fnum: int)
      requires Valid() && IsOpen(fnum)
      ensures ftab[fnum - 1] in htabs && Known(File(fnum), os, disk)
    {
    }

    /** fiotouch: the file is now the one used last, and its handle is open. */
    method Touch(fnum: int) returns (code: int)
      requires Valid()
      modifies `htabs, `os, `opencnt, `lastuse, `disk, `nextg
      ensures Valid() && disk == old(disk) && (code == 0 || code == ERR_NOTOP || code == ERR_EXCMF)
      ensures code == ERR_NOTOP <==> !IsOpen(fnum)
      ensures code == ERR_NOTOP ==> htabs == old(htabs) && os == old(os)
      ensures IsOpen(fnum) ==> var h := ftab[fnum - 1];
                && h in old(htabs) && h in htabs && Idled(old(htabs), htabs[h := old(htabs)[h]])
                && htabs[h].luse == lastuse
                && SameFile(old(htabs)[h], htabs[h])
      ensures code == 0 ==> File(fnum).hndl != NIL
      ensures code == ERR_EXCMF ==> |os.Keys| >= oslimit && forall k :: k in htabs ==> !Eligible(htabs[k])
    {
      hide Right, Idled;
      if fnum < 1 || fnum > |ftab| || ftab[fnum - 1] == NIL {
        return ERR_NOTOP;
      }
      NumberFacts(fnum);
      var h := ftab[fnum - 1];
      ghost var a := htabs;
      RightUsed(ftab, htabs, opencnt, lastuse, os, disk, h);
      lastuse := lastuse + 1;
      htabs := htabs[h := htabs[h].(luse := lastuse)];
      ghost var b := htabs;
      assert b[h := a[h]] == a;
      IdledNone(a);
      if htabs[h].hndl != NIL {
        return 0;
      }
      code := OpenHandle(h);
      IdledUsed(a, b, htabs, h);
    }

    // --- reading and writing ---------------------------------------------------------------------------------------------------

    /** fioread: the bytes of the plain file at this position, as far as it goes. */
    method Read(fnum: int, fpos: nat, count: nat) returns (code: int, data: seq<byte>)
      requires Valid()
      modifies `htabs, `os, `opencnt, `lastuse, `disk, `nextg
      ensures Valid() && disk == old(disk) && Kept(old(htabs), htabs)
      ensures SizesTrue(old(htabs), old(disk)) ==> SizesTrue(htabs, disk)
      ensures code == ERR_NOTOP <==> count > 0 && !IsOpen(fnum)
      ensures code == ERR_EXCMF ==> |os.Keys| >= oslimit && forall k :: k in htabs ==> !Eligible(htabs[k])
      ensures code != ERR_NOTOP && code != ERR_EXCMF ==> code == |data| <= count
      ensures code >= 0 && IsOpen(fnum) ==> ftab[fnum - 1] in htabs && File(fnum).fnam in disk
                                            && data == RioBuffer.LoadedBytes(disk[File(fnum).fnam], fpos, count)
    {
      hide Right, Idled, Kept, RioBuffer.LoadedBytes, SizesTrue;
      KeptNone(htabs);
      data := [];
      if count == 0 {
        if IsOpen(fnum) {
          NumberFacts(fnum);
        }
        PartNone(disk, fpos);
        return 0, [];
      }
      code := Touch(fnum);
      if IsOpen(fnum) {
        KeptIdled(old(htabs), htabs, ftab[fnum - 1]);
        SizesTouched(old(htabs), htabs, ftab[fnum - 1], disk);
      }
      if code != 0 {
        return;
      }
      NumberFacts(fnum);
      var h := ftab[fnum - 1];
      var pos := if fpos == htabs[h].npos then NIL else fpos;
      ghost var os0 := os;
      data := OsRead(htabs[h].hndl, count, pos);
      PartBounds(disk[htabs[h].fnam], fpos, count);
      var npos, fsiz := NIL, htabs[h].fsiz;
      if |data| > 0 {
        npos := fpos + |data|;
        if npos > fsiz && fsiz != NIL {
          fsiz := npos;
        }
      }
      assert disk[htabs[h].fnam := disk[htabs[h].fnam]] == disk;
      RightMoved(ftab, htabs, opencnt, lastuse, os0, disk, h, fpos + |data|, npos, fsiz, disk[htabs[h].fnam]);
      KeptMoved(old(htabs), htabs, h, npos, fsiz);
      SizesMoved(ftab, htabs, opencnt, lastuse, os0, disk, h, npos, htabs[h].fsiz, disk[htabs[h].fnam]);
      htabs := htabs[h := htabs[h].(npos := npos, fsiz := fsiz)];
      code := |data|;
    }

    /** fiowrite: the plain file with these bytes at this position. */
    method Write(fnum: int, fpos: nat, data: seq<byte>) returns (code: int)
      requires Valid()
      modifies `htabs, `os, `opencnt, `lastuse, `disk, `nextg
      ensures Valid() && Kept(old(htabs), htabs)
      ensures SizesTrue(old(htabs), old(disk)) ==> SizesTrue(htabs, disk)
      ensures code in {0, ERR_NOTOP, ERR_EXCMF, ERR_RONLY}
      ensures code == ERR_NOTOP <==> data != [] && !IsOpen(fnum)
      ensures code == ERR_EXCMF ==> |os.Keys| >= oslimit && forall k :: k in htabs ==> !Eligible(htabs[k])
      ensures code == ERR_RONLY ==> data != [] && IsOpen(fnum) && ftab[fnum - 1] in htabs && ReadOnly(File(fnum).mode)
      ensures code != 0 || data == [] ==> disk == old(disk)
      ensures code == 0 && data != [] ==>
                && IsOpen(fnum) && ftab[fnum - 1] in htabs && !ReadOnly(File(fnum).mode) && File(fnum).fnam in old(disk)
                && disk == old(disk)[File(fnum).fnam := RioBuffer.Overlay(old(disk)[File(fnum).fnam], fpos, data)]
    {
      hide Right, Idled, Kept, SizesTrue;
      KeptNone(htabs);
      if data == [] {
        return 0;
      }
      code := Touch(fnum);
      if IsOpen(fnum) {
        KeptIdled(old(htabs), htabs, ftab[fnum - 1]);
        SizesTouched(old(htabs), htabs, ftab[fnum - 1], disk);
      }
      if code != 0 {
        return;
      }
      NumberFacts(fnum);
      var h := ftab[fnum - 1];
      if htabs[h].mode == SRO || htabs[h].mode == SRA || htabs[h].mode == ERO {
        return ERR_RONLY;
      }
      var pos := if fpos == htabs[h].npos then NIL else fpos;
      ghost var os0, disk0 := os, disk;
      OsWrite(htabs[h].hndl, data, pos);
      var npos, fsiz := fpos + |data|, htabs[h].fsiz;
      if npos > fsiz && fsiz != NIL {
        fsiz := npos;
      }
      RightMoved(ftab, htabs, opencnt, lastuse, os0, disk0, h, npos, npos, fsiz, disk[htabs[h].fnam]);
      KeptMoved(old(htabs), htabs, h, npos, fsiz);
      SizesMoved(ftab, htabs, opencnt, lastuse, os0, disk0, h, npos, fsiz, disk[htabs[h].fnam]);
      htabs := htabs[h := htabs[h].(npos := npos, fsiz := fsiz)];
    }

    /** fiogetsize: the size of the plain file, though for a file that others may write and we only read, the size found first. */
    method GetSize(fnum: int) returns (code: int, size: int)
      requires Valid()
      modifies `htabs, `os, `opencnt, `lastuse, `disk, `nextg
      ensures Valid() && disk == old(disk) && Kept(old(htabs), htabs)
      ensures SizesTrue(old(htabs), old(disk)) ==> SizesTrue(htabs, disk)
      ensures code in {0, ERR_NOTOP, ERR_EXCMF} && (code == ERR_NOTOP <==> !IsOpen(fnum))
      ensures code == ERR_EXCMF ==> |os.Keys| >= oslimit && forall k :: k in htabs ==> !Eligible(htabs[k])
      ensures code == 0 ==> ftab[fnum - 1] in htabs && ftab[fnum - 1] in old(htabs) && File(fnum).fnam in disk
                            && (if File(fnum).mode >= SHR || old(htabs)[ftab[fnum - 1]].fsiz == NIL
                                then size == |disk[File(fnum).fnam]| else size == old(htabs)[ftab[fnum - 1]].fsiz)
    {
      hide Right, Idled, Kept, SizesTrue;
      KeptNone(htabs);
      size := 0;
      if !IsOpen(fnum) {
        return ERR_NOTOP, 0;
      }
      NumberFacts(fnum);
      var h := ftab[fnum - 1];
      if htabs[h].mode == SHR || htabs[h].fsiz == NIL {
        code := Touch(fnum);
        KeptIdled(old(htabs), htabs, h);
        SizesTouched(old(htabs), htabs, h, disk);
        if code != 0 {
          return;
        }
        NumberFacts(fnum);
        var npos := |disk[htabs[h].fnam]|;
        assert disk[htabs[h].fnam := disk[htabs[h].fnam]] == disk;
        RightMoved(ftab, htabs, opencnt, lastuse, os, disk, h, npos, npos, npos, disk[htabs[h].fnam]);
        KeptMoved(old(htabs), htabs, h, npos, npos);
        SizesMoved(ftab, htabs, opencnt, lastuse, os, disk, h, npos, npos, disk[htabs[h].fnam]);
        os := os[htabs[h].hndl := os[htabs[h].hndl].(pos := npos)];
        htabs := htabs[h := htabs[h].(npos := npos, fsiz := npos)];
      }
      size := htabs[h].fsiz;
      code := 0;
    }

    /** fiotrunc: the plain file with this size. */
    method Trunc(fnum: int, size: nat) returns (code: int)
      requires Valid()
      modifies `htabs, `os, `opencnt, `lastuse, `disk, `nextg
      ensures Valid() && Kept(old(htabs), htabs)
      ensures SizesTrue(old(htabs), old(disk)) ==> SizesTrue(htabs, disk)
      ensures code in {0, ERR_NOTOP, ERR_EXCMF, ERR_OPERR} && (code == ERR_NOTOP <==> !IsOpen(fnum))
      ensures code == ERR_OPERR ==> ftab[fnum - 1] in htabs && ReadOnly(File(fnum).mode)
      ensures code == ERR_EXCMF ==> |os.Keys| >= oslimit && forall k :: k in htabs ==> !Eligible(htabs[k])
      ensures code != 0 ==> disk == old(disk)
      ensures code == 0 ==> && ftab[fnum - 1] in htabs && File(fnum).fnam in old(disk) && !ReadOnly(File(fnum).mode)
                            && disk == old(disk)[File(fnum).fnam := Cut(old(disk)[File(fnum).fnam], size)]
    {
      hide Right, Idled, Kept, SizesTrue;
      KeptNone(htabs);
      code := Touch(fnum);
      if IsOpen(fnum) {
        KeptIdled(old(htabs), htabs, ftab[fnum - 1]);
        SizesTouched(old(htabs), htabs, ftab[fnum - 1], disk);
      }
      if code != 0 {
        return;
      }
      NumberFacts(fnum);
      var h := ftab[fnum - 1];
      if htabs[h].mode == SRO || htabs[h].mode == SRA || htabs[h].mode == ERO {
        assert disk[htabs[h].fnam := disk[htabs[h].fnam]] == disk && os[htabs[h].hndl := os[htabs[h].hndl].(pos := os[htabs[h].hndl].pos)] == os;
        RightMoved(ftab, htabs, opencnt, lastuse, os, disk, h, os[htabs[h].hndl].pos, NIL, htabs[h].fsiz, disk[htabs[h].fnam]);
        KeptMoved(old(htabs), htabs, h, NIL, htabs[h].fsiz);
        SizesMoved(ftab, htabs, opencnt, lastuse, os, disk, h, NIL, htabs[h].fsiz, disk[htabs[h].fnam]);
        htabs := htabs[h := htabs[h].(npos := NIL)];
        return ERR_OPERR;
      }
      var bytes := Cut(disk[htabs[h].fnam], size);
      RightMoved(ftab, htabs, opencnt, lastuse, os, disk, h, size, size, size, bytes);
      KeptMoved(old(htabs), htabs, h, size, size);
      SizesMoved(ftab, htabs, opencnt, lastuse, os, disk, h, size, size, bytes);
      disk := disk[htabs[h].fnam := bytes];
      os := os[htabs[h].hndl := os[htabs[h].hndl].(pos := size)];
      htabs := htabs[h := htabs[h].(npos := size, fsiz := size)];
    }

    /** Another program changes a file that no open number holds exclusively. */
    method OtherProgram(name: string, bytes: seq<byte>)
      requires Valid() && forall h :: h in htabs && htabs[h].fnam == name ==> htabs[h].mode <= SHR
      modifies `disk
      ensures Valid() && disk == old(disk)[name := bytes]
    {
      RightElsewhere(ftab, htabs, opencnt, lastuse, os, disk, name, bytes);
      disk := disk[name := bytes];
    }

    // --- closing ---------------------------------------------------------------------------------------------------------------

    /** fioclose: the open number stands for nothing any more, its locks are gone, and so is the file's handle with its last open
        number. The others are as they were. */
    method Close(fnum: int) returns (code: int)
      requires Valid()
      modifies `ftab, `htabs, `os, `opencnt
      ensures Valid() && code == if old(IsOpen(fnum)) then 0 else ERR_NOTOP
      ensures code != 0 ==> ftab == old(ftab) && htabs == old(htabs) && os == old(os)
      ensures code == 0 ==> var h := old(ftab)[fnum - 1]; var locks := Staying(old(htabs)[h].locks, fnum - 1, -1);
                && ftab == Emptied(old(ftab), fnum - 1) && h in old(htabs) && old(htabs)[h].opct > 0
                && htabs == (if old(htabs)[h].opct > 1 then old(htabs)[h := old(htabs)[h].(opct := old(htabs)[h].opct - 1, locks := locks)]
                             else old(htabs) - {h})
    {
      hide Right, LocksOk, Emptied, Staying;
      if fnum < 1 || fnum > |ftab| || ftab[fnum - 1] == NIL {
        return ERR_NOTOP;
      }
      NumberFacts(fnum);
      UsersFacts(ftab, htabs, opencnt, lastuse, os, disk, fnum - 1);
      if htabs[ftab[fnum - 1]].opct == 1 {
        CloseLast(fnum);
      } else {
        CloseOne(fnum);
      }
      code := 0;
    }

    /** Close an open number of a file that has others. */
    method CloseOne(fnum: int)
      requires Valid() && IsOpen(fnum) && ftab[fnum - 1] in htabs && File(fnum).opct > 1
      modifies `ftab, `htabs
      ensures Valid() && ftab == Emptied(old(ftab), fnum - 1)
      ensures var h := old(ftab)[fnum - 1];
              htabs == old(htabs)[h := old(htabs)[h].(opct := old(htabs)[h].opct - 1, locks := Staying(old(htabs)[h].locks, fnum - 1, -1))]
    {
      hide Right, LocksOk, Emptied, Staying;
      var h := ftab[fnum - 1];
      ghost var t := htabs;
      var locks := Staying(htabs[h].locks, fnum - 1, -1);
      NumberFacts(fnum);
      StayingOnce(htabs[h].locks, fnum - 1, -1);
      StayingSome(htabs[h].locks, fnum - 1);
      RightUnshared(ftab, htabs, opencnt, lastuse, os, disk, fnum - 1, locks);
      htabs := htabs[h := htabs[h].(opct := htabs[h].opct - 1, locks := locks)];
      LocksClosed(ftab, t, htabs, fnum - 1, h);
      EmptiedIs(ftab, fnum - 1);
      ftab := if fnum == |ftab| then ftab[..fnum - 1] else ftab[fnum - 1 := NIL];
    }

    /** Close the last open number of a file. */
    method CloseLast(fnum: int)
      requires Valid() && IsOpen(fnum) && ftab[fnum - 1] in htabs && File(fnum).opct == 1
      modifies `ftab, `htabs, `os, `opencnt
      ensures Valid() && ftab == Emptied(old(ftab), fnum - 1) && htabs == old(htabs) - {old(ftab)[fnum - 1]}
    {
      hide Right, LocksOk, Emptied, Staying;
      var h := ftab[fnum - 1];
      ghost var t := htabs;
      NoLocksLeft(ftab, htabs, opencnt, lastuse, os, disk, fnum - 1);
      if htabs[h].hndl != NIL {
        CloseHandle(h);
      }
      RightGone(ftab, htabs, opencnt, lastuse, os, disk, fnum - 1);
      assert htabs - {h} == t - {h};
      htabs := htabs - {h};
      LocksClosed(ftab, t, htabs, fnum - 1, h);
      EmptiedIs(ftab, fnum - 1);
      ftab := if fnum == |ftab| then ftab[..fnum - 1] else ftab[fnum - 1 := NIL];
    }

    // --- opening ---------------------------------------------------------------------------------------------------------------

    /** A place for an open number: the first that is not in use. */
    method FindSlot() returns (fnum: nat)
      ensures fnum <= |ftab| && (fnum < |ftab| ==> ftab[fnum] == NIL) && forall i :: 0 <= i < fnum ==> ftab[i] != NIL
    {
      fnum := 0;
      while fnum < |ftab| && ftab[fnum] != NIL
        invariant fnum <= |ftab| && forall i :: 0 <= i < fnum ==> ftab[i] != NIL
      {
        fnum := fnum + 1;
      }
    }

    /** Look for an open number of a file. */
    method FindName(name: string) returns (i1: int)
      requires Valid()
      ensures NIL <= i1 < |ftab|
      ensures i1 != NIL ==> ftab[i1] in htabs && htabs[ftab[i1]].fnam == name
      ensures i1 == NIL ==> forall h :: h in htabs ==> htabs[h].fnam != name
    {
      TableFacts();
      hide Right;
      i1 := 0;
      while i1 < |ftab|
        invariant 0 <= i1 <= |ftab|
        invariant forall i :: 0 <= i < i1 && ftab[i] != NIL ==> htabs[ftab[i]].fnam != name
      {
        if ftab[i1] != NIL && htabs[ftab[i1]].fnam == name {
          return;
        }
        i1 := i1 + 1;
      }
      i1 := NIL;
    }

    /** Open a file that is not open, if the operating system lets us, and give it a record. */
    method TryNew(name: string, mode: int, kind: int, i: nat) returns (code: int)
      requires Valid() && SRO <= mode <= EFC && 0 <= kind <= 1 && (kind == 1 ==> mode >= PRP)
      requires i <= |ftab| && (i < |ftab| ==> ftab[i] == NIL) && forall h :: h in htabs ==> htabs[h].fnam != name
      modifies this
      ensures Valid() && code in {0, ERR_EXCMF, ERR_FNOTF, ERR_EXIST}
      ensures code == ERR_EXCMF ==> |os.Keys| >= oslimit
      ensures code == ERR_FNOTF ==> name !in disk && kind == 0
      ensures code == ERR_EXIST ==> name in disk && mode == EFC
      ensures code != 0 ==> ftab == old(ftab) && htabs == old(htabs) && disk == old(disk) && opencnt == old(opencnt) && nexth == old(nexth)
      ensures code == 0 ==> && name in disk && disk == AfterOpen(old(disk), name, mode, kind) && (kind == 0 ==> name in old(disk) && mode != EFC)
                            && old(nexth) !in old(htabs) && old(nexth) in htabs && ftab == Filled(old(ftab), i, old(nexth))
                            && NewFile(htabs[old(nexth)], name, mode) && htabs - {old(nexth)} == old(htabs)
    {
      hide Right, LocksOk, Filled;
      ghost var os0, disk0 := os, disk;
      OsFacts(ftab, htabs, opencnt, lastuse, os, disk);
      var g;
      code, g := OsOpen(name, mode, kind);
      if code != 0 {
        return;
      }
      RightElsewhere(ftab, htabs, opencnt, lastuse, os0, disk0, name, disk[name]);
      assert disk == disk0 || disk == disk0[name := disk[name]];
      AddFile(name, mode, g, i, os0);
    }

    /** Make the record of a file that the operating system has opened, and its open number. */
    method AddFile(name: string, mode: int, g: int, i: nat, ghost os0: map<int, OsFile>)
      requires Right(ftab, htabs, opencnt, lastuse, os0, disk) && LocksOk(ftab, htabs) && (forall h :: h in htabs ==> h < nexth)
      requires g !in os0 && g != NIL && os == os0[g := OsFile(name, 0)] && (forall k :: k in os ==> k < nextg) && name in disk
      requires SRO <= mode <= EFC && i <= |ftab| && (i < |ftab| ==> ftab[i] == NIL) && forall h :: h in htabs ==> htabs[h].fnam != name
      modifies `ftab, `htabs, `nexth, `opencnt, `lastuse
      ensures Valid() && old(nexth) !in old(htabs) && old(nexth) in htabs && ftab == Filled(old(ftab), i, old(nexth))
      ensures NewFile(htabs[old(nexth)], name, mode) && htabs - {old(nexth)} == old(htabs)
    {
      hide Right, LocksOk, Filled;
      ghost var t := htabs;
      OsFacts(ftab, htabs, opencnt, lastuse, os0, disk);
      var h := nexth;
      RightOpened(ftab, htabs, opencnt, lastuse, os0, disk, h, i, name, mode, g);
      LocksOpened(ftab, htabs, i, h, HTab(name, mode, g, 1, false, -1, 0, lastuse + 1, []));
      FilledIs(ftab, i, h);
      lastuse := lastuse + 1;
      opencnt := opencnt + 1;
      nexth := nexth + 1;
      htabs := htabs[h := HTab(name, mode, g, 1, false, -1, 0, lastuse, [])];
      assert htabs - {h} == t;
      if i < |ftab| {
        ftab := ftab[i := h];
      } else {
        ftab := ftab + [h];
      }
    }

    /** Open a file that is not open, closing others if need be. */
    method OpenNew(name: string, mode: int, kind: int, i: nat) returns (code: int)
      requires Valid() && SRO <= mode <= EFC && 0 <= kind <= 1 && (kind == 1 ==> mode >= PRP)
      requires i <= |ftab| && (i < |ftab| ==> ftab[i] == NIL) && forall h :: h in htabs ==> htabs[h].fnam != name
      modifies this
      ensures Valid() && code in {0, ERR_EXCMF, ERR_FNOTF, ERR_EXIST}
      ensures code == ERR_EXCMF ==> |os.Keys| >= oslimit && forall k :: k in htabs ==> !Eligible(htabs[k])
      ensures code == ERR_FNOTF ==> name !in disk && kind == 0
      ensures code == ERR_EXIST ==> name in disk && mode == EFC
      ensures code != 0 ==> ftab == old(ftab) && Idled(old(htabs), htabs) && disk == old(disk) && nexth == old(nexth)
      ensures code == 0 ==> && name in disk && disk == AfterOpen(old(disk), name, mode, kind) && (kind == 0 ==> name in old(disk) && mode != EFC)
                            && old(nexth) !in old(htabs) && old(nexth) in htabs && ftab == Filled(old(ftab), i, old(nexth))
                            && NewFile(htabs[old(nexth)], name, mode) && Idled(old(htabs), htabs - {old(nexth)})
    {
      hide Right, LocksOk, Filled;
      var rc := 0;
      IdledNone(htabs);
      code := TryNew(name, mode, kind, i);
      while code == ERR_EXCMF && rc == 0
        invariant Valid() && code in {0, ERR_EXCMF, ERR_FNOTF, ERR_EXIST}
        invariant code == ERR_EXCMF ==> |os.Keys| >= oslimit
        invariant code == ERR_FNOTF ==> name !in disk && kind == 0
        invariant code == ERR_EXIST ==> name in disk && mode == EFC
        invariant code != 0 ==> ftab == old(ftab) && Idled(old(htabs), htabs) && disk == old(disk) && nexth == old(nexth)
        invariant code == 0 ==> && name in disk && disk == AfterOpen(old(disk), name, mode, kind) && (kind == 0 ==> name in old(disk) && mode != EFC)
                                && old(nexth) !in old(htabs) && old(nexth) in htabs && ftab == Filled(old(ftab), i, old(nexth))
                                && NewFile(htabs[old(nexth)], name, mode) && Idled(old(htabs), htabs - {old(nexth)})
        invariant rc != 0 ==> forall k :: k in htabs ==> !Eligible(htabs[k])
        decreases if code == ERR_EXCMF && rc == 0 then opencnt + 1 else 0
      {
        ghost var b, k := htabs, NIL;
        rc, k := CloseOldest();
        if rc == 0 {
          IdledOne(b, k);
          assert htabs == b[k := b[k].(hndl := NIL, lckflg := false, locks := [])];
          IdledMore(old(htabs), b, htabs);
          IdledNames(old(htabs), htabs, name);
          code := TryNew(name, mode, kind, i);
        }
      }
    }

    /** fioxop: share a file that is open already, or open it. */
    method OpenPath(create: int, name: string, mode: int, i: nat) returns (code: int)
      requires Valid() && SRO <= mode <= EFC && 0 <= create <= 1 && (create == 1 ==> mode >= PRP)
      requires i <= |ftab| && (i < |ftab| ==> ftab[i] == NIL)
      modifies this
      ensures Valid() && code in {0, ERR_NOACC, ERR_EXCMF, ERR_FNOTF, ERR_EXIST}
      ensures code != 0 ==> ftab == old(ftab) && Idled(old(htabs), htabs) && disk == old(disk)
      ensures code == ERR_EXCMF ==> |os.Keys| >= oslimit && forall k :: k in htabs ==> !Eligible(htabs[k])
      ensures code == ERR_FNOTF ==> name !in disk && create == 0 && !NameOpen(old(htabs), name)
      ensures code == ERR_EXIST ==> name in disk && mode == EFC && !NameOpen(old(htabs), name)
      ensures code == ERR_NOACC ==> exists h :: h in old(htabs) && old(htabs)[h].fnam == name && !MayShare(mode, old(htabs)[h].mode)
      ensures code == 0 ==> OpenedAs(old(ftab), old(htabs), old(disk), ftab, htabs, disk, i, name, mode, create)
    {
      hide Right, LocksOk, Filled, Idled, OpenedAs;
      MakeRoom();
      ghost var b := htabs;
      var i1 := FindName(name);
      IdledNamesBack(old(htabs), b, name);
      if i1 != NIL {
        var h := ftab[i1];
        IdledAt(old(htabs), b, h);
        if !MayShare(mode, htabs[h].mode) {
          return ERR_NOACC;
        }
        OsFacts(ftab, htabs, opencnt, lastuse, os, disk);
        ShareFile(h, i);
        SharedAs(old(ftab), old(htabs), b, disk, ftab, htabs, i, h, name, mode, create);
        return 0;
      }
      code := OpenNew(name, mode, create, i);
      if code == 0 {
        IdledMore(old(htabs), b, htabs - {old(nexth)});
        NewAs(old(ftab), old(htabs), old(disk), ftab, htabs, disk, i, old(nexth), name, mode, create);
      } else {
        IdledMore(old(htabs), b, htabs);
      }
    }

    /** One more open number for a file. */
    method ShareFile(h: int, i: nat)
      requires Valid() && h in htabs && i <= |ftab| && (i < |ftab| ==> ftab[i] == NIL)
      modifies `ftab, `htabs
      ensures Valid() && ftab == Filled(old(ftab), i, h) && htabs == old(htabs)[h := old(htabs)[h].(opct := old(htabs)[h].opct + 1)]
    {
      hide Right, LocksOk, Filled;
      RightShared(ftab, htabs, opencnt, lastuse, os, disk, h, i);
      OsFacts(ftab, htabs, opencnt, lastuse, os, disk);
      LocksOpened(ftab, htabs, i, h, htabs[h].(opct := htabs[h].opct + 1));
      FilledIs(ftab, i, h);
      htabs := htabs[h := htabs[h].(opct := htabs[h].opct + 1)];
      if i < |ftab| {
        ftab := ftab[i := h];
      } else {
        ftab := ftab + [h];
      }
    }

    /** fioopen: a new open number for the file, which is created when it does not exist and the mode asks for that. A file that
        is open already is shared or refused. */
    method Open(name: string, mode: int) returns (code: int)
      requires Valid()
      modifies this
      ensures Valid()
      ensures code == ERR_INVAR <==> mode < SRO || mode > EFC
      ensures code == ERR_BADNM <==> SRO <= mode <= EFC && name == ""
      ensures code <= 0 ==> ftab == old(ftab) && Idled(old(htabs), htabs) && disk == old(disk)
      ensures code == ERR_EXCMF ==> |os.Keys| >= oslimit && forall k :: k in htabs ==> !Eligible(htabs[k])
      ensures code == ERR_FNOTF ==> name !in disk && mode <= MXC && !NameOpen(old(htabs), name)
      ensures code == ERR_EXIST ==> name in disk && mode == EFC && !NameOpen(old(htabs), name)
      ensures code == ERR_NOACC ==> exists h :: h in old(htabs) && old(htabs)[h].fnam == name && !MayShare(mode, old(htabs)[h].mode)
      ensures code <= 0 ==> code in {ERR_INVAR, ERR_BADNM, ERR_EXCMF, ERR_FNOTF, ERR_EXIST, ERR_NOACC}
      ensures code > 0 ==> code - 1 <= |old(ftab)| && !old(IsOpen(code)) && (forall i :: 0 <= i < code - 1 ==> old(ftab)[i] != NIL)
                           && (OpenedAs(old(ftab), old(htabs), old(disk), ftab, htabs, disk, code - 1, name, mode, 0)
                               || (mode > MXC && name !in old(disk)
                                   && OpenedAs(old(ftab), old(htabs), old(disk), ftab, htabs, disk, code - 1, name, mode, 1)))
    {
      hide Right, LocksOk, Filled, Idled, OpenedAs;
      IdledNone(htabs);
      var fnum := FindSlot();
      if mode < SRO || mode > EFC {
        return ERR_INVAR;
      }
      if name == "" {
        return ERR_BADNM;
      }
      ghost var b;
      code := OpenPath(0, name, mode, fnum);
      if code == ERR_FNOTF && mode > MXC {
        b := htabs;
        IdledNamesBack(old(htabs), b, name);
        code := OpenPath(1, name, mode, fnum);
        if code == 0 {
          OpenedAfter(old(ftab), old(htabs), b, old(disk), ftab, htabs, disk, fnum, name, mode);
        } else {
          IdledMore(old(htabs), b, htabs);
        }
      }
      if code == 0 {
        code := fnum + 1;
      }
    }

    // --- position locks --------------------------------------------------------------------------------------------------------

    /** fiolckpos: lock a position of a shared file. A position is locked through one open number only; `granted` is the answer of
        the operating system, which knows the locks of other programs. */
    method LockPos(fnum: int, pos: nat, test: bool, granted: bool) returns (code: int)
      requires Valid()
      modifies `htabs, `os, `opencnt, `lastuse, `disk, `nextg
      ensures Valid() && disk == old(disk) && code in {0, 1, ERR_NOTOP, ERR_LKERR, ERR_EXCMF}
      ensures code == ERR_NOTOP <==> !IsOpen(fnum)
      ensures code == ERR_NOTOP ==> htabs == old(htabs)
      ensures IsOpen(fnum) ==> var h := ftab[fnum - 1];
                && h in old(htabs) && h in htabs && Idled(old(htabs), htabs[h := old(htabs)[h]])
                && LockedAs(old(htabs)[h], htabs[h], PosLock(pos, fnum - 1), test, granted, code)
      ensures code == ERR_EXCMF ==> |os.Keys| >= oslimit && forall k :: k in htabs ==> !Eligible(htabs[k])
    {
      hide Right, Idled, LocksOk;
      if fnum < 1 || fnum > |ftab| || ftab[fnum - 1] == NIL {
        return ERR_NOTOP;
      }
      NumberFacts(fnum);
      IdledNone(htabs);
      var h := ftab[fnum - 1];
      ghost var a := htabs;
      assert a[h := a[h]] == a;
      if htabs[h].mode > SHR {
        return 0;
      }
      var i := 0;
      while i < |htabs[h].locks|
        invariant 0 <= i <= |htabs[h].locks| && forall j :: 0 <= j < i ==> htabs[h].locks[j].pos != pos
      {
        if htabs[h].locks[i].pos == pos {
          if htabs[h].locks[i].filenum == fnum - 1 {
            return 0;
          }
          return if test then 1 else ERR_LKERR;
        }
        i := i + 1;
      }
      code := Touch(fnum);
      if code != 0 {
        return;
      }
      if !granted {
        return 1;
      }
      NumberFacts(fnum);
      ghost var b := htabs;
      var locks := [PosLock(pos, fnum - 1)] + htabs[h].locks;
      RightLocked(ftab, htabs, opencnt, lastuse, os, disk, h, htabs[h].lckflg, locks);
      LocksMore(ftab, htabs, h, pos, fnum - 1);
      htabs := htabs[h := htabs[h].(locks := locks)];
      assert htabs[h := a[h]] == b[h := a[h]];
    }

    /** fioulkpos: release locks of a file. */
    method UnlockPos(fnum: int, pos: int)
      requires Valid() && pos >= -2
      modifies `htabs
      ensures Valid() && (!IsOpen(fnum) ==> htabs == old(htabs))
      ensures IsOpen(fnum) ==> var h := ftab[fnum - 1];
                h in old(htabs) && htabs == old(htabs)[h := old(htabs)[h].(locks := Staying(old(htabs)[h].locks, fnum - 1, pos))]
    {
      hide Right, LocksOk;
      if fnum < 1 || fnum > |ftab| || ftab[fnum - 1] == NIL {
        return;
      }
      NumberFacts(fnum);
      var h := ftab[fnum - 1];
      var all, locks, i := htabs[h].locks, [], 0;
      while i < |all|
        invariant 0 <= i <= |all| && locks == Staying(all[..i], fnum - 1, pos)
      {
        assert all[..i + 1][..i] == all[..i];
        if !(pos == -2 || (all[i].filenum == fnum - 1 && (pos == -1 || pos == all[i].pos))) {
          locks := locks + [all[i]];
        }
        i := i + 1;
      }
      assert all[..i] == all;
      StayingOnce(all, fnum - 1, pos);
      NoneStay(all, fnum - 1, pos);
      RightLocked(ftab, htabs, opencnt, lastuse, os, disk, h, htabs[h].lckflg, locks);
      LocksStaying(ftab, htabs, h, fnum - 1, pos);
      htabs := htabs[h := htabs[h].(locks := locks)];
    }

    /** fioflck: lock a whole shared file, which then stays open. */
    method LockFile(fnum: int, granted: bool) returns (code: int)
      requires Valid()
      modifies `htabs, `os, `opencnt, `lastuse, `disk, `nextg
      ensures Valid() && disk == old(disk) && code in {0, ERR_NOTOP, ERR_LKERR, ERR_EXCMF}
      ensures code == ERR_NOTOP <==> !IsOpen(fnum)
      ensures IsOpen(fnum) ==> var h := ftab[fnum - 1];
                && h in old(htabs) && h in htabs && Idled(old(htabs), htabs[h := old(htabs)[h]])
                && (htabs[h].lckflg <==> old(htabs)[h].lckflg || (code == 0 && htabs[h].mode <= SHR))
                && (htabs[h].lckflg ==> htabs[h].hndl != NIL)
    {
      hide Right, Idled, LocksOk;
      if fnum < 1 || fnum > |ftab| || ftab[fnum - 1] == NIL {
        return ERR_NOTOP;
      }
      NumberFacts(fnum);
      IdledNone(htabs);
      var h := ftab[fnum - 1];
      ghost var a := htabs;
      assert a[h := a[h]] == a;
      if htabs[h].lckflg || htabs[h].mode > SHR {
        return 0;
      }
      code := Touch(fnum);
      if code != 0 {
        return;
      }
      if !granted {
        return ERR_LKERR;
      }
      NumberFacts(fnum);
      ghost var b := htabs;
      RightLocked(ftab, htabs, opencnt, lastuse, os, disk, h, true, htabs[h].locks);
      LocksFlag(ftab, htabs, h);
      htabs := htabs[h := htabs[h].(lckflg := true)];
      assert htabs[h := a[h]] == b[h := a[h]];
    }
  }

  /** What locking a position comes to. */
  predicate LockedAs(a: HTab, b: HTab, l: PosLock, test: bool, granted: bool, code: int) {
    var held := exists j :: 0 <= j < |a.locks| && a.locks[j].pos == l.pos;
    && a.fnam == b.fnam && a.mode == b.mode && a.opct == b.opct && a.lckflg == b.lckflg
    && (if a.mode > SHR then code == 0 && b.locks == a.locks
        else if held then b.locks == a.locks && code == if l in a.locks then 0 else if test then 1 else ERR_LKERR
        else if code == 0 then granted && b.locks == [l] + a.locks && b.hndl != NIL
        else b.locks == a.locks && (code == ERR_EXCMF || (code == 1 && !granted)))
  }

  lemma LocksFlag(ftab: seq<int>, htabs: map<int, HTab>, h: int)
    requires LocksOk(ftab, htabs) && h in htabs
    ensures LocksOk(ftab, htabs[h := htabs[h].(lckflg := true)])
  {
  }

  lemma LocksMore(ftab: seq<int>, htabs: map<int, HTab>, h: int, pos: nat, filenum: nat)
    requires LocksOk(ftab, htabs) && h in htabs && filenum < |ftab| && ftab[filenum] == h
    ensures LocksOk(ftab, htabs[h := htabs[h].(locks := [PosLock(pos, filenum)] + htabs[h].locks)])
  {
    var t := htabs[h := htabs[h].(locks := [PosLock(pos, filenum)] + htabs[h].locks)];
    forall k, j | k in t && 0 <= j < |t[k].locks|
      ensures t[k].locks[j].filenum < |ftab| && ftab[t[k].locks[j].filenum] == k
    {
      assert k != h ==> t[k].locks[j] == htabs[k].locks[j];
      assert k == h && j > 0 ==> t[k].locks[j] == htabs[k].locks[j - 1];
    }
  }

  lemma NoneStay(locks: seq<PosLock>, filenum: int, pos: int)
    ensures Staying(locks, filenum, pos) != [] ==> locks != []
  {
  }

  ghost predicate NameOpen(htabs: map<int, HTab>, name: string) {
    exists h :: h in htabs && htabs[h].fnam == name
  }

  /** The files after one has been opened for the first time. */
  function AfterOpen(disk: Disk, name: string, mode: int, kind: int): Disk {
    if (kind == 1 && name !in disk) || mode == PRP || mode == MTC then disk[name := []] else disk
  }

  predicate NewFile(h: HTab, name: string, mode: int) {
    h.fnam == name && h.mode == mode && h.opct == 1 && !h.lckflg && h.locks == [] && h.hndl != NIL && h.fsiz == NIL
  }

  /** What opening a file comes to: place i of the table stands for it, and a file that was open already is shared, without
      a change to any file. All other files are still open the way they were. */
  ghost predicate OpenedAs(ftab: seq<int>, a: map<int, HTab>, disk: Disk, new_f: seq<int>, b: map<int, HTab>, new_d: Disk,
                           i: nat, name: string, mode: int, create: int)
  {
    && i < |new_f| && i <= |ftab| && new_f[i] != NIL && new_f[i] in b && new_f == Filled(ftab, i, new_f[i]) && b[new_f[i]].fnam == name
    && (forall k :: k in b ==> k in a || k == new_f[i])
    && (forall k :: k in a ==> k in b && (k == new_f[i] || b[k] == a[k] || (Eligible(a[k]) && b[k] == a[k].(hndl := NIL))))
    && (if NameOpen(a, name)
        then new_f[i] in a && a[new_f[i]].fnam == name && MayShare(mode, a[new_f[i]].mode) && new_d == disk
             && b[new_f[i]].mode == a[new_f[i]].mode && b[new_f[i]].opct == a[new_f[i]].opct + 1
             && b[new_f[i]].locks == a[new_f[i]].locks && b[new_f[i]].lckflg == a[new_f[i]].lckflg
             && b[new_f[i]].fsiz == a[new_f[i]].fsiz
        else new_f[i] !in a && NewFile(b[new_f[i]], name, mode) && new_d == AfterOpen(disk, name, mode, create)
             && (create == 0 ==> name in disk && mode != EFC))
  }

  lemma SharedAs(ftab: seq<int>, a: map<int, HTab>, mid: map<int, HTab>, disk: Disk, new_f: seq<int>, b: map<int, HTab>,
                 i: nat, h: int, name: string, mode: int, create: int)
    requires Idled(a, mid) && h in mid && h != NIL && mid[h].fnam == name && MayShare(mode, mid[h].mode) && i <= |ftab|
    requires b == mid[h := mid[h].(opct := mid[h].opct + 1)] && new_f == Filled(ftab, i, h)
    ensures OpenedAs(ftab, a, disk, new_f, b, disk, i, name, mode, create)
  {
    assert h in a && a[h].fnam == name;
    assert new_f[i] == h;
  }

  lemma NewAs(ftab: seq<int>, a: map<int, HTab>, disk: Disk, new_f: seq<int>, b: map<int, HTab>, new_d: Disk,
              i: nat, h: int, name: string, mode: int, create: int)
    requires h in b && h != NIL && Idled(a, b - {h}) && !NameOpen(a, name) && NewFile(b[h], name, mode) && i <= |ftab|
    requires new_f == Filled(ftab, i, h) && new_d == AfterOpen(disk, name, mode, create) && (create == 0 ==> name in disk && mode != EFC)
    ensures OpenedAs(ftab, a, disk, new_f, b, new_d, i, name, mode, create)
  {
    assert new_f[i] == h;
    assert h !in b - {h};
    assert forall k :: k in b && k != h ==> k in b - {h};
    forall k | k in a
      ensures k in b && (b[k] == a[k] || (Eligible(a[k]) && b[k] == a[k].(hndl := NIL)))
    {
      assert k in b - {h};
    }
  }

  /** Opening a file after an attempt that only closed some handles. */
  lemma OpenedAfter(ftab: seq<int>, a: map<int, HTab>, mid: map<int, HTab>, disk: Disk, new_f: seq<int>, b: map<int, HTab>,
                    new_d: Disk, i: nat, name: string, mode: int)
    requires Idled(a, mid) && !NameOpen(a, name) && OpenedAs(ftab, mid, disk, new_f, b, new_d, i, name, mode, 1)
    ensures OpenedAs(ftab, a, disk, new_f, b, new_d, i, name, mode, 1)
  {
    IdledNamesBack(a, mid, name);
  }

  lemma IdledNames(a: map<int, HTab>, b: map<int, HTab>, name: string)
    requires Idled(a, b) && forall h :: h in a ==> a[h].fnam != name
    ensures forall h :: h in b ==> b[h].fnam != name
  {
  }

  lemma IdledNamesBack(a: map<int, HTab>, b: map<int, HTab>, name: string)
    requires Idled(a, b)
    ensures NameOpen(a, name) <==> NameOpen(b, name)
  {
    if NameOpen(a, name) {
      var h :| h in a && a[h].fnam == name;
      assert h in b && b[h].fnam == name;
    }
    if NameOpen(b, name) {
      var h :| h in b && b[h].fnam == name;
      assert h in a && a[h].fnam == name;
    }
  }

  lemma IdledAt(a: map<int, HTab>, b: map<int, HTab>, h: int)
    requires Idled(a, b) && h in b
    ensures h in a && a[h].fnam == b[h].fnam && a[h].mode == b[h].mode && a[h].opct == b[h].opct && a[h].fsiz == b[h].fsiz
  {
  }

  lemma OsFacts(ftab: seq<int>, htabs: map<int, HTab>, opencnt: nat, lastuse: nat, os: map<int, OsFile>, disk: Disk)
    requires Right(ftab, htabs, opencnt, lastuse, os, disk)
    ensures NIL !in os && opencnt == |os.Keys| && NIL !in htabs
  {
  }

  lemma FilledIs(ftab: seq<int>, i: nat, h: int)
    requires i <= |ftab|
    ensures Filled(ftab, i, h) == if i < |ftab| then ftab[i := h] else ftab + [h]
  {
  }

  lemma LocksOpened(ftab: seq<int>, htabs: map<int, HTab>, i: nat, h: int, r: HTab)
    requires LocksOk(ftab, htabs) && i <= |ftab| && (i < |ftab| ==> ftab[i] == NIL) && NIL !in htabs
    requires r.locks == if h in htabs then htabs[h].locks else []
    ensures LocksOk(Filled(ftab, i, h), htabs[h := r])
  {
    var f, t := Filled(ftab, i, h), htabs[h := r];
    forall k, j | k in t && 0 <= j < |t[k].locks|
      ensures t[k].locks[j].filenum < |f| && f[t[k].locks[j].filenum] == k
    {
      assert k in htabs && t[k].locks[j] == htabs[k].locks[j];
    }
  }

  lemma UsersFacts(ftab: seq<int>, htabs: map<int, HTab>, opencnt: nat, lastuse: nat, os: map<int, OsFile>, disk: Disk, i: nat)
    requires Right(ftab, htabs, opencnt, lastuse, os, disk) && i < |ftab| && ftab[i] in htabs
    ensures htabs[ftab[i]].opct > 0
  {
    UsesSome(ftab, i);
  }

  lemma EmptiedIs(ftab: seq<int>, i: nat)
    requires i < |ftab|
    ensures Emptied(ftab, i) == if i + 1 == |ftab| then ftab[..i] else ftab[i := NIL]
  {
  }

  lemma StayingSome(locks: seq<PosLock>, filenum: int)
    ensures Staying(locks, filenum, -1) != [] ==> locks != []
  {
  }

  /** The last open number of a file holds all its locks. */
  lemma NoLocksLeft(ftab: seq<int>, htabs: map<int, HTab>, opencnt: nat, lastuse: nat, os: map<int, OsFile>, disk: Disk, i: nat)
    requires Right(ftab, htabs, opencnt, lastuse, os, disk) && LocksOk(ftab, htabs) && i < |ftab| && ftab[i] in htabs
    requires htabs[ftab[i]].opct == 1
    ensures Staying(htabs[ftab[i]].locks, i, -1) == []
  {
    var h := ftab[i];
    var r := Staying(htabs[h].locks, i, -1);
    if r != [] {
      assert r[0] in r;
      var k :| 0 <= k < |htabs[h].locks| && htabs[h].locks[k] == r[0];
      TwoUses(ftab, i, r[0].filenum);
      assert false;
    }
  }

  lemma {:induction false} TwoUses(ftab: seq<int>, i: nat, j: nat)
    requires i < |ftab| && j < |ftab| && i != j && ftab[i] == ftab[j]
    ensures Uses(ftab, ftab[i]) > 1
  {
    UsesSet(ftab, i, ftab[i] + 1, ftab[i]);
    UsesSome(ftab[i := ftab[i] + 1], j);
  }

  lemma LocksClosed(ftab: seq<int>, t: map<int, HTab>, new_t: map<int, HTab>, i: nat, h: int)
    requires LocksOk(ftab, t) && i < |ftab| && h == ftab[i] && h in t
    requires new_t == t - {h} || (h in new_t && new_t == t[h := new_t[h]] && new_t[h].locks == Staying(t[h].locks, i, -1))
    ensures LocksOk(Emptied(ftab, i), new_t)
  {
    forall k, l | k in new_t && l in new_t[k].locks
      ensures l.filenum != i
    {
      if k != h {
        var n :| 0 <= n < |t[k].locks| && t[k].locks[n] == l;
      }
    }
    LocksEmptied(ftab, t, i, new_t);
  }

  /** The open numbers stand for the same files, opened the same way, with the same locks. */
  ghost predicate Kept(a: map<int, HTab>, b: map<int, HTab>) {
    a.Keys == b.Keys && forall k :: k in a ==>
      a[k].fnam == b[k].fnam && a[k].mode == b[k].mode && a[k].opct == b[k].opct && a[k].lckflg == b[k].lckflg && a[k].locks == b[k].locks
  }

  lemma KeptNone(a: map<int, HTab>)
    ensures Kept(a, a)
  {
  }

  lemma KeptIdled(a: map<int, HTab>, b: map<int, HTab>, h: int)
    requires h in a && h in b && Idled(a, b[h := a[h]]) && SameFile(a[h], b[h])
    ensures Kept(a, b)
  {
    assert forall k :: k in a && k != h ==> b[h := a[h]][k] == b[k];
    assert b[h := a[h]].Keys == b.Keys;
  }

  lemma KeptMoved(a: map<int, HTab>, b: map<int, HTab>, h: int, npos: int, fsiz: int)
    requires Kept(a, b) && h in b
    ensures Kept(a, b[h := b[h].(npos := npos, fsiz := fsiz)])
  {
  }

  lemma SizesTouched(a: map<int, HTab>, b: map<int, HTab>, h: int, disk: Disk)
    requires h in a && h in b && Idled(a, b[h := a[h]]) && SameFile(a[h], b[h])
    ensures SizesTrue(a, disk) ==> SizesTrue(b, disk)
  {
    assert forall k :: k in b && k != h ==> b[h := a[h]][k] == b[k];
    assert b[h := a[h]].Keys == b.Keys;
  }

  lemma SizesMoved(ftab: seq<int>, htabs: map<int, HTab>, opencnt: nat, lastuse: nat, os: map<int, OsFile>, disk: Disk, h: int,
                   npos: int, fsiz: int, bytes: seq<byte>)
    requires Right(ftab, htabs, opencnt, lastuse, os, disk) && h in htabs
    ensures SizesTrue(htabs, disk) && (fsiz == NIL || fsiz == |bytes| || (fsiz == htabs[h].fsiz && bytes == disk[htabs[h].fnam])) ==>
              SizesTrue(htabs[h := htabs[h].(npos := npos, fsiz := fsiz)], disk[htabs[h].fnam := bytes])
  {
    if SizesTrue(htabs, disk) && (fsiz == NIL || fsiz == |bytes| || (fsiz == htabs[h].fsiz && bytes == disk[htabs[h].fnam])) {
      assert Known(htabs[h], os, disk);
      SizesStill(htabs, disk, h, htabs[h].(npos := npos, fsiz := fsiz), bytes);
    }
  }

  lemma SizeAt(htabs: map<int, HTab>, disk: Disk, h: int)
    requires SizesTrue(htabs, disk) && h in htabs && htabs[h].fnam in disk
    ensures htabs[h].fsiz == NIL || htabs[h].fsiz == |disk[htabs[h].fnam]|
  {
  }

  lemma PartNone(disk: Disk, pos: nat)
    ensures forall name :: name in disk ==> RioBuffer.LoadedBytes(disk[name], pos, 0) == []
  {
  }

  lemma PartBounds(d: seq<byte>, pos: nat, n: nat)
    ensures |RioBuffer.LoadedBytes(d, pos, n)| <= n && (|RioBuffer.LoadedBytes(d, pos, n)| == 0 || pos + |RioBuffer.LoadedBytes(d, pos, n)| <= |d|)
  {
  }

  /** The same file, but for its handle, its position and its time of use. */
  predicate SameFile(a: HTab, b: HTab) {
    && a.fnam == b.fnam && a.mode == b.mode && a.opct == b.opct && a.fsiz == b.fsiz && a.lckflg == b.lckflg && a.locks == b.locks
  }

  lemma IdledNone(a: map<int, HTab>)
    ensures Idled(a, a)
  {
  }

  lemma IdledUsed(a: map<int, HTab>, b: map<int, HTab>, c: map<int, HTab>, h: int)
    requires h in a && h in b && b == a[h := b[h]] && h in c && SameFile(a[h], b[h]) && Idled(b, c[h := b[h]])
    ensures Idled(a, c[h := a[h]])
  {
    var x, y := c[h := b[h]], c[h := a[h]];
    assert x.Keys == y.Keys == c.Keys;
    forall n | n in a
      ensures y[n] == a[n] || (Eligible(a[n]) && y[n] == a[n].(hndl := NIL))
    {
      assert n in b && (n != h ==> x[n] == y[n] && b[n] == a[n]);
    }
  }

  lemma FileFacts(ftab: seq<int>, htabs: map<int, HTab>, opencnt: nat, lastuse: nat, os: map<int, OsFile>, disk: Disk, h: int)
    requires Right(ftab, htabs, opencnt, lastuse, os, disk) && h in htabs
    ensures Known(htabs[h], os, disk) && opencnt == |os.Keys|
  {
  }
}

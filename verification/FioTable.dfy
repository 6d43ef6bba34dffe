/** The file table (fio.c): open numbers that share file records, and the operating system's files behind them. */
module FioTable {
  import opened Bytes
  import opened Lists

  const SRO := 1
  const SRA := 2
  const SHR := 3
  const ERO := 4
  const EXC := 5
  const MXC := 6
  const PRP := 7
  const MTC := 8
  const EFC := 9

  /** A position lock, and the open number it was taken through. */
  datatype PosLock = PosLock(pos: nat, filenum: nat)

  /** What the open numbers of one file share. The size and the position are those last known, or -1. */
  datatype HTab = HTab(fnam: string, mode: int, hndl: int, opct: nat, lckflg: bool, fsiz: int, npos: int, luse: nat,
                       locks: seq<PosLock>)

  /** A file that the operating system holds open. */
  datatype OsFile = OsFile(name: string, pos: nat)

  type Disk = map<string, seq<byte>>

  /** How many open numbers use record h. */
  function Uses(ftab: seq<int>, h: int): nat {
    if ftab == [] then 0 else Uses(ftab[..|ftab| - 1], h) + if ftab[|ftab| - 1] == h then 1 else 0
  }

  /** The file may be closed to make room for others. */
  predicate Eligible(h: HTab) {
    h.hndl != NIL && h.mode <= SHR && !h.lckflg && h.locks == []
  }

  predicate OncePos(locks: seq<PosLock>) {
    forall i, j :: 0 <= i < j < |locks| ==> locks[i].pos != locks[j].pos
  }

  /** What is known of a file is true: its handle is open on it, and a known position is that of the handle, and a known size is
      that of the file if no other program can change it. A file with locks is open. */
  predicate Known(h: HTab, os: map<int, OsFile>, disk: Disk) {
    && h.fnam in disk && SRO <= h.mode <= EFC
    && (h.lckflg || h.locks != [] ==> h.hndl != NIL && h.mode <= SHR) && OncePos(h.locks)
    && (h.hndl != NIL ==> h.hndl in os && os[h.hndl].name == h.fnam && (h.npos != NIL ==> h.npos == os[h.hndl].pos))
    && (h.fsiz != NIL && h.mode > SHR ==> h.fsiz == |disk[h.fnam]|)
  }

  /** Every handle that is open is that of a record. */
  ghost predicate Owned(htabs: map<int, HTab>, g: int) {
    exists h :: h in htabs && htabs[h].hndl == g
  }

  ghost predicate AllOwned(htabs: map<int, HTab>, os: map<int, OsFile>) {
    NIL !in os && forall g :: g in os ==> Owned(htabs, g)
  }

  /** Each record is used, as often as it says, and the records of different files have nothing in common. */
  ghost predicate Shared(ftab: seq<int>, htabs: map<int, HTab>) {
    && (forall i :: 0 <= i < |ftab| && ftab[i] != NIL ==> ftab[i] in htabs)
    && NIL !in htabs
    && (forall h :: h in htabs ==> htabs[h].opct == Uses(ftab, h) > 0)
  }

  ghost predicate Apart(htabs: map<int, HTab>) {
    forall g, h :: g in htabs && h in htabs && g != h ==>
      && htabs[g].fnam != htabs[h].fnam && htabs[g].luse != htabs[h].luse
      && (htabs[g].hndl == NIL || htabs[g].hndl != htabs[h].hndl)
  }

  ghost predicate AllKnown(htabs: map<int, HTab>, os: map<int, OsFile>, disk: Disk) {
    forall h :: h in htabs ==> Known(htabs[h], os, disk)
  }

  /** The invariant of the table. */
  ghost predicate Right(ftab: seq<int>, htabs: map<int, HTab>, opencnt: nat, lastuse: nat, os: map<int, OsFile>, disk: Disk) {
    && Shared(ftab, htabs) && Apart(htabs) && AllKnown(htabs, os, disk)
    && AllOwned(htabs, os) && opencnt == |os.Keys|
    && (forall h :: h in htabs ==> htabs[h].luse <= lastuse)
  }

  // --- counting ---------------------------------------------------------------------------------------------------------

  lemma {:induction false} UsesSet(ftab: seq<int>, i: nat, x: int, h: int)
    requires i < |ftab|
    ensures Uses(ftab[i := x], h) == Uses(ftab, h) - (if ftab[i] == h then 1 else 0) + (if x == h then 1 else 0)
  {
    var n := |ftab| - 1;
    if i == n {
      assert ftab[i := x][..n] == ftab[..n];
    } else {
      assert ftab[i := x][..n] == ftab[..n][i := x];
      UsesSet(ftab[..n], i, x, h);
    }
  }

  lemma UsesMore(ftab: seq<int>, x: int, h: int)
    ensures Uses(ftab + [x], h) == Uses(ftab, h) + if x == h then 1 else 0
  {
    assert (ftab + [x])[..|ftab|] == ftab;
  }

  lemma {:induction false} UsesSome(ftab: seq<int>, i: nat)
    requires i < |ftab|
    ensures Uses(ftab, ftab[i]) > 0
  {
    var n := |ftab| - 1;
    if i < n {
      assert ftab[..n][i] == ftab[i];
      UsesSome(ftab[..n], i);
    }
  }

  lemma {:induction false} UsedBy(ftab: seq<int>, h: int) returns (i: nat)
    requires Uses(ftab, h) > 0
    ensures i < |ftab| && ftab[i] == h
  {
    var n := |ftab| - 1;
    if ftab[n] == h {
      i := n;
    } else {
      i := UsedBy(ftab[..n], h);
    }
  }

  // --- the record of one file changes -----------------------------------------------------------------------------------

  /** Record h becomes r, with the same name and the same users, and a handle and a time of use that are its own. */
  lemma SharedStill(ftab: seq<int>, htabs: map<int, HTab>, h: int, r: HTab)
    requires Shared(ftab, htabs) && h in htabs && r.opct == htabs[h].opct
    ensures Shared(ftab, htabs[h := r])
  {
  }

  lemma ApartStill(htabs: map<int, HTab>, h: int, r: HTab)
    requires Apart(htabs) && h in htabs && r.fnam == htabs[h].fnam
    requires r.luse == htabs[h].luse || forall g :: g in htabs ==> htabs[g].luse != r.luse
    requires r.hndl == NIL || r.hndl == htabs[h].hndl || forall g :: g in htabs ==> htabs[g].hndl != r.hndl
    ensures Apart(htabs[h := r])
  {
  }

  /** Only the operating system's file and the contents of file h may have changed. */
  lemma KnownStill(htabs: map<int, HTab>, os: map<int, OsFile>, disk: Disk, h: int, r: HTab, new_os: map<int, OsFile>, new_disk: Disk)
    requires AllKnown(htabs, os, disk) && Apart(htabs) && h in htabs && Known(r, new_os, new_disk)
    requires forall n :: n in disk ==> n in new_disk && (n == htabs[h].fnam || new_disk[n] == disk[n])
    requires forall g :: g in os && g != htabs[h].hndl ==> g in new_os && new_os[g] == os[g]
    ensures AllKnown(htabs[h := r], new_os, new_disk)
  {
  }

  lemma OwnedStill(htabs: map<int, HTab>, os: map<int, OsFile>, h: int, r: HTab, new_os: map<int, OsFile>)
    requires AllOwned(htabs, os) && h in htabs && NIL !in new_os
    requires forall g :: g in new_os ==> g == r.hndl || (g in os && g != htabs[h].hndl)
    ensures AllOwned(htabs[h := r], new_os)
  {
    var t := htabs[h := r];
    forall g | g in new_os
      ensures Owned(t, g)
    {
      if g == r.hndl {
        assert t[h].hndl == g;
      } else {
        var k :| k in htabs && htabs[k].hndl == g;
        assert t[k].hndl == g;
      }
    }
  }

  lemma FewerKeys(os: map<int, OsFile>, g: int)
    requires g in os
    ensures |(os - {g}).Keys| == |os.Keys| - 1
  {
    assert (os - {g}).Keys == os.Keys - {g};
  }

  lemma MoreKeys(os: map<int, OsFile>, g: int, f: OsFile)
    ensures |os[g := f].Keys| == |os.Keys| + if g in os then 0 else 1
  {
    assert os[g := f].Keys == os.Keys + {g};
  }

  /** A handle is closed. */
  lemma RightClosed(ftab: seq<int>, htabs: map<int, HTab>, opencnt: nat, lastuse: nat, os: map<int, OsFile>, disk: Disk, h: int)
    requires Right(ftab, htabs, opencnt, lastuse, os, disk) && h in htabs && htabs[h].hndl != NIL
    ensures opencnt > 0 && htabs[h].hndl in os
    ensures Right(ftab, htabs[h := htabs[h].(hndl := NIL, lckflg := false, locks := [])], opencnt - 1, lastuse,
                  os - {htabs[h].hndl}, disk)
  {
    assert Known(htabs[h], os, disk);
    hide Shared, Apart, AllKnown, AllOwned;
    var g, r := htabs[h].hndl, htabs[h].(hndl := NIL, lckflg := false, locks := []);
    FewerKeys(os, g);
    SharedStill(ftab, htabs, h, r);
    ApartStill(htabs, h, r);
    KnownStill(htabs, os, disk, h, r, os - {g}, disk);
    NoNil(htabs, os);
    OwnedStill(htabs, os, h, r, os - {g});
  }

  lemma NoNil(htabs: map<int, HTab>, os: map<int, OsFile>)
    requires AllOwned(htabs, os)
    ensures NIL !in os
  {
  }

  /** A handle is opened. */
  lemma RightReopened(ftab: seq<int>, htabs: map<int, HTab>, opencnt: nat, lastuse: nat, os: map<int, OsFile>, disk: Disk, h: int, g: int)
    requires Right(ftab, htabs, opencnt, lastuse, os, disk) && h in htabs && htabs[h].hndl == NIL && g !in os && g != NIL
    ensures Right(ftab, htabs[h := htabs[h].(hndl := g, npos := 0)], opencnt + 1, lastuse, os[g := OsFile(htabs[h].fnam, 0)], disk)
  {
    FreshHandle(htabs, os, disk, g);
    assert Known(htabs[h], os, disk);
    hide Shared, Apart, AllKnown, AllOwned;
    var r, f := htabs[h].(hndl := g, npos := 0), OsFile(htabs[h].fnam, 0);
    MoreKeys(os, g, f);
    SharedStill(ftab, htabs, h, r);
    ApartStill(htabs, h, r);
    KnownStill(htabs, os, disk, h, r, os[g := f], disk);
    NoNil(htabs, os);
    OwnedStill(htabs, os, h, r, os[g := f]);
  }

  lemma FreshHandle(htabs: map<int, HTab>, os: map<int, OsFile>, disk: Disk, g: int)
    requires AllKnown(htabs, os, disk) && g !in os && g != NIL
    ensures forall k :: k in htabs ==> htabs[k].hndl != g
  {
    forall k | k in htabs
      ensures htabs[k].hndl != g
    {
      assert Known(htabs[k], os, disk);
    }
  }

  /** A file is used. */
  lemma RightUsed(ftab: seq<int>, htabs: map<int, HTab>, opencnt: nat, lastuse: nat, os: map<int, OsFile>, disk: Disk, h: int)
    requires Right(ftab, htabs, opencnt, lastuse, os, disk) && h in htabs
    ensures Right(ftab, htabs[h := htabs[h].(luse := lastuse + 1)], opencnt, lastuse + 1, os, disk)
  {
    assert Known(htabs[h], os, disk);
    hide Shared, Apart, AllKnown, AllOwned;
    var r := htabs[h].(luse := lastuse + 1);
    SharedStill(ftab, htabs, h, r);
    ApartStill(htabs, h, r);
    KnownStill(htabs, os, disk, h, r, os, disk);
    NoNil(htabs, os);
    OwnedStillSame(htabs, os, h, r);
  }

  lemma OwnedStillSame(htabs: map<int, HTab>, os: map<int, OsFile>, h: int, r: HTab)
    requires AllOwned(htabs, os) && h in htabs && r.hndl == htabs[h].hndl
    ensures AllOwned(htabs[h := r], os)
  {
    OwnedStill(htabs, os, h, r, os);
  }

  /** A file is read or written, and what is known of it follows. */
  lemma RightMoved(ftab: seq<int>, htabs: map<int, HTab>, opencnt: nat, lastuse: nat, os: map<int, OsFile>, disk: Disk, h: int,
                   pos: nat, npos: int, fsiz: int, bytes: seq<byte>)
    requires Right(ftab, htabs, opencnt, lastuse, os, disk) && h in htabs && htabs[h].hndl != NIL
    requires (npos == NIL || npos == pos) && (fsiz != NIL && htabs[h].mode > SHR ==> fsiz == |bytes|)
    ensures htabs[h].hndl in os && htabs[h].fnam in disk
    ensures Right(ftab, htabs[h := htabs[h].(npos := npos, fsiz := fsiz)], opencnt, lastuse,
                  os[htabs[h].hndl := os[htabs[h].hndl].(pos := pos)], disk[htabs[h].fnam := bytes])
  {
    assert Known(htabs[h], os, disk);
    hide Shared, Apart, AllKnown, AllOwned;
    var r, g := htabs[h].(npos := npos, fsiz := fsiz), htabs[h].hndl;
    var o, d := os[g := os[g].(pos := pos)], disk[htabs[h].fnam := bytes];
    MoreKeys(os, g, os[g].(pos := pos));
    SharedStill(ftab, htabs, h, r);
    ApartStill(htabs, h, r);
    KnownStill(htabs, os, disk, h, r, o, d);
    NoNil(htabs, os);
    OwnedStill(htabs, os, h, r, o);
  }

  /** Locks come and go. */
  lemma RightLocked(ftab: seq<int>, htabs: map<int, HTab>, opencnt: nat, lastuse: nat, os: map<int, OsFile>, disk: Disk, h: int,
                    lckflg: bool, locks: seq<PosLock>)
    requires Right(ftab, htabs, opencnt, lastuse, os, disk) && h in htabs && OncePos(locks)
    requires lckflg || locks != [] ==> htabs[h].hndl != NIL && htabs[h].mode <= SHR
    ensures Right(ftab, htabs[h := htabs[h].(lckflg := lckflg, locks := locks)], opencnt, lastuse, os, disk)
  {
    assert Known(htabs[h], os, disk);
    hide Shared, Apart, AllKnown, AllOwned;
    var r := htabs[h].(lckflg := lckflg, locks := locks);
    SharedStill(ftab, htabs, h, r);
    ApartStill(htabs, h, r);
    KnownStill(htabs, os, disk, h, r, os, disk);
    OwnedStillSame(htabs, os, h, r);
  }

  // --- open numbers come and go -------------------------------------------------------------------------------------------

  /** The table with x at place i, which may be one past its end. */
  function Filled(ftab: seq<int>, i: nat, x: int): seq<int>
    requires i <= |ftab|
  {
    if i < |ftab| then ftab[i := x] else ftab + [x]
  }

  lemma UsesFilled(ftab: seq<int>, i: nat, x: int, h: int)
    requires i <= |ftab| && (i < |ftab| ==> ftab[i] == NIL) && h != NIL
    ensures Uses(Filled(ftab, i, x), h) == Uses(ftab, h) + if x == h then 1 else 0
  {
    if i < |ftab| {
      UsesSet(ftab, i, x, h);
    } else {
      UsesMore(ftab, x, h);
    }
  }

  /** One more open number for a file. */
  lemma RightShared(ftab: seq<int>, htabs: map<int, HTab>, opencnt: nat, lastuse: nat, os: map<int, OsFile>, disk: Disk, h: int, i: nat)
    requires Right(ftab, htabs, opencnt, lastuse, os, disk) && h in htabs && i <= |ftab| && (i < |ftab| ==> ftab[i] == NIL)
    ensures Right(Filled(ftab, i, h), htabs[h := htabs[h].(opct := htabs[h].opct + 1)], opencnt, lastuse, os, disk)
  {
    var r := htabs[h].(opct := htabs[h].opct + 1);
    assert Known(r, os, disk);
    SharedFilled(ftab, htabs, h, i, r);
    hide Shared, Apart, AllKnown, AllOwned;
    ApartStill(htabs, h, r);
    KnownStill(htabs, os, disk, h, r, os, disk);
    OwnedStillSame(htabs, os, h, r);
  }

  lemma SharedFilled(ftab: seq<int>, htabs: map<int, HTab>, h: int, i: nat, r: HTab)
    requires Shared(ftab, htabs) && i <= |ftab| && (i < |ftab| ==> ftab[i] == NIL) && h != NIL
    requires r.opct == if h in htabs then htabs[h].opct + 1 else 1
    ensures Shared(Filled(ftab, i, h), htabs[h := r])
  {
    var t, f := htabs[h := r], Filled(ftab, i, h);
    if h !in htabs {
      UsesNone(ftab, h);
    }
    forall g | g in t
      ensures t[g].opct == Uses(f, g) > 0
    {
      UsesFilled(ftab, i, h, g);
    }
  }

  lemma {:induction false} UsesNone(ftab: seq<int>, h: int)
    requires forall i :: 0 <= i < |ftab| ==> ftab[i] != h
    ensures Uses(ftab, h) == 0
  {
    if ftab != [] {
      UsesNone(ftab[..|ftab| - 1], h);
    }
  }

  /** A file is opened. */
  lemma RightOpened(ftab: seq<int>, htabs: map<int, HTab>, opencnt: nat, lastuse: nat, os: map<int, OsFile>, disk: Disk, h: int, i: nat,
                    name: string, mode: int, g: int)
    requires Right(ftab, htabs, opencnt, lastuse, os, disk) && h !in htabs && h != NIL
    requires i <= |ftab| && (i < |ftab| ==> ftab[i] == NIL) && name in disk && SRO <= mode <= EFC && g !in os && g != NIL
    requires forall k :: k in htabs ==> htabs[k].fnam != name
    ensures Right(Filled(ftab, i, h), htabs[h := HTab(name, mode, g, 1, false, -1, 0, lastuse + 1, [])], opencnt + 1, lastuse + 1,
                  os[g := OsFile(name, 0)], disk)
  {
    var r, f := HTab(name, mode, g, 1, false, -1, 0, lastuse + 1, []), OsFile(name, 0);
    SharedFilled(ftab, htabs, h, i, r);
    FreshHandle(htabs, os, disk, g);
    MoreKeys(os, g, f);
    assert Known(r, os[g := f], disk);
    hide Shared, Uses, Filled;
    OwnedMore(htabs, os, h, r, f);
    ApartMore(htabs, h, r);
  }

  lemma ApartMore(htabs: map<int, HTab>, h: int, r: HTab)
    requires Apart(htabs) && h !in htabs
    requires forall g :: g in htabs ==> htabs[g].fnam != r.fnam && htabs[g].luse != r.luse && htabs[g].hndl != r.hndl
    ensures Apart(htabs[h := r])
  {
  }

  lemma OwnedMore(htabs: map<int, HTab>, os: map<int, OsFile>, h: int, r: HTab, f: OsFile)
    requires AllOwned(htabs, os) && h !in htabs && r.hndl != NIL
    ensures AllOwned(htabs[h := r], os[r.hndl := f])
  {
    var t := htabs[h := r];
    forall g | g in os[r.hndl := f]
      ensures Owned(t, g)
    {
      if g == r.hndl {
        assert t[h].hndl == g;
      } else {
        var k :| k in htabs && htabs[k].hndl == g;
        assert t[k].hndl == g;
      }
    }
  }

  /** The table without the open number at place i; the last place goes with it. */
  function Emptied(ftab: seq<int>, i: nat): seq<int>
    requires i < |ftab|
  {
    if i + 1 == |ftab| then ftab[..i] else ftab[i := NIL]
  }

  lemma UsesEmptied(ftab: seq<int>, i: nat, h: int)
    requires i < |ftab| && h != NIL
    ensures Uses(Emptied(ftab, i), h) == Uses(ftab, h) - if ftab[i] == h then 1 else 0
  {
    if i + 1 < |ftab| {
      UsesSet(ftab, i, NIL, h);
    }
  }

  /** One open number fewer for a file that has others. */
  lemma RightUnshared(ftab: seq<int>, htabs: map<int, HTab>, opencnt: nat, lastuse: nat, os: map<int, OsFile>, disk: Disk, i: nat,
                      locks: seq<PosLock>)
    requires Right(ftab, htabs, opencnt, lastuse, os, disk) && i < |ftab| && ftab[i] != NIL
    requires ftab[i] in htabs && OncePos(locks) && (locks != [] ==> htabs[ftab[i]].locks != [])
    ensures htabs[ftab[i]].opct > 0
    ensures var h := ftab[i];
            htabs[h].opct > 1 ==>
              Right(Emptied(ftab, i), htabs[h := htabs[h].(opct := htabs[h].opct - 1, locks := locks)], opencnt, lastuse, os, disk)
  {
    var h := ftab[i];
    UsesSome(ftab, i);
    var r := htabs[h].(opct := htabs[h].opct - 1, locks := locks);
    assert Known(r, os, disk);
    if htabs[h].opct > 1 {
      SharedEmptied(ftab, htabs, i, r);
      ApartStill(htabs, h, r);
      KnownStill(htabs, os, disk, h, r, os, disk);
      OwnedStillSame(htabs, os, h, r);
    }
    hide Shared, Apart, AllKnown, AllOwned;
  }

  lemma SharedEmptied(ftab: seq<int>, htabs: map<int, HTab>, i: nat, r: HTab)
    requires Shared(ftab, htabs) && i < |ftab| && ftab[i] != NIL && r.opct == htabs[ftab[i]].opct - 1 && r.opct > 0
    ensures Shared(Emptied(ftab, i), htabs[ftab[i] := r])
  {
    var t, f := htabs[ftab[i] := r], Emptied(ftab, i);
    forall k | k in t
      ensures t[k].opct == Uses(f, k) > 0
    {
      UsesEmptied(ftab, i, k);
    }
  }

  /** The last open number of a file whose handle is closed. */
  lemma RightGone(ftab: seq<int>, htabs: map<int, HTab>, opencnt: nat, lastuse: nat, os: map<int, OsFile>, disk: Disk, i: nat)
    requires Right(ftab, htabs, opencnt, lastuse, os, disk) && i < |ftab| && ftab[i] != NIL
    requires ftab[i] in htabs && htabs[ftab[i]].opct == 1 && htabs[ftab[i]].hndl == NIL
    ensures Right(Emptied(ftab, i), htabs - {ftab[i]}, opencnt, lastuse, os, disk)
  {
    var h := ftab[i];
    SharedGone(ftab, htabs, i);
    OwnedGone(htabs, os, h);
    ApartGone(htabs, h);
  }

  lemma ApartGone(htabs: map<int, HTab>, h: int)
    requires Apart(htabs)
    ensures Apart(htabs - {h})
  {
  }

  lemma OwnedGone(htabs: map<int, HTab>, os: map<int, OsFile>, h: int)
    requires AllOwned(htabs, os) && h in htabs && htabs[h].hndl == NIL
    ensures AllOwned(htabs - {h}, os)
  {
    var t := htabs - {h};
    forall g | g in os
      ensures Owned(t, g)
    {
      var k :| k in htabs && htabs[k].hndl == g;
      assert k in t && t[k].hndl == g;
    }
  }

  lemma SharedGone(ftab: seq<int>, htabs: map<int, HTab>, i: nat)
    requires Shared(ftab, htabs) && i < |ftab| && ftab[i] != NIL && htabs[ftab[i]].opct == 1
    ensures Shared(Emptied(ftab, i), htabs - {ftab[i]})
  {
    var h := ftab[i];
    var t, f := htabs - {h}, Emptied(ftab, i);
    UsesEmptied(ftab, i, h);
    forall k | k in t
      ensures t[k].opct == Uses(f, k) > 0
    {
      UsesEmptied(ftab, i, k);
    }
    forall j | 0 <= j < |f| && f[j] != NIL
      ensures f[j] in t
    {
      if f[j] == h {
        UsesSome(f, j);
      }
    }
  }

  // --- what the counters mean -----------------------------------------------------------------------------------------------

  /** The files that have an open handle. */
  ghost function OpenFiles(htabs: map<int, HTab>): set<int> {
    set h | h in htabs && htabs[h].hndl != NIL
  }

  lemma NoMember(s: set<int>)
    requires forall y :: y !in s
    ensures s == {}
  {
    var none: set<int> := {};
    assert forall y :: y in s <==> y in none;
    assert s == none;
  }

  lemma Pick(s: set<int>) returns (x: int)
    requires s != {}
    ensures x in s
  {
    if y :| y in s {
      x := y;
    } else {
      NoMember(s);
      assert false;
    }
  }

  lemma OwnerOf(htabs: map<int, HTab>, os: map<int, OsFile>, g: int) returns (h: int)
    requires AllOwned(htabs, os) && g in os
    ensures h in OpenFiles(htabs)
  {
    assert Owned(htabs, g);
    h :| h in htabs && htabs[h].hndl == g;
  }

  /** The count of open handles is the number of records that have one. */
  lemma {:induction false} OpenCount(ftab: seq<int>, htabs: map<int, HTab>, opencnt: nat, lastuse: nat, os: map<int, OsFile>, disk: Disk)
    requires Right(ftab, htabs, opencnt, lastuse, os, disk)
    ensures opencnt == |OpenFiles(htabs)|
    decreases opencnt
  {
    var files, keys := OpenFiles(htabs), os.Keys;
    if files == {} {
      if keys != {} {
        var g := Pick(keys);
        var h := OwnerOf(htabs, os, g);
        assert false;
      }
    } else {
      var h := Pick(files);
      var t := htabs[h := htabs[h].(hndl := NIL, lckflg := false, locks := [])];
      RightClosed(ftab, htabs, opencnt, lastuse, os, disk, h);
      OpenCount(ftab, t, opencnt - 1, lastuse, os - {htabs[h].hndl}, disk);
      assert OpenFiles(t) == OpenFiles(htabs) - {h};
    }
  }

  // --- what a call may have done to other files -------------------------------------------------------------------------------

  /** Some files that may be closed have been, and nothing else has happened to them. */
  ghost predicate Idled(a: map<int, HTab>, b: map<int, HTab>) {
    a.Keys == b.Keys && forall k :: k in a ==> b[k] == a[k] || (Eligible(a[k]) && b[k] == a[k].(hndl := NIL))
  }

  lemma IdledMore(a: map<int, HTab>, b: map<int, HTab>, c: map<int, HTab>)
    requires Idled(a, b) && Idled(b, c)
    ensures Idled(a, c)
  {
  }

  lemma IdledOne(a: map<int, HTab>, h: int)
    requires h in a && Eligible(a[h])
    ensures Idled(a, a[h := a[h].(hndl := NIL, lckflg := false, locks := [])])
  {
  }

  /** Files are the same but for the handles of some. */
  ghost predicate SameFiles(a: map<int, HTab>, b: map<int, HTab>) {
    a.Keys == b.Keys && forall k :: k in a ==>
      && a[k].fnam == b[k].fnam && a[k].mode == b[k].mode && a[k].opct == b[k].opct && a[k].fsiz == b[k].fsiz
      && a[k].lckflg == b[k].lckflg && a[k].locks == b[k].locks
  }

  /** The sizes that are known are true. They are as long as no other program changes a file that we only read. */
  ghost predicate SizesTrue(htabs: map<int, HTab>, disk: Disk) {
    forall h :: h in htabs && htabs[h].fsiz != NIL ==> htabs[h].fnam in disk && htabs[h].fsiz == |disk[htabs[h].fnam]|
  }

  lemma SizesIdled(a: map<int, HTab>, b: map<int, HTab>, disk: Disk)
    requires Idled(a, b) && SizesTrue(a, disk)
    ensures SizesTrue(b, disk)
  {
  }

  /** File h has changed, and what is known of it. */
  lemma SizesStill(htabs: map<int, HTab>, disk: Disk, h: int, r: HTab, bytes: seq<byte>)
    requires SizesTrue(htabs, disk) && Apart(htabs) && h in htabs && r.fnam == htabs[h].fnam && (r.fsiz == NIL || r.fsiz == |bytes|)
    ensures SizesTrue(htabs[h := r], disk[r.fnam := bytes])
  {
  }

  /** Each lock was taken through an open number of its file. */
  ghost predicate LocksOk(ftab: seq<int>, htabs: map<int, HTab>) {
    forall h, j :: h in htabs && 0 <= j < |htabs[h].locks| ==>
      htabs[h].locks[j].filenum < |ftab| && ftab[htabs[h].locks[j].filenum] == h
  }

  /** A file that no record names may change. */
  lemma RightElsewhere(ftab: seq<int>, htabs: map<int, HTab>, opencnt: nat, lastuse: nat, os: map<int, OsFile>, disk: Disk,
                       name: string, bytes: seq<byte>)
    requires Right(ftab, htabs, opencnt, lastuse, os, disk)
    requires forall h :: h in htabs && htabs[h].fnam == name ==> htabs[h].mode <= SHR
    ensures Right(ftab, htabs, opencnt, lastuse, os, disk[name := bytes])
  {
  }

  // --- position locks ---------------------------------------------------------------------------------------------------------

  /** What unlocking releases: all locks (-2), those taken through an open number (-1), or the one of these at a position. */
  predicate Releases(l: PosLock, filenum: int, pos: int) {
    pos == -2 || (l.filenum == filenum && (pos == -1 || l.pos == pos))
  }

  /** The locks that stay, in their order. */
  function Staying(locks: seq<PosLock>, filenum: int, pos: int): (r: seq<PosLock>)
    ensures forall l :: l in r <==> l in locks && !Releases(l, filenum, pos)
    ensures |r| <= |locks|
  {
    if locks == [] then []
    else Staying(locks[..|locks| - 1], filenum, pos) + if Releases(locks[|locks| - 1], filenum, pos) then [] else [locks[|locks| - 1]]
  }

  lemma {:induction false} StayingOnce(locks: seq<PosLock>, filenum: int, pos: int)
    requires OncePos(locks)
    ensures OncePos(Staying(locks, filenum, pos))
  {
    if locks != [] {
      var n := |locks| - 1;
      var r := Staying(locks[..n], filenum, pos);
      StayingOnce(locks[..n], filenum, pos);
      forall l | l in r
        ensures l.pos != locks[n].pos
      {
        assert l in locks[..n];
      }
    }
  }

  lemma LocksStaying(ftab: seq<int>, htabs: map<int, HTab>, h: int, filenum: int, pos: int)
    requires LocksOk(ftab, htabs) && h in htabs
    ensures LocksOk(ftab, htabs[h := htabs[h].(locks := Staying(htabs[h].locks, filenum, pos))])
  {
    var r := Staying(htabs[h].locks, filenum, pos);
    forall j | 0 <= j < |r|
      ensures r[j].filenum < |ftab| && ftab[r[j].filenum] == h
    {
      assert r[j] in r;
      var k :| 0 <= k < |htabs[h].locks| && htabs[h].locks[k] == r[j];
    }
  }

  /** When open number i goes, with its locks, the locks of the others stay right. */
  lemma LocksEmptied(ftab: seq<int>, htabs: map<int, HTab>, i: nat, t: map<int, HTab>)
    requires LocksOk(ftab, htabs) && i < |ftab| && forall k :: k in t ==> k in htabs && forall l :: l in t[k].locks ==> l in htabs[k].locks
    requires forall k, l :: k in t && l in t[k].locks ==> l.filenum != i
    ensures LocksOk(Emptied(ftab, i), t)
  {
    forall k, j | k in t && 0 <= j < |t[k].locks|
      ensures t[k].locks[j].filenum < |Emptied(ftab, i)| && Emptied(ftab, i)[t[k].locks[j].filenum] == k
    {
      var l := t[k].locks[j];
      assert l in t[k].locks;
      var n :| 0 <= n < |htabs[k].locks| && htabs[k].locks[n] == l;
    }
  }
}

/** The associative index itself (aio.c): the state behind one open index file and the operations
    that build a lookup, walk its candidates in either direction, and insert records. */
module AimIndex {
  import opened Bits
  import opened Bytes
  import opened AimFile
  import opened AimHash
  import opened AimWindow
  import opened AimView
  import opened AimKey
  import opened AimInsert

  datatype Flag = PREV | NEXT | LAST | FIRST

  // Answers of the walk.
  const FOUND := 1
  const ATEND := 2
  const NOKEY := 3
  /** Not an answer of the source: the source would go on to read bytes outside the extent or the
      caller's buffer, and the model stops instead. */
  const OUTSIDE := -1
  const ERR_BADKY := -2
  const ERR_BADIX := -3

  class Index {
    const lay: Layout
    const delslot: int                // 1 if a deleted-record slot follows the search slots
    const sxnrec: int                 // records per appended extent
    const hptable: array<bv8>         // the slots demanded by the current lookup
    var extents: seq<Extent>          // the file
    var status: int
    var matchchr: byte
    var lup: seq<Entry>
    var precnum: int                  // the record number shared with the caller
    var recnum: int
    var exidx: int
    var exfrec: int
    var exnrec: int
    var anfrec: int
    var anlrec: int
    var andbuf: array?<bv8>

    ghost var keyMatch: seq<byte>               // match character when each entry was added
    ghost var stored: set<(int, seq<byte>)>     // every record inserted so far, with its number
    ghost var since: set<int>                   // record numbers inserted since FIRST or LAST
    ghost var hidden: set<int>                  // candidates that the current window does not show

    /** A freshly prepared index file: one extent of zeros and no lookup. */
    constructor (lay: Layout, delslot: int, fxnrec: int, sxnrec: int, matchchr: byte)
      requires lay.Valid() && 0 <= delslot <= 1 && 0 < sxnrec && 0 < fxnrec && fxnrec % 8 == 0
      ensures Valid() && fresh(hptable) && andbuf == null
      ensures this.lay == lay && this.delslot == delslot && this.sxnrec == sxnrec && this.matchchr == matchchr
      ensures status == 0 && stored == {} && lup == [] && |extents| == 1 && Total(extents) == fxnrec
      ensures forall s, n :: !At(extents, Width(), s, n)
    {
      var width := lay.slots + delslot;
      MulStep(0, width, fxnrec / 8);
      var x := Extent(fxnrec, seq<bv8>(width * (fxnrec / 8), _ => 0));
      this.lay, this.delslot, this.sxnrec, this.matchchr := lay, delslot, sxnrec, matchchr;
      hptable := new bv8[lay.TableSize()];
      extents := [x];
      status, lup, keyMatch := 0, [], [];
      andbuf := null;
      stored, since, hidden := {}, {}, {};
      new;
      ClearTable();
      assert StartOf(extents, 0) == 0 && StartOf(extents, 1) == fxnrec;
      forall s, n
        ensures !At(extents, Width(), s, n)
      {
        if 0 <= n < Total(extents) {
          AtLocal(extents, Width(), 0, s, n);
          ZeroExtent(x, Width(), s, n);
        } else {
          OutsideTotal(extents, Width(), s, n);
        }
      }
    }

    function Width(): int {
      lay.slots + delslot
    }

    ghost function V(): View
      reads `extents, `hidden, hptable
    {
      View(extents, Width(), Pattern(hptable[..]), hidden)
    }

    ghost predicate BufferOk()
      reads `andbuf
    {
      andbuf != null ==> andbuf.Length == ANDSIZE && andbuf != hptable
    }

    /** The bytes of the current window. */
    ghost function Window(): seq<bv8>
      requires andbuf != null && 0 <= anlrec - anfrec <= 8 * andbuf.Length
      reads `anfrec, `anlrec, `andbuf, andbuf
    {
      andbuf[..(anlrec - anfrec) / 8]
    }

    /** The cursor is in the middle of a search over what `v` shows. */
    ghost predicate Searching(v: View)
      reads `extents, `hidden, `exidx, `exfrec, `exnrec, `anfrec, `anlrec, `andbuf, hptable, andbuf
    {
      && FileOk(lay, delslot, extents) && ExtentAt(extents, exidx, exfrec, exnrec)
      && V() == v && v.pat != {} && InSlots(v.pat, lay.slots)
      && andbuf != null && BufferOk()
      && 0 <= anlrec - anfrec <= 8 * ANDSIZE
      && WindowOk(v, exfrec, exfrec + exnrec, anfrec, anlrec, Window())
    }

    // --- the walk ------------------------------------------------------------------------------

    /** Read the chosen slots for the window [anfrec, anlrec) of the current extent. */
    method FillWindow() returns (nonzero: int, size: int)
      requires FileOk(lay, delslot, extents) && ExtentAt(extents, exidx, exfrec, exnrec)
      requires V().pat != {} && InSlots(V().pat, lay.slots) && andbuf != null && BufferOk()
      requires exfrec <= anfrec < anlrec <= exfrec + exnrec && anlrec - anfrec <= 8 * ANDSIZE
      requires anfrec % 8 == 0 && anlrec % 8 == 0
      modifies this`hidden, andbuf
      ensures hidden == old(hidden) - (set n | n in old(hidden) && anfrec <= n < anlrec)
      ensures Searching(old(V()).(hidden := hidden))
      ensures 0 <= nonzero <= size <= |Window()| && ZeroOutside(Window(), nonzero, size)
    {
      hide Cand, Live, Shows, Pattern, Content, Total, ZeroOutside;
      ghost var table := hptable[..];
      AlignedSpan(anfrec, anlrec);
      var cnt := (anlrec - anfrec) / 8;
      StartMono(extents, Width(), 0, exidx);
      var base := (anfrec - exfrec) / 8;
      nonzero, size := BuildAnd(extents[exidx], Width(), hptable, base, andbuf, cnt);
      assert hptable[..] == table;
      hidden := hidden - (set n | n in hidden && anfrec <= n < anlrec);
      AlignedBase(extents, Width(), exidx, anfrec);
      ShowsContent(V(), andbuf[..cnt], anfrec, exidx, exfrec, base);
      assert WindowOk(V(), exfrec, exfrec + exnrec, anfrec, anlrec, Window());
    }

    /** Fill the window for an upward scan, which begins at byte `andi`. */
    method FillUp() returns (andi: int)
      requires FileOk(lay, delslot, extents) && ExtentAt(extents, exidx, exfrec, exnrec)
      requires V().pat != {} && InSlots(V().pat, lay.slots) && andbuf != null && BufferOk()
      requires exfrec <= anfrec < anlrec <= exfrec + exnrec && anlrec - anfrec <= 8 * ANDSIZE
      requires anfrec % 8 == 0 && anlrec % 8 == 0
      modifies this`hidden, andbuf
      ensures hidden == old(hidden) - (set n | n in old(hidden) && anfrec <= n < anlrec)
      ensures Searching(old(V()).(hidden := hidden))
      ensures 0 <= andi && forall r :: On(Window(), r) ==> andi <= r / 8
    {
      hide ExtentOk, Shows, Pattern;
      var nonzero, size := FillWindow();
      andi := if nonzero == size then (anlrec - anfrec) / 8 else nonzero;
      forall r | On(Window(), r)
        ensures andi <= r / 8
      {
        NarrowedBits(Window(), nonzero, size, r);
      }
    }

    /** Fill the window for a downward scan, which begins at byte `andi`. */
    method FillDown() returns (andi: int)
      requires FileOk(lay, delslot, extents) && ExtentAt(extents, exidx, exfrec, exnrec)
      requires V().pat != {} && InSlots(V().pat, lay.slots) && andbuf != null && BufferOk()
      requires exfrec <= anfrec < anlrec <= exfrec + exnrec && anlrec - anfrec <= 8 * ANDSIZE
      requires anfrec % 8 == 0 && anlrec % 8 == 0
      modifies this`hidden, andbuf
      ensures hidden == old(hidden) - (set n | n in old(hidden) && anfrec <= n < anlrec)
      ensures Searching(old(V()).(hidden := hidden))
      ensures forall r :: On(Window(), r) ==> r / 8 <= andi < |Window()|
    {
      hide ExtentOk, Shows, Pattern;
      var nonzero, size := FillWindow();
      andi := if nonzero == size then (anlrec - anfrec) / 8 else size - 1;
      forall r | On(Window(), r)
        ensures r / 8 <= andi < |Window()|
      {
        NarrowedBits(Window(), nonzero, size, r);
      }
    }

    /** Move the window bounds upward, into the next extent if need be. */
    method MoveUp() returns (moved: bool)
      requires FileOk(lay, delslot, extents) && ExtentAt(extents, exidx, exfrec, exnrec)
      requires exfrec <= anlrec <= Total(extents) && anlrec % 8 == 0
      modifies this`exidx, this`exfrec, this`exnrec, this`anfrec, this`anlrec
      ensures ExtentAt(extents, exidx, exfrec, exnrec)
      ensures !moved ==> anfrec == old(anfrec) && anlrec == old(anlrec) == exfrec + exnrec == Total(extents)
      ensures !moved ==> exidx == old(exidx) == |extents| - 1 && exfrec == old(exfrec) && exnrec == old(exnrec)
      ensures moved ==> exfrec <= anfrec < anlrec <= exfrec + exnrec && anlrec <= Total(extents)
      ensures moved ==> anfrec % 8 == 0 && anlrec % 8 == 0 && anlrec - anfrec <= 8 * ANDSIZE
      ensures moved ==> exidx > old(exidx) || (exidx == old(exidx) && anlrec > old(anlrec))
      ensures moved ==> anfrec == old(if anlrec >= exfrec + exnrec then exfrec + exnrec else anlrec)
    {
      hide ExtentOk;
      StartMono(extents, Width(), exidx + 1, |extents|);
      if anlrec >= exfrec + exnrec {
        if exidx + 1 == |extents| {
          return false;
        }
        exidx, exfrec := exidx + 1, exfrec + exnrec;
        exnrec := extents[exidx].nrec;
        anfrec := exfrec;
        StartMono(extents, Width(), exidx, |extents|);
      } else {
        anfrec := anlrec;
      }
      anlrec := anfrec + 8 * ANDSIZE;
      if anlrec > exfrec + exnrec {
        anlrec := exfrec + exnrec;
      }
      WindowBounds(extents, Width(), exidx, anfrec, anlrec);
      moved := true;
    }

    /** Move the window upward and fill it; `moved` is false when there is nothing above. */
    method NextWindow(ghost from: int) returns (moved: bool, andi: int)
      requires Searching(V())
      requires exfrec <= anlrec <= Total(extents) && NoneIn(V(), from, anlrec)
      modifies this`exidx, this`exfrec, this`exnrec, this`anfrec, this`anlrec, this`hidden, andbuf
      ensures hidden <= old(hidden) && Searching(old(V()).(hidden := hidden))
      ensures !moved ==> anlrec == old(anlrec) == exfrec + exnrec == Total(extents) && hidden == old(hidden)
      ensures !moved ==> exidx == |extents| - 1
      ensures moved ==> exfrec <= anfrec < anlrec <= Total(extents)
      ensures moved ==> exidx > old(exidx) || (exidx == old(exidx) && anlrec > old(anlrec))
      ensures moved ==> anfrec == old(if anlrec >= exfrec + exnrec then exfrec + exnrec else anlrec)
      ensures moved ==> NoneIn(V(), from, anfrec)
      ensures moved ==> 0 <= andi && forall r :: On(Window(), r) ==> andi <= r / 8
    {
      hide ExtentOk, Shows, NoneIn, Live, Cand, Pattern;
      ghost var v := V();
      moved := MoveUp();
      if !moved {
        return false, 0;
      }
      NoneBelow(v, from, anfrec, old(anlrec));
      andi := FillUp();
      NoneKept(v, V(), from, anfrec);
    }

    /** Look through the current window, from byte `andi` up, for a record number at or above the
        cursor; on success the cursor moves there. */
    method ScanUp(andi: int, ghost from: int) returns (found: bool)
      requires Searching(V()) && NoneIn(V(), from, anfrec) && recnum <= from
      requires andi < 0 ==> from == anlrec
      requires andi >= 0 ==> from == recnum || from <= anfrec
      requires andi >= 0 ==> forall r :: recnum - anfrec <= r && On(Window(), r) ==> andi <= r / 8
      modifies this`recnum, this`precnum
      ensures Searching(old(V()))
      ensures found ==> precnum == recnum && IsNext(V(), recnum, from) && anfrec <= recnum < anlrec
      ensures !found ==> recnum == old(recnum) && precnum == old(precnum) && NoneIn(V(), from, anlrec)
    {
      hide ExtentOk, Shows, NoneIn, IsNext, Live, Cand, Pattern, Total;
      var r;
      found, r := ScanForward(andbuf, (anlrec - anfrec) / 8, andi, recnum - anfrec);
      if found {
        WindowFirst(V(), Window(), anfrec, r, recnum, from);
        recnum := anfrec + r;
        precnum := recnum;
      } else if andi >= 0 {
        WindowNone(V(), Window(), anfrec, recnum, from);
      } else {
        NoneEmpty(V(), from);
      }
    }

    /** Walk upward from the current window until a visible candidate turns up or the extents run
        out. `start` is the byte of the window to begin with; a negative start skips the window. */
    method SearchForward(start: int, ghost from: int) returns (code: int)
      requires Searching(V()) && status == 4
      requires 0 <= recnum <= from && exfrec <= anlrec <= Total(extents)
      requires if start < 0 then from == anlrec <= exfrec + exnrec else from == recnum && anfrec <= from
      requires start >= 0 ==> start <= (from - anfrec) / 8
      modifies this`status, this`recnum, this`precnum, this`exidx, this`exfrec, this`exnrec,
               this`anfrec, this`anlrec, this`hidden, andbuf
      ensures hidden <= old(hidden) && Searching(old(V()).(hidden := hidden))
      ensures code == FOUND || code == ATEND
      ensures code == FOUND ==> status == 4 && precnum == recnum && IsNext(V(), recnum, from)
      ensures code == FOUND ==> anfrec <= recnum < anlrec
      ensures code == ATEND ==> status == 5 && recnum == old(recnum) && precnum == old(precnum)
      ensures code == ATEND ==> anlrec == exfrec + exnrec == Total(extents) && exidx == |extents| - 1
      ensures code == ATEND ==> NoneIn(V(), from, Total(extents))
    {
      assert NoneIn(V(), from, anfrec);
      hide ExtentOk, Shows, NoneIn, IsNext, Live, Cand, Pattern, Total;
      var andi := start;
      while true
        invariant hidden <= old(hidden) && Searching(old(V()).(hidden := hidden))
        invariant status == 4 && recnum == old(recnum) && precnum == old(precnum)
        invariant exfrec <= anlrec <= Total(extents)
        invariant andi < 0 ==> from == anlrec <= exfrec + exnrec
        invariant andi >= 0 ==> from == recnum || from <= anfrec <= exfrec + exnrec
        invariant andi >= 0 ==> forall r :: recnum - anfrec <= r && On(Window(), r) ==> andi <= r / 8
        invariant NoneIn(V(), from, anfrec)
        decreases |extents| - exidx, Total(extents) - anlrec
      {
        var found := ScanUp(andi, from);
        if found {
          return FOUND;
        }
        var moved;
        moved, andi := NextWindow(from);
        if !moved {
          status := 5;
          return ATEND;
        }
      }
    }

    /** Move the window bounds downward, into an earlier extent if need be. */
    method MoveDown()
      requires FileOk(lay, delslot, extents) && ExtentAt(extents, exidx, exfrec, exnrec)
      requires 0 < anfrec <= Total(extents) && anfrec % 8 == 0 && (anfrec > exfrec ==> anfrec <= exfrec + exnrec)
      modifies this`exidx, this`exfrec, this`exnrec, this`anfrec, this`anlrec
      ensures ExtentAt(extents, exidx, exfrec, exnrec)
      ensures exfrec <= anfrec < anlrec <= exfrec + exnrec && old(anfrec) <= anlrec
      ensures anfrec % 8 == 0 && anlrec % 8 == 0 && anlrec - anfrec <= 8 * ANDSIZE
      ensures exidx < old(exidx) || (exidx == old(exidx) && anfrec < old(anfrec))
      ensures 0 <= anfrec && anlrec <= Total(extents)
    {
      hide ExtentOk;
      if anfrec <= exfrec {
        exidx, exfrec, exnrec := 0, 0, extents[0].nrec;
        while anfrec > exfrec + exnrec
          invariant ExtentAt(extents, exidx, exfrec, exnrec) && exfrec < anfrec && anfrec == old(anfrec)
          decreases |extents| - exidx
        {
          exidx, exfrec := exidx + 1, exfrec + exnrec;
          exnrec := extents[exidx].nrec;
        }
        if old(exidx) <= exidx {
          StartMono(extents, Width(), old(exidx), exidx);
          assert false;
        }
        StartMono(extents, Width(), exidx + 1, exidx + 1);
        anlrec := exfrec + exnrec;
      } else {
        anlrec := anfrec;
      }
      anfrec := anlrec - 8 * ANDSIZE;
      if anfrec < exfrec {
        anfrec := exfrec;
      }
      WindowBoundsDown(extents, Width(), exidx, anlrec, anfrec);
    }

    /** Move the window downward and fill it. */
    method PrevWindow(ghost to: int) returns (andi: int)
      requires Searching(V()) && NoneIn(V(), anfrec, to + 1)
      requires 0 < anfrec <= Total(extents) && (anfrec > exfrec ==> anfrec <= exfrec + exnrec)
      modifies this`exidx, this`exfrec, this`exnrec, this`anfrec, this`anlrec, this`hidden, andbuf
      ensures hidden <= old(hidden) && Searching(old(V()).(hidden := hidden))
      ensures exfrec <= anfrec < anlrec <= exfrec + exnrec && anlrec <= Total(extents)
      ensures exidx < old(exidx) || (exidx == old(exidx) && anfrec < old(anfrec))
      ensures NoneIn(V(), anlrec, to + 1)
      ensures forall r :: On(Window(), r) ==> r / 8 <= andi < |Window()|
    {
      hide ExtentOk, Shows, NoneIn, Live, Cand, Pattern;
      ghost var v := V();
      MoveDown();
      andi := FillDown();
      NoneKeptAbove(v, V(), old(anfrec), anlrec, to + 1);
    }

    /** Look through the current window, from byte `andi` down, for a record number at or below the
        cursor; on success the cursor moves there. */
    method ScanDown(andi: int) returns (found: bool)
      requires Searching(V()) && NoneIn(V(), anlrec, recnum + 1)
      requires forall r :: r <= recnum - anfrec && On(Window(), r) ==> r / 8 <= andi < |Window()|
      modifies this`recnum, this`precnum
      ensures Searching(old(V()))
      ensures found ==> precnum == recnum && IsPrev(V(), recnum, old(recnum)) && anfrec <= recnum < anlrec
      ensures !found ==> recnum == old(recnum) && precnum == old(precnum) && NoneIn(V(), anfrec, recnum + 1)
    {
      hide ExtentOk, Shows, NoneIn, IsPrev, Live, Cand, Pattern, Total;
      var r;
      found, r := ScanBackward(andbuf, (anlrec - anfrec) / 8, andi, recnum - anfrec);
      if found {
        WindowLast(V(), Window(), anfrec, r, recnum);
        recnum := anfrec + r;
        precnum := recnum;
      } else {
        WindowNoneDown(V(), Window(), anfrec, recnum);
      }
    }

    /** Walk downward from the current window until a visible candidate turns up or the beginning
        of the file is reached. `start` is the byte of the window to begin with. */
    method SearchBackward(start: int) returns (code: int)
      requires Searching(V()) && status == 4 && 0 <= recnum && NoneIn(V(), anlrec, recnum + 1)
      requires anfrec <= Total(extents) && (anfrec > exfrec ==> anfrec <= exfrec + exnrec)
      requires anfrec < anlrec || anfrec > 0
      requires forall r :: r <= recnum - anfrec && On(Window(), r) ==> r / 8 <= start < |Window()|
      modifies this`status, this`recnum, this`precnum, this`exidx, this`exfrec, this`exnrec,
               this`anfrec, this`anlrec, this`hidden, andbuf
      ensures hidden <= old(hidden) && Searching(old(V()).(hidden := hidden))
      ensures code == FOUND || code == ATEND
      ensures code == FOUND ==> status == 4 && precnum == recnum && IsPrev(V(), recnum, old(recnum))
      ensures code == FOUND ==> anfrec <= recnum < anlrec
      ensures code == ATEND ==> status == 6 && recnum == old(recnum) && precnum == old(precnum)
      ensures code == ATEND ==> anfrec == 0 && exidx == 0 && NoneIn(V(), 0, recnum + 1)
    {
      hide ExtentOk, Shows, NoneIn, IsPrev, Live, Cand, Pattern, Total;
      var andi := start;
      while true
        invariant hidden <= old(hidden) && Searching(old(V()).(hidden := hidden))
        invariant status == 4 && recnum == old(recnum) && precnum == old(precnum)
        invariant 0 <= anfrec <= Total(extents) && (anfrec > exfrec ==> anfrec <= exfrec + exnrec)
        invariant anfrec < anlrec || anfrec > 0
        invariant NoneIn(V(), anlrec, recnum + 1)
        invariant forall r :: r <= recnum - anfrec && On(Window(), r) ==> r / 8 <= andi < |Window()|
        decreases exidx, anfrec
      {
        var found := ScanDown(andi);
        if found {
          return FOUND;
        }
        if anfrec == 0 {
          AtStart(extents, Width(), exidx);
          status := 6;
          return ATEND;
        }
        andi := PrevWindow(recnum);
      }
    }

    // --- the state between calls ------------------------------------------------------------------

    /** At the beginning of the file, but without having moved the window there: this happens only
        when a backward step follows a forward walk that found nothing at all. */
    ghost predicate Detached()
      reads this
    {
      status == 6 && (exidx > 0 || (andbuf != null && anfrec > 0))
    }

    /** The first record number that the next forward step examines. */
    ghost function StartFrom(): int
      reads this
    {
      if Detached() then anlrec else recnum + 1
    }

    /** Where the cursor stands between calls, by status. */
    ghost predicate CursorOk()
      reads this
    {
      && (status == 4 ==> 0 <= recnum && exfrec <= recnum < exfrec + exnrec && (andbuf != null ==> anfrec <= recnum < anlrec))
      && (status == 5 ==> 0 <= recnum <= exfrec + exnrec && (andbuf != null ==> anlrec == exfrec + exnrec))
      && (status == 6 ==> -1 <= recnum < Total(extents))
      && (Detached() ==> recnum == -1 && (andbuf != null ==> anlrec == exfrec + exnrec))
    }

    /** The walk is in progress, with or without its buffer. */
    ghost predicate WalkOk()
      reads this, hptable, andbuf
    {
      && 4 <= status <= 6 && CursorOk()
      && FileOk(lay, delslot, extents) && ExtentAt(extents, exidx, exfrec, exnrec)
      && V().pat != {} && InSlots(V().pat, lay.slots)
      && (andbuf != null ==> Searching(V()))
      && hidden <= since && StoredVisible(lay, V().pat, stored, hidden)
    }

    ghost predicate Valid()
      reads this, hptable, andbuf
    {
      && 0 <= status <= 6 && FileOk(lay, delslot, extents) && 0 < sxnrec
      && hptable.Length == lay.TableSize() && BufferOk() && InSlots(V().pat, lay.slots)
      && KeysOk(lay, lup, keyMatch, hptable[..])
      && StoredOk(extents, Width(), lay, stored)
      && (status >= 4 ==> WalkOk())
    }

    /** Make sure there is a buffer, and leave it with an empty window at `at` if it is new. */
    method NeedBuffer(at: int) returns (rebuilt: bool)
      requires FileOk(lay, delslot, extents) && ExtentAt(extents, exidx, exfrec, exnrec)
      requires V().pat != {} && InSlots(V().pat, lay.slots)
      requires andbuf != null ==> Searching(V())
      requires 0 <= at && at % 8 == 0
      modifies `andbuf, `anfrec, `anlrec
      ensures rebuilt <==> old(andbuf) == null
      ensures if rebuilt then fresh(andbuf) && anfrec == at == anlrec
              else andbuf == old(andbuf) && anfrec == old(anfrec) && anlrec == old(anlrec)
      ensures Searching(old(V()))
    {
      rebuilt := false;
      if andbuf == null {
        andbuf := new bv8[ANDSIZE];
        anfrec, anlrec := at, at;
        rebuilt := true;
      }
    }

    lemma ForwardStart()
      requires WalkOk() && status != 5
      ensures 0 <= recnum + 1 <= Total(extents)
      ensures andbuf == null ==> (recnum + 1 - (recnum + 1) % 8 < exfrec <==> status == 6 && exidx > 0)
      ensures andbuf != null ==> exfrec <= anlrec <= Total(extents)
      ensures andbuf != null && Detached() ==>
                recnum == -1 && CDiv8(-anfrec) < 0 && anlrec == exfrec + exnrec
      ensures andbuf != null && !Detached() ==> anfrec <= recnum + 1
    {
      hide ExtentOk, Shows, Cand, Live, Pattern;
      StartMono(extents, Width(), exidx + 1, |extents|);
      StartMono(extents, Width(), exidx, exidx + 1);
      StartMono(extents, Width(), 0, exidx);
    }

    /** A forward step from the middle or the beginning of the file. */
    method StepForward() returns (code: int)
      requires WalkOk() && status != 5
      modifies `status, `recnum, `precnum, `exidx, `exfrec, `exnrec, `anfrec, `anlrec, `hidden, `andbuf, andbuf
      ensures andbuf == old(andbuf) || fresh(andbuf)
      ensures hidden <= old(hidden) && V() == old(V()).(hidden := hidden)
      ensures code == FOUND || code == ATEND || code == OUTSIDE
      ensures code == OUTSIDE <==> old(status == 6 && exidx > 0 && andbuf == null)
      ensures code == OUTSIDE ==> status == 0 && BufferOk() && precnum == old(precnum)
      ensures code != OUTSIDE ==> WalkOk()
      ensures code == FOUND ==> status == 4 && precnum == recnum && IsNext(V(), recnum, old(StartFrom()))
      ensures code == ATEND ==> status == 5 && recnum == old(recnum) + 1 && precnum == old(precnum)
      ensures code == ATEND ==> NoneIn(V(), old(StartFrom()), Total(extents))
    {
      hide ExtentOk, Shows, NoneIn, IsNext, Live, Cand, Pattern, Total;
      ForwardStart();
      ghost var from := StartFrom();
      status := 4;
      recnum := recnum + 1;
      var rebuilt := NeedBuffer(recnum - recnum % 8);
      if rebuilt && anfrec < exfrec {
        status := 0;
        return OUTSIDE;
      }
      code := SearchForward(CDiv8(recnum - anfrec), from);
      VisibleStill(lay, V().pat, stored, old(hidden), hidden);
    }

    lemma BackwardStart()
      requires WalkOk() && status != 6 && recnum > 0
      ensures recnum <= exfrec + exnrec <= Total(extents)
      ensures andbuf != null ==> recnum - 1 < anlrec && 0 <= anfrec <= exfrec + exnrec && (anfrec < anlrec || anfrec > 0)
      ensures NoneIn(V(), if andbuf == null then recnum - 1 - (recnum - 1) % 8 + 8 else anlrec, recnum)
      ensures andbuf != null && recnum - 1 >= anfrec ==> CDiv8(recnum - 1 - anfrec) < (anlrec - anfrec) / 8
      ensures recnum - 1 - (recnum - 1) % 8 + 8 <= exfrec + exnrec
    {
      hide ExtentOk, Shows, Cand, Live, Pattern;
      StartMono(extents, Width(), exidx + 1, |extents|);
      StartMono(extents, Width(), exidx, exidx + 1);
      StartMono(extents, Width(), exidx + 1, exidx + 1);
    }

    /** A backward step from record number 0: the beginning of the file, wherever the window is. */
    method StepOff()
      requires WalkOk() && recnum == 0
      modifies `status, `recnum
      ensures WalkOk() && status == 6 && recnum == -1 && (old(status) == 4 ==> !Detached())
    {
      hide ExtentOk, Shows, Live, Cand, Pattern;
      StartMono(extents, Width(), 0, |extents|);
      StartMono(extents, Width(), exidx, exidx);
      if exidx > 0 {
        StartMono(extents, Width(), 0, exidx);
      }
      recnum, status := -1, 6;
    }

    /** A backward step from the middle or the end of the file. */
    method StepBackward() returns (code: int)
      requires WalkOk() && status != 6 && recnum > 0
      modifies `status, `recnum, `precnum, `exidx, `exfrec, `exnrec, `anfrec, `anlrec, `hidden, `andbuf, andbuf
      ensures andbuf == old(andbuf) || fresh(andbuf)
      ensures hidden <= old(hidden) && V() == old(V()).(hidden := hidden)
      ensures WalkOk()
      ensures code == FOUND || code == ATEND
      ensures code == FOUND ==> status == 4 && precnum == recnum && IsPrev(V(), recnum, old(recnum) - 1)
      ensures code == ATEND ==> status == 6 && recnum == old(recnum) - 1 && precnum == old(precnum)
      ensures code == ATEND ==> NoneIn(V(), 0, old(recnum))
    {
      hide ExtentOk, Shows, NoneIn, IsPrev, Live, Cand, Pattern;
      BackwardStart();
      status := 4;
      recnum := recnum - 1;
      var rebuilt := NeedBuffer(recnum - recnum % 8 + 8);
      code := SearchBackward(CDiv8(recnum - anfrec));
      VisibleStill(lay, V().pat, stored, old(hidden), hidden);
    }

    /** Position at the start of the file, for FIRST or for the first step of a new lookup. */
    method Rewind()
      requires Valid() && V().pat != {}
      modifies `status, `recnum, `exidx, `exfrec, `exnrec, `anfrec, `anlrec, `hidden, `since, `andbuf
      ensures status == 4 && recnum == 0 && exidx == 0 && exfrec == 0 && anfrec == 0 && anlrec == 0
      ensures hidden == since == {} && V() == old(V()).(hidden := {}) && Searching(V())
      ensures andbuf == old(andbuf) || fresh(andbuf)
    {
      hide ExtentOk, Live, Cand, Pattern;
      if andbuf == null {
        andbuf := new bv8[ANDSIZE];
      }
      status, recnum, exidx, exfrec, exnrec := 4, 0, 0, 0, extents[0].nrec;
      anfrec, anlrec := 0, 0;
      hidden, since := {}, {};
    }

    /** FIRST. */
    method GoFirst() returns (code: int)
      requires Valid() && V().pat != {}
      modifies `status, `recnum, `precnum, `exidx, `exfrec, `exnrec, `anfrec, `anlrec, `hidden, `since, `andbuf, andbuf
      ensures andbuf == old(andbuf) || fresh(andbuf)
      ensures hidden == since == {} && V() == old(V()).(hidden := {}) && WalkOk()
      ensures code == FOUND || code == ATEND
      ensures code == FOUND ==> status == 4 && precnum == recnum && IsNext(V(), recnum, 0)
      ensures code == ATEND ==> status == 5 && recnum == 0 && precnum == old(precnum) && exidx == |extents| - 1
      ensures code == ATEND ==> NoneIn(V(), 0, Total(extents))
    {
      hide ExtentOk, Shows, NoneIn, IsNext, Live, Cand, Pattern;
      StartMono(extents, Width(), 0, |extents|);
      Rewind();
      code := SearchForward(0, 0);
    }

    /** LAST. */
    method GoLast() returns (code: int)
      requires Valid() && V().pat != {}
      modifies `status, `recnum, `precnum, `exidx, `exfrec, `exnrec, `anfrec, `anlrec, `hidden, `since, `andbuf, andbuf
      ensures andbuf == old(andbuf) || fresh(andbuf)
      ensures hidden == since == {} && V() == old(V()).(hidden := {}) && WalkOk()
      ensures code == FOUND || code == ATEND
      ensures code == FOUND ==> status == 4 && precnum == recnum && IsPrev(V(), recnum, Total(extents) - 1)
      ensures code == ATEND ==> status == 6 && recnum == Total(extents) - 1 && precnum == old(precnum)
      ensures code == ATEND ==> NoneIn(V(), 0, Total(extents))
    {
      hide ExtentOk, Shows, NoneIn, IsPrev, Live, Cand, Pattern;
      var andi := LastWindow();
      code := SearchBackward(andi);
    }

    method LastWindow() returns (andi: int)
      requires Valid() && V().pat != {}
      modifies `status, `recnum, `exidx, `exfrec, `exnrec, `anfrec, `anlrec, `hidden, `since, `andbuf, andbuf
      ensures andbuf == old(andbuf) || fresh(andbuf)
      ensures hidden == since == {} && V() == old(V()).(hidden := {}) && Searching(V())
      ensures status == 4 && 0 <= recnum == Total(extents) - 1 && NoneIn(V(), anlrec, recnum + 1)
      ensures 0 <= exfrec <= anfrec < anlrec == exfrec + exnrec == Total(extents)
      ensures forall r :: On(Window(), r) ==> r / 8 <= andi < |Window()|
    {
      hide ExtentOk, Shows, NoneIn, Live, Cand, Pattern;
      Rewind();
      ToLastExtent();
      andi := FillDown();
      NoneEmpty(V(), anlrec);
    }

    /** Follow the chain to its last extent and take the last window of it. */
    method ToLastExtent()
      requires FileOk(lay, delslot, extents) && ExtentAt(extents, exidx, exfrec, exnrec)
      modifies `recnum, `exidx, `exfrec, `exnrec, `anfrec, `anlrec
      ensures ExtentAt(extents, exidx, exfrec, exnrec) && exidx == |extents| - 1
      ensures recnum == Total(extents) - 1 && 0 <= exfrec <= anfrec < anlrec == exfrec + exnrec == Total(extents)
      ensures anfrec % 8 == 0 && anlrec % 8 == 0 && anlrec - anfrec <= 8 * ANDSIZE
    {
      hide ExtentOk;
      while exidx + 1 < |extents|
        invariant ExtentAt(extents, exidx, exfrec, exnrec)
        decreases |extents| - exidx
      {
        exidx, exfrec := exidx + 1, exfrec + exnrec;
        exnrec := extents[exidx].nrec;
      }
      recnum := exfrec + exnrec - 1;
      if 8 * ANDSIZE >= exnrec {
        anfrec := exfrec;
      } else {
        anfrec := exfrec + exnrec - 8 * ANDSIZE;
      }
      anlrec := anfrec + 8 * ANDSIZE;
      if anlrec > exfrec + exnrec {
        anlrec := exfrec + exnrec;
      }
      StartMono(extents, Width(), exidx, exidx + 1);
      StartMono(extents, Width(), exidx + 1, exidx + 1);
    }

    method PatternEmpty() returns (empty: bool)
      ensures empty <==> V().pat == {}
    {
      var i1 := 0;
      while i1 < hptable.Length && hptable[i1] == 0
        invariant 0 <= i1 <= hptable.Length
        invariant forall i :: 0 <= i < i1 ==> hptable[i] == 0
      {
        i1 := i1 + 1;
      }
      empty := i1 == hptable.Length;
      if empty {
        forall s | 0 <= s < 8 * hptable.Length
          ensures !On(hptable[..], s)
        {
          ZeroByte(hptable[s / 8]);
        }
        assert Pattern(hptable[..]) == {};
      } else {
        ZeroByte(hptable[i1]);
        var k :| 0 <= k < 8 && Bit(hptable[i1], k);
        assert On(hptable[..], 8 * i1 + k);
        assert 8 * i1 + k in Pattern(hptable[..]);
      }
    }

    /** aionext: the next candidate in the direction asked for.

        Unless it answers NOKEY, or meets the one state in which the source reads outside the
        extent, each call moves the cursor to the nearest visible candidate, or reports that there
        is none. */
    method NextRec(flag: Flag) returns (code: int)
      requires Valid()
      modifies `status, `recnum, `precnum, `exidx, `exfrec, `exnrec, `anfrec, `anlrec, `hidden, `since, `andbuf, andbuf
      ensures Valid() && (andbuf == old(andbuf) || fresh(andbuf))
      ensures V() == old(V()).(hidden := hidden)
      ensures code == FOUND || code == ATEND || code == NOKEY || code == OUTSIDE
      ensures code == NOKEY <==> old(status < 3 || (status == 3 && !flag.PREV? && V().pat == {}))
      ensures code == OUTSIDE <==> flag.NEXT? && old(status == 6 && exidx > 0 && andbuf == null)
      ensures code == FOUND ==> status == 4 && precnum == recnum
      ensures code != FOUND ==> precnum == old(precnum)
      // a fresh walk shows every candidate
      ensures flag.FIRST? || flag.LAST? || (flag.NEXT? && old(status) == 3) ==>
                code == NOKEY || (hidden == since == {})
      ensures flag.PREV? || (flag.NEXT? && old(status) > 3) ==> since == old(since) && hidden <= old(hidden)
      // forward
      ensures flag.FIRST? || (flag.NEXT? && old(status) == 3) ==>
                && (code == FOUND ==> IsNext(V(), recnum, 0))
                && (code == ATEND ==>
                    NoneIn(V(), 0, Total(extents)) && status == 5 && recnum == 0 && exidx == |extents| - 1)
      ensures flag.NEXT? && old(status == 4 || status == 6) ==>
                && (code == FOUND ==> IsNext(V(), recnum, old(StartFrom())))
                && (code == ATEND ==>
                    NoneIn(V(), old(StartFrom()), Total(extents)) && status == 5 && recnum == old(recnum) + 1)
      ensures flag.NEXT? && old(status) == 5 ==> code == ATEND && status == 5 && recnum == old(recnum)
      // backward
      ensures flag.LAST? ==>
                && (code == FOUND ==> IsPrev(V(), recnum, Total(extents) - 1))
                && (code == ATEND ==> NoneIn(V(), 0, Total(extents)) && status == 6)
      ensures flag.PREV? && old(status == 4 || status == 5) ==>
                && (code == FOUND ==> IsPrev(V(), recnum, old(recnum) - 1))
                && (code == ATEND ==> NoneIn(V(), 0, old(recnum)) && status == 6 && recnum == old(recnum) - 1)
      ensures flag.PREV? && old(status) == 4 && code == ATEND ==> !Detached()
      ensures flag.PREV? && old(status == 3 || status == 6) ==> code == ATEND && status == old(status)
      ensures flag.PREV? && old(recnum == 0 && status > 3) ==> recnum == -1 && exidx == old(exidx)
    {
      hide ExtentOk, Shows, IsNext, IsPrev, Live, Cand, Pattern, StoredVisible, StoredOk, KeysOk;
      if status < 3 {
        return NOKEY;
      }
      if status == 3 {
        if flag.PREV? {
          return ATEND;
        }
        var empty := PatternEmpty();
        if empty {
          return NOKEY;
        }
      }
      if flag.FIRST? || (flag.NEXT? && status == 3) {
        code := GoFirst();
      } else if flag.LAST? {
        code := GoLast();
      } else if flag.NEXT? {
        if status == 5 {
          return ATEND;
        }
        code := StepForward();
      } else {
        if recnum == 0 {
          StepOff();
          NoneEmpty(V(), 0);
        }
        if status == 6 {
          return ATEND;
        }
        code := StepBackward();
      }
    }

    // --- building a lookup --------------------------------------------------------------------------

    /** aionew. */
    method New()
      requires Valid()
      modifies `status
      ensures Valid() && status == 1
    {
      status := 1;
    }

    /** aiomatch. */
    method SetMatch(c: byte)
      requires Valid()
      modifies `matchchr
      ensures Valid() && matchchr == c
    {
      matchchr := c;
    }

    /** aioxpurge: the allocator takes the AND buffer back between calls. */
    method Purge()
      requires Valid()
      modifies `andbuf
      ensures Valid() && andbuf == null
    {
      andbuf := null;
    }

    /** aiokey: add one key to the lookup, starting a new lookup if aionew came before. */
    method Key(key: seq<byte>) returns (code: int)
      requires Valid()
      modifies `status, `lup, `keyMatch, hptable
      ensures Valid()
      ensures code == 0 || code == ERR_BADKY || code == OUTSIDE
      ensures code == 0 <==> old(1 <= status <= 3) && HeaderOk(lay, key) && TextStart(lay, key) >= 0
      ensures code == OUTSIDE <==> old(1 <= status <= 3) && HeaderOk(lay, key) && TextStart(lay, key) < 0
      ensures code != 0 ==> status == 0
      ensures code == 0 ==> lup == (if old(status) == 1 then [] else old(lup)) + [KeyEntry(lay, key)]
      ensures code == 0 ==> keyMatch == (if old(status) == 1 then [] else old(keyMatch)) + [matchchr]
      ensures code == 0 ==> status == if lay.keys[Field(lay, key)].excluded && old(status) != 3 then 2 else 3
    {
      hide StoredVisible, StoredOk, Cand, Live;
      if status == 0 || status > 3 {
        status := 0;
        return ERR_BADKY;
      }
      if status == 1 {
        ClearTable();
        status := 2;
      }
      if !HeaderOk(lay, key) {
        status := 0;
        return ERR_BADKY;
      }
      if TextStart(lay, key) < 0 {
        status := 0;
        return OUTSIDE;
      }
      var e := KeyEntry(lay, key);
      AddEntry(e, Size(lay, key));
      if !lay.keys[e.key].excluded {
        status := 3;
      }
      return 0;
    }

    /** Forget the previous lookup. */
    method ClearTable()
      requires lay.Valid() && hptable.Length == lay.TableSize()
      modifies `lup, `keyMatch, hptable
      ensures lup == [] && keyMatch == [] && V().pat == {} && KeysOk(lay, lup, keyMatch, hptable[..])
    {
      lup, keyMatch := [], [];
      var i := 0;
      while i < hptable.Length
        invariant 0 <= i <= hptable.Length && lup == [] && keyMatch == []
        invariant forall j :: 0 <= j < i ==> hptable[j] == 0
      {
        hptable[i] := 0;
        i := i + 1;
      }
      forall s | 0 <= s < 8 * hptable.Length
        ensures !On(hptable[..], s)
      {
        ZeroByte(hptable[s / 8]);
      }
      assert Pattern(hptable[..]) == {};
    }

    /** Append an entry to the lookup table and, unless its field is excluded, hash it. */
    method AddEntry(e: Entry, size: nat)
      requires KeysOk(lay, lup, keyMatch, hptable[..]) && hptable.Length == lay.TableSize()
      requires InSlots(V().pat, lay.slots)
      requires lay.EntryOk(e) && 0 < size <= |e.text| && forall i :: size <= i < |e.text| ==> e.text[i] == BLANK
      requires !e.kind.X? ==> size == |e.text|
      modifies `lup, `keyMatch, hptable
      ensures lup == old(lup) + [e] && keyMatch == old(keyMatch) + [matchchr]
      ensures KeysOk(lay, lup, keyMatch, hptable[..]) && InSlots(V().pat, lay.slots)
    {
      lup, keyMatch := lup + [e], keyMatch + [matchchr];
      assert lup[..|lup| - 1] == old(lup) && keyMatch[..|lup| - 1] == old(keyMatch);
      if !lay.keys[e.key].excluded {
        HashKey(lay, e, size, matchchr, hptable);
        KeyPatternInSlots(lay, e, matchchr);
      }
    }

    /** The caller stores a record number where the index can see it. */
    method SetRecord(n: int)
      requires Valid()
      modifies `precnum
      ensures Valid() && precnum == n
    {
      precnum := n;
    }

    // --- inserting ----------------------------------------------------------------------------------

    ghost predicate WindowHas(n: int)
      reads `status, `andbuf, `anfrec, `anlrec
    {
      status > 3 && andbuf != null && anfrec <= n < anlrec
    }

    /** The end of aioinsert: turn the record on in the AND buffer if the record is inside the window
        and its slots cover those of the lookup. */
    method UpdateBuffer(table: array<bv8>, n: int) returns (ghost shown: bool)
      requires andbuf != null ==> andbuf.Length == ANDSIZE && andbuf != hptable && andbuf != table
      requires hptable.Length == table.Length
      requires status > 3 && andbuf != null ==>
                 0 <= anfrec && anfrec % 8 == 0 && 0 <= anlrec - anfrec <= 8 * ANDSIZE && anlrec == anfrec + 8 * |Window()|
      modifies andbuf
      ensures WindowHas(n) ==> shown == On(Window(), n - anfrec)
      ensures status > 3 && andbuf != null ==>
                && |Window()| == |old(Window())|
                && forall r :: 0 <= r < 8 * |Window()| ==>
                     (On(Window(), r) <==> old(On(Window(), r)) || (Pattern(hptable[..]) <= Pattern(table[..]) && r == n - anfrec))
    {
      hide Pattern, On;
      shown := false;
      if status > 3 && andbuf != null && anfrec <= n < anlrec {
        var covers := CoversTable(hptable, table);
        if covers {
          TurnOn(andbuf, (anlrec - anfrec) / 8, n - anfrec, n % 8);
        }
        shown := On(Window(), n - anfrec);
      }
    }

    /** A walk in progress survives the insertion: v and `window` are what it saw before. */
    lemma CommitWalk(v: View, window: seq<bv8>, before: set<(int, seq<byte>)>, n: int, buf: seq<byte>, shown: bool)
      requires lay.Valid() && ChainOk(v.exts, v.width) && ChainOk(extents, v.width)
      requires V() == View(extents, v.width, v.pat,
                 HiddenAfter(v.hidden, n, WindowHas(n), shown, v.pat <= lay.RecordPattern(buf)))
      requires FileGains(v.exts, extents, v.width, lay.RecordPattern(buf), n, Total(extents))
      requires |v.exts| <= |extents| && forall i :: 0 <= i < |v.exts| ==> extents[i].nrec == v.exts[i].nrec
      requires ExtentAt(v.exts, exidx, exfrec, exnrec) && status > 3
      requires StoredOk(v.exts, v.width, lay, before) && StoredVisible(lay, v.pat, before, v.hidden)
      requires andbuf != null ==>
                 && andbuf.Length == ANDSIZE && 0 <= anlrec - anfrec <= 8 * ANDSIZE
                 && WindowOk(v, exfrec, exfrec + exnrec, anfrec, anlrec, window) && |Window()| == |window|
                 && (WindowHas(n) ==> shown == On(Window(), n - anfrec))
                 && (forall r :: 0 <= r < 8 * |window| ==>
                       (On(Window(), r) <==> On(window, r) || (v.pat <= lay.RecordPattern(buf) && r == n - anfrec)))
      ensures ExtentAt(extents, exidx, exfrec, exnrec) && Total(v.exts) <= Total(extents)
      ensures StoredVisible(lay, v.pat, before + {(n, buf)}, hidden)
      ensures hidden <= v.hidden + {n} && (v.pat <= lay.RecordPattern(buf) ==> n !in hidden)
      ensures andbuf != null ==> WindowOk(V(), exfrec, exfrec + exnrec, anfrec, anlrec, Window())
    {
      hide ExtentOk, Shows, StoredVisible, StoredOk, At, Cand, Live, FileGains, On;
      ghost var rec := lay.RecordPattern(buf);
      HiddenBounds(v.hidden, n, WindowHas(n), shown, v.pat <= rec);
      ExtentStill(v.exts, extents, v.width, exidx, exfrec, exnrec);
      VisibleAfterInsert(lay, v, before, window, anfrec, n, buf, WindowHas(n), shown);
      if andbuf != null {
        if anfrec < anlrec {
          GainsNarrower(v.exts, extents, v.width, rec, n, Total(extents), anlrec);
          ShowsAfterInsert(v, V(), window, Window(), anfrec, rec, n);
        } else {
          ShowsEmpty(V(), Window(), anfrec);
        }
      }
    }

    /** Take over the file `exts'` that holds the record, and bring the AND buffer up to date. */
    method Take(exts': seq<Extent>, table: array<bv8>, n: int, ghost buf: seq<byte>) returns (ghost shown: bool)
      requires Valid() && table != hptable && table != andbuf && table.Length == hptable.Length
      requires Pattern(table[..]) == lay.RecordPattern(buf)
      modifies `extents, `stored, `hidden, `since, andbuf
      ensures extents == exts' && stored == old(stored) + {(n, buf)} && since == old(since) + {n}
      ensures V() == View(exts', Width(), old(V().pat),
                HiddenAfter(old(hidden), n, WindowHas(n), shown, old(V().pat) <= lay.RecordPattern(buf)))
      ensures andbuf == old(andbuf) && anfrec == old(anfrec) && anlrec == old(anlrec) && status == old(status)
      ensures status > 3 && andbuf != null ==>
                && andbuf.Length == ANDSIZE && 0 <= anlrec - anfrec <= 8 * ANDSIZE && |Window()| == |old(Window())|
                && forall r :: 0 <= r < 8 * |Window()| ==>
                     (On(Window(), r) <==> old(On(Window(), r)) || (old(V().pat) <= lay.RecordPattern(buf) && r == n - anfrec))
      ensures status > 3 && andbuf != null && WindowHas(n) ==> shown == On(Window(), n - anfrec)
    {
      hide ExtentOk, Shows, StoredVisible, StoredOk, KeysOk, At, Cand, Live, FileGains, On, Pattern, HiddenAfter;
      ghost var v, rec := V(), lay.RecordPattern(buf);
      shown := UpdateBuffer(table, n);
      extents := exts';
      stored, since := stored + {(n, buf)}, since + {n};
      hidden := HiddenAfter(v.hidden, n, WindowHas(n), shown, v.pat <= rec);
    }

    /** Store a record whose bits are in the file `exts'`. */
    method Commit(exts': seq<Extent>, table: array<bv8>, n: int, ghost buf: seq<byte>)
      requires Valid() && lay.Covers(buf)
      requires table != hptable && table != andbuf && table.Length == hptable.Length
      requires Pattern(table[..]) == lay.RecordPattern(buf)
      requires ChainOk(exts', Width()) && 0 <= n < Total(exts') && Total(extents) <= Total(exts')
      requires |extents| <= |exts'| && forall i :: 0 <= i < |extents| ==> exts'[i].nrec == extents[i].nrec
      requires FileGains(extents, exts', Width(), lay.RecordPattern(buf), n, Total(exts'))
      modifies `extents, `stored, `hidden, `since, andbuf
      ensures Valid() && extents == exts' && stored == old(stored) + {(n, buf)} && since == old(since) + {n}
      ensures hidden <= old(hidden) + {n}
      ensures V().pat == old(V().pat) && (V().pat <= lay.RecordPattern(buf) ==> n !in hidden)
    {
      hide ExtentOk, Shows, StoredVisible, StoredOk, KeysOk, At, Cand, Live, FileGains, On, Pattern, HiddenAfter;
      ghost var v := V();
      ghost var window := if status > 3 && andbuf != null then Window() else [];
      ghost var shown := Take(exts', table, n, buf);
      StoredAfter(v.exts, exts', Width(), lay, old(stored), n, buf);
      if status > 3 {
        CommitWalk(v, window, old(stored), n, buf, shown);
      } else {
        HiddenBounds(v.hidden, n, false, shown, v.pat <= lay.RecordPattern(buf));
      }
    }

    /** A record number past the end of the extent appended for it: the file has grown, but whatever
        bits were set belong to the new extent. */
    method CommitMisplaced(exts': seq<Extent>, ghost n: int)
      requires Valid() && ChainOk(exts', Width())
      requires |extents| <= |exts'| && forall i :: 0 <= i < |extents| ==> exts'[i].nrec == extents[i].nrec
      requires FileGains(extents, exts', Width(), {}, n, Total(extents))
      modifies `extents
      ensures Valid() && extents == exts'
    {
      hide ExtentOk, Shows, StoredVisible, StoredOk, KeysOk, At, Cand, Live, FileGains, On, Pattern;
      ghost var v := V();
      StoredStill(v.exts, exts', Width(), lay, stored, {}, n);
      extents := exts';
      if status > 3 {
        ExtentStill(v.exts, exts', Width(), exidx, exfrec, exnrec);
        if andbuf != null && anfrec < anlrec {
          GainsNarrower(v.exts, exts', Width(), {}, n, Total(v.exts), anlrec);
          GainsNobody(v.exts, exts', Width(), n, anlrec);
          ShowsAfterInsert(v, V(), Window(), Window(), anfrec, {}, -1);
        } else if andbuf != null {
          ShowsEmpty(V(), Window(), anfrec);
        }
      }
    }

    /** aioinsert: file the record `buf` under the record number shared with the caller.

        If the number fits (see AimInsert.Fits) its bits are set in exactly the slots of the record
        and no other bit of the file changes; a walk in progress goes on showing every stored record
        that its lookup pattern selects. */
    method Insert(buf: seq<byte>) returns (code: int)
      requires Valid() && lay.Covers(buf) && 0 <= precnum
      modifies `extents, `stored, `hidden, `since, andbuf
      ensures Valid()
      ensures code == 0 || code == ERR_BADIX
      ensures Total(extents) == TotalAfter(old(extents), sxnrec, precnum)
      ensures |extents| == |old(extents)| + if precnum < Total(old(extents)) then 0 else 1
      ensures Fits(old(extents), sxnrec, precnum) ==>
                && code == 0 && precnum < Total(extents)
                && FileGains(old(extents), extents, Width(), lay.RecordPattern(buf), precnum, Total(extents))
                && stored == old(stored) + {(precnum, buf)}
                && since == old(since) + {precnum} && hidden <= old(hidden) + {precnum}
                && (V().pat <= lay.RecordPattern(buf) ==> precnum !in hidden)
      ensures !Fits(old(extents), sxnrec, precnum) ==>
                && FileGains(old(extents), extents, Width(), {}, precnum, Total(old(extents)))
                && stored == old(stored) && since == old(since) && hidden == old(hidden)
    {
      hide ExtentOk, Shows, StoredVisible, StoredOk, KeysOk, At, Cand, Live, FileGains, On, Pattern, Searching, WalkOk;
      var table := HashRecord(lay, buf);
      RecordPatternInSlots(lay, buf, |lay.keys|);
      var n := precnum;
      var exts', ok := PlaceBits(extents, Width(), sxnrec, table, n);
      if Fits(extents, sxnrec, n) {
        Commit(exts', table, n, buf);
      } else {
        CommitMisplaced(exts', n);
      }
      return if ok then 0 else ERR_BADIX;
    }
  }
}

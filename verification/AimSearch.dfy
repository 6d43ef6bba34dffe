/** Using the index (aio.c) the way its callers do: a whole walk in each direction, a walk during
    which records are inserted, and the search that the exact test completes. */
module AimSearch {
  import opened Bytes
  import opened AimFile
  import opened AimHash
  import opened AimView
  import opened AimKey
  import opened AimInsert
  import opened AimIndex

  ghost predicate Decreasing(s: seq<int>) {
    forall i, j :: 0 <= i < j < |s| ==> s[i] > s[j]
  }

  ghost predicate Candidate(v: View, n: int)
    requires ChainOk(v.exts, v.width)
  {
    Cand(v.exts, v.width, v.pat, n)
  }

  /** `found` lists the candidates below `lim`. */
  ghost predicate ListsBelow(v: View, found: seq<int>, lim: int)
    requires ChainOk(v.exts, v.width)
  {
    Increasing(found) && forall n :: n in found <==> Candidate(v, n) && n < lim
  }

  /** `found` lists the candidates above `lim`, highest first. */
  ghost predicate ListsAbove(v: View, found: seq<int>, lim: int)
    requires ChainOk(v.exts, v.width)
  {
    Decreasing(found) && forall n :: n in found <==> Candidate(v, n) && n > lim
  }

  lemma ListsNoneBelow(v: View, lim: int)
    requires ChainOk(v.exts, v.width) && v.hidden == {} && NoneIn(v, 0, lim)
    ensures ListsBelow(v, [], lim)
  {
    hide At, ExtentOk;
    forall n
      ensures !(Candidate(v, n) && n < lim)
    {
      if 0 <= n < lim {
        assert !Live(v, n);
      }
    }
  }

  lemma ListsNoneAbove(v: View, lim: int)
    requires ChainOk(v.exts, v.width) && v.hidden == {} && NoneIn(v, lim + 1, Total(v.exts))
    ensures ListsAbove(v, [], lim)
  {
    hide At, ExtentOk;
    forall n
      ensures !(Candidate(v, n) && n > lim)
    {
      if lim < n < Total(v.exts) {
        assert !Live(v, n);
      }
    }
  }

  /** One more candidate listed, and none between it and the new limit. */
  lemma ListsMore(v: View, found: seq<int>, n: int, lim: int)
    requires ChainOk(v.exts, v.width) && v.hidden == {} && ListsBelow(v, found, n)
    requires Live(v, n) && n < lim && NoneIn(v, n + 1, lim)
    ensures ListsBelow(v, found + [n], lim)
  {
    hide Cand, ExtentOk;
    forall k
      ensures k in found + [n] <==> Candidate(v, k) && k < lim
    {
      if n < k < lim {
        assert !Live(v, k);
      }
    }
    forall i, j | 0 <= i < j < |found + [n]|
      ensures (found + [n])[i] < (found + [n])[j]
    {
      assert found[i] in found;
    }
  }

  lemma ListsMoreDown(v: View, found: seq<int>, n: int, lim: int)
    requires ChainOk(v.exts, v.width) && v.hidden == {} && ListsAbove(v, found, n)
    requires Live(v, n) && lim < n && NoneIn(v, lim + 1, n)
    ensures ListsAbove(v, found + [n], lim)
  {
    hide Cand, ExtentOk;
    forall k
      ensures k in found + [n] <==> Candidate(v, k) && k > lim
    {
      if lim < k < n {
        assert !Live(v, k);
      }
    }
    forall i, j | 0 <= i < j < |found + [n]|
      ensures (found + [n])[i] > (found + [n])[j]
    {
      assert found[i] in found;
    }
  }

  lemma ListsAll(v: View, found: seq<int>)
    requires ChainOk(v.exts, v.width)
    ensures ListsBelow(v, found, Total(v.exts)) ==> forall n :: n in found <==> Candidate(v, n)
    ensures ListsAbove(v, found, -1) ==> forall n :: n in found <==> Candidate(v, n)
  {
    hide At, ExtentOk;
  }

  /** WALK EXACTNESS, upward: FIRST and then NEXT until the end visits exactly the record numbers
      whose bit is set in every slot of the lookup, each once and in increasing order, whether or
      not the allocator takes the AND buffer away between calls. */
  method CollectForward(ix: Index) returns (found: seq<int>)
    requires ix.Valid() && ix.status >= 3 && ix.V().pat != {}
    modifies ix, ix.andbuf
    ensures ix.Valid() && ix.V() == old(ix.V()).(hidden := {})
    ensures ix.stored == old(ix.stored) && ix.lup == old(ix.lup) && ix.keyMatch == old(ix.keyMatch)
    ensures ix.andbuf == old(ix.andbuf) || ix.andbuf == null || fresh(ix.andbuf)
    ensures ix.matchchr == old(ix.matchchr)
    ensures Increasing(found)
    ensures forall n :: n in found <==> Candidate(ix.V(), n)
    ensures ix.status == 5 && ix.recnum == if found == [] then 0 else found[|found| - 1] + 1
  {
    hide Live, Cand, ExtentOk, StoredOk, KeysOk, NoneIn, Index.Searching, Index.WalkOk, Pattern,
      ListsBelow, Candidate;
    found := [];
    var code := ix.NextRec(FIRST);
    ghost var v := ix.V();
    ghost var lim := if code == FOUND then ix.recnum else Total(v.exts);
    ListsNoneBelow(v, lim);
    while code == FOUND
      invariant ix.Valid() && ix.V() == v && v.hidden == {}
      invariant ix.stored == old(ix.stored) && ix.lup == old(ix.lup) && ix.keyMatch == old(ix.keyMatch)
      invariant ix.matchchr == old(ix.matchchr)
      invariant ix.andbuf == old(ix.andbuf) || ix.andbuf == null || fresh(ix.andbuf)
      invariant code == FOUND || code == ATEND
      invariant lim == if code == FOUND then ix.recnum else Total(v.exts)
      invariant code == FOUND ==> ix.status == 4 && Live(v, ix.recnum)
      invariant ListsBelow(v, found, lim)
      invariant code == ATEND ==> ix.status == 5 && ix.recnum == if found == [] then 0 else found[|found| - 1] + 1
      decreases code == FOUND, Total(v.exts) - ix.recnum
    {
      var n := ix.recnum;
      if * {
        ix.Purge();
      }
      code := ix.NextRec(NEXT);
      lim := if code == FOUND then ix.recnum else Total(v.exts);
      assert ix.hidden == {} && ix.V() == v;
      LiveInside(v, n);
      ListsMore(v, found, n, lim);
      found := found + [n];
    }
    ListsAll(v, found);
    ListsOrder(v, found, lim);
  }

  lemma LiveInside(v: View, n: int)
    requires ChainOk(v.exts, v.width) && Live(v, n)
    ensures 0 <= n < Total(v.exts)
  {
  }

  lemma ListsOrder(v: View, found: seq<int>, lim: int)
    requires ChainOk(v.exts, v.width)
    ensures ListsBelow(v, found, lim) ==> Increasing(found)
    ensures ListsAbove(v, found, lim) ==> Decreasing(found)
  {
    hide Candidate;
  }

  /** WALK EXACTNESS, downward: LAST and then PREV until the beginning visits the same record
      numbers in decreasing order. */
  method CollectBackward(ix: Index) returns (found: seq<int>)
    requires ix.Valid() && ix.status >= 3 && ix.V().pat != {}
    modifies ix, ix.andbuf
    ensures ix.Valid() && ix.V() == old(ix.V()).(hidden := {})
    ensures ix.stored == old(ix.stored) && ix.lup == old(ix.lup) && ix.keyMatch == old(ix.keyMatch)
    ensures ix.andbuf == old(ix.andbuf) || ix.andbuf == null || fresh(ix.andbuf)
    ensures ix.matchchr == old(ix.matchchr)
    ensures Decreasing(found)
    ensures forall n :: n in found <==> Candidate(ix.V(), n)
    ensures ix.status == 6 && (found != [] ==> ix.recnum == found[|found| - 1] - 1 && !ix.Detached())
  {
    hide Live, Cand, ExtentOk, StoredOk, KeysOk, NoneIn, Index.Searching, Index.WalkOk, Pattern,
      ListsAbove, Candidate;
    found := [];
    var code := ix.NextRec(LAST);
    ghost var v := ix.V();
    ghost var lim := if code == FOUND then ix.recnum else -1;
    ListsNoneAbove(v, lim);
    while code == FOUND
      invariant ix.Valid() && ix.V() == v && v.hidden == {}
      invariant ix.stored == old(ix.stored) && ix.lup == old(ix.lup) && ix.keyMatch == old(ix.keyMatch)
      invariant ix.matchchr == old(ix.matchchr)
      invariant ix.andbuf == old(ix.andbuf) || ix.andbuf == null || fresh(ix.andbuf)
      invariant code == FOUND || code == ATEND
      invariant lim == if code == FOUND then ix.recnum else -1
      invariant code == FOUND ==> ix.status == 4 && Live(v, ix.recnum)
      invariant ListsAbove(v, found, lim)
      invariant code == ATEND ==> ix.status == 6 && (found != [] ==> ix.recnum == found[|found| - 1] - 1 && !ix.Detached())
      decreases code == FOUND, ix.recnum
    {
      var n := ix.recnum;
      if * {
        ix.Purge();
      }
      LiveInside(v, n);
      code := ix.NextRec(PREV);
      lim := if code == FOUND then ix.recnum else -1;
      assert ix.hidden == {} && ix.V() == v;
      ListsMoreDown(v, found, n, lim);
      found := found + [n];
    }
    ListsAll(v, found);
    ListsOrder(v, found, lim);
  }

  /** Turning at the end: after a whole walk upward has reported the end of the file, the first step down is to the last match,
      if there is one, whether or not the buffer has been taken away. */
  method TurnAtEnd(ix: Index) returns (found: seq<int>, code: int)
    requires ix.Valid() && ix.status >= 3 && ix.V().pat != {}
    modifies ix, ix.andbuf
    ensures ix.Valid() && Increasing(found) && forall n :: n in found <==> Candidate(ix.V(), n)
    ensures if found == [] then code == ATEND else code == FOUND && ix.precnum == ix.recnum == found[|found| - 1]
  {
    hide Live, Cand, ExtentOk, StoredOk, KeysOk, Index.Searching, Index.WalkOk, Pattern, Candidate, Increasing, NoneIn, IsPrev;
    found := CollectForward(ix);
    ghost var v := ix.V();
    if * {
      ix.Purge();
    }
    code := ix.NextRec(PREV);
    assert ix.V() == v;
    if found != [] {
      var n := found[|found| - 1];
      assert n in found && Candidate(v, n);
      CandInside(v, n);
      if code == FOUND {
        LastIs(v, ix.recnum, n);
      } else {
        NotNone(v, 0, n + 1, n);
        assert false;
      }
    } else if code == FOUND {
      PrevCandidate(v, ix.recnum, -1);
      assert false;
    }
  }

  /** Turning at the beginning: after a whole walk downward, the first step up is to the first match. */
  method TurnAtBeginning(ix: Index) returns (found: seq<int>, code: int)
    requires ix.Valid() && ix.status >= 3 && ix.V().pat != {}
    modifies ix, ix.andbuf
    ensures ix.Valid() && Decreasing(found) && forall n :: n in found <==> Candidate(ix.V(), n)
    ensures found != [] ==> code == FOUND && ix.precnum == ix.recnum == found[|found| - 1]
  {
    hide Live, Cand, ExtentOk, StoredOk, KeysOk, Index.Searching, Index.WalkOk, Pattern, Candidate, Decreasing, NoneIn, IsNext;
    found := CollectBackward(ix);
    ghost var v := ix.V();
    if * {
      ix.Purge();
    }
    code := ix.NextRec(NEXT);
    assert ix.V() == v;
    if found != [] {
      var n := found[|found| - 1];
      assert n in found && Candidate(v, n);
      CandInside(v, n);
      if code == FOUND {
        FirstIs(v, ix.recnum, n);
      } else {
        NotNone(v, n, Total(v.exts), n);
        assert false;
      }
    }
  }

  lemma NotNone(v: View, lo: int, hi: int, n: int)
    requires ChainOk(v.exts, v.width) && v.hidden == {} && Candidate(v, n) && lo <= n < hi
    ensures !NoneIn(v, lo, hi)
  {
    assert Live(v, n);
  }

  lemma CandInside(v: View, n: int)
    requires ChainOk(v.exts, v.width) && Candidate(v, n)
    ensures 0 <= n < Total(v.exts)
  {
  }

  lemma LastIs(v: View, r: int, n: int)
    requires ChainOk(v.exts, v.width) && v.hidden == {} && Candidate(v, n) && IsPrev(v, r, n)
    ensures r == n
  {
    assert Live(v, n);
  }

  lemma FirstIs(v: View, r: int, n: int)
    requires ChainOk(v.exts, v.width) && v.hidden == {} && Candidate(v, n) && IsNext(v, r, n)
    ensures r == n
  {
    assert Live(v, n);
  }

  lemma PrevCandidate(v: View, r: int, to: int)
    requires ChainOk(v.exts, v.width) && IsPrev(v, r, to)
    ensures Candidate(v, r) && 0 <= r <= to
  {
  }

  /** The slots of the lookup are among those of a stored record that the exact test accepts. */
  lemma StoredCandidate(ix: Index, p: (int, seq<byte>), k: nat)
    requires ix.Valid() && ix.lay.BlankFixed() && p in ix.stored
    requires forall i :: 0 <= i < |ix.keyMatch| ==> ix.keyMatch[i] == ix.matchchr
    requires k <= |p.1| && forall i :: k <= i < |p.1| ==> p.1[i] == BLANK
    requires ix.lay.AcceptsAll(ix.lup, ix.matchchr, p.1[..k])
    ensures ix.V().pat <= ix.lay.RecordPattern(p.1) && Candidate(ix.V(), p.0)
  {
    hide ExtentOk, Cand, IsFiled, Index.WalkOk, Pattern;
    PatternCovered(ix.lay, ix.lup, ix.keyMatch, ix.matchchr, p.1[..k], p.1);
    FiledCand(ix.extents, ix.Width(), ix.lay, p.0, p.1, ix.V().pat);
  }

  /** Stored record p, taken as its first k characters with only blanks after them, satisfies the
      current lookup. */
  ghost predicate Wanted(ix: Index, p: (int, seq<byte>), k: nat)
    reads ix
  {
    && ix.lay.TableOk(ix.lup) && |ix.lay.casemap| == 256
    && p in ix.stored && k <= |p.1| && (forall i :: k <= i < |p.1| ==> p.1[i] == BLANK)
    && ix.lay.AcceptsAll(ix.lup, ix.matchchr, p.1[..k])
  }

  /** NO FALSE NEGATIVES, end to end: every record ever inserted that the exact test accepts for the
      current lookup is visited by the walk. A record is given as its first k characters, the rest of
      the inserted buffer being blank; the match character has not changed since the keys were given. */
  method FindAll(ix: Index) returns (found: seq<int>)
    requires ix.Valid() && ix.status >= 3 && ix.V().pat != {} && ix.lay.BlankFixed()
    requires forall i :: 0 <= i < |ix.keyMatch| ==> ix.keyMatch[i] == ix.matchchr
    modifies ix, ix.andbuf
    ensures ix.Valid() && ix.stored == old(ix.stored) && ix.lup == old(ix.lup) && ix.matchchr == old(ix.matchchr)
    ensures Increasing(found)
    ensures forall p, k: nat :: Wanted(ix, p, k) ==> p.0 in found
  {
    hide Cand, Live, ExtentOk, Index.Searching, Index.WalkOk, Pattern, Candidate;
    found := CollectForward(ix);
    forall p, k: nat | Wanted(ix, p, k)
      ensures p.0 in found
    {
      StoredCandidate(ix, p, k);
    }
  }

  /** Every covered record of `before` has been listed, or is still ahead of the cursor. */
  ghost predicate Seen(lay: Layout, pat: set<int>, before: set<(int, seq<byte>)>, found: seq<int>, lim: int)
    requires lay.Valid()
  {
    forall p :: p in before && pat <= lay.RecordPattern(p.1) ==> p.0 in found || p.0 >= lim
  }

  /** In the middle of a walk, a stored record whose slots cover the lookup is visible. */
  lemma StoredLive(ix: Index, p: (int, seq<byte>))
    requires ix.Valid() && ix.status >= 4 && p in ix.stored
    requires ix.V().pat <= ix.lay.RecordPattern(p.1)
    ensures ChainOk(ix.V().exts, ix.V().width) && Live(ix.V(), p.0)
  {
    hide ExtentOk, Cand, IsFiled, KeysOk, Pattern, Index.Searching;
    FiledCand(ix.extents, ix.Width(), ix.lay, p.0, p.1, ix.V().pat);
  }

  lemma FiledCand(exts: seq<Extent>, width: int, lay: Layout, n: int, buf: seq<byte>, pat: set<int>)
    requires ChainOk(exts, width) && lay.Valid() && IsFiled(exts, width, lay, n, buf)
    requires pat <= lay.RecordPattern(buf)
    ensures Cand(exts, width, pat, n)
  {
    hide ExtentOk, At;
  }

  lemma SeenStep(ix: Index, before: set<(int, seq<byte>)>, found: seq<int>, n: int, lim: int)
    requires ix.Valid() && ix.status >= 4 && before <= ix.stored
    requires Seen(ix.lay, ix.V().pat, before, found, n) && NoneIn(ix.V(), n + 1, lim)
    ensures Seen(ix.lay, ix.V().pat, before, found + [n], lim)
  {
    hide Live, Index.WalkOk, Pattern;
    forall p | p in before && ix.V().pat <= ix.lay.RecordPattern(p.1)
      ensures p.0 in found + [n] || p.0 >= lim
    {
      StoredLive(ix, p);
    }
  }

  lemma SeenStart(ix: Index, before: set<(int, seq<byte>)>, lim: int)
    requires ix.Valid() && ix.status >= 4 && before <= ix.stored && NoneIn(ix.V(), 0, lim)
    ensures Seen(ix.lay, ix.V().pat, before, [], lim)
  {
    hide Live, Index.WalkOk, Pattern;
    forall p | p in before && ix.V().pat <= ix.lay.RecordPattern(p.1)
      ensures p.0 >= lim
    {
      StoredLive(ix, p);
      LiveInside(ix.V(), p.0);
    }
  }

  lemma SeenEnd(ix: Index, before: set<(int, seq<byte>)>, found: seq<int>)
    requires ix.Valid() && ix.status >= 4 && before <= ix.stored
    requires Seen(ix.lay, ix.V().pat, before, found, Total(ix.extents))
    ensures forall p :: p in before && ix.V().pat <= ix.lay.RecordPattern(p.1) ==> p.0 in found
  {
    hide Live, Index.WalkOk, Pattern;
    forall p | p in before && ix.V().pat <= ix.lay.RecordPattern(p.1)
      ensures p.0 in found
    {
      StoredLive(ix, p);
      LiveInside(ix.V(), p.0);
    }
  }

  method InsertAt(ix: Index, n: int, buf: seq<byte>)
    requires ix.Valid() && 0 <= n && ix.lay.Covers(buf)
    modifies ix, ix.andbuf
    ensures ix.Valid() && ix.V().pat == old(ix.V().pat) && old(ix.stored) <= ix.stored
    ensures ix.status == old(ix.status) && ix.recnum == old(ix.recnum) && ix.andbuf == old(ix.andbuf)
    ensures Total(ix.extents) >= old(Total(ix.extents)) && (ix.status == 4 ==> !ix.Detached())
  {
    hide Live, Cand, At, ExtentOk, FileGains, StoredOk, KeysOk, Index.Searching, Index.WalkOk, Pattern;
    ix.SetRecord(n);
    var _ := ix.Insert(buf);
  }

  /** A walk during which the caller inserts records, one of the script after each step, anywhere in
      the file: it still goes upward, and visits every record that was stored before it began and
      whose slots cover the lookup. */
  method SearchWhileInserting(ix: Index, script: seq<(int, seq<byte>)>) returns (found: seq<int>)
    requires ix.Valid() && ix.status >= 3 && ix.V().pat != {}
    requires forall i :: 0 <= i < |script| ==> 0 <= script[i].0 && ix.lay.Covers(script[i].1)
    modifies ix, ix.andbuf
    ensures ix.Valid() && ix.V().pat == old(ix.V().pat)
    ensures Increasing(found)
    ensures forall p :: p in old(ix.stored) && ix.V().pat <= ix.lay.RecordPattern(p.1) ==> p.0 in found
  {
    hide Live, Cand, At, ExtentOk, FileGains, StoredOk, KeysOk, NoneIn, Index.Searching, Index.WalkOk, Pattern,
      Increasing, Seen;
    found := [];
    ghost var before, pat := ix.stored, ix.V().pat;
    var next := 0;
    var code := ix.NextRec(FIRST);
    assert Increasing(found) by { IncreasingNone(); }
    ghost var lim := if code == FOUND then ix.recnum else Total(ix.extents);
    SeenStart(ix, before, lim);
    if code == FOUND {
      LiveInside(ix.V(), ix.recnum);
    }
    while code == FOUND
      invariant ix.Valid() && ix.V().pat == pat && before <= ix.stored && ix.status >= 4
      invariant ix.andbuf == old(ix.andbuf) || ix.andbuf == null || fresh(ix.andbuf)
      invariant code == FOUND || code == ATEND
      invariant code == FOUND ==> ix.status == 4 && ix.recnum < Total(ix.extents)
      invariant lim == if code == FOUND then ix.recnum else Total(ix.extents)
      invariant Increasing(found) && (code == FOUND ==> forall k :: k in found ==> k < ix.recnum)
      invariant Seen(ix.lay, pat, before, found, lim)
      invariant 0 <= next <= |script|
      decreases code == FOUND, |script| - next, Total(ix.extents) - ix.recnum
    {
      var n := ix.recnum;
      IncreasingMore(found, n);
      if next < |script| {
        InsertAt(ix, script[next].0, script[next].1);
        next := next + 1;
      }
      code := ix.NextRec(NEXT);
      lim := if code == FOUND then ix.recnum else Total(ix.extents);
      SeenStep(ix, before, found, n, lim);
      if code == FOUND {
        LiveInside(ix.V(), ix.recnum);
      }
      found := found + [n];
    }
    SeenEnd(ix, before, found);
  }

  /** One slot per character, enough to tell the letters apart. */
  const LETTERS := Layout(199, [KeyDef(0, 1, false)], true, seq<byte>(256, _ => BLANK))

  lemma LettersPatterns()
    ensures LETTERS.Valid() && LETTERS.BlankFixed() && LETTERS.Covers([65])
    ensures LETTERS.RecordPattern([65]) == {197}
    ensures HeaderOk(LETTERS, [48, 49, 88, 66]) && TextStart(LETTERS, [48, 49, 88, 66]) == 3
    ensures KeyEntry(LETTERS, [48, 49, 88, 66]) == Entry(X, 0, [66])
    ensures LETTERS.TablePattern([Entry(X, 0, [66])], [63]) == {198}
  {
    var key: seq<byte> := [48, 49, 88, 66];
    assert FieldNumber(key) == 1 && Size(LETTERS, key) == 1;
    assert Text(LETTERS, key)[0] == LETTERS.Fold(key[3 + 0]);
    assert KeyEntry(LETTERS, key).text == [66];
    var f := LETTERS.Field([65], LETTERS.keys[0]);
    FieldAt(LETTERS, [65], LETTERS.keys[0], 0);
    assert f == [65];
    assert LETTERS.FieldPattern(0, f) == {LETTERS.Hash(0, 31, 65)};
    assert LETTERS.RecordPatternTo([65], 0) == {};
    assert LETTERS.RecordPatternTo([65], 1) == {197};
    var e := Entry(X, 0, [66]);
    assert LETTERS.KeyPattern(e, 63) == {LETTERS.Hash(0, 31, 66)};
    assert [e][..0] == [];
    assert LETTERS.TablePattern([], []) == {};
  }

  lemma LookupPattern(ix: Index)
    requires ix.Valid()
    ensures ix.lay.TableOk(ix.lup) && |ix.keyMatch| == |ix.lup|
    ensures ix.V().pat == ix.lay.TablePattern(ix.lup, ix.keyMatch)
  {
    hide ExtentOk, StoredOk, Index.WalkOk, Pattern;
  }

  /** An index of two extents that holds one record, "A". */
  method OneRecord() returns (ix: Index)
    ensures fresh(ix) && fresh(ix.hptable) && ix.Valid() && |ix.extents| == 2 && ix.andbuf == null
    ensures ix.lay == LETTERS && ix.delslot == 0 && ix.matchchr == 63
    ensures forall q :: !Cand(ix.extents, 199, {198}, q)
  {
    hide ExtentOk, Shows, KeysOk, At, Cand, Live, Index.Searching, Index.WalkOk;
    LettersPatterns();
    ix := new Index(LETTERS, 0, 8, 32, 63);
    ghost var empty := ix.extents;
    ix.SetRecord(8);
    var _ := ix.Insert([65]);
    OnlySlot(empty, ix.extents, 199, {198}, 198, 197, 8);
  }

  /** The same index with a lookup for "B", which matches nothing in it. */
  method EmptyLookup() returns (ix: Index)
    ensures fresh(ix) && fresh(ix.hptable) && ix.Valid() && ix.status == 3 && |ix.extents| == 2 && ix.andbuf == null
    ensures ix.V().pat != {} && forall q :: !Cand(ix.extents, ix.Width(), ix.V().pat, q)
  {
    hide ExtentOk, Shows, KeysOk, At, Cand, Live, StoredOk, Index.Searching, Index.WalkOk;
    LettersPatterns();
    ix := OneRecord();
    ix.New();
    var code := ix.Key([48, 49, 88, 66]);
    LookupPattern(ix);
  }

  /** Nothing is found in a file whose bits are all in a slot that the lookup does not demand. */
  lemma OnlySlot(empty: seq<Extent>, exts: seq<Extent>, width: int, pat: set<int>, t: int, s: int, n: int)
    requires ChainOk(empty, width) && ChainOk(exts, width) && t in pat && s != t
    requires forall u, q :: !At(empty, width, u, q)
    requires FileGains(empty, exts, width, {s}, n, Total(exts))
    ensures forall q :: !Cand(exts, width, pat, q)
  {
    hide At, ExtentOk;
    forall q
      ensures !Cand(exts, width, pat, q)
    {
      if q < Total(exts) {
        assert !At(exts, width, t, q);
      }
    }
  }

  /** The one state in which a walk depends on its buffer: with more than one extent and a lookup that
      matches nothing, a step back from the end and the loss of the buffer leave the next step forward
      reading bytes outside the extent. */
  method Strand(ix: Index) returns (code: int)
    requires ix.Valid() && ix.status == 3 && |ix.extents| > 1 && ix.V().pat != {}
    requires forall q :: !Cand(ix.extents, ix.Width(), ix.V().pat, q)
    modifies ix, ix.andbuf
    ensures code == OUTSIDE
  {
    hide ExtentOk, Shows, KeysOk, StoredOk, Cand, Index.Searching, Index.WalkOk;
    code := ix.NextRec(FIRST);
    code := ix.NextRec(PREV);
    ix.Purge();
    code := ix.NextRec(NEXT);
  }

  /** Such a state can be reached. */
  method Stranded() returns (code: int)
    ensures code == OUTSIDE
  {
    hide ExtentOk, Cand, Index.Valid;
    var ix := EmptyLookup();
    code := Strand(ix);
  }
}

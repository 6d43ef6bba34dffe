/** The names of tags (xml.c, gettag): each is kept once, in a table that is searched from the hash code of a name onward. */
module XmlTags {
  import opened Bytes
  import opened Lists

  const MAXTAGS := 401
  const MAXTAGCHARS := 2000
  const SPARE := 25

  // --- names ------------------------------------------------------------------------------------------------------------

  predicate IsLower(c: byte) {
    97 <= c <= 122
  }

  predicate IsUpper(c: byte) {
    65 <= c <= 90
  }

  predicate IsNameChar(c: byte) {
    IsDigit(c) || IsLower(c) || IsUpper(c)
  }

  predicate IsName(tag: seq<byte>) {
    tag != [] && IsLower(tag[0]) && forall i :: 0 <= i < |tag| ==> IsNameChar(tag[i])
  }

  /** hashcode, of a name of two characters or more. */
  function HashCode(tag: seq<byte>): (h: nat)
    requires |tag| >= 2
    ensures h < MAXTAGS
  {
    var n := |tag|;
    (tag[0] * 21 + tag[1] + tag[n - 2] * 6 + tag[n - 1] * 47 + n * 107) % MAXTAGS
  }

  /** A permanent name: of one letter, or in the text of the table. */
  datatype Ptr = One(letter: byte) | Other(at: nat)

  datatype Got = Name(ptr: Ptr) | TooMany | Overflow

  // --- the names known --------------------------------------------------------------------------------------------------

  /** The bytes that names take, each with a zero behind it. */
  function TextLen(names: seq<seq<byte>>): nat {
    if names == [] then 0 else TextLen(names[..|names| - 1]) + |names[|names| - 1]| + 1
  }

  predicate Known(names: seq<seq<byte>>, tag: seq<byte>) {
    |tag| == 1 || tag in names
  }

  /** There is room for a name, or it is known. */
  predicate Learns(names: seq<seq<byte>>, tag: seq<byte>) {
    Known(names, tag) || (|names| < MAXTAGS - SPARE && TextLen(names) + |tag| + 1 < MAXTAGCHARS)
  }

  function Learnt(names: seq<seq<byte>>, tag: seq<byte>): seq<seq<byte>> {
    if Known(names, tag) then names else names + [tag]
  }

  /** A pointer to this name. */
  ghost predicate Points(names: seq<seq<byte>>, p: Ptr, tag: seq<byte>) {
    match p
    case One(c) => tag == [c]
    case Other(at) => |tag| >= 2 && exists k :: 0 <= k < |names| && names[k] == tag && at == TextLen(names[..k])
  }

  lemma {:induction false} TextLenGrows(names: seq<seq<byte>>, a: nat, b: nat)
    requires a < b <= |names|
    ensures TextLen(names[..a]) + |names[a]| + 1 <= TextLen(names[..b])
    decreases b
  {
    assert names[..b][..b - 1] == names[..b - 1];
    if a < b - 1 {
      TextLenGrows(names, a, b - 1);
    }
  }

  /** Pointers are the same if and only if the names are. */
  lemma SamePointer(names: seq<seq<byte>>, p: Ptr, a: seq<byte>, q: Ptr, b: seq<byte>)
    requires Points(names, p, a) && Points(names, q, b)
    requires forall j, k :: 0 <= j < k < |names| ==> names[j] != names[k]
    ensures p == q <==> a == b
  {
    if p.Other? && q.Other? {
      var j :| 0 <= j < |names| && names[j] == a && p.at == TextLen(names[..j]);
      var k :| 0 <= k < |names| && names[k] == b && q.at == TextLen(names[..k]);
      if j < k {
        TextLenGrows(names, j, k);
      } else if k < j {
        TextLenGrows(names, k, j);
      }
    }
  }

  /** A pointer stays good when names are added. */
  lemma StillPoints(names: seq<seq<byte>>, more: seq<seq<byte>>, p: Ptr, tag: seq<byte>)
    requires Points(names, p, tag) && names <= more
    ensures Points(more, p, tag)
  {
    if p.Other? {
      var k :| 0 <= k < |names| && names[k] == tag && p.at == TextLen(names[..k]);
      assert more[..k] == names[..k];
    }
  }

  // --- the table --------------------------------------------------------------------------------------------------------

  /** x comes before n when the table is searched from h onward. */
  predicate Passed(h: int, n: int, x: int) {
    if h <= n then h <= x < n else h <= x < MAXTAGS || 0 <= x < n
  }

  /** Name k is where its slot says, with a zero behind it. */
  ghost predicate Stored(table: seq<int>, text: seq<byte>, names: seq<seq<byte>>, slots: seq<int>, k: nat)
    requires |table| == MAXTAGS && k < |names| == |slots|
  {
    var at, tag := TextLen(names[..k]), names[k];
    && 0 <= slots[k] < MAXTAGS && table[slots[k]] == at && at + |tag| < |text|
    && text[at..at + |tag|] == tag && text[at + |tag|] == 0
  }

  /** Name k is found from its hash code: no empty entry comes before it. */
  ghost predicate Found(table: seq<int>, names: seq<seq<byte>>, slots: seq<int>, k: nat)
    requires |table| == MAXTAGS && k < |names| == |slots|
  {
    |names[k]| >= 2 && forall x :: 0 <= x < MAXTAGS && Passed(HashCode(names[k]), slots[k], x) ==> table[x] != NIL
  }

  ghost predicate Right(table: seq<int>, text: seq<byte>, count: int, textlen: int, names: seq<seq<byte>>, slots: seq<int>) {
    && |table| == MAXTAGS && |text| == MAXTAGCHARS
    && |slots| == |names| <= MAXTAGS - SPARE
    && |names| <= count && (count > |names| ==> |names| == MAXTAGS - SPARE)
    && textlen == TextLen(names) < MAXTAGCHARS
    && (forall j, k :: 0 <= j < k < |names| ==> names[j] != names[k])
    && (forall k :: 0 <= k < |names| ==> IsName(names[k]))
    && (forall k :: 0 <= k < |names| ==> Stored(table, text, names, slots, k))
    && (forall k :: 0 <= k < |names| ==> Found(table, names, slots, k))
    && forall x :: 0 <= x < MAXTAGS && table[x] != NIL ==> x in slots
  }

  function Upto(n: nat): (s: set<int>)
    ensures forall x :: x in s <==> 0 <= x < n
    ensures |s| == n
  {
    if n == 0 then {} else Upto(n - 1) + {n - 1}
  }

  function Members(s: seq<int>): (m: set<int>)
    ensures forall x :: x in m <==> x in s
    ensures |m| <= |s|
  {
    if s == [] then {} else Members(s[1..]) + {s[0]}
  }

  lemma Fewer(a: set<int>, b: set<int>)
    requires a <= b
    ensures |a| <= |b|
  {
    assert b == a + (b - a);
  }

  /** The table is never full. */
  lemma EmptyEntry(table: seq<int>, slots: seq<int>) returns (z: nat)
    requires |table| == MAXTAGS && |slots| < MAXTAGS
    requires forall x :: 0 <= x < MAXTAGS && table[x] != NIL ==> x in slots
    ensures z < MAXTAGS && table[z] == NIL
  {
    if forall x :: 0 <= x < MAXTAGS ==> table[x] != NIL {
      Fewer(Upto(MAXTAGS), Members(slots));
      assert false;
    }
    z :| 0 <= z < MAXTAGS && table[z] == NIL;
  }

  /** How far z is ahead of n. */
  function Ahead(n: int, z: int): int {
    if n <= z then z - n else z - n + MAXTAGS
  }

  function Onward(n: int): int {
    if n + 1 == MAXTAGS then 0 else n + 1
  }

  lemma PassedOn(h: int, n: int, x: int, z: int)
    requires 0 <= h < MAXTAGS && 0 <= n < MAXTAGS && 0 <= z < MAXTAGS && !Passed(h, n, z) && z != n
    ensures Passed(h, Onward(n), x) <==> Passed(h, n, x) || x == n
    ensures Ahead(Onward(n), z) < Ahead(n, z)
  {
  }

  /** The entries from h on that come before n have names, other ones than this. */
  ghost predicate Searched(table: seq<int>, names: seq<seq<byte>>, slots: seq<int>, h: int, n: int, tag: seq<byte>) {
    && |table| == MAXTAGS && |slots| == |names|
    && (forall x :: 0 <= x < MAXTAGS && Passed(h, n, x) ==> table[x] != NIL)
    && forall k :: 0 <= k < |names| && Passed(h, n, slots[k]) ==> names[k] != tag
  }

  lemma SearchStep(table: seq<int>, text: seq<byte>, count: int, textlen: int, names: seq<seq<byte>>, slots: seq<int>, h: int, n: int,
                   tag: seq<byte>, z: int, k: nat)
    requires Right(table, text, count, textlen, names, slots) && Searched(table, names, slots, h, n, tag)
    requires 0 <= h < MAXTAGS && 0 <= n < MAXTAGS && 0 <= z < MAXTAGS && !Passed(h, n, z) && table[z] == NIL
    requires k < |names| && slots[k] == n && table[n] != NIL && names[k] != tag
    ensures Searched(table, names, slots, h, Onward(n), tag) && !Passed(h, Onward(n), z) && Ahead(Onward(n), z) < Ahead(n, z)
  {
    forall x | 0 <= x < MAXTAGS && Passed(h, Onward(n), x)
      ensures table[x] != NIL
    {
      PassedOn(h, n, x, z);
    }
    forall j | 0 <= j < |names| && Passed(h, Onward(n), slots[j])
      ensures names[j] != tag
    {
      PassedOn(h, n, slots[j], z);
      SlotsDiffer(table, text, count, textlen, names, slots, j, k);
    }
    PassedOn(h, n, z, z);
  }

  class Tags {
    const othertags: array<int>
    const othertagstext: array<byte>
    var othertagscount: int
    var othertagstextlen: int
    ghost var names: seq<seq<byte>>
    ghost var slots: seq<int>

    ghost predicate Valid()
      reads this, othertags, othertagstext
    {
      Right(othertags[..], othertagstext[..], othertagscount, othertagstextlen, names, slots)
    }

    constructor ()
      ensures Valid() && names == [] && fresh(othertags) && fresh(othertagstext)
    {
      othertags := new int[MAXTAGS](_ => NIL);
      othertagstext := new byte[MAXTAGCHARS](_ => 0);
      othertagscount, othertagstextlen, names, slots := 0, 0, [], [];
    }

    /** The comparison with the text at an entry, which ends at the first difference. */
    method SameName(ptr: int, worktag: seq<byte>, ghost k: nat) returns (same: bool)
      requires Valid() && IsName(worktag) && k < |names| && ptr == TextLen(names[..k])
      ensures same <==> names[k] == worktag
    {
      assert Stored(othertags[..], othertagstext[..], names, slots, k);
      ghost var name := names[k];
      ghost var text := othertagstext[..];
      var i := 0;
      assert IsName(name) && text[ptr..ptr + |name|] == name;
      while i < |worktag| && othertagstext[ptr + i] == worktag[i]
        invariant i <= |worktag| && i <= |name| && name[..i] == worktag[..i]
      {
        assert i < |name| ==> othertagstext[ptr + i] == text[ptr..ptr + |name|][i];
        i := i + 1;
      }
      assert i < |name| ==> othertagstext[ptr + i] == text[ptr..ptr + |name|][i];
      same := i == |worktag| && othertagstext[ptr + i] == 0;
      if i == |worktag| {
        assert worktag[..i] == worktag && (i == |name| ==> name[..i] == name);
      }
    }

    /** The table after the text has run over: an entry that was empty leads to a place in the text where no name was written,
        and the length of the text is past its end. */
    ghost predicate RunsOver(table: seq<int>, text: seq<byte>, known: seq<seq<byte>>, worktag: seq<byte>)
      reads this, othertags, othertagstext
    {
      && (exists n :: 0 <= n < |table| && table[n] == NIL && othertags[..] == table[n := TextLen(known)])
      && othertagstext[..] == text && names == known && othertagstextlen == TextLen(known) + |worktag| + 1
    }

    /** gettag: the pointer to a name, which is entered if it is new. */
    method GetTag(worktag: seq<byte>) returns (got: Got)
      requires Valid() && IsName(worktag)
      modifies this, othertags, othertagstext
      ensures got.Name? <==> Learns(old(names), worktag)
      ensures got.Name? ==> Valid() && names == Learnt(old(names), worktag) && Points(names, got.ptr, worktag)
      ensures got.TooMany? ==> Valid() && names == old(names)
      ensures got.TooMany? <==> !Known(old(names), worktag) && |old(names)| == MAXTAGS - SPARE
      ensures got.Overflow? <==>
                !Known(old(names), worktag) && |old(names)| < MAXTAGS - SPARE && TextLen(old(names)) + |worktag| + 1 >= MAXTAGCHARS
      ensures got.Overflow? ==> RunsOver(old(othertags[..]), old(othertagstext[..]), old(names), worktag) && !Valid()
    {
      hide Right, Stored, Found, Searched, Points, TextLen, Learns, IsName;
      OneLetter(names, worktag);
      if |worktag| == 1 {
        return Name(One(worktag[0]));
      }
      if othertagscount == 0 {
        ClearTable();
      }
      TableLength(othertags[..], othertagstext[..], othertagscount, othertagstextlen, names, slots);
      var n1 := HashCode(worktag);
      ghost var h := n1;
      ghost var z := EmptyPlace(othertags[..], othertagstext[..], othertagscount, othertagstextlen, names, slots);
      NothingSearched(othertags[..], names, slots, h, worktag);
      while othertags[n1] != NIL
        invariant Valid() && 0 <= n1 < MAXTAGS && !Passed(h, n1, z) && othertags[z] == NIL
        invariant names == old(names) && othertags[..] == old(othertags[..]) && othertagstext[..] == old(othertagstext[..])
        invariant Searched(othertags[..], names, slots, h, n1, worktag)
        decreases Ahead(n1, z)
      {
        ghost var k := NameHere(othertags[..], othertagstext[..], othertagscount, othertagstextlen, names, slots, n1);
        var same := SameName(othertags[n1], worktag, k);
        if same {
          KnownHere(names, k);
          return Name(Other(othertags[n1]));
        }
        SearchStep(othertags[..], othertagstext[..], othertagscount, othertagstextlen, names, slots, h, n1, worktag, z, k);
        n1 := n1 + 1;
        if n1 == MAXTAGS {
          n1 := 0;
        }
      }
      NotKnown(othertags[..], othertagstext[..], othertagscount, othertagstextlen, names, slots, worktag, n1);
      SearchedMeans(othertags[..], names, slots, h, n1, worktag);
      got := Enter(worktag, n1);
    }

    method ClearTable()
      requires Valid() && othertagscount == 0
      modifies othertags
      ensures Valid() && othertags[..] == old(othertags[..])
    {
      ghost var w := othertags[..];
      var n1 := 0;
      while n1 < MAXTAGS
        invariant 0 <= n1 <= MAXTAGS && othertags[..] == w
      {
        assert w[n1] != NIL ==> n1 in slots;
        assert othertags[n1] == w[n1];
        othertags[n1] := NIL;
        n1 := n1 + 1;
      }
    }

    /** Enter a name at an empty entry. */
    method Enter(worktag: seq<byte>, n1: int) returns (got: Got)
      requires Valid() && IsName(worktag) && |worktag| >= 2 && worktag !in names && 0 <= n1 < MAXTAGS && othertags[n1] == NIL
      requires forall x :: 0 <= x < MAXTAGS && Passed(HashCode(worktag), n1, x) ==> othertags[x] != NIL
      modifies this, othertags, othertagstext
      ensures got.Name? <==> Learns(old(names), worktag)
      ensures got.Name? ==> Valid() && names == old(names) + [worktag] && Points(names, got.ptr, worktag)
      ensures got.TooMany? ==> Valid() && names == old(names)
      ensures got.TooMany? <==> |old(names)| == MAXTAGS - SPARE
      ensures got.Overflow? <==> |old(names)| < MAXTAGS - SPARE && TextLen(old(names)) + |worktag| + 1 >= MAXTAGCHARS
      ensures got.Overflow? ==> RunsOver(old(othertags[..]), old(othertagstext[..]), old(names), worktag) && !Valid()
    {
      hide Right, Stored, Found, Learns;
      Counts(othertags[..], othertagstext[..], othertagscount, othertagstextlen, names, slots, worktag);
      othertagscount := othertagscount + 1;
      if othertagscount > MAXTAGS - SPARE {
        return TooMany;
      }
      var ptr1 := othertagstextlen;
      othertags[n1] := ptr1;
      othertagstextlen := othertagstextlen + |worktag| + 1;
      if othertagstextlen >= MAXTAGCHARS {
        assert othertags[..] == old(othertags[..])[n1 := ptr1];
        TooLong(othertags[..], othertagstext[..], othertagscount, othertagstextlen, names, slots);
        return Overflow;
      }
      CopyName(ptr1, worktag);
      names, slots := names + [worktag], slots + [n1];
      Entered(old(othertags[..]), old(othertagstext[..]), old(othertagscount), ptr1, old(names), old(slots), worktag, n1,
              othertagstext[..]);
      assert othertags[..] == old(othertags[..])[n1 := ptr1];
      got := Name(Other(ptr1));
      assert names[..|names| - 1] == old(names);
    }

    method CopyName(ptr1: int, worktag: seq<byte>)
      requires 0 <= ptr1 && ptr1 + |worktag| < othertagstext.Length
      modifies othertagstext
      ensures othertagstext[..ptr1] == old(othertagstext[..ptr1])
      ensures othertagstext[ptr1..ptr1 + |worktag|] == worktag && othertagstext[ptr1 + |worktag|] == 0
    {
      var i := 0;
      while i < |worktag|
        invariant 0 <= i <= |worktag| && othertagstext[..ptr1] == old(othertagstext[..ptr1])
        invariant othertagstext[ptr1..ptr1 + i] == worktag[..i]
      {
        othertagstext[ptr1 + i] := worktag[i];
        i := i + 1;
      }
      othertagstext[ptr1 + |worktag|] := 0;
    }
  }

  /** What the counts say. */
  lemma Counts(table: seq<int>, text: seq<byte>, count: int, textlen: int, names: seq<seq<byte>>, slots: seq<int>, tag: seq<byte>)
    requires Right(table, text, count, textlen, names, slots) && |tag| >= 2 && tag !in names
    ensures |table| == MAXTAGS && |text| == MAXTAGCHARS && textlen == TextLen(names) && |slots| == |names| <= count
    ensures Learns(names, tag) <==> count < MAXTAGS - SPARE && textlen + |tag| + 1 < MAXTAGCHARS
    ensures count >= MAXTAGS - SPARE ==> Right(table, text, count + 1, textlen, names, slots)
    ensures count < MAXTAGS - SPARE ==> |names| == count
    ensures |names| <= MAXTAGS - SPARE && (count > |names| ==> |names| == MAXTAGS - SPARE)
  {
  }

  lemma TooLong(table: seq<int>, text: seq<byte>, count: int, textlen: int, names: seq<seq<byte>>, slots: seq<int>)
    requires textlen >= MAXTAGCHARS
    ensures !Right(table, text, count, textlen, names, slots)
  {
  }

  lemma OneLetter(names: seq<seq<byte>>, tag: seq<byte>)
    requires IsName(tag)
    ensures |tag| == 1 ==> Learns(names, tag) && Points(names, One(tag[0]), tag)
    ensures |tag| > 0
  {
  }

  lemma TableLength(table: seq<int>, text: seq<byte>, count: int, textlen: int, names: seq<seq<byte>>, slots: seq<int>)
    requires Right(table, text, count, textlen, names, slots)
    ensures |table| == MAXTAGS && |slots| == |names|
  {
  }

  lemma EmptyPlace(table: seq<int>, text: seq<byte>, count: int, textlen: int, names: seq<seq<byte>>, slots: seq<int>) returns (z: nat)
    requires Right(table, text, count, textlen, names, slots)
    ensures z < MAXTAGS == |table| && table[z] == NIL
  {
    z := EmptyEntry(table, slots);
  }

  lemma NothingSearched(table: seq<int>, names: seq<seq<byte>>, slots: seq<int>, h: int, tag: seq<byte>)
    requires |table| == MAXTAGS && |slots| == |names|
    ensures Searched(table, names, slots, h, h, tag)
  {
  }

  lemma SearchedMeans(table: seq<int>, names: seq<seq<byte>>, slots: seq<int>, h: int, n: int, tag: seq<byte>)
    requires Searched(table, names, slots, h, n, tag)
    ensures |table| == MAXTAGS && forall x :: 0 <= x < MAXTAGS && Passed(h, n, x) ==> table[x] != NIL
  {
  }

  /** The name at an entry that is not empty. */
  lemma NameHere(table: seq<int>, text: seq<byte>, count: int, textlen: int, names: seq<seq<byte>>, slots: seq<int>, n: nat)
    returns (k: nat)
    requires Right(table, text, count, textlen, names, slots) && n < |table| && table[n] != NIL
    ensures k < |names| == |slots| && slots[k] == n && table[n] == TextLen(names[..k])
  {
    k :| 0 <= k < |slots| && slots[k] == n;
    assert Stored(table, text, names, slots, k);
  }

  lemma KnownHere(names: seq<seq<byte>>, k: nat)
    requires k < |names| && |names[k]| >= 2
    ensures Learns(names, names[k]) && Known(names, names[k]) && Points(names, Other(TextLen(names[..k])), names[k])
  {
  }

  /** A name of 1999 letters is the first that a new table has no text for. */
  method LongName() returns (got: Got)
    ensures got == Overflow
  {
    var tags := new Tags();
    var tag := seq(MAXTAGCHARS - 1, _ => 97);
    got := tags.GetTag(tag);
  }

  lemma SlotsDiffer(table: seq<int>, text: seq<byte>, count: int, textlen: int, names: seq<seq<byte>>, slots: seq<int>, j: nat, k: nat)
    requires Right(table, text, count, textlen, names, slots) && j < |names| && k < |names|
    ensures slots[j] == slots[k] ==> j == k
  {
    assert Stored(table, text, names, slots, j) && Stored(table, text, names, slots, k);
    if j < k {
      TextLenGrows(names, j, k);
    } else if k < j {
      TextLenGrows(names, k, j);
    }
  }

  /** A name that has not been seen before the first empty entry is new. */
  lemma NotKnown(table: seq<int>, text: seq<byte>, count: int, textlen: int, names: seq<seq<byte>>, slots: seq<int>, tag: seq<byte>, n: int)
    requires Right(table, text, count, textlen, names, slots) && |tag| >= 2 && 0 <= n < MAXTAGS && table[n] == NIL
    requires Searched(table, names, slots, HashCode(tag), n, tag)
    ensures tag !in names
  {
    forall k | 0 <= k < |names|
      ensures names[k] != tag
    {
      assert Stored(table, text, names, slots, k) && Found(table, names, slots, k);
    }
  }

  lemma StillStored(table: seq<int>, text: seq<byte>, names: seq<seq<byte>>, slots: seq<int>, k: nat, tag: seq<byte>, n: int, textlen: int,
                    new_text: seq<byte>)
    requires |table| == MAXTAGS && k < |names| == |slots| && Stored(table, text, names, slots, k) && Found(table, names, slots, k)
    requires 0 <= n < MAXTAGS && table[n] == NIL && textlen == TextLen(names) <= |text| == |new_text|
    requires new_text[..textlen] == text[..textlen]
    ensures Stored(table[n := textlen], new_text, names + [tag], slots + [n], k)
    ensures Found(table[n := textlen], names + [tag], slots + [n], k)
  {
    assert (names + [tag])[..k] == names[..k];
    TextLenGrows(names, k, |names|);
    assert names[..|names|] == names;
    var at := TextLen(names[..k]);
    assert new_text[at..at + |names[k]|] == new_text[..textlen][at..at + |names[k]|];
    assert text[at..at + |names[k]|] == text[..textlen][at..at + |names[k]|];
    assert new_text[at + |names[k]|] == new_text[..textlen][at + |names[k]|];
  }

  /** The table with one more name. */
  lemma Entered(table: seq<int>, text: seq<byte>, count: int, textlen: int, names: seq<seq<byte>>, slots: seq<int>, tag: seq<byte>, n: int,
                new_text: seq<byte>)
    requires Right(table, text, count, textlen, names, slots) && IsName(tag) && |tag| >= 2 && tag !in names
    requires 0 <= n < MAXTAGS && table[n] == NIL && |names| < MAXTAGS - SPARE && textlen + |tag| + 1 < MAXTAGCHARS
    requires forall x :: 0 <= x < MAXTAGS && Passed(HashCode(tag), n, x) ==> table[x] != NIL
    requires |new_text| == |text| && new_text[..textlen] == text[..textlen]
    requires new_text[textlen..textlen + |tag|] == tag && new_text[textlen + |tag|] == 0
    ensures Right(table[n := textlen], new_text, count + 1, textlen + |tag| + 1, names + [tag], slots + [n])
  {
    var t, ns, ss := table[n := textlen], names + [tag], slots + [n];
    assert ns[..|ns| - 1] == names;
    forall k | 0 <= k < |ns|
      ensures Stored(t, new_text, ns, ss, k) && Found(t, ns, ss, k)
    {
      if k < |names| {
        assert Stored(table, text, names, slots, k) && Found(table, names, slots, k);
        StillStored(table, text, names, slots, k, tag, n, textlen, new_text);
      }
    }
    forall x | 0 <= x < MAXTAGS && t[x] != NIL
      ensures x in ss
    {
      assert x == n ==> ss[|slots|] == x;
    }
  }

  /** Two calls give the same pointer if and only if they are given the same name. */
  method GetTwo(tags: Tags, a: seq<byte>, b: seq<byte>) returns (p: Got, q: Got)
    requires tags.Valid() && IsName(a) && IsName(b)
    modifies tags, tags.othertags, tags.othertagstext
    ensures p.Name? && q.Name? ==> (p.ptr == q.ptr <==> a == b)
  {
    p := tags.GetTag(a);
    q := TooMany;
    if p.Name? {
      ghost var names := tags.names;
      q := tags.GetTag(b);
      if q.Name? {
        StillPoints(names, tags.names, p.ptr, a);
        SamePointer(tags.names, p.ptr, a, q.ptr, b);
      }
    }
  }
}

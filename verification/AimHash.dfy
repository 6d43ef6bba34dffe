/** The superimposed code of the associative index (aio.c): how a record and a lookup key are
    turned into sets of slots, and the exact test that filters the index's answers. */
module AimHash {
  import opened Bits
  import opened Bytes

  /** One indexed column range of the record; an excluded range is searched but not hashed. */
  datatype KeyDef = KeyDef(start: nat, len: nat, excluded: bool)

  datatype Kind = X | L | R | F

  /** One entry of the lookup table built by the key calls. */
  datatype Entry = Entry(kind: Kind, key: nat, text: seq<byte>)

  /** What the header of an index file fixes once and for all. */
  datatype Layout = Layout(slots: nat, keys: seq<KeyDef>, distinct: bool, casemap: seq<byte>) {
    ghost predicate Valid() {
      && slots > 0
      && |casemap| == 256
      && forall k :: 0 <= k < |keys| ==> keys[k].len > 0
    }

    /** The case map sends a blank to a blank (any map built by toupper does). */
    ghost predicate BlankFixed() {
      |casemap| == 256 && (distinct || casemap[BLANK] == BLANK)
    }

    function TableSize(): nat {
      (slots + 7) / 8
    }

    function Fold(c: byte): byte
      requires |casemap| == 256
    {
      if distinct then c else casemap[c]
    }

    /** Three numbers, five bits each, reduced to a slot number. */
    function Hash(h1: int, h2: int, h3: int): (s: int)
      requires slots > 0
      ensures 0 <= s < slots
    {
      (h1 % 32 * 1024 + h2 % 32 * 32 + h3 % 32) % slots
    }

    /** Column i of a record; columns past the end of the record read as blanks. */
    function Probe(rec: seq<byte>, i: nat): byte
      requires |casemap| == 256
    {
      if i < |rec| then Fold(rec[i]) else BLANK
    }

    /** The folded text of one key field of a record. */
    function Field(rec: seq<byte>, kd: KeyDef): (f: seq<byte>)
      requires |casemap| == 256
      ensures |f| == kd.len
    {
      seq<byte>(kd.len, j requires 0 <= j < kd.len => Probe(rec, kd.start + j))
    }

    /** The record buffer reaches past every key column. */
    ghost predicate Covers(buf: seq<byte>) {
      forall k :: 0 <= k < |keys| ==> keys[k].start + keys[k].len <= |buf|
    }

    // --- sets of slots -------------------------------------------------------------------------

    ghost predicate AllPlain(f: seq<byte>, p: nat, skip: set<byte>) {
      p + 3 <= |f| && f[p] !in skip && f[p + 1] !in skip && f[p + 2] !in skip
    }

    /** Slots of the three-character groups that start before position n and avoid `skip`. */
    ghost function Trigrams(f: seq<byte>, n: nat, skip: set<byte>): set<int>
      requires slots > 0
    {
      set p: nat | 0 <= p < n && AllPlain(f, p, skip) :: Hash(f[p], f[p + 1], f[p + 2])
    }

    /** Slots for the first one and first two characters of field k of width n. */
    ghost function LeftEdge(k: nat, n: nat, f: seq<byte>, skip: set<byte>): set<int>
      requires slots > 0
    {
      if |f| == 0 || f[0] in skip then {}
      else {Hash(k, 31, f[0])} +
           if n > 2 && |f| > 1 && f[1] !in skip then {Hash(k, f[0], f[1])} else {}
    }

    /** Slots for the last one and last two characters of field k of width n. */
    ghost function RightEdge(k: nat, n: nat, f: seq<byte>, skip: set<byte>): set<int>
      requires slots > 0
    {
      if n <= 1 || |f| == 0 || f[|f| - 1] in skip then {}
      else {Hash(k, 30, f[|f| - 1])} +
           if n > 2 && |f| > 1 && f[|f| - 2] !in skip then {Hash(k, f[|f| - 2], f[|f| - 1])} else {}
    }

    /** Slots a record is filed under because of the text f of its field k. */
    ghost function FieldPattern(k: nat, f: seq<byte>): set<int>
      requires slots > 0
    {
      LeftEdge(k, |f|, f, {BLANK}) + RightEdge(k, |f|, f, {BLANK}) +
      if |f| > 3 then Trigrams(f, |f|, {BLANK}) else {}
    }

    /** Slots a record is filed under because of its first n fields. */
    ghost function RecordPatternTo(rec: seq<byte>, n: nat): set<int>
      requires Valid() && n <= |keys|
    {
      if n == 0 then {}
      else RecordPatternTo(rec, n - 1) +
           if keys[n - 1].excluded then {} else FieldPattern(n - 1, Field(rec, keys[n - 1]))
    }

    ghost function RecordPattern(rec: seq<byte>): set<int>
      requires Valid()
    {
      RecordPatternTo(rec, |keys|)
    }

    /** Slots that a lookup entry demands; `m` is the match-anything character. */
    ghost function KeyPattern(e: Entry, m: byte): set<int>
      requires slots > 0 && e.key < |keys|
    {
      var n := keys[e.key].len;
      var skip := {BLANK, m};
      (if e.kind.X? || e.kind.L? then LeftEdge(e.key, n, e.text, skip) else {}) +
      (if e.kind.X? || e.kind.R? then RightEdge(e.key, n, e.text, skip) else {}) +
      (if n > 3 then Trigrams(e.text, |e.text|, skip) else {})
    }

    ghost predicate EntryOk(e: Entry) {
      && e.key < |keys|
      && 0 < |e.text| <= keys[e.key].len
      && (e.kind.X? ==> |e.text| == keys[e.key].len)
    }

    ghost predicate TableOk(table: seq<Entry>) {
      forall i :: 0 <= i < |table| ==> EntryOk(table[i])
    }

    /** Slots that a whole lookup table demands; ms[i] is the match character at the time entry i
        was added. */
    ghost function TablePattern(table: seq<Entry>, ms: seq<byte>): set<int>
      requires slots > 0 && TableOk(table) && |ms| == |table|
    {
      if table == [] then {}
      else
        var n := |table| - 1;
        var e := table[n];
        TablePattern(table[..n], ms[..n]) + if keys[e.key].excluded then {} else KeyPattern(e, ms[n])
    }

    // --- the exact test ------------------------------------------------------------------------

    /** The key text matches the field at offset p, `m` standing for any character. */
    ghost predicate MatchAt(text: seq<byte>, m: byte, f: seq<byte>, p: int) {
      0 <= p && p + |text| <= |f| && forall j :: 0 <= j < |text| ==> text[j] == f[p + j] || text[j] == m
    }

    ghost predicate Accepts(e: Entry, m: byte, f: seq<byte>) {
      match e.kind
      case X => MatchAt(e.text, m, f, 0)
      case L => MatchAt(e.text, m, f, 0)
      case R => MatchAt(e.text, m, f, |f| - |e.text|)
      case F => exists p :: MatchAt(e.text, m, f, p)
    }

    /** The record satisfies every entry of the lookup table. */
    ghost predicate AcceptsAll(table: seq<Entry>, m: byte, rec: seq<byte>)
      requires |casemap| == 256 && TableOk(table)
    {
      forall i :: 0 <= i < |table| ==> Accepts(table[i], m, Field(rec, keys[table[i].key]))
    }
  }

  // --- the no-false-negative argument ------------------------------------------------------------

  /** Every three-character group of a matching key text is a group of the field. */
  lemma TrigramsCovered(lay: Layout, text: seq<byte>, m: byte, f: seq<byte>, p: nat)
    requires lay.slots > 0
    requires lay.MatchAt(text, m, f, p)
    ensures lay.Trigrams(text, |text|, {BLANK, m}) <= lay.Trigrams(f, |f|, {BLANK})
  {
    forall s | s in lay.Trigrams(text, |text|, {BLANK, m})
      ensures s in lay.Trigrams(f, |f|, {BLANK})
    {
      var q: nat :| q < |text| && lay.AllPlain(text, q, {BLANK, m}) && s == lay.Hash(text[q], text[q + 1], text[q + 2]);
      assert text[q] == f[p + q] && text[q + 1] == f[p + (q + 1)] && text[q + 2] == f[p + (q + 2)];
      assert lay.AllPlain(f, p + q, {BLANK});
    }
  }

  /** A field that passes the exact test for an entry is filed under every slot the entry demands. */
  lemma EntryCovered(lay: Layout, e: Entry, m: byte, f: seq<byte>)
    requires lay.Valid() && lay.EntryOk(e) && |f| == lay.keys[e.key].len
    requires lay.Accepts(e, m, f)
    ensures lay.KeyPattern(e, m) <= lay.FieldPattern(e.key, f)
  {
    var p: int := match e.kind
      case X => 0
      case L => 0
      case R => |f| - |e.text|
      case F => var q :| lay.MatchAt(e.text, m, f, q); q;
    assert lay.MatchAt(e.text, m, f, p);
    TrigramsCovered(lay, e.text, m, f, p);
    var last := |e.text| - 1;
    assert e.text[0] == f[p + 0] || e.text[0] == m;
    assert e.text[last] == f[p + last] || e.text[last] == m;
    if last > 0 {
      assert e.text[1] == f[p + 1] || e.text[1] == m;
      assert e.text[last - 1] == f[p + (last - 1)] || e.text[last - 1] == m;
    }
  }

  lemma FieldInRecord(lay: Layout, rec: seq<byte>, k: nat, n: nat)
    requires lay.Valid() && k < n <= |lay.keys| && !lay.keys[k].excluded
    ensures lay.FieldPattern(k, lay.Field(rec, lay.keys[k])) <= lay.RecordPatternTo(rec, n)
  {
    if k < n - 1 {
      FieldInRecord(lay, rec, k, n - 1);
    }
  }

  lemma FieldAt(lay: Layout, rec: seq<byte>, kd: KeyDef, j: nat)
    requires |lay.casemap| == 256 && j < kd.len
    ensures lay.Field(rec, kd)[j] == lay.Probe(rec, kd.start + j)
  {
  }

  /** Trailing blanks do not change what the key fields of a record say. */
  lemma PaddedField(lay: Layout, rec: seq<byte>, buf: seq<byte>, kd: KeyDef)
    requires lay.BlankFixed()
    requires rec <= buf && forall i :: |rec| <= i < |buf| ==> buf[i] == BLANK
    ensures lay.Field(buf, kd) == lay.Field(rec, kd)
  {
    forall j | 0 <= j < kd.len
      ensures lay.Field(buf, kd)[j] == lay.Field(rec, kd)[j]
    {
      FieldAt(lay, rec, kd, j);
      FieldAt(lay, buf, kd, j);
      var i := kd.start + j;
      if i < |rec| {
        assert buf[i] == rec[i];
      } else if i < |buf| {
        assert buf[i] == BLANK;
      }
    }
  }

  /** NO FALSE NEGATIVES, the hashing half: if the exact test accepts a record for the whole
      lookup table, then the slots demanded by the table are among the slots under which the
      blank-padded record was filed. */
  lemma {:induction false} PatternCovered(
    lay: Layout, table: seq<Entry>, ms: seq<byte>, m: byte, rec: seq<byte>, buf: seq<byte>)
    requires lay.Valid() && lay.BlankFixed() && lay.TableOk(table)
    requires |ms| == |table| && forall i :: 0 <= i < |ms| ==> ms[i] == m
    requires rec <= buf && forall i :: |rec| <= i < |buf| ==> buf[i] == BLANK
    requires lay.AcceptsAll(table, m, rec)
    ensures lay.TablePattern(table, ms) <= lay.RecordPattern(buf)
  {
    if table != [] {
      var n := |table| - 1;
      var e := table[n];
      PatternCovered(lay, table[..n], ms[..n], m, rec, buf);
      if !lay.keys[e.key].excluded {
        var kd := lay.keys[e.key];
        assert lay.Accepts(table[n], m, lay.Field(rec, lay.keys[e.key]));
        PaddedField(lay, rec, buf, kd);
        EntryCovered(lay, e, m, lay.Field(buf, kd));
        FieldInRecord(lay, buf, e.key, |lay.keys|);
      }
    }
  }

  // --- the hashing loops -------------------------------------------------------------------------

  /** The set of slots whose bit is on in a pattern table. */
  ghost function Pattern(h: seq<bv8>): set<int> {
    set s: int | 0 <= s < 8 * |h| && On(h, s)
  }

  /** aioxhash: turn on the slot of three numbers. */
  method XHash(lay: Layout, h1: int, h2: int, h3: int, table: array<bv8>)
    requires lay.slots > 0 && table.Length == lay.TableSize()
    modifies table
    ensures Pattern(table[..]) == old(Pattern(table[..])) + {lay.Hash(h1, h2, h3)}
  {
    var s := lay.Hash(h1, h2, h3);
    ghost var before := table[..];
    table[s / 8] := table[s / 8] | Mask(s % 8);
    assert table[..] == before[s / 8 := before[s / 8] | Mask(s % 8)];
    forall t: int ensures On(table[..], t) <==> On(before, t) || t == s {
      OnAfterSet(before, s, t);
    }
  }

  /** Trigrams grow by the group at position n, if that group avoids `skip`. */
  lemma TrigramsStep(lay: Layout, f: seq<byte>, n: nat, skip: set<byte>)
    requires lay.slots > 0
    ensures lay.Trigrams(f, n + 1, skip) == lay.Trigrams(f, n, skip) +
              if lay.AllPlain(f, n, skip) then {lay.Hash(f[n], f[n + 1], f[n + 2])} else {}
  {
    forall s | s in lay.Trigrams(f, n + 1, skip)
      ensures s in lay.Trigrams(f, n, skip) || (lay.AllPlain(f, n, skip) && s == lay.Hash(f[n], f[n + 1], f[n + 2]))
    {
      var p: nat :| p < n + 1 && lay.AllPlain(f, p, skip) && s == lay.Hash(f[p], f[p + 1], f[p + 2]);
    }
    if lay.AllPlain(f, n, skip) {
      assert lay.Hash(f[n], f[n + 1], f[n + 2]) in lay.Trigrams(f, n + 1, skip);
    }
  }

  /** Positions at which no group can start add nothing. */
  lemma TrigramsSkip(lay: Layout, f: seq<byte>, a: nat, b: nat, skip: set<byte>)
    requires lay.slots > 0 && a <= b
    requires forall p: nat :: a <= p < b ==> !lay.AllPlain(f, p, skip)
    ensures lay.Trigrams(f, a, skip) == lay.Trigrams(f, b, skip)
  {
    forall s | s in lay.Trigrams(f, b, skip)
      ensures s in lay.Trigrams(f, a, skip)
    {
      var p: nat :| p < b && lay.AllPlain(f, p, skip) && s == lay.Hash(f[p], f[p + 1], f[p + 2]);
    }
    forall s | s in lay.Trigrams(f, a, skip)
      ensures s in lay.Trigrams(f, b, skip)
    {
      var p: nat :| p < a && lay.AllPlain(f, p, skip) && s == lay.Hash(f[p], f[p + 1], f[p + 2]);
    }
  }

  /** No group that would start between position p and a blank at most two places on avoids that blank. */
  lemma TrigramsBlank(lay: Layout, f: seq<byte>, p: nat, next: nat)
    requires lay.slots > 0 && p < next <= p + 3 && next <= |f| && f[next - 1] == BLANK
    ensures lay.Trigrams(f, p, {BLANK}) == lay.Trigrams(f, next, {BLANK})
  {
    TrigramsSkip(lay, f, p, next, {BLANK});
  }

  /** No group starts in the last two places. */
  lemma TrigramsShort(lay: Layout, f: seq<byte>, p: nat)
    requires lay.slots > 0 && p <= |f| <= p + 2
    ensures lay.Trigrams(f, p, {BLANK}) == lay.Trigrams(f, |f|, {BLANK})
  {
    TrigramsSkip(lay, f, p, |f|, {BLANK});
  }

  /** A group without blanks adds its hash. */
  lemma TrigramsPlain(lay: Layout, f: seq<byte>, p: nat)
    requires lay.slots > 0 && p + 2 < |f| && f[p] != BLANK && f[p + 1] != BLANK && f[p + 2] != BLANK
    ensures lay.Trigrams(f, p + 1, {BLANK}) == lay.Trigrams(f, p, {BLANK}) + {lay.Hash(f[p], f[p + 1], f[p + 2])}
  {
    TrigramsStep(lay, f, p, {BLANK});
  }

  lemma TrigramsNone(lay: Layout, f: seq<byte>)
    requires lay.slots > 0
    ensures lay.Trigrams(f, 0, {BLANK}) == {}
  {
  }

  /** The three-character loop of the record hasher: it reads the buffer at absolute columns and
      jumps over groups that a blank has already ruled out. */
  method HashRecordTrigrams(lay: Layout, buf: seq<byte>, kd: KeyDef, ghost f: seq<byte>, table: array<bv8>)
    requires lay.Valid() && table.Length == lay.TableSize()
    requires kd.len > 3 && kd.start + kd.len <= |buf|
    requires |f| == kd.len && forall j :: 0 <= j < kd.len ==> f[j] == lay.Fold(buf[kd.start + j])
    modifies table
    ensures Pattern(table[..]) == old(Pattern(table[..])) + lay.Trigrams(f, |f|, {BLANK})
  {
    hide Layout.Trigrams, Layout.Hash, Layout.AllPlain, Pattern;
    ghost var before := Pattern(table[..]);
    TrigramsNone(lay, f);
    var i2 := kd.start;
    var i3 := kd.start + kd.len - 2;
    while i2 < i3
      invariant kd.start <= i2 <= i3 + 2
      invariant Pattern(table[..]) == before + lay.Trigrams(f, i2 - kd.start, {BLANK})
    {
      ghost var p := i2 - kd.start;
      var c1 := lay.Fold(buf[i2]);
      assert f[p] == c1;
      i2 := i2 + 1;
      if c1 == BLANK {
        TrigramsBlank(lay, f, p, p + 1);
        continue;
      }
      var c2 := lay.Fold(buf[i2]);
      assert f[p + 1] == c2;
      if c2 != BLANK {
        var c3 := lay.Fold(buf[i2 + 1]);
        assert f[p + 2] == c3;
        if c3 != BLANK {
          XHash(lay, c1, c2, c3, table);
          TrigramsPlain(lay, f, p);
        } else {
          i2 := i2 + 2;
          TrigramsBlank(lay, f, p, p + 3);
        }
      } else {
        i2 := i2 + 1;
        TrigramsBlank(lay, f, p, p + 2);
      }
    }
    TrigramsShort(lay, f, i2 - kd.start);
  }

  /** The hashing part of aioinsert: the pattern table ends up holding exactly the slots under
      which the record is to be filed. */
  method HashRecord(lay: Layout, buf: seq<byte>) returns (table: array<bv8>)
    requires lay.Valid() && lay.Covers(buf)
    ensures fresh(table) && table.Length == lay.TableSize()
    ensures Pattern(table[..]) == lay.RecordPattern(buf)
  {
    table := new bv8[lay.TableSize()](_ => 0);
    forall s ensures !On(table[..], s) {
      if 0 <= s < 8 * table.Length {
        ZeroByte(table[s / 8]);
      }
    }
    var i1 := 0;
    while i1 < |lay.keys|
      invariant 0 <= i1 <= |lay.keys|
      invariant Pattern(table[..]) == lay.RecordPatternTo(buf, i1)
    {
      if !lay.keys[i1].excluded {
        HashField(lay, buf, i1, table);
      }
      i1 := i1 + 1;
    }
  }

  method HashField(lay: Layout, buf: seq<byte>, k: nat, table: array<bv8>)
    requires lay.Valid() && lay.Covers(buf) && k < |lay.keys| && table.Length == lay.TableSize()
    modifies table
    ensures Pattern(table[..]) ==
            old(Pattern(table[..])) + lay.FieldPattern(k, lay.Field(buf, lay.keys[k]))
  {
    ghost var f := lay.Field(buf, lay.keys[k]);
    forall j | 0 <= j < |f|
      ensures f[j] == lay.Fold(buf[lay.keys[k].start + j])
    {
      FieldAt(lay, buf, lay.keys[k], j);
    }
    HashRecordEdges(lay, buf, k, f, table);
    if lay.keys[k].len - 1 > 2 {
      HashRecordTrigrams(lay, buf, lay.keys[k], f, table);
    }
  }

  method HashRecordEdges(lay: Layout, buf: seq<byte>, k: nat, ghost f: seq<byte>, table: array<bv8>)
    requires lay.Valid() && lay.Covers(buf) && k < |lay.keys| && table.Length == lay.TableSize()
    requires |f| == lay.keys[k].len && forall j :: 0 <= j < |f| ==> f[j] == lay.Fold(buf[lay.keys[k].start + j])
    modifies table
    ensures Pattern(table[..]) == old(Pattern(table[..])) +
              lay.LeftEdge(k, |f|, f, {BLANK}) + lay.RightEdge(k, |f|, f, {BLANK})
  {
    ghost var before := Pattern(table[..]);
    var i2 := lay.keys[k].start;
    var i3 := lay.keys[k].len - 1;
    var c1 := lay.Fold(buf[i2]);
    assert c1 == f[0];
    if c1 != BLANK {
      XHash(lay, k, 31, c1, table);
      if i3 > 1 {
        var c2 := lay.Fold(buf[i2 + 1]);
        assert c2 == f[1];
        if c2 != BLANK {
          XHash(lay, k, c1, c2, table);
        }
      }
    }
    assert Pattern(table[..]) == before + lay.LeftEdge(k, |f|, f, {BLANK});
    if i3 > 0 {
      c1 := lay.Fold(buf[i2 + i3]);
      assert c1 == f[i3];
      if c1 != BLANK {
        XHash(lay, k, 30, c1, table);
        if i3 > 1 {
          var c2 := lay.Fold(buf[i2 + i3 - 1]);
          assert c2 == f[i3 - 1];
          if c2 != BLANK {
            XHash(lay, k, c2, c1, table);
          }
        }
      }
    }
  }

  /** The three-character loop of the key hasher: it walks the key text itself, and both blanks
      and match characters rule a group out. */
  method HashKeyTrigrams(lay: Layout, text: seq<byte>, size: nat, m: byte, table: array<bv8>)
    requires lay.Valid() && table.Length == lay.TableSize()
    requires size <= |text| && forall i :: size <= i < |text| ==> text[i] == BLANK
    modifies table
    ensures Pattern(table[..]) == old(Pattern(table[..])) + lay.Trigrams(text, |text|, {BLANK, m})
  {
    ghost var before := Pattern(table[..]);
    var i1 := 0;
    var keysize := size - 2;
    while i1 < keysize
      invariant 0 <= i1 <= if keysize < 0 then 0 else keysize + 2
      invariant Pattern(table[..]) == before + lay.Trigrams(text, i1, {BLANK, m})
    {
      ghost var p := i1;
      var c1 := text[i1];
      i1 := i1 + 1;
      if c1 != BLANK && c1 != m {
        var c2 := text[i1];
        if c2 != BLANK && c2 != m {
          var c3 := text[i1 + 1];
          if c3 != BLANK && c3 != m {
            XHash(lay, c1, c2, c3, table);
            TrigramsStep(lay, text, p, {BLANK, m});
          } else {
            i1 := i1 + 2;
            TrigramsSkip(lay, text, p, p + 3, {BLANK, m});
          }
        } else {
          i1 := i1 + 1;
          TrigramsSkip(lay, text, p, p + 2, {BLANK, m});
        }
      } else {
        TrigramsSkip(lay, text, p, p + 1, {BLANK, m});
      }
    }
    TrigramsSkip(lay, text, i1, |text|, {BLANK, m});
  }

  /** The one- and two-character codes for the start of a key of kind X or L. */
  method HashKeyLeft(lay: Layout, e: Entry, size: nat, m: byte, table: array<bv8>)
    requires lay.Valid() && lay.EntryOk(e) && table.Length == lay.TableSize()
    requires 0 < size <= |e.text| && forall i :: size <= i < |e.text| ==> e.text[i] == BLANK
    modifies table
    ensures Pattern(table[..]) ==
            old(Pattern(table[..])) + lay.LeftEdge(e.key, lay.keys[e.key].len, e.text, {BLANK, m})
  {
    var keylen := lay.keys[e.key].len;
    var c1 := e.text[0];
    if c1 != BLANK && c1 != m {
      XHash(lay, e.key, 31, c1, table);
      if keylen > 2 && size > 1 && e.text[1] != BLANK && e.text[1] != m {
        XHash(lay, e.key, c1, e.text[1], table);
      }
    }
  }

  /** The one- and two-character codes for the end of an unpadded key of kind X or R. */
  method HashKeyRight(lay: Layout, e: Entry, m: byte, table: array<bv8>)
    requires lay.Valid() && lay.EntryOk(e) && table.Length == lay.TableSize()
    modifies table
    ensures Pattern(table[..]) ==
            old(Pattern(table[..])) + lay.RightEdge(e.key, lay.keys[e.key].len, e.text, {BLANK, m})
  {
    var keylen, size := lay.keys[e.key].len, |e.text|;
    var c1 := e.text[size - 1];
    if keylen > 1 && c1 != BLANK && c1 != m {
      XHash(lay, e.key, 30, c1, table);
      if keylen > 2 && size > 1 && e.text[size - 2] != BLANK && e.text[size - 2] != m {
        XHash(lay, e.key, e.text[size - 2], c1, table);
      }
    }
  }

  /** The hashing part of aiokey for an entry whose text was `size` characters before padding. */
  method HashKey(lay: Layout, e: Entry, size: nat, m: byte, table: array<bv8>)
    requires lay.Valid() && lay.EntryOk(e) && table.Length == lay.TableSize()
    requires 0 < size <= |e.text| && forall i :: size <= i < |e.text| ==> e.text[i] == BLANK
    requires !e.kind.X? ==> size == |e.text|
    modifies table
    ensures Pattern(table[..]) == old(Pattern(table[..])) + lay.KeyPattern(e, m)
  {
    var keylen := lay.keys[e.key].len;
    if e.kind.X? || e.kind.L? {
      HashKeyLeft(lay, e, size, m, table);
    }
    if (e.kind.X? && size == keylen) || e.kind.R? {
      HashKeyRight(lay, e, m, table);
    } else if e.kind.X? {
      assert e.text[|e.text| - 1] == BLANK;
    }
    if keylen > 3 {
      HashKeyTrigrams(lay, e.text, size, m, table);
    }
  }

  // --- the exact test, as the source runs it ------------------------------------------------------

  /** One comparison run of aiochkrec: key text against record columns from `at` on. */
  method Compare(lay: Layout, text: seq<byte>, m: byte, rec: seq<byte>, kd: KeyDef, at: nat) returns (ok: bool)
    requires lay.Valid() && kd.start <= at && at + |text| <= kd.start + kd.len
    ensures ok <==> lay.MatchAt(text, m, lay.Field(rec, kd), at - kd.start)
  {
    ghost var f := lay.Field(rec, kd);
    var i1, i3 := at, 0;
    while i3 < |text| && (text[i3] == lay.Probe(rec, i1) || text[i3] == m)
      invariant 0 <= i3 <= |text| && i1 == at + i3
      invariant forall j :: 0 <= j < i3 ==> text[j] == f[at - kd.start + j] || text[j] == m
    {
      assert f[at - kd.start + i3] == lay.Probe(rec, i1);
      i1, i3 := i1 + 1, i3 + 1;
    }
    ok := i3 == |text|;
    if !ok {
      assert f[at - kd.start + i3] == lay.Probe(rec, i1);
    }
  }

  /** aiochkrec answers 0 exactly when the record satisfies every entry of the lookup table. */
  method CheckRecord(lay: Layout, table: seq<Entry>, m: byte, rec: seq<byte>) returns (code: int)
    requires lay.Valid() && lay.TableOk(table)
    ensures code == 0 || code == 1
    ensures code == 0 <==> lay.AcceptsAll(table, m, rec)
  {
    var n := 0;
    while n < |table|
      invariant 0 <= n <= |table|
      invariant forall i :: 0 <= i < n ==> lay.Accepts(table[i], m, lay.Field(rec, lay.keys[table[i].key]))
    {
      var e := table[n];
      var kd := lay.keys[e.key];
      ghost var f := lay.Field(rec, kd);
      if !e.kind.F? {
        var at := if e.kind.R? then kd.start + kd.len - |e.text| else kd.start;
        var ok := Compare(lay, e.text, m, rec, kd, at);
        if !ok {
          return 1;
        }
      } else {
        var at, last, found := kd.start, kd.start + kd.len - |e.text|, false;
        while at <= last && !found
          invariant kd.start <= at <= last + 1
          invariant found ==> at <= last && lay.MatchAt(e.text, m, f, at - kd.start)
          invariant !found ==> forall p :: p < at - kd.start ==> !lay.MatchAt(e.text, m, f, p)
          decreases last - at, !found
        {
          found := Compare(lay, e.text, m, rec, kd, at);
          if !found {
            at := at + 1;
          }
        }
        if !found {
          return 1;
        }
      }
      n := n + 1;
    }
    return 0;
  }
}

/** What the index means in bytes (aio.c): the slots that a record is filed under and a key demands, the bits that stand for them
    in the file, and the records that a key selects. Nothing here is said by way of the functions that the rest is built from. */
module AimMeaning {
  import opened Bits
  import opened Bytes
  import opened AimHash
  import opened AimFile
  import opened AimKey

  // --- characters ---------------------------------------------------------------------------------------------------------

  /** A character as it is compared: in the case that the case map gives it, unless cases are distinct. */
  function Cased(lay: Layout, c: byte): byte
    requires |lay.casemap| == 256
  {
    if lay.distinct then c else lay.casemap[c]
  }

  /** Column i of a record as it is compared; a blank past its end. */
  function Column(lay: Layout, rec: seq<byte>, i: nat): byte
    requires |lay.casemap| == 256
  {
    if i >= |rec| then 32 else if lay.distinct then rec[i] else lay.casemap[rec[i]]
  }

  // --- the keys that are accepted -----------------------------------------------------------------------------------------

  /** The number of the field that a key names: two digits, the first of which may be a blank. */
  function FieldOf(key: seq<byte>): int
    requires |key| >= 2
  {
    (key[1] as int - 48) + if key[0] == 32 then 0 else 10 * (key[0] as int - 48)
  }

  /** A key has two digits, the first of which may be a blank, for a field that there is, a letter in either case, and at least
      one character to look for. */
  lemma HeaderMeans(lay: Layout, key: seq<byte>)
    ensures HeaderOk(lay, key) <==>
              && |key| >= 4 && (key[0] == 32 || 48 <= key[0] <= 57) && 48 <= key[1] <= 57
              && 1 <= FieldOf(key) <= |lay.keys|
              && key[2] in {88, 120, 76, 108, 82, 114, 70, 102}
    ensures HeaderOk(lay, key) ==> Field(lay, key) == FieldOf(key) - 1
  {
  }

  // --- the records that a key selects ---------------------------------------------------------------------------------------

  /** Character j behind the header of a key is the one in a column, or it is the match character. */
  predicate ReadsOne(lay: Layout, key: seq<byte>, j: nat, m: byte, rec: seq<byte>, at: nat)
    requires |lay.casemap| == 256 && 3 + j < |key|
  {
    Cased(lay, key[3 + j]) == Column(lay, rec, at + j) || Cased(lay, key[3 + j]) == m
  }

  /** The first n characters behind the header of a key are in the columns from `at` on. */
  predicate Reads(lay: Layout, key: seq<byte>, n: nat, m: byte, rec: seq<byte>, at: nat)
    requires |lay.casemap| == 256 && 3 + n <= |key|
  {
    forall j :: 0 <= j < n ==> ReadsOne(lay, key, j, m, rec, at)
  }

  /** Columns from a to b - 1 are blank, unless blanks match anything. */
  predicate BlankFrom(lay: Layout, m: byte, rec: seq<byte>, a: nat, b: nat)
    requires |lay.casemap| == 256
  {
    forall i :: a <= i < b ==> Column(lay, rec, i) == 32 || m == 32
  }

  /** The record has the key's text, n characters, in the field from column a to b - 1, where the letter says. */
  ghost predicate Selects(lay: Layout, letter: byte, key: seq<byte>, n: nat, m: byte, rec: seq<byte>, a: nat, b: nat)
    requires |lay.casemap| == 256 && 3 + n <= |key| && n <= b - a
  {
    if letter == 70 || letter == 102 then exists at: nat :: a <= at <= b - n && Reads(lay, key, n, m, rec, at)
    else if letter == 76 || letter == 108 then Reads(lay, key, n, m, rec, a)
    else if letter == 82 || letter == 114 then Reads(lay, key, n, m, rec, b - n)
    else Reads(lay, key, n, m, rec, a) && BlankFrom(lay, m, rec, a + n, b)
  }

  /** The characters of a key's text that are looked for in a field of so many columns. */
  function Least(size: nat, len: nat): nat {
    var n := if size > 65531 then 65531 else size;
    if n < len then n else len
  }

  lemma FieldColumn(lay: Layout, rec: seq<byte>, kd: KeyDef, j: nat)
    requires lay.Valid() && j < kd.len
    ensures lay.Field(rec, kd)[j] == Column(lay, rec, kd.start + j)
  {
    FieldAt(lay, rec, kd, j);
  }

  /** One character of the text of an entry, in the field from place p on. */
  lemma OneMeans(lay: Layout, key: seq<byte>, n: nat, m: byte, rec: seq<byte>, kd: KeyDef, e: Entry, p: nat, j: nat)
    requires lay.Valid() && n + 3 <= |key| && n <= |e.text| && p + |e.text| <= kd.len && j < |e.text|
    requires j < n ==> e.text[j] == lay.Fold(key[3 + j])
    requires j >= n ==> e.text[j] == BLANK
    ensures e.text[j] == lay.Field(rec, kd)[p + j] || e.text[j] == m <==>
              if j < n then ReadsOne(lay, key, j, m, rec, kd.start + p) else Column(lay, rec, kd.start + p + j) == 32 || m == 32
  {
    FieldColumn(lay, rec, kd, p + j);
  }

  lemma TextMeans(lay: Layout, key: seq<byte>, n: nat, m: byte, rec: seq<byte>, kd: KeyDef, e: Entry, p: nat)
    requires lay.Valid() && HeaderOk(lay, key) && n + 3 <= |key| && n <= |e.text| && p + |e.text| <= kd.len
    requires forall j :: 0 <= j < n ==> e.text[j] == lay.Fold(key[3 + j])
    requires forall j :: n <= j < |e.text| ==> e.text[j] == BLANK
    ensures lay.MatchAt(e.text, m, lay.Field(rec, kd), p) <==>
              Reads(lay, key, n, m, rec, kd.start + p) && BlankFrom(lay, m, rec, kd.start + p + n, kd.start + p + |e.text|)
  {
    hide ReadsOne, Column, Layout.Field;
    var f := lay.Field(rec, kd);
    if lay.MatchAt(e.text, m, f, p) {
      forall j: nat {:trigger ReadsOne(lay, key, j, m, rec, kd.start + p)} | j < n
        ensures ReadsOne(lay, key, j, m, rec, kd.start + p)
      {
        OneMeans(lay, key, n, m, rec, kd, e, p, j);
      }
      forall i: nat | kd.start + p + n <= i < kd.start + p + |e.text|
        ensures Column(lay, rec, i) == 32 || m == 32
      {
        OneMeans(lay, key, n, m, rec, kd, e, p, i - kd.start - p);
      }
    }
    if Reads(lay, key, n, m, rec, kd.start + p) && BlankFrom(lay, m, rec, kd.start + p + n, kd.start + p + |e.text|) {
      forall j: nat | j < |e.text|
        ensures e.text[j] == f[p + j] || e.text[j] == m
      {
        OneMeans(lay, key, n, m, rec, kd, e, p, j);
      }
    }
  }

  /** The entry of a key whose text is taken from its start. */
  lemma EntryOf(lay: Layout, key: seq<byte>)
    requires lay.Valid() && HeaderOk(lay, key)
    requires key[2] in {82, 114} ==> |key| - 3 <= lay.keys[FieldOf(key) - 1].len && |key| - 3 <= 65531
    ensures TextStart(lay, key) == 3
    ensures var kd := lay.keys[FieldOf(key) - 1]; var n := Least(|key| - 3, kd.len); var e := KeyEntry(lay, key);
            && e.key == FieldOf(key) - 1 && n <= |e.text| && e.text[..n] == seq(n, j requires 0 <= j < n => lay.Fold(key[3 + j]))
            && (forall j :: n <= j < |e.text| ==> e.text[j] == BLANK)
            && (if n == kd.len || key[2] in {88, 120} then e.kind.X? && |e.text| == kd.len
                else |e.text| == n && e.kind == if key[2] in {76, 108} then L else if key[2] in {82, 114} then R else F)
  {
    HeaderMeans(lay, key);
  }

  /** WHAT A KEY SELECTS. A key shorter than its field selects the records that have its text somewhere in the field (F), at its
      start (L), at its end (R), or in it with blanks behind (X). A longer key selects, but for letter R, the records that have as much
      of its text as the field, or an entry, holds. */
  lemma KeySelects(lay: Layout, key: seq<byte>, m: byte, rec: seq<byte>)
    requires lay.Valid() && HeaderOk(lay, key)
    requires key[2] in {82, 114} ==> |key| - 3 <= lay.keys[FieldOf(key) - 1].len && |key| - 3 <= 65531
    ensures TextStart(lay, key) == 3
    ensures var kd := lay.keys[FieldOf(key) - 1]; var n := Least(|key| - 3, kd.len);
            lay.AcceptsAll([KeyEntry(lay, key)], m, rec) <==> Selects(lay, key[2], key, n, m, rec, kd.start, kd.start + kd.len)
  {
    HeaderMeans(lay, key);
    EntryOf(lay, key);
    var kd, e := lay.keys[FieldOf(key) - 1], KeyEntry(lay, key);
    var n := Least(|key| - 3, kd.len);
    var f := lay.Field(rec, kd);
    forall j | 0 <= j < n
      ensures e.text[j] == lay.Fold(key[3 + j])
    {
      assert e.text[..n][j] == e.text[j];
    }
    assert lay.AcceptsAll([e], m, rec) <==> lay.Accepts([e][0], m, f);
    forall p: nat | p + |e.text| <= kd.len
      ensures lay.MatchAt(e.text, m, f, p) <==>
                Reads(lay, key, n, m, rec, kd.start + p) && BlankFrom(lay, m, rec, kd.start + p + n, kd.start + p + |e.text|)
    {
      TextMeans(lay, key, n, m, rec, kd, e, p);
    }
    if key[2] in {70, 102} && n < kd.len {
      FloatMeans(lay, key, n, m, rec, kd, e);
    }
    if key[2] in {70, 102} && n == kd.len && Reads(lay, key, n, m, rec, kd.start) {
      assert kd.start <= kd.start <= kd.start + kd.len - n;
    }
  }

  /** Somewhere in the field. */
  lemma FloatMeans(lay: Layout, key: seq<byte>, n: nat, m: byte, rec: seq<byte>, kd: KeyDef, e: Entry)
    requires lay.Valid() && n + 3 <= |key| && |e.text| == n <= kd.len && e.kind.F?
    requires forall p: nat :: p + n <= kd.len ==>
               (lay.MatchAt(e.text, m, lay.Field(rec, kd), p) <==>
                Reads(lay, key, n, m, rec, kd.start + p) && BlankFrom(lay, m, rec, kd.start + p + n, kd.start + p + n))
    ensures lay.Accepts(e, m, lay.Field(rec, kd)) <==>
              exists at: nat :: kd.start <= at <= kd.start + kd.len - n && Reads(lay, key, n, m, rec, at)
  {
    var f := lay.Field(rec, kd);
    if lay.Accepts(e, m, f) {
      var p: int :| lay.MatchAt(e.text, m, f, p);
      var at: nat := kd.start + p;
      assert Reads(lay, key, n, m, rec, at);
    }
    if at: nat :| kd.start <= at <= kd.start + kd.len - n && Reads(lay, key, n, m, rec, at) {
      var p: nat := at - kd.start;
      assert kd.start + p == at;
      assert BlankFrom(lay, m, rec, kd.start + p + n, kd.start + p + n);
      assert lay.MatchAt(e.text, m, f, p);
    }
  }

  /** A whole lookup selects what each of its keys selects. */
  lemma {:induction false} EachKey(lay: Layout, table: seq<Entry>, e: Entry, m: byte, rec: seq<byte>)
    requires lay.Valid() && lay.TableOk(table) && lay.EntryOk(e)
    ensures lay.AcceptsAll(table + [e], m, rec) <==> lay.AcceptsAll(table, m, rec) && lay.AcceptsAll([e], m, rec)
  {
    var t := table + [e];
    if lay.AcceptsAll(t, m, rec) {
      forall i | 0 <= i < |table|
        ensures lay.Accepts(table[i], m, lay.Field(rec, lay.keys[table[i].key]))
      {
        assert t[i] == table[i];
      }
      assert t[|table|] == e;
    }
    if lay.AcceptsAll(table, m, rec) && lay.AcceptsAll([e], m, rec) {
      assert [e][0] == e;
    }
  }

  // --- the slots of a record ------------------------------------------------------------------------------------------------

  /** The slot of three numbers: their low five bits side by side, and the remainder by the number of slots. */
  function Slot(lay: Layout, x: int, y: int, z: int): int
    requires lay.slots > 0
  {
    (1024 * (x % 32) + 32 * (y % 32) + z % 32) % lay.slots
  }

  /** A slot of field k, columns a to b: of its first character behind the number 31, its last behind the number 30, its first two and
      its last two when it is longer than two, and any three in a row when it is longer than three. None of them is a blank. */
  ghost predicate SlotOf(lay: Layout, buf: seq<byte>, k: nat, a: nat, b: nat, s: int)
    requires |lay.casemap| == 256 && lay.slots > 0
  {
    || (Column(lay, buf, a) != 32 && s == Slot(lay, k, 31, Column(lay, buf, a)))
    || (b - a > 1 && Column(lay, buf, a) != 32 && Column(lay, buf, a + 1) != 32
        && s == Slot(lay, k, Column(lay, buf, a), Column(lay, buf, a + 1)))
    || (b > a && Column(lay, buf, b) != 32 && s == Slot(lay, k, 30, Column(lay, buf, b)))
    || (b - a > 1 && Column(lay, buf, b) != 32 && Column(lay, buf, b - 1) != 32
        && s == Slot(lay, k, Column(lay, buf, b - 1), Column(lay, buf, b)))
    || (b - a > 2 && exists p: nat :: a <= p <= b - 2 && Three(lay, buf, p) && s == SlotAt(lay, buf, p))
  }

  predicate Three(lay: Layout, buf: seq<byte>, p: nat)
    requires |lay.casemap| == 256
  {
    Column(lay, buf, p) != 32 && Column(lay, buf, p + 1) != 32 && Column(lay, buf, p + 2) != 32
  }

  function SlotAt(lay: Layout, buf: seq<byte>, p: nat): int
    requires |lay.casemap| == 256 && lay.slots > 0
  {
    Slot(lay, Column(lay, buf, p), Column(lay, buf, p + 1), Column(lay, buf, p + 2))
  }

  lemma FieldSlots(lay: Layout, buf: seq<byte>, k: nat, s: int)
    requires lay.Valid() && k < |lay.keys|
    ensures s in lay.FieldPattern(k, lay.Field(buf, lay.keys[k])) <==>
              SlotOf(lay, buf, k, lay.keys[k].start, lay.keys[k].start + lay.keys[k].len - 1, s)
  {
    hide Column, Layout.Field, Three, SlotAt, Layout.Trigrams, Layout.AllPlain, Layout.Hash, Slot;
    var kd := lay.keys[k];
    HashIs(lay);
    FieldColumn(lay, buf, kd, 0);
    FieldColumn(lay, buf, kd, kd.len - 1);
    if kd.len > 2 {
      FieldColumn(lay, buf, kd, 1);
      FieldColumn(lay, buf, kd, kd.len - 2);
    }
    if kd.len > 3 {
      ThreeSlots(lay, buf, kd, s);
    }
  }

  lemma HashIs(lay: Layout)
    requires lay.slots > 0
    ensures forall x, y, z :: lay.Hash(x, y, z) == Slot(lay, x, y, z)
  {
  }

  /** Any three in a row. */
  lemma ThreeSlots(lay: Layout, buf: seq<byte>, kd: KeyDef, s: int)
    requires lay.Valid() && kd.len > 3
    ensures s in lay.Trigrams(lay.Field(buf, kd), kd.len, {BLANK}) <==>
              exists p: nat :: kd.start <= p <= kd.start + kd.len - 3 && Three(lay, buf, p) && s == SlotAt(lay, buf, p)
  {
    hide Column, Layout.Field, Three, SlotAt;
    var f, a := lay.Field(buf, kd), kd.start;
    if s in lay.Trigrams(f, kd.len, {BLANK}) {
      var p: nat :| 0 <= p < kd.len && lay.AllPlain(f, p, {BLANK}) && s == lay.Hash(f[p], f[p + 1], f[p + 2]);
      ThreeAt(lay, buf, kd, p);
      assert Three(lay, buf, a + p) && s == SlotAt(lay, buf, a + p);
    }
    if p: nat :| a <= p <= a + kd.len - 3 && Three(lay, buf, p) && s == SlotAt(lay, buf, p) {
      ThreeAt(lay, buf, kd, p - a);
      assert lay.AllPlain(f, p - a, {BLANK});
    }
  }

  lemma ThreeAt(lay: Layout, buf: seq<byte>, kd: KeyDef, p: nat)
    requires lay.Valid() && p + 3 <= kd.len
    ensures var f := lay.Field(buf, kd);
            && (lay.AllPlain(f, p, {BLANK}) <==> Three(lay, buf, kd.start + p))
            && lay.Hash(f[p], f[p + 1], f[p + 2]) == SlotAt(lay, buf, kd.start + p)
  {
    hide Column, Layout.Field;
    FieldColumn(lay, buf, kd, p);
    FieldColumn(lay, buf, kd, p + 1);
    FieldColumn(lay, buf, kd, p + 2);
  }

  lemma {:induction false} RecordSlotsTo(lay: Layout, buf: seq<byte>, n: nat, s: int)
    requires lay.Valid() && n <= |lay.keys|
    ensures s in lay.RecordPatternTo(buf, n) <==>
              exists k: nat :: k < n && !lay.keys[k].excluded
                               && SlotOf(lay, buf, k, lay.keys[k].start, lay.keys[k].start + lay.keys[k].len - 1, s)
  {
    hide Layout.FieldPattern, SlotOf;
    if n > 0 {
      RecordSlotsTo(lay, buf, n - 1, s);
      FieldSlots(lay, buf, n - 1, s);
    }
  }

  /** THE SLOTS OF A RECORD are those of its fields that are not excluded. */
  lemma RecordSlots(lay: Layout, buf: seq<byte>, s: int)
    requires lay.Valid()
    ensures s in lay.RecordPattern(buf) <==>
              exists k: nat :: k < |lay.keys| && !lay.keys[k].excluded
                               && SlotOf(lay, buf, k, lay.keys[k].start, lay.keys[k].start + lay.keys[k].len - 1, s)
  {
    RecordSlotsTo(lay, buf, |lay.keys|, s);
  }

  // --- the slots of a key ---------------------------------------------------------------------------------------------------

  /** A character that is hashed: neither a blank nor the match character. */
  predicate Free(c: byte, m: byte) {
    c != 32 && c != m
  }

  predicate FreeThree(t: seq<byte>, m: byte, p: nat) {
    p + 3 <= |t| && Free(t[p], m) && Free(t[p + 1], m) && Free(t[p + 2], m)
  }

  function SlotOfThree(lay: Layout, t: seq<byte>, p: nat): int
    requires lay.slots > 0 && p + 3 <= |t|
  {
    Slot(lay, t[p], t[p + 1], t[p + 2])
  }

  /** A slot that the text t of an entry for field k, of n columns, demands: of its first one and two characters unless it may stand
      anywhere but at the start, of its last one and two unless it may stand anywhere but at the end, and of any three in a row. */
  ghost predicate DemandedBy(lay: Layout, kind: Kind, k: nat, n: nat, t: seq<byte>, m: byte, s: int)
    requires lay.slots > 0 && t != []
  {
    var z := |t| - 1;
    || (kind in {X, L} && Free(t[0], m) && s == Slot(lay, k, 31, t[0]))
    || (kind in {X, L} && n > 2 && z > 0 && Free(t[0], m) && Free(t[1], m) && s == Slot(lay, k, t[0], t[1]))
    || (kind in {X, R} && n > 1 && Free(t[z], m) && s == Slot(lay, k, 30, t[z]))
    || (kind in {X, R} && n > 2 && z > 0 && Free(t[z], m) && Free(t[z - 1], m) && s == Slot(lay, k, t[z - 1], t[z]))
    || (n > 3 && exists p: nat :: FreeThree(t, m, p) && s == SlotOfThree(lay, t, p))
  }

  /** THE SLOTS OF A KEY are those that its text demands. */
  lemma KeySlots(lay: Layout, e: Entry, m: byte, s: int)
    requires lay.Valid() && lay.EntryOk(e)
    ensures s in lay.KeyPattern(e, m) <==> DemandedBy(lay, e.kind, e.key, lay.keys[e.key].len, e.text, m, s)
  {
    hide Layout.Trigrams, Layout.Hash, Slot;
    HashIs(lay);
    KeyThrees(lay, e.text, m, s);
  }

  lemma KeyThrees(lay: Layout, t: seq<byte>, m: byte, s: int)
    requires lay.Valid()
    ensures s in lay.Trigrams(t, |t|, {BLANK, m}) <==> exists p: nat :: FreeThree(t, m, p) && s == SlotOfThree(lay, t, p)
  {
    hide Layout.Hash, Slot;
    HashIs(lay);
    if s in lay.Trigrams(t, |t|, {BLANK, m}) {
      var p: nat :| 0 <= p < |t| && lay.AllPlain(t, p, {BLANK, m}) && s == lay.Hash(t[p], t[p + 1], t[p + 2]);
      assert FreeThree(t, m, p) && s == SlotOfThree(lay, t, p);
    }
    if p: nat :| FreeThree(t, m, p) && s == SlotOfThree(lay, t, p) {
      assert lay.AllPlain(t, p, {BLANK, m});
    }
  }

  // --- the bits in the file -------------------------------------------------------------------------------------------------

  /** The bits of a byte, from the low end. */
  const BITS: seq<bv8> := [1, 2, 4, 8, 16, 32, 64, 128]

  /** WHERE A RECORD IS FILED. The bit of slot s for record r of an extent is bit r % 8, from the low end, of byte r / 8 of the slot, and
      the slots lie one behind the other. */
  lemma FiledWhere(x: Extent, width: int, s: nat, r: nat)
    requires ExtentOk(x, width) && s < width && r < x.nrec
    ensures 0 <= s * (x.nrec / 8) + r / 8 < |x.data|
    ensures Filed(x, width, s, r) <==> x.data[s * (x.nrec / 8) + r / 8] & BITS[r % 8] != 0
  {
    PosInside(s, x.nrec / 8, r / 8, width);
  }

  /** A new extent has room for what was asked for, or for the distance when that is longer, and is the least multiple of 32 that has. */
  lemma GrowthIs(step: int, d: int)
    requires 0 < step && 0 <= d
    ensures var g := GrowBy(step, d);
            g % 32 == 0 && g >= step && g >= d && (g - 32 < step || g - 32 < d)
  {
  }
}

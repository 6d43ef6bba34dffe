/** The text form of one lookup key, as it is handed to aiokey (aio.c): two digits for the field, one
    letter for the kind of match, and the characters to look for. */
module AimKey {
  import opened Bytes
  import opened AimHash

  /** Longest key text, chosen so that a table entry's length fits two bytes. */
  const MAXTEXT := 0xFFFF - 4

  /** The kind letter of a key, in either case. */
  predicate KindLetter(c: byte) {
    ToUpper(c) == 88 || ToUpper(c) == 76 || ToUpper(c) == 82 || ToUpper(c) == 70
  }

  function KindOf(c: byte): Kind
    requires KindLetter(c)
  {
    if ToUpper(c) == 88 then X else if ToUpper(c) == 76 then L else if ToUpper(c) == 82 then R else F
  }

  /** The one-based field number written in the first two characters. */
  function FieldNumber(key: seq<byte>): int
    requires |key| >= 2
  {
    (key[1] as int - 48) + if key[0] != BLANK then (key[0] as int - 48) * 10 else 0
  }

  /** The keys that aiokey accepts. */
  predicate HeaderOk(lay: Layout, key: seq<byte>) {
    && |key| > 3
    && (key[0] == BLANK || IsDigit(key[0])) && IsDigit(key[1])
    && 1 <= FieldNumber(key) <= |lay.keys|
    && KindLetter(key[2])
  }

  function Field(lay: Layout, key: seq<byte>): nat
    requires HeaderOk(lay, key)
  {
    FieldNumber(key) - 1
  }

  /** Number of text characters kept, before padding. */
  function Size(lay: Layout, key: seq<byte>): (n: int)
    requires lay.Valid() && HeaderOk(lay, key)
    ensures 0 < n <= lay.keys[Field(lay, key)].len && n <= |key| - 3
  {
    var keysize := if |key| - 3 > MAXTEXT then MAXTEXT else |key| - 3;
    if keysize >= lay.keys[Field(lay, key)].len then lay.keys[Field(lay, key)].len else keysize
  }

  /** Index of the first text character kept. For a key of kind R that is longer than its field the
      source moves this index the wrong way. */
  function TextStart(lay: Layout, key: seq<byte>): (at: int)
    requires lay.Valid() && HeaderOk(lay, key)
    ensures at + Size(lay, key) <= |key|
  {
    var keylen := lay.keys[Field(lay, key)].len;
    var isR := KindOf(key[2]).R?;
    var cut := if |key| - 3 > MAXTEXT && isR then |key| - 3 - MAXTEXT else 0;
    var keysize := if |key| - 3 > MAXTEXT then MAXTEXT else |key| - 3;
    3 + cut + if keysize >= keylen && isR then keylen - keysize else 0
  }

  /** A key that fills its field becomes an exact one. */
  function FinalKind(lay: Layout, key: seq<byte>): Kind
    requires lay.Valid() && HeaderOk(lay, key)
  {
    if Size(lay, key) == lay.keys[Field(lay, key)].len then X else KindOf(key[2])
  }

  /** The text characters kept, folded like the record will be. */
  function Text(lay: Layout, key: seq<byte>): (t: seq<byte>)
    requires lay.Valid() && HeaderOk(lay, key) && 0 <= TextStart(lay, key)
    ensures |t| == Size(lay, key)
  {
    var at := TextStart(lay, key);
    seq<byte>(Size(lay, key), i requires 0 <= i < Size(lay, key) => lay.Fold(key[at + i]))
  }

  /** The entry that a key adds to the lookup table; an exact key is padded with blanks. */
  function KeyEntry(lay: Layout, key: seq<byte>): (e: Entry)
    requires lay.Valid() && HeaderOk(lay, key) && 0 <= TextStart(lay, key)
    ensures lay.EntryOk(e)
  {
    var f := Field(lay, key);
    var kind := FinalKind(lay, key);
    var pad := if kind.X? then lay.keys[f].len - Size(lay, key) else 0;
    Entry(kind, f, Text(lay, key) + seq(pad, _ => BLANK))
  }

  /** Where the text of a key should start, so that a key longer than its field is cut to the
      characters that the field can hold: the last ones for kind R, the first ones otherwise. */
  function IntendedStart(lay: Layout, key: seq<byte>): int
    requires lay.Valid() && HeaderOk(lay, key)
  {
    if KindOf(key[2]).R? then |key| - Size(lay, key) else 3
  }

  /** The characters of the text that are looked at. */
  function Looked(key: seq<byte>): nat
    requires |key| >= 3
  {
    if |key| - 3 > MAXTEXT then MAXTEXT else |key| - 3
  }

  /** The source cuts a key where it should exactly when the key is not of kind R or what is looked at is no longer than its
      field; it reads before the start of the caller's buffer exactly when a kind R key exceeds its field by more than three
      characters, and by more than those that it has passed over as too many for an entry. */
  lemma TruncationIsRight(lay: Layout, key: seq<byte>)
    requires lay.Valid() && HeaderOk(lay, key)
    ensures TextStart(lay, key) == IntendedStart(lay, key) <==>
              !KindOf(key[2]).R? || Looked(key) <= lay.keys[Field(lay, key)].len
    ensures TextStart(lay, key) < 0 <==>
              KindOf(key[2]).R? && Looked(key) > lay.keys[Field(lay, key)].len + (|key| - Looked(key))
  {
  }

  /** "01RABCD" on a field of two characters looks for "1R", not for "CD". */
  lemma TruncationGoesWrong(lay: Layout)
    requires lay.Valid() && lay.distinct && |lay.keys| > 0 && lay.keys[0].len == 2
    ensures KeyEntry(lay, [48, 49, 82, 65, 66, 67, 68]) == Entry(X, 0, [49, 82])
  {
    var key: seq<byte> := [48, 49, 82, 65, 66, 67, 68];
    assert FieldNumber(key) == 1;
    assert TextStart(lay, key) == 1 && Size(lay, key) == 2;
    var t := Text(lay, key);
    assert t[0] == lay.Fold(key[1 + 0]) && t[1] == lay.Fold(key[1 + 1]);
    assert t == [49, 82];
  }
}

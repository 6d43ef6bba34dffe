/** Record compression (rio.c, riocomp and the decoding parts of rioget and rioprev): runs of blanks and pairs of
    digits are written in fewer bytes. */
module RioCodec {
  import opened Bytes
  import opened Lists

  const SPC: byte := 0xF9               // a run of blanks, followed by its length
  const EOR: byte := 0xFA               // end of record
  const EOF: byte := 0xFB               // end of file
  const DEL: byte := 0xFF               // deleted
  const MAXRUN := 248

  predicate InPairs(c: byte) {
    IsDigit(c) || c == POINT
  }

  function DigitRank(c: byte): (n: int)
    requires InPairs(c)
    ensures 0 <= n <= 10
  {
    if c == POINT then 10 else c as int - 48
  }

  function RankDigit(n: int): (c: byte)
    requires 0 <= n <= 10
    ensures InPairs(c) && DigitRank(c) == n
  {
    if n == 10 then POINT else n + 48
  }

  /** Two digits in one byte. */
  function Pair(c1: byte, c2: byte): (b: byte)
    requires InPairs(c1) && InPairs(c2)
    ensures 0x80 <= b < SPC && First(b) == c1 && Second(b) == c2
  {
    128 + DigitRank(c1) * 11 + DigitRank(c2)
  }

  /** The entries of dig1map and dig2map. */
  function First(b: byte): (c: byte)
    requires 0x80 <= b < SPC
  {
    RankDigit((b as int - 128) / 11)
  }

  function Second(b: byte): (c: byte)
    requires 0x80 <= b < SPC
  {
    RankDigit((b as int - 128) % 11)
  }

  function Blanks(n: nat): (s: seq<byte>)
    ensures |s| == n && forall i :: 0 <= i < n ==> s[i] == BLANK
  {
    seq(n, _ => BLANK)
  }

  /** The length of the run of blanks at the start of s, up to MAXRUN. */
  function Run(s: seq<byte>): (n: nat)
    ensures n <= |s| && n <= MAXRUN && s[..n] == Blanks(n)
    ensures n < |s| && n < MAXRUN ==> s[n] != BLANK
  {
    RunFrom(s, 0)
  }

  function RunFrom(s: seq<byte>, i: nat): (n: nat)
    requires i <= |s| && i <= MAXRUN && s[..i] == Blanks(i)
    ensures i <= n <= |s| && n <= MAXRUN && s[..n] == Blanks(n)
    ensures n < |s| && n < MAXRUN ==> s[n] != BLANK
    decreases |s| - i
  {
    if i < |s| && i < MAXRUN && s[i] == BLANK then
      assert s[..i + 1] == s[..i] + [s[i]];
      RunFrom(s, i + 1)
    else i
  }

  /** The bytes written for a run of n blanks. */
  function RunBytes(n: nat): (s: seq<byte>)
    requires n <= MAXRUN
    ensures |s| <= n
  {
    if n > 2 then [SPC, n] else Blanks(n)
  }

  /** How much of a record the next step of compression covers, and what it writes; with `plain` digits are not
      compressed. */
  function Head(s: seq<byte>, plain: bool): (r: (nat, seq<byte>))
    requires s != []
    ensures 0 < r.0 <= |s| && |r.1| <= r.0
  {
    if s[0] == BLANK then
      RunNonempty(s);
      (Run(s), RunBytes(Run(s)))
    else if !plain && |s| > 1 && InPairs(s[0]) && InPairs(s[1]) then (2, [Pair(s[0], s[1])])
    else (1, [s[0]])
  }

  lemma RunNonempty(s: seq<byte>)
    requires s != [] && s[0] == BLANK
    ensures Run(s) > 0
  {
    assert s[..1] == [BLANK];
  }

  /** The compressed form of a record. */
  function Compress(s: seq<byte>, plain: bool): (c: seq<byte>)
    decreases |s|
  {
    if s == [] then [] else Head(s, plain).1 + Compress(s[Head(s, plain).0..], plain)
  }

  /** The bytes that a record may hold. */
  function Limit(plain: bool): byte {
    if plain then SPC else 0x80
  }

  predicate Storable(s: seq<byte>, plain: bool) {
    forall i :: 0 <= i < |s| ==> s[i] < Limit(plain)
  }

  lemma HeadLow(s: seq<byte>, plain: bool)
    requires s != [] && Storable(s, plain)
    ensures forall i :: 0 <= i < |Head(s, plain).1| ==> Head(s, plain).1[i] < EOR
  {
  }

  /** Compression never makes a record longer, and leaves the bytes from EOR on to marks. */
  lemma {:induction false} CompressBounds(s: seq<byte>, plain: bool)
    requires Storable(s, plain)
    ensures |Compress(s, plain)| <= |s|
    ensures forall i :: 0 <= i < |Compress(s, plain)| ==> Compress(s, plain)[i] < EOR
    decreases |s|
  {
    if s != [] {
      HeadLow(s, plain);
      CompressBounds(s[Head(s, plain).0..], plain);
      hide Head;
    }
  }

  // --- decoding ----------------------------------------------------------------------------------------------

  const ERR_NOEOR := -28
  const ERR_BADCH := -30
  const ERR_RANGE := -31
  const ERR_NOEOF := -57

  /** What reading a record can come to: a record and the bytes it takes, the end of the file, a deleted record,
      or an error and the bytes passed over. */
  datatype Outcome = Got(data: seq<byte>, used: nat) | AtEnd | Gone(used: nat) | Failed(code: int, used: nat)

  /** Decode w from position i on, after `out` has been decoded; `tail` is the error for a record that is not
      ended within w. */
  function Expand(w: seq<byte>, i: nat, out: seq<byte>, recsize: nat, plain: bool, tail: int): Outcome
    requires i <= |w|
    decreases |w| - i
  {
    if i == |w| then Failed(tail, i)
    else if w[i] == SPC then
      if i + 1 == |w| then Failed(tail, i + 1)
      else if |out| + w[i + 1] as int > recsize then Failed(ERR_NOEOR, i + 2)
      else Expand(w, i + 2, out + Blanks(w[i + 1] as nat), recsize, plain, tail)
    else if !plain && 0x80 <= w[i] < SPC then
      if |out| + 2 > recsize then Failed(ERR_NOEOR, i + 1)
      else Expand(w, i + 1, out + [First(w[i]), Second(w[i])], recsize, plain, tail)
    else if w[i] == EOR then Got(out, i + 1)
    else if w[i] > EOR then Failed(ERR_BADCH, i + 1)
    else if |out| + 1 > recsize then Failed(ERR_NOEOR, i + 1)
    else Expand(w, i + 1, out + [w[i]], recsize, plain, tail)
  }

  lemma ExpandBlanks(w: seq<byte>, i: nat, out: seq<byte>, recsize: nat, plain: bool, tail: int, n: nat)
    requires 0 < n <= MAXRUN && |out| + n <= recsize
    requires Stands(w, i, RunBytes(n))
    ensures i + |RunBytes(n)| <= |w|
    ensures Expand(w, i, out, recsize, plain, tail) == Expand(w, i + |RunBytes(n)|, out + Blanks(n), recsize, plain, tail)
  {
    var t := RunBytes(n);
    StandsAt(w, i, t);
    if n == 2 {
      assert w[i] == w[i + 1] == BLANK;
      assert (out + [BLANK]) + [BLANK] == out + Blanks(2);
    } else if n == 1 {
      assert [BLANK] == Blanks(1);
    }
  }

  lemma ExpandPair(w: seq<byte>, i: nat, out: seq<byte>, recsize: nat, plain: bool, tail: int, c1: byte, c2: byte)
    requires !plain && InPairs(c1) && InPairs(c2) && |out| + 2 <= recsize && i < |w| && w[i] == Pair(c1, c2)
    ensures Expand(w, i, out, recsize, plain, tail) == Expand(w, i + 1, out + [c1, c2], recsize, plain, tail)
  {
  }

  /** Decoding what one step of compression has written. */
  lemma ExpandHead(w: seq<byte>, i: nat, out: seq<byte>, recsize: nat, plain: bool, tail: int, s: seq<byte>, n: nat, t: seq<byte>)
    requires s != [] && Storable(s, plain) && (n, t) == Head(s, plain) && |out| + n <= recsize
    requires Stands(w, i, t)
    ensures i + |t| <= |w|
    ensures Expand(w, i, out, recsize, plain, tail) == Expand(w, i + |t|, out + s[..n], recsize, plain, tail)
  {
    StandsAt(w, i, t);
    if s[0] == BLANK {
      ExpandBlanks(w, i, out, recsize, plain, tail, n);
    } else if !plain && |s| > 1 && InPairs(s[0]) && InPairs(s[1]) {
      assert s[..n] == [s[0], s[1]];
      ExpandPair(w, i, out, recsize, plain, tail, s[0], s[1]);
    } else {
      assert s[..n] == [s[0]];
    }
  }

  lemma ExpandEnd(w: seq<byte>, i: nat, out: seq<byte>, recsize: nat, plain: bool, tail: int)
    requires i < |w| && w[i] == EOR
    ensures Expand(w, i, out, recsize, plain, tail) == Got(out + [], i + 1)
  {
    assert out + [] == out;
  }

  lemma StorableFrom(s: seq<byte>, n: nat, plain: bool)
    requires n <= |s| && Storable(s, plain)
    ensures Storable(s[n..], plain)
  {
  }

  lemma Rejoin(out: seq<byte>, s: seq<byte>, n: nat)
    requires n <= |s|
    ensures (out + s[..n]) + s[n..] == out + s
  {
  }

  /** Decoding a compressed record c up to its end mark gives the record s back. */
  lemma {:induction false} ExpandBack(w: seq<byte>, i: nat, out: seq<byte>, recsize: nat, plain: bool, tail: int, s: seq<byte>, c: seq<byte>)
    requires Storable(s, plain) && |out| + |s| <= recsize && c == Compress(s, plain) && Stands(w, i, c + [EOR])
    ensures i <= |w| && Expand(w, i, out, recsize, plain, tail) == Got(out + s, i + |c| + 1)
    decreases |s|
  {
    hide Head, Expand, Compress, Stands, Storable;
    StandsSplit(w, i, c, [EOR]);
    StandsAt(w, i + |c|, [EOR]);
    CompressParts(s, plain);
    if s == [] {
      ExpandEnd(w, i, out, recsize, plain, tail);
    } else {
      var (n, t) := Head(s, plain);
      var d := Compress(s[n..], plain);
      StorableFrom(s, n, plain);
      Regroup(t, d, [EOR]);
      StandsSplit(w, i, t, d + [EOR]);
      ExpandHead(w, i, out, recsize, plain, tail, s, n, t);
      Rejoin(out, s, n);
      ExpandBack(w, i + |t|, out + s[..n], recsize, plain, tail, s[n..], d);
    }
  }

  lemma CompressParts(s: seq<byte>, plain: bool)
    ensures s == [] ==> Compress(s, plain) == []
    ensures s != [] ==> var (n, t) := Head(s, plain); 0 < n <= |s| && Compress(s, plain) == t + Compress(s[n..], plain)
  {
  }

  // --- riocomp ------------------------------------------------------------------------------------------------

  /** The run of blanks from position p, whose first blank has been read. */
  method CountRun(record: array<byte>, p: nat, pend: nat) returns (i1: nat)
    requires p < pend <= record.Length && record[p] == BLANK
    ensures i1 == Run(record[p..pend]) && 0 < i1 <= MAXRUN && p + i1 <= pend
  {
    ghost var s := record[p..pend];
    assert s[..1] == Blanks(1);
    i1 := 1;
    while i1 < MAXRUN && p + i1 < pend && record[p + i1] == BLANK
      invariant 0 < i1 <= MAXRUN && p + i1 <= pend && s[..i1] == Blanks(i1)
      invariant RunFrom(s, i1) == Run(s)
    {
      assert s[i1] == record[p + i1];
      assert s[..i1 + 1] == s[..i1] + [s[i1]];
      i1 := i1 + 1;
    }
    assert p + i1 < pend ==> s[i1] == record[p + i1];
  }

  /** The part of a record before position p has been compressed to `done`. */
  ghost predicate Compressed(rec: seq<byte>, p: nat, done: seq<byte>, plain: bool) {
    p <= |rec| && done + Compress(rec[p..], plain) == Compress(rec, plain)
  }

  lemma CompressStart(rec: seq<byte>, plain: bool)
    ensures Compressed(rec, 0, [], plain)
  {
    assert rec[0..] == rec;
  }

  lemma CompressStep(rec: seq<byte>, p: nat, done: seq<byte>, plain: bool)
    requires p < |rec| && Compressed(rec, p, done, plain)
    ensures Compressed(rec, p + Head(rec[p..], plain).0, done + Head(rec[p..], plain).1, plain)
  {
    var s, n, t := rec[p..], Head(rec[p..], plain).0, Head(rec[p..], plain).1;
    assert s[n..] == rec[p + n..];
    Regroup(done, t, Compress(s[n..], plain));
    hide Head;
  }

  lemma CompressEnd(rec: seq<byte>, done: seq<byte>, plain: bool)
    requires Compressed(rec, |rec|, done, plain)
    ensures done == Compress(rec, plain)
  {
  }

  /** *q++ = x. */
  method Store(work: array<byte>, q: nat, x: byte)
    requires q < work.Length
    modifies work
    ensures work[..q + 1] == old(work[..q]) + [x] && work[q + 1..] == old(work[q + 1..])
  {
    work[q] := x;
  }

  /** riocomp: compress a record into the work buffer. */
  method Comp(record: array<byte>, recsize: nat, plain: bool, work: array<byte>) returns (n: nat)
    requires record != work && recsize <= record.Length && recsize <= work.Length
    modifies work
    ensures n <= recsize && work[..n] == Compress(record[..recsize], plain)
  {
    ghost var rec, done: seq<byte> := record[..recsize], [];
    CompressStart(rec, plain);
    hide Compress, Compressed, Head;
    var p, q := 0, 0;
    while p < recsize
      invariant 0 <= q <= p <= recsize
      invariant work[..q] == done && Compressed(rec, p, done, plain)
    {
      CompressStep(rec, p, done, plain);
      done := done + Head(rec[p..], plain).1;
      p, q := CompStep(record, recsize, plain, work, p, q, rec);
    }
    n := q;
    CompressEnd(rec, done, plain);
  }

  /** Write a run of blanks. */
  method StoreRun(work: array<byte>, q0: nat, i1: nat) returns (q: nat)
    requires 0 < i1 <= MAXRUN && q0 + i1 <= work.Length
    modifies work
    ensures q == q0 + |RunBytes(i1)| && work[..q] == old(work[..q0]) + RunBytes(i1)
  {
    ghost var done := work[..q0];
    q := q0;
    var c1 := BLANK;
    if i1 > 2 {
      Store(work, q, SPC);
      q := q + 1;
      c1 := i1;
    } else if i1 == 2 {
      Store(work, q, BLANK);
      q := q + 1;
      assert [BLANK] + [BLANK] == Blanks(2);
    } else {
      assert [BLANK] == Blanks(1);
    }
    Store(work, q, c1);
    q := q + 1;
  }

  /** One step of riocomp. */
  method CompStep(record: array<byte>, recsize: nat, plain: bool, work: array<byte>, p0: nat, q0: nat, ghost rec: seq<byte>)
    returns (p: nat, q: nat)
    requires record != work && recsize <= record.Length && recsize <= work.Length && q0 <= p0 < recsize
    requires rec == record[..recsize]
    modifies work
    ensures p == p0 + Head(rec[p0..], plain).0 && q == q0 + |Head(rec[p0..], plain).1|
    ensures work[..q] == old(work[..q0]) + Head(rec[p0..], plain).1
  {
    hide Run, RunBytes;
    assert rec[p0..] == record[p0..recsize];
    p, q := p0, q0;
    var c1 := record[p];
    p := p + 1;
    if c1 == BLANK {
      var i1 := CountRun(record, p0, recsize);
      p := p0 + i1;
      q := StoreRun(work, q, i1);
      return;
    }
    if !plain && InPairs(c1) && p < recsize && InPairs(record[p]) {
      c1 := Pair(c1, record[p]);
      p := p + 1;
    }
    Store(work, q, c1);
    q := q + 1;
  }
}

/** Characters and bytes as numbers. */
module Bytes {
  type byte = b: int | 0 <= b < 256

  const BLANK: byte := 32
  const POINT: byte := 46

  predicate IsDigit(c: byte) {
    48 <= c <= 57
  }

  function ToUpper(c: byte): byte {
    if 97 <= c <= 122 then c - 32 else c
  }

  /** The bytes t stand at position i of w. */
  predicate Stands(w: seq<byte>, i: nat, t: seq<byte>) {
    i + |t| <= |w| && w[i..i + |t|] == t
  }

  lemma StandsAt(w: seq<byte>, i: nat, t: seq<byte>)
    requires Stands(w, i, t)
    ensures |t| > 0 ==> i < |w| && w[i] == t[0]
    ensures |t| > 1 ==> i + 1 < |w| && w[i + 1] == t[1]
  {
  }

  lemma StandsSplit(w: seq<byte>, i: nat, t: seq<byte>, c: seq<byte>)
    requires Stands(w, i, t + c)
    ensures Stands(w, i, t) && Stands(w, i + |t|, c) && i + |t| + |c| <= |w|
  {
    var v := w[i..i + |t| + |c|];
    assert w[i..i + |t|] == v[..|t|] && w[i + |t|..i + |t| + |c|] == v[|t|..];
  }
}

/** Numeric sort keys (sio.c): comparing signed digits column by column compares decimal values. */
module SortNumeric {
  import opened Bytes
  import opened SortKey

  predicate IsNumber(f: seq<byte>) {
    NumInfo(f) == 0 || NumInfo(f) == NUMFLAG_NEGATIVE
  }

  /** The digits of a field read as one whole number; points, blanks and signs are passed over. */
  function Whole(f: seq<byte>): nat {
    if f == [] then 0
    else
      var w, c := Whole(f[..|f| - 1]), f[|f| - 1];
      if IsDigit(c) then 10 * w + (c as int - 48) else w
  }

  function Pow10(n: nat): (p: nat)
    ensures p > 0
  {
    if n == 0 then 1 else 10 * Pow10(n - 1)
  }

  /** How many digits follow the first decimal point. */
  function Decimals(f: seq<byte>): nat {
    if f == [] then 0
    else
      var c := f[|f| - 1];
      if IsDigit(c) && POINT in f[..|f| - 1] then Decimals(f[..|f| - 1]) + 1 else Decimals(f[..|f| - 1])
  }

  function Signed(f: seq<byte>, flag: Flag): int {
    var w: int := Whole(f);
    if flag == NUMFLAG_NEGATIVE then -w else w
  }

  /** The decimal number that a field holds. */
  function Decimal(f: seq<byte>): real
    requires IsNumber(f)
  {
    Signed(f, NumInfo(f)) as real / Pow10(Decimals(f)) as real
  }

  /** What a numeric field is worth in a sort: blanks come first and everything that is no number last. */
  datatype Worth = Nothing | Number(value: real) | Broken

  function WorthOf(f: seq<byte>): Worth {
    if NumInfo(f) == NUMFLAG_NULL then Nothing else if IsNumber(f) then Number(Decimal(f)) else Broken
  }

  function CompareWorth(x: Worth, y: Worth): int {
    match (x, y)
    case (Number(v), Number(w)) => if v < w then -1 else if v > w then 1 else 0
    case (Nothing, Nothing) => 0
    case (Nothing, _) => -1
    case (_, Nothing) => 1
    case (Broken, Broken) => 0
    case (Broken, _) => 1
    case (_, Broken) => -1
  }

  /** The decimal points of two fields are in the same columns. */
  predicate SamePoints(f: seq<byte>, g: seq<byte>) {
    |f| == |g| && forall i :: 0 <= i < |f| ==> (f[i] == POINT <==> g[i] == POINT)
  }

  /** The first difference of signed digits in the first n columns. */
  function First(f: seq<byte>, g: seq<byte>, n: nat): int
    requires n <= |f| == |g|
  {
    if n == 0 then 0
    else if First(f, g, n - 1) != 0 then First(f, g, n - 1)
    else NumChar(f[n - 1], NumInfo(f)) - NumChar(g[n - 1], NumInfo(g))
  }

  // --- a signed digit at a time ------------------------------------------------------------------------------

  /** Before its first digit a number is worth nothing. */
  lemma {:induction false} LeadIsZero(f: seq<byte>, n: nat)
    requires IsNumber(f) && n <= |f| && n <= Lead(f) + (if Lead(f) < |f| && IsSign(f[Lead(f)]) then 1 else 0)
    ensures Whole(f[..n]) == 0
  {
    if n > 0 {
      LeadIsZero(f, n - 1);
      assert f[..n][..n - 1] == f[..n - 1];
    }
  }

  /** One more column: a point changes nothing, any other character shifts by ten and adds its signed
      digit. */
  lemma NextColumn(f: seq<byte>, n: nat)
    requires IsNumber(f) && n < |f|
    ensures var flag := NumInfo(f);
            Signed(f[..n + 1], flag) == if f[n] == POINT then Signed(f[..n], flag)
                                        else 10 * Signed(f[..n], flag) + NumChar(f[n], flag) - 0x0B
    ensures f[n] == POINT ==> NumChar(f[n], NumInfo(f)) == 0x0B
    ensures NumInfo(f) == 0 ==> 0x0B <= NumChar(f[n], 0) <= 0x14 && Signed(f[..n], 0) >= 0
    ensures NumInfo(f) == NUMFLAG_NEGATIVE ==> 2 <= NumChar(f[n], NUMFLAG_NEGATIVE) <= 0x0B && Signed(f[..n], NUMFLAG_NEGATIVE) <= 0
  {
    assert f[..n + 1][..n] == f[..n];
    if !IsPlain(f[n]) {
      LeadIsZero(f, n + 1);
      LeadIsZero(f, n);
    }
  }

  /** After n columns the first differing digit has already decided which number is larger. */
  lemma {:induction false} FirstDecides(f: seq<byte>, g: seq<byte>, n: nat)
    requires IsNumber(f) && IsNumber(g) && SamePoints(f, g) && n <= |f|
    ensures Sign(First(f, g, n)) == Sign(Signed(f[..n], NumInfo(f)) - Signed(g[..n], NumInfo(g)))
  {
    if n > 0 {
      FirstDecides(f, g, n - 1);
      NextColumn(f, n - 1);
      NextColumn(g, n - 1);
      hide NumInfo, Whole, Signed, NumChar;
    }
  }

  lemma PointCount(f: seq<byte>, g: seq<byte>, n: nat)
    requires SamePoints(f, g) && n <= |f|
    ensures POINT in f[..n] <==> POINT in g[..n]
  {
    if POINT in f[..n] {
      var i :| 0 <= i < n && f[..n][i] == POINT;
      assert g[..n][i] == POINT;
    }
    if POINT in g[..n] {
      var i :| 0 <= i < n && g[..n][i] == POINT;
      assert f[..n][i] == POINT;
    }
  }

  /** Past a point a number has only digits and points, so the scales of two such fields are equal. */
  lemma {:induction false} SameScale(f: seq<byte>, g: seq<byte>, n: nat)
    requires IsNumber(f) && IsNumber(g) && SamePoints(f, g) && n <= |f|
    ensures Decimals(f[..n]) == Decimals(g[..n])
  {
    if n > 0 {
      SameScale(f, g, n - 1);
      PointCount(f, g, n - 1);
      assert f[..n][..n - 1] == f[..n - 1] && g[..n][..n - 1] == g[..n - 1];
      if POINT in f[..n - 1] {
        PastPoint(f, n - 1);
        PastPoint(g, n - 1);
      }
    }
  }

  lemma PastPoint(f: seq<byte>, n: nat)
    requires IsNumber(f) && n < |f| && POINT in f[..n]
    ensures IsPlain(f[n])
  {
    var i :| 0 <= i < n && f[..n][i] == POINT;
    assert f[i] == POINT;
  }

  lemma ScaledOrder(x: int, y: int, p: int)
    requires p > 0
    ensures x < y <==> x as real / p as real < y as real / p as real
    ensures x > y <==> x as real / p as real > y as real / p as real
  {
    var r, u, v := 1.0 / p as real, x as real / p as real, y as real / p as real;
    assert u * p as real == x as real && v * p as real == y as real;
  }

  /** Two numbers with their points in the same columns: the first differing signed digit has the sign of the
      difference of the decimal values. */
  lemma NumbersOrder(f: seq<byte>, g: seq<byte>)
    requires IsNumber(f) && IsNumber(g) && SamePoints(f, g)
    ensures Sign(First(f, g, |f|)) == CompareWorth(WorthOf(f), WorthOf(g))
  {
    assert f[..|f|] == f && g[..|g|] == g;
    FirstDecides(f, g, |f|);
    SameScale(f, g, |f|);
    ScaledOrder(Signed(f, NumInfo(f)), Signed(g, NumInfo(g)), Pow10(Decimals(f)));
  }

  /** A blank or broken field has the same rank in every column, outside the ranks of numbers. */
  lemma {:induction false} OddFirst(f: seq<byte>, g: seq<byte>, n: nat)
    requires n <= |f| == |g| && (!IsNumber(f) || !IsNumber(g))
    ensures n > 0 ==> Sign(First(f, g, n)) == CompareWorth(WorthOf(f), WorthOf(g))
  {
    if n > 0 {
      OddFirst(f, g, n - 1);
      hide NumInfo;
    }
  }

  // --- in a sort ------------------------------------------------------------------------------------------------

  /** The comparison of a numeric key is decided by its first n columns, or left to what follows. */
  lemma {:induction false} CompareFirst(sp: Spec, a: Record, b: Record, k: nat, n: nat)
    requires SpecOk(sp) && |a| == |b| == sp.len && k < |sp.keys| && sp.keys[k].numeric
    requires sp.keys[k].start + n <= sp.keys[k].end
    ensures var d := First(Field(sp, a, k), Field(sp, b, k), n);
            Compare(sp, a, b, k, sp.keys[k].start) == if d == 0 then Compare(sp, a, b, k, sp.keys[k].start + n)
                                                      else if sp.keys[k].descend then -d else d
  {
    if n > 0 {
      CompareFirst(sp, a, b, k, n - 1);
      var pos := sp.keys[k].start + n - 1;
      assert Field(sp, a, k)[n - 1] == a[pos] && Field(sp, b, k)[n - 1] == b[pos];
      hide NumInfo, NumChar;
    }
  }

  /** A numeric key orders records by the decimal values of its field, blank fields before every number and
      broken ones after, provided that two numbers have their decimal points in the same columns; a descending
      key reverses the order, and equal values leave the comparison to the next key. */
  lemma NumericKeyOrder(sp: Spec, a: Record, b: Record, k: nat)
    requires SpecOk(sp) && |a| == |b| == sp.len && k < |sp.keys| && sp.keys[k].numeric
    requires IsNumber(Field(sp, a, k)) && IsNumber(Field(sp, b, k)) ==> SamePoints(Field(sp, a, k), Field(sp, b, k))
    ensures var c := CompareWorth(WorthOf(Field(sp, a, k)), WorthOf(Field(sp, b, k)));
            if c == 0 then Compare(sp, a, b, k, sp.keys[k].start) == Compare(sp, a, b, k, sp.keys[k].end)
            else Sign(Compare(sp, a, b, k, sp.keys[k].start)) == if sp.keys[k].descend then -c else c
  {
    var f, g := Field(sp, a, k), Field(sp, b, k);
    CompareFirst(sp, a, b, k, |f|);
    if IsNumber(f) && IsNumber(g) {
      NumbersOrder(f, g);
    } else {
      OddFirst(f, g, |f|);
    }
  }

  /** With points in different columns the order can be wrong: "15" sorts before "2.". It need not be: SamePoints is what makes
      the order right whatever the digits are, and is not necessary for single pairs of fields. */
  lemma PointsMatter()
    ensures var f: seq<byte>, g: seq<byte> := [49, 53], [50, POINT];
            IsNumber(f) && IsNumber(g) && Decimal(f) > Decimal(g) && First(f, g, 2) < 0
  {
    var f: seq<byte>, g: seq<byte> := [49, 53], [50, POINT];
    assert Lead(f) == 0 && Lead(g) == 0;
    assert f[..1] == [49] && g[..1] == [50] && f[..1][..0] == [] && g[..1][..0] == [];
    assert Whole(f[..1]) == 1 && Whole(g[..1]) == 2;
    assert Whole(f) == 15 && Whole(g) == 2;
    assert Decimals(f[..1]) == 0 && Decimals(g[..1]) == 0;
    assert First(f, g, 1) == -1;
  }

  // --- layouts ------------------------------------------------------------------------------------------------------------

  /** A field of n columns whose only point is in column i, or which has none when i is n. */
  predicate Laid(f: seq<byte>, n: nat, i: nat) {
    |f| == n && forall c :: 0 <= c < n ==> (f[c] == POINT <==> c == i)
  }

  /** Zeros, but for a digit d in column k and a point in column i. */
  function OneDigit(n: nat, i: nat, k: nat, d: nat): (f: seq<byte>)
    requires 1 <= d <= 9 && k < n && k != i
    ensures Laid(f, n, i) && forall c :: 0 <= c < n && c != i ==> f[c] == if c == k then 48 + d else 48
  {
    seq<byte>(n, c requires 0 <= c < n => if c == i then POINT else if c == k then 48 + d else 48)
  }

  /** The digits of columns k to m - 1. */
  function Places(i: nat, k: nat, m: nat): nat
    requires k <= m
  {
    m - k - if k <= i < m then 1 else 0
  }

  lemma {:induction false} OneDigitRead(n: nat, i: nat, k: nat, d: nat, m: nat)
    requires 1 <= d <= 9 && k < n && k != i && i <= n && m <= n
    ensures Whole(OneDigit(n, i, k, d)[..m]) == if m <= k then 0 else d * Pow10(Places(i, k + 1, m))
    ensures Decimals(OneDigit(n, i, k, d)[..m]) == if m <= i then 0 else m - 1 - i
    ensures POINT in OneDigit(n, i, k, d)[..m] <==> i < m
  {
    hide Whole, Decimals, Pow10, OneDigit, IsDigit;
    var f := OneDigit(n, i, k, d);
    if m > 0 {
      OneDigitRead(n, i, k, d, m - 1);
      assert f[..m] == f[..m - 1] + [f[m - 1]];
      ReadMore(f[..m - 1], f[m - 1]);
      PowOne(if k + 1 < m then Places(i, k + 1, m - 1) else 0);
    } else {
      ReadNone();
    }
  }

  lemma ReadNone()
    ensures Whole([]) == Decimals([]) == 0
  {
  }

  lemma ReadMore(t: seq<byte>, c: byte)
    requires c == POINT || 48 <= c <= 57
    ensures Whole(t + [c]) == if c == POINT then Whole(t) else 10 * Whole(t) + (c as int - 48)
    ensures Decimals(t + [c]) == Decimals(t) + if c != POINT && POINT in t then 1 else 0
  {
    assert (t + [c])[..|t|] == t;
  }

  lemma PowOne(n: nat)
    ensures Pow10(n + 1) == 10 * Pow10(n) && Pow10(0) == 1
  {
  }

  lemma OneDigitNumber(n: nat, i: nat, k: nat, d: nat)
    requires 1 <= d <= 9 && k < n && k != i && i <= n
    ensures var f := OneDigit(n, i, k, d); IsNumber(f) && NumInfo(f) == 0
    ensures Decimal(OneDigit(n, i, k, d)) == (d * Pow10(Places(i, k + 1, n))) as real / Pow10(if i < n then n - 1 - i else 0) as real
  {
    var f := OneDigit(n, i, k, d);
    assert Lead(f) == 0;
    assert Plain(f, 0);
    OneDigitRead(n, i, k, d, n);
    assert f[..n] == f;
  }

  lemma {:induction false} PowMore(a: nat, b: nat)
    requires a <= b
    ensures Pow10(a) <= Pow10(b) && (a < b ==> 10 * Pow10(a) <= Pow10(b))
    decreases b
  {
    if a + 1 < b {
      PowMore(a, b - 1);
    }
  }

  lemma {:induction false} PowSum(a: nat, b: nat)
    ensures Pow10(a + b) == Pow10(a) * Pow10(b)
    decreases b
  {
    if b > 0 {
      PowSum(a, b - 1);
    }
  }

  /** The columns before the first nonzero digit of two such fields are equal; it decides. */
  lemma {:induction false} FirstZeros(f: seq<byte>, g: seq<byte>, n: nat)
    requires n <= |f| == |g| && NumInfo(f) == NumInfo(g) == 0
    requires forall c :: 0 <= c < n ==> (f[c] == 48 || f[c] == POINT) && (g[c] == 48 || g[c] == POINT)
    ensures First(f, g, n) == 0
  {
    if n > 0 {
      FirstZeros(f, g, n - 1);
    }
  }

  lemma {:induction false} FirstStays(f: seq<byte>, g: seq<byte>, m: nat, n: nat)
    requires m <= n <= |f| == |g| && First(f, g, m) != 0
    ensures First(f, g, n) == First(f, g, m)
  {
    if m < n {
      FirstStays(f, g, m, n - 1);
    }
  }

  /** The pair of fields is put in the wrong order. */
  predicate Misordered(f: seq<byte>, g: seq<byte>)
    requires IsNumber(f) && IsNumber(g) && |f| == |g|
  {
    Sign(First(f, g, |f|)) != CompareWorth(WorthOf(f), WorthOf(g))
  }

  /** A digit in column k of a field with its point in column i, and a digit in column l with a point in column j. */
  lemma TwoFields(n: nat, i: nat, k: nat, d: nat, j: nat, l: nat, e: nat)
    requires 1 <= d <= 9 && 1 <= e <= 9 && k < n && l < n && k != i && l != j && i <= n && j <= n && k <= l
    requires k == l ==> d > e
    requires d * Pow10(Places(i, k + 1, n)) * Pow10(if j < n then n - 1 - j else 0)
             < e * Pow10(Places(j, l + 1, n)) * Pow10(if i < n then n - 1 - i else 0)
    ensures var f, g := OneDigit(n, i, k, d), OneDigit(n, j, l, e); IsNumber(f) && IsNumber(g) && Misordered(f, g)
  {
    var f, g := OneDigit(n, i, k, d), OneDigit(n, j, l, e);
    OneDigitNumber(n, i, k, d);
    OneDigitNumber(n, j, l, e);
    FirstZeros(f, g, k);
    assert First(f, g, k + 1) > 0;
    FirstStays(f, g, k + 1, n);
    CrossMultiply(d * Pow10(Places(i, k + 1, n)), Pow10(if i < n then n - 1 - i else 0),
                  e * Pow10(Places(j, l + 1, n)), Pow10(if j < n then n - 1 - j else 0));
  }

  lemma CrossMultiply(a: int, p: int, b: int, q: int)
    requires p > 0 && q > 0 && a * q < b * p
    ensures a as real / p as real < b as real / q as real
  {
    var x, y := a as real / p as real, b as real / q as real;
    assert x * p as real == a as real && y * q as real == b as real;
    var u := p as real * q as real;
    assert (y - x) * u == (b * p) as real - (a * q) as real;
    Positive(y - x, u);
  }

  lemma Positive(u: real, v: real)
    requires v > 0.0 && u * v > 0.0
    ensures u > 0.0
  {
  }

  /** d times a power of ten against e times another. */
  lemma PowsDiffer(d: nat, a: nat, b: nat, e: nat, p: nat, q: nat)
    requires d <= 9 && 1 <= e && (a + b < p + q || (a + b == p + q && d < e))
    ensures d * Pow10(a) * Pow10(b) < e * Pow10(p) * Pow10(q)
  {
    hide Pow10;
    var z, w := Pow10(a + b), Pow10(p + q);
    PowMore(a + b, p + q);
    Scaled(d, z, e, w);
    assert d * Pow10(a) * Pow10(b) == d * z by {
      PowSum(a, b);
      Times(d, Pow10(a), Pow10(b));
    }
    assert e * Pow10(p) * Pow10(q) == e * w by {
      PowSum(p, q);
      Times(e, Pow10(p), Pow10(q));
    }
  }

  lemma Times(d: nat, x: nat, y: nat)
    ensures d * x * y == d * (x * y)
  {
  }

  lemma Scaled(d: nat, x: nat, e: nat, y: nat)
    requires x > 0 && d <= 9 && 1 <= e && (10 * x <= y || (x == y && d < e))
    ensures d * x < e * y
  {
    if x == y {
      assert e * y == d * x + (e - d) * x;
    } else {
      assert d * x <= 9 * x && e * y >= y;
    }
  }

  /** Two layouts with points in different columns have numbers that are put in the wrong order. */
  lemma SomeMisordered(n: nat, i: nat, j: nat) returns (f: seq<byte>, g: seq<byte>)
    requires i < j <= n && !(i == 0 && j == 1 && n <= 2)
    ensures Laid(f, n, i) && Laid(g, n, j) && IsNumber(f) && IsNumber(g) && Misordered(f, g)
  {
    hide Pow10, IsNumber, Misordered, OneDigit;
    var rest := if j < n then n - 1 - j else 0;
    if i >= 1 {
      PowsDiffer(1, Places(i, 1, n), rest, 9, Places(j, 2, n), n - 1 - i);
      TwoFields(n, i, 0, 1, j, 1, 9);
      f, g := OneDigit(n, i, 0, 1), OneDigit(n, j, 1, 9);
    } else if j >= 2 {
      PowsDiffer(9, Places(i, 2, n), rest, 1, Places(j, 2, n), n - 1);
      TwoFields(n, i, 1, 9, j, 1, 1);
      f, g := OneDigit(n, i, 1, 9), OneDigit(n, j, 1, 1);
    } else {
      PowsDiffer(5, Places(i, 3, n), rest, 3, Places(j, 3, n), n - 1);
      TwoFields(n, i, 2, 5, j, 2, 3);
      f, g := OneDigit(n, i, 2, 5), OneDigit(n, j, 2, 3);
    }
  }

  /** A point and a digit against a digit and a point, or a point against a digit: the order is right. */
  lemma NarrowOrder(n: nat, f: seq<byte>, g: seq<byte>)
    requires 1 <= n <= 2 && Laid(f, n, 0) && Laid(g, n, 1) && IsNumber(f) && IsNumber(g)
    ensures !Misordered(f, g)
  {
    assert Lead(f) == 0 && NumInfo(f) == 0;
    ReadNone();
    ReadMore([], POINT);
    if n == 1 {
      assert f == [] + [POINT] && g == [] + [g[0]];
      assert Lead(g) == 0 && IsDigit(g[0]);
      ReadMore([], g[0]);
      assert First(f, g, 0) == 0;
    } else {
      assert f == [POINT] + [f[1]] && g == [g[0]] + [POINT];
      assert IsPlain(f[1]);
      assert [] + [POINT] == [POINT];
      ReadMore([POINT], f[1]);
      NarrowValue(g);
      assert First(f, g, 1) == NumChar(f[0], 0) - NumChar(g[0], NumInfo(g));
      assert Decimal(f) == (f[1] as int - 48) as real / Pow10(1) as real;
      assert Pow10(1) == 10 * Pow10(0);
    }
  }

  /** A field of two columns that ends in a point. */
  lemma NarrowValue(g: seq<byte>)
    requires |g| == 2 && g[0] != POINT && g[1] == POINT && IsNumber(g)
    ensures Decimals(g) == 0 && Whole(g) == if IsDigit(g[0]) then g[0] as int - 48 else 0
    ensures IsDigit(g[0]) ==> NumInfo(g) == 0
  {
    assert g[..1] == [g[0]] && g[..1][..0] == [];
    assert Whole(g[..1]) == if IsDigit(g[0]) then g[0] as int - 48 else 0;
    assert Decimals(g[..1]) == 0;
    assert POINT !in g[..1];
    if IsDigit(g[0]) {
      assert Lead(g) == 0;
    }
  }

  /** WHICH LAYOUTS MAY BE MIXED: of two layouts with at most one point each, in different columns, there are numbers that are
      put in the wrong order, except for a point before a digit against a digit before a point, and a point alone against a
      digit alone. */
  lemma LayoutsMatter(n: nat, i: nat, j: nat)
    requires i < j <= n
    ensures (exists f, g :: Laid(f, n, i) && Laid(g, n, j) && IsNumber(f) && IsNumber(g) && Misordered(f, g)) <==>
              !(i == 0 && j == 1 && n <= 2)
  {
    if i == 0 && j == 1 && n <= 2 {
      forall f, g | Laid(f, n, i) && Laid(g, n, j) && IsNumber(f) && IsNumber(g)
        ensures !Misordered(f, g)
      {
        NarrowOrder(n, f, g);
      }
    } else {
      var f, g := SomeMisordered(n, i, j);
    }
  }
}

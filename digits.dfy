/**
 * Digit sequences read as numbers.
 *
 * The converter in src/bitcoin.py never builds a big integer: a list of digits
 * is the number. This module gives such a list its meaning (its value in a
 * base, read big-endian or little-endian) and the canonical digit sequence of
 * a number, against which every conversion is proved.
 */
module Digits {

  /** b raised to the n-th power. */
  function Pow(b: nat, n: nat): (r: nat)
    ensures b >= 1 ==> r >= 1
  {
    if n == 0 then 1 else b * Pow(b, n - 1)
  }

  /** Every element of s is a digit of the given base. */
  predicate IsDigits(s: seq<nat>, base: nat) {
    forall i :: 0 <= i < |s| ==> s[i] < base
  }

  /** The number s denotes when read most significant digit first. */
  function BEValue(s: seq<nat>, base: nat): nat {
    if s == [] then 0 else BEValue(s[..|s| - 1], base) * base + s[|s| - 1]
  }

  /** The number s denotes when read least significant digit first. */
  function LEValue(s: seq<nat>, base: nat): nat {
    if s == [] then 0 else s[0] + base * LEValue(s[1..], base)
  }

  /** s in the opposite order (Python's in-place list.reverse()). */
  function Reverse<T>(s: seq<T>): (r: seq<T>)
    ensures |r| == |s|
    ensures forall i :: 0 <= i < |s| ==> r[i] == s[|s| - 1 - i]
  {
    if s == [] then [] else Reverse(s[1..]) + [s[0]]
  }

  /** n copies of x. */
  function Repeat<T>(x: T, n: nat): seq<T> {
    seq(n, _ => x)
  }

  /**
   * Index of the first element of s different from z, or |s| when there is
   * none: the source's `next((i for i, c in enumerate(s) if c != z), len(s))`,
   * i.e. the length of the run of z at the head of s.
   */
  function LeadingCount<T(==)>(s: seq<T>, z: T): (r: nat)
    ensures r <= |s|
    ensures forall i :: 0 <= i < r ==> s[i] == z
    ensures r < |s| ==> s[r] != z
  {
    if s == [] || s[0] != z then 0 else 1 + LeadingCount(s[1..], z)
  }

  /**
   * The m lowest digits of n, most significant first, zeros included: the
   * fixed-width form of n.
   */
  function FixedDigits(n: nat, m: nat, base: nat): (r: seq<nat>)
    requires base >= 2
    ensures |r| == m && IsDigits(r, base)
    decreases m
  {
    if m == 0 then [] else FixedDigits(n / base, m - 1, base) + [n % base]
  }

  /**
   * The canonical big-endian digits of n in the given base: no leading zero
   * digit, and zero is the empty sequence.
   */
  function ToDigits(n: nat, base: nat): (r: seq<nat>)
    requires base >= 2
    ensures IsDigits(r, base)
    ensures r == [] || r[0] != 0
    decreases n
  {
    if n == 0 then [] else
      var q := n / base;
      QuotientSmaller(n, base);
      ToDigits(q, base) + [n % base]
  }

  /** The canonical digits of n denote n. */
  lemma {:induction false} ToDigitsValue(n: nat, base: nat)
    requires base >= 2
    ensures BEValue(ToDigits(n, base), base) == n
    decreases n
  {
    if n > 0 {
      var q := n / base;
      QuotientSmaller(n, base);
      DivMod(n, base);
      ToDigitsValue(q, base);
      var r := ToDigits(n, base);
      assert r[..|r| - 1] == ToDigits(q, base);
    }
  }

  /** A number below base^m is what its m fixed-width digits denote. */
  lemma {:induction false} FixedDigitsValue(n: nat, m: nat, base: nat)
    requires base >= 2 && n < Pow(base, m)
    ensures BEValue(FixedDigits(n, m, base), base) == n
    decreases m
  {
    if m > 0 {
      var q, d := n / base, n % base;
      var hi := FixedDigits(q, m - 1, base);
      assert FixedDigits(n, m, base) == hi + [d];
      QuotientBelow(n, base, Pow(base, m - 1));
      FixedDigitsValue(q, m - 1, base);
      BEValueSnoc(hi, d, base);
      DivMod(n, base);
    }
  }

  /** Appending one digit at the low end of a big-endian sequence. */
  lemma BEValueSnoc(s: seq<nat>, x: nat, base: nat)
    ensures BEValue(s + [x], base) == BEValue(s, base) * base + x
  {
    assert (s + [x])[..|s|] == s;
  }

  lemma DivMod(n: nat, base: nat)
    requires base >= 1
    ensures n == (n / base) * base + n % base
  {
  }

  lemma QuotientBelow(n: nat, base: nat, p: nat)
    requires base >= 2 && n < base * p
    ensures n / base < p
  {
    var d := n / base;
    MulComm(base, p);
    if p <= d {
      MulLeft(p, d, base);
    }
  }

  /** The length of the run of z at the head of s, from its two defining facts. */
  lemma LeadingCountIs<T>(s: seq<T>, z: T, k: nat)
    requires k <= |s| && forall j :: 0 <= j < k ==> s[j] == z
    requires k < |s| ==> s[k] != z
    ensures LeadingCount(s, z) == k
  {
  }

  lemma {:induction false} PowAdd(b: nat, m: nat, n: nat)
    ensures Pow(b, m + n) == Pow(b, m) * Pow(b, n)
  {
    if m > 0 {
      PowAdd(b, m - 1, n);
      MulAssoc(b, Pow(b, m - 1), Pow(b, n));
    }
  }

  lemma {:induction false} PowMul(b: nat, k: nat, h: nat)
    ensures Pow(b, k * h) == Pow(Pow(b, h), k)
  {
    if k > 0 {
      PowMul(b, k - 1, h);
      assert k * h == h + (k - 1) * h;
      PowAdd(b, h, (k - 1) * h);
    }
  }

  lemma {:induction false} PowMonotone(b: nat, m: nat, n: nat)
    requires b >= 1 && m <= n
    ensures Pow(b, m) <= Pow(b, n)
  {
    if m < n {
      PowMonotone(b, m, n - 1);
      MulLeft(1, b, Pow(b, n - 1));
    }
  }

  /** Powers of a base above 1 grow strictly, so a larger power has a larger exponent. */
  lemma PowGrows(b: nat, m: nat, n: nat)
    requires b >= 1 && Pow(b, m) < Pow(b, n)
    ensures m < n
  {
    if n <= m {
      PowMonotone(b, n, m);
    }
  }

  /** Appending the digits c shifts the value of a by |c| places. */
  lemma {:induction false} BEValueConcat(a: seq<nat>, c: seq<nat>, base: nat)
    ensures BEValue(a + c, base) == BEValue(a, base) * Pow(base, |c|) + BEValue(c, base)
  {
    if c == [] {
      assert a + c == a;
    } else {
      var c' := c[..|c| - 1];
      var x := c[|c| - 1];
      assert (a + c)[..|a + c| - 1] == a + c';
      BEValueConcat(a, c', base);
      var va, p, vc := BEValue(a, base), Pow(base, |c'|), BEValue(c', base);
      assert BEValue(a + c, base) == (va * p + vc) * base + x;
      MulDistRight(va * p, vc, base);
      MulAssoc(va, p, base);
      MulComm(p, base);
    }
  }

  /** n digits of a base never make a value of n + 1 places. */
  lemma {:induction false} BEValueBound(s: seq<nat>, base: nat)
    requires IsDigits(s, base)
    ensures BEValue(s, base) < Pow(base, |s|)
  {
    if s != [] {
      var p := s[..|s| - 1];
      BEValueBound(p, base);
      var v, q := BEValue(p, base), Pow(base, |p|);
      MulLeft(v + 1, q, base);
      MulDistRight(v, 1, base);
      MulComm(base, q);
    }
  }

  /** A sequence of zero digits denotes zero. */
  lemma {:induction false} BEValueZeros(k: nat, base: nat)
    ensures BEValue(Repeat(0, k), base) == 0
  {
    if k > 0 {
      var z: seq<nat> := Repeat(0, k);
      var z': seq<nat> := Repeat(0, k - 1);
      assert z[..k - 1] == z';
      BEValueZeros(k - 1, base);
      assert BEValue(z, base) == BEValue(z', base) * base + z[k - 1];
    }
  }

  /** Leading zero digits do not change the value. */
  lemma LeadingZerosValue(k: nat, s: seq<nat>, base: nat)
    ensures BEValue(Repeat(0, k) + s, base) == BEValue(s, base)
  {
    BEValueConcat(Repeat(0, k), s, base);
    BEValueZeros(k, base);
  }

  /** A digit sequence with a non-zero leading digit denotes a positive number. */
  lemma {:induction false} BEValuePositive(s: seq<nat>, base: nat)
    requires base >= 1 && s != [] && s[0] != 0
    ensures BEValue(s, base) > 0
  {
    if |s| > 1 {
      BEValuePositive(s[..|s| - 1], base);
    }
  }

  /** Appending one digit at the top of a little-endian sequence. */
  lemma {:induction false} LEValueSnoc(s: seq<nat>, x: nat, base: nat)
    ensures LEValue(s + [x], base) == LEValue(s, base) + Pow(base, |s|) * x
  {
    if s != [] {
      assert (s + [x])[1..] == s[1..] + [x];
      LEValueSnoc(s[1..], x, base);
      var a, p := LEValue(s[1..], base), Pow(base, |s| - 1);
      MulDist(base, a, p * x);
      MulAssoc(base, p, x);
    }
  }

  /** Reading a little-endian sequence reversed, big-endian, gives the same number. */
  lemma {:induction false} ReverseValue(s: seq<nat>, base: nat)
    ensures BEValue(Reverse(s), base) == LEValue(s, base)
  {
    if s != [] {
      var r := Reverse(s);
      assert r[..|r| - 1] == Reverse(s[1..]);
      ReverseValue(s[1..], base);
    }
  }

  lemma WholePrefix<T>(s: seq<T>)
    ensures s[..|s|] == s
  {
  }

  lemma MulLeft(a: nat, b: nat, c: nat)
    requires a <= b
    ensures a * c <= b * c
  {
  }

  lemma MulAssoc(a: int, b: int, c: int)
    ensures a * (b * c) == (a * b) * c
  {
  }

  lemma MulComm(a: int, b: int)
    ensures a * b == b * a
  {
  }

  lemma MulDist(a: int, b: int, c: int)
    ensures a * (b + c) == a * b + a * c
  {
  }

  lemma MulDistRight(a: int, b: int, c: int)
    ensures (a + b) * c == a * c + b * c
  {
  }

  /** Dividing a positive number by a base of at least 2 makes it smaller. */
  lemma QuotientSmaller(n: nat, base: nat)
    requires n > 0 && base >= 2
    ensures n / base < n
  {
  }

  lemma DivModDigit(q: nat, x: nat, base: nat)
    requires x < base
    ensures (q * base + x) / base == q && (q * base + x) % base == x
  {
    var n := q * base + x;
    var d, m := n / base, n % base;
    assert n == d * base + m;
    assert (d - q) * base == x - m;
    if d > q {
      MulLeft(1, d - q, base);
    } else if d < q {
      MulLeft(1, q - d, base);
    }
  }

  /**
   * ToDigits is the inverse of BEValue on canonical sequences: a digit
   * sequence without a leading zero is the only such sequence of its value.
   */
  lemma {:induction false} ToDigitsUnique(s: seq<nat>, base: nat)
    requires base >= 2 && IsDigits(s, base)
    requires s == [] || s[0] != 0
    ensures ToDigits(BEValue(s, base), base) == s
  {
    if s != [] {
      var p := s[..|s| - 1];
      var x := s[|s| - 1];
      var n := BEValue(s, base);
      BEValuePositive(s, base);
      DivModDigit(BEValue(p, base), x, base);
      assert ToDigits(n, base) == ToDigits(BEValue(p, base), base) + [x];
      if p != [] {
        ToDigitsUnique(p, base);
      }
    }
  }

  /** A sequence is its run of z at the head followed by the rest. */
  lemma SplitLeading<T>(s: seq<T>, z: T)
    ensures s == Repeat(z, LeadingCount(s, z)) + s[LeadingCount(s, z)..]
  {
    var k := LeadingCount(s, z);
    var u := Repeat(z, k) + s[k..];
    forall i | 0 <= i < |s| ensures u[i] == s[i] {
    }
  }

  /**
   * Converting a digit sequence to a number and back drops exactly its
   * leading zero digits.
   */
  lemma StripLeadingZeros(s: seq<nat>, base: nat)
    requires base >= 2 && IsDigits(s, base)
    ensures ToDigits(BEValue(s, base), base) == s[LeadingCount(s, 0)..]
  {
    var k := LeadingCount(s, 0);
    SplitLeading(s, 0);
    LeadingZerosValue(k, s[k..], base);
    ToDigitsUnique(s[k..], base);
  }
}

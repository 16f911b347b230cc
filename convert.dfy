/**
 * The digit-base converter of src/bitcoin.py: schoolbook multiply-accumulate
 * conversion in which the list of result digits is itself the big integer,
 * and the grouped variant that converts several digits at a time.
 */
module Convert {
  import opened Digits

  /**
   * One multiply-accumulate step on the arithmetic level: consuming the
   * accumulator digit y with incoming carry c leaves digit (y*base + c) % nb
   * and outgoing carry (y*base + c) / nb, keeping the running total exact.
   */
  lemma CarryStep(lo: nat, y: nat, c: nat, p: nat, base: nat, nb: nat, prevLo: nat, d: nat)
    requires nb >= 1
    requires lo + p * c == prevLo * base + d
    ensures lo + p * ((y * base + c) % nb) + (p * nb) * ((y * base + c) / nb)
         == (prevLo + p * y) * base + d
  {
    var x := y * base + c;
    SplitDigit(p, x, nb);
    MulDist(p, y * base, c);
    MulAssoc(p, y, base);
    MulDistRight(prevLo, p * y, base);
  }

  lemma DivDecreases(x: nat, nb: nat)
    requires x > 0 && nb >= 2
    ensures x / nb < x
  {
  }

  /**
   * When the top digit y != 0 absorbs the whole carry (no carry out), the new
   * top digit is not zero either.
   */
  lemma TopDigit(y: nat, base: nat, c: nat, nb: nat)
    requires nb >= 1 && base >= 1
    ensures y != 0 && (y * base + c) / nb == 0 ==> (y * base + c) % nb != 0
  {
    if y != 0 {
      MulLeft(1, y, base);
    }
  }

  lemma MulZero(a: int)
    ensures a * 0 == 0
  {
  }

  /**
   * Moving the low digit of x (held at weight newBase^|s|) onto the top of
   * the little-endian s keeps the total: the step of both the carry loop and
   * the unpacking loop of convert_base_fast.
   */
  lemma PushLowDigit(s: seq<nat>, x: nat, nb: nat)
    requires nb >= 1
    ensures LEValue(s + [x % nb], nb) + Pow(nb, |s| + 1) * (x / nb)
         == LEValue(s, nb) + Pow(nb, |s|) * x
  {
    var p := Pow(nb, |s|);
    PowSucc(nb, |s|);
    LEValueSnoc(s, x % nb, nb);
    SplitDigit(p, x, nb);
  }

  lemma PowSucc(b: nat, n: nat)
    ensures Pow(b, n + 1) == Pow(b, n) * b
  {
  }

  /** A carry below the base is its own last digit. */
  lemma LastCarry(x: nat, nb: nat)
    requires nb >= 1
    ensures x / nb == 0 ==> x % nb == x
  {
  }

  /** Peeling the low digit off x, at weight p, keeps the weighted value. */
  lemma SplitDigit(p: nat, x: nat, nb: nat)
    requires nb >= 1
    ensures p * (x % nb) + (p * nb) * (x / nb) == p * x
  {
    var q, r := x / nb, x % nb;
    assert x == q * nb + r;
    MulDist(p, q * nb, r);
    MulAssoc(p, q, nb);
  }

  /** A product of naturals is a natural. */
  lemma ProductNat(a: nat, b: nat)
    ensures a * b >= 0
  {
  }

  /** Quotient and remainder of naturals by a positive divisor are natural, the remainder below it. */
  lemma ModNat(x: nat, nb: nat)
    requires nb >= 1
    ensures 0 <= x % nb < nb && x / nb >= 0
  {
  }

  /**
   * One step of the sweep `carry, result[i] = divmod(result[i] * base + carry,
   * new_base)`: if the low i digits plus the carry at weight newBase^i hold
   * the low i accumulator digits times base plus d, the same holds at i + 1.
   */
  lemma SweepStep(acc: seq<nat>, res: seq<nat>, i: nat, carry: nat, base: nat, nb: nat, d: nat)
    requires nb >= 2 && i < |acc| == |res| && res[i] == acc[i]
    requires LEValue(res[..i], nb) + Pow(nb, i) * carry == LEValue(acc[..i], nb) * base + d
    ensures var x := acc[i] * base + carry;
      LEValue(res[i := x % nb][..i + 1], nb) + Pow(nb, i + 1) * (x / nb)
        == LEValue(acc[..i + 1], nb) * base + d
  {
    var x := acc[i] * base + carry;
    var lo := res[..i];
    var p := Pow(nb, i);
    CarryStep(LEValue(lo, nb), acc[i], carry, p, base, nb, LEValue(acc[..i], nb), d);
    assert res[i := x % nb][..i + 1] == lo + [x % nb];
    assert acc[..i + 1] == acc[..i] + [acc[i]];
    LEValueSnoc(lo, x % nb, nb);
    LEValueSnoc(acc[..i], acc[i], nb);
  }

  /**
   * The body of convert_base_reversed's outer loop: the little-endian digits
   * `acc` of newBase become those of acc * base + d, sweeping the existing
   * digits low to high and then peeling the remaining carry into new top
   * digits. A canonical accumulator (no zero top digit) stays canonical.
   */
  method MulAddDigit(acc: seq<nat>, base: nat, d: nat, newBase: nat) returns (result: seq<nat>)
    requires base >= 2 && newBase >= 2 && d < base
    requires IsDigits(acc, newBase)
    requires acc == [] || acc[|acc| - 1] != 0
    ensures IsDigits(result, newBase)
    ensures LEValue(result, newBase) == LEValue(acc, newBase) * base + d
    ensures result == [] || result[|result| - 1] != 0
  {
    var swept, carry := Sweep(acc, base, d, newBase);
    result := PeelCarry(swept, carry, newBase);
  }

  /**
   * The `for i in xrange(len(result))` loop of convert_base_reversed: every
   * digit of the accumulator is multiplied by base and absorbs the carry,
   * starting from the carry d; what is left over is the carry out, at
   * weight newBase^|acc|. With no carry out, the top digit stays non-zero.
   */
  method Sweep(acc: seq<nat>, base: nat, d: nat, newBase: nat) returns (result: seq<nat>, carry: nat)
    requires base >= 2 && newBase >= 2 && d < base
    requires IsDigits(acc, newBase)
    requires acc == [] || acc[|acc| - 1] != 0
    ensures |result| == |acc| && IsDigits(result, newBase)
    ensures LEValue(result, newBase) + Pow(newBase, |acc|) * carry == LEValue(acc, newBase) * base + d
    ensures carry > 0 || result == [] || result[|result| - 1] != 0
  {
    result := acc;
    carry := d;
    for i := 0 to |result|
      invariant |result| == |acc|
      invariant result[i..] == acc[i..]
      invariant IsDigits(result, newBase)
      invariant LEValue(result[..i], newBase) + Pow(newBase, i) * carry
             == LEValue(acc[..i], newBase) * base + d
      invariant i == |acc| > 0 && carry == 0 ==> result[i - 1] != 0
    {
      ProductNat(result[i], base);
      var x: nat := result[i] * base + carry;
      SweepStep(acc, result, i, carry, base, newBase, d);
      if i == |acc| - 1 {
        TopDigit(acc[i], base, carry, newBase);
      }
      ModNat(x, newBase);
      var digit: nat := x % newBase;
      carry, result := x / newBase, result[i := digit];
    }
    WholePrefix(result);
    WholePrefix(acc);
  }

  /**
   * The `while carry > 0` loop of convert_base_reversed: the carry left over
   * after the sweep becomes new top digits, so that the little-endian value
   * grows by carry at weight newBase^|acc|. The top digit ends non-zero
   * whenever the carry was non-zero or the accumulator already was canonical.
   */
  method PeelCarry(acc: seq<nat>, carry: nat, newBase: nat) returns (result: seq<nat>)
    requires newBase >= 2
    requires IsDigits(acc, newBase)
    requires carry > 0 || acc == [] || acc[|acc| - 1] != 0
    ensures IsDigits(result, newBase)
    ensures LEValue(result, newBase) == LEValue(acc, newBase) + Pow(newBase, |acc|) * carry
    ensures result == [] || result[|result| - 1] != 0
  {
    result := acc;
    var c: nat := carry;
    while c > 0
      invariant IsDigits(result, newBase)
      invariant LEValue(result, newBase) + Pow(newBase, |result|) * c
             == LEValue(acc, newBase) + Pow(newBase, |acc|) * carry
      invariant c > 0 || result == [] || result[|result| - 1] != 0
      decreases c
    {
      var x := c;
      DivDecreases(x, newBase);
      LastCarry(x, newBase);
      ModNat(x, newBase);
      var d: nat := x % newBase;
      c := x / newBase;
      PushLowDigit(result, x, newBase);
      result := result + [d];
    }
    assert c == 0;
    MulZero(Pow(newBase, |result|));
  }

  /**
   * convert_base_reversed: the big-endian digits `input` of `base`, converted
   * to little-endian digits of `newBase`. The result denotes the same number,
   * has no zero as its most significant digit (a zero-valued input, including
   * [] and [0, 0], gives []), and so is the canonical representation.
   */
  method ConvertBaseReversed(input: seq<nat>, base: nat, newBase: nat) returns (result: seq<nat>)
    requires base >= 2 && newBase >= 2
    requires IsDigits(input, base)
    ensures IsDigits(result, newBase)
    ensures LEValue(result, newBase) == BEValue(input, base)
    ensures result == [] || result[|result| - 1] != 0
    ensures Reverse(result) == ToDigits(BEValue(input, base), newBase)
  {
    result := [];
    for k := 0 to |input|
      invariant IsDigits(result, newBase)
      invariant LEValue(result, newBase) == BEValue(input[..k], base)
      invariant result == [] || result[|result| - 1] != 0
    {
      result := MulAddDigit(result, base, input[k], newBase);
      assert input[..k + 1][..k] == input[..k];
    }
    assert input[..|input|] == input;
    ReverseValue(result, newBase);
    ToDigitsUnique(Reverse(result), newBase);
  }

  /**
   * convert_base: convert_base_reversed followed by an in-place reversal. The
   * big-endian result denotes the same number and has no leading zero digit:
   * it is the canonical representation ToDigits.
   */
  method ConvertBase(input: seq<nat>, base: nat, newBase: nat) returns (result: seq<nat>)
    requires base >= 2 && newBase >= 2
    requires IsDigits(input, base)
    ensures IsDigits(result, newBase)
    ensures BEValue(result, newBase) == BEValue(input, base)
    ensures result == [] || result[0] != 0
    ensures result == ToDigits(BEValue(input, base), newBase)
  {
    result := ConvertBaseReversed(input, base, newBase);
    result := Reverse(result);
    ToDigitsValue(BEValue(input, base), newBase);
  }

  /**
   * Converting there and back recovers the input without its leading zero
   * digits (the round trip of convert_base through any second base).
   */
  lemma ConvertRoundTrip(s: seq<nat>, base: nat, newBase: nat)
    requires base >= 2 && newBase >= 2 && IsDigits(s, base)
    ensures ToDigits(BEValue(ToDigits(BEValue(s, base), newBase), newBase), base)
         == s[LeadingCount(s, 0)..]
  {
    ToDigitsValue(BEValue(s, base), newBase);
    StripLeadingZeros(s, base);
  }

  /** Left padding by (-n) % g zeros makes the length a multiple of g. */
  lemma PaddedLength(n: int, g: nat)
    requires g >= 1
    ensures (n + (-n) % g) % g == 0
  {
    var r, q := (-n) % g, (-n) / g;
    assert -n == q * g + r;
    assert n + r == (-q) * g;
    MultipleMod(-q, g);
  }

  /** A multiple of g leaves no remainder. */
  lemma MultipleMod(m: int, g: nat)
    requires g >= 1
    ensures (m * g) % g == 0
  {
    var d, r := (m * g) / g, (m * g) % g;
    assert m * g == d * g + r;
    assert (m - d) * g == r;
    assert (d - m) * g == -r;
    if m - d >= 1 {
      MulLeft(1, m - d, g);
    } else if m - d <= -1 {
      MulLeft(1, d - m, g);
    }
  }

  /** The next group of g digits still fits in the padded input. */
  lemma NextGroupFits(k: nat, m: nat, g: nat)
    requires k * g < m * g
    ensures k < m
    ensures k * g + g <= m * g
    ensures (k + 1) * g == k * g + g
  {
    if m <= k {
      MulLeft(m, k, g);
    }
    MulLeft(k + 1, m, g);
    MulDistRight(k, 1, g);
  }

  /**
   * Packing the g digits s[i..i+g] into one super-digit d of base^g: d is
   * below base^g, and appending it to the packed groups of s[..i] gives the
   * packed groups of s[..i+g].
   */
  lemma GroupStep(s: seq<nat>, i: nat, g: nat, base: nat, grouped: seq<nat>, d: nat)
    requires i + g <= |s| && IsDigits(s, base)
    requires BEValue(grouped, Pow(base, g)) == BEValue(s[..i], base)
    requires d == BEValue(s[i..i + g], base)
    ensures d < Pow(base, g)
    ensures BEValue(grouped + [d], Pow(base, g)) == BEValue(s[..i + g], base)
  {
    assert s[..i + g] == s[..i] + s[i..i + g];
    BEValueConcat(s[..i], s[i..i + g], base);
    BEValueBound(s[i..i + g], base);
    assert (grouped + [d])[..|grouped|] == grouped;
  }

  /** Packing one more digit: the inner loop step `d = (d * base) + padded_input[i + j]`. */
  lemma PackStep(s: seq<nat>, i: nat, j: nat, base: nat)
    requires i + j < |s|
    ensures BEValue(s[i..i + j + 1], base) == BEValue(s[i..i + j], base) * base + s[i + j]
  {
    assert s[i..i + j + 1][..j] == s[i..i + j];
  }

  /**
   * One step of unpacking `group_digit, d = divmod(group_digit, new_base)`:
   * the quotient fits in one digit fewer, and moving d onto the top of the
   * little-endian result keeps the total.
   */
  lemma UnpackStep(s: seq<nat>, x: nat, nb: nat, e: nat, total: nat)
    requires nb >= 2 && IsDigits(s, nb) && x < Pow(nb, e + 1)
    requires LEValue(s, nb) + Pow(nb, |s|) * x == total
    ensures IsDigits(s + [x % nb], nb) && x / nb < Pow(nb, e)
    ensures LEValue(s + [x % nb], nb) + Pow(nb, |s| + 1) * (x / nb) == total
  {
    var p, q := Pow(nb, e), x / nb;
    DivMod(x, nb);
    ModNat(x, nb);
    PowSucc(nb, e);
    if q >= p {
      MulLeft(p, q, nb);
    }
    PushLowDigit(s, x, nb);
  }

  /**
   * convert_base_fast: convert_base on super-digits. The input is padded on
   * the left to a multiple of baseGroupSize digits, each group packed into
   * one digit of base^baseGroupSize, the groups converted to digits of
   * newBase^newBaseGroupSize, each of those unpacked into newBaseGroupSize
   * digits of newBase, and the zeros the grouping left at the top stripped.
   * The result is exactly that of convert_base, for all group sizes >= 1.
   */
  method ConvertBaseFast(input: seq<nat>, base: nat, baseGroupSize: nat,
                         newBase: nat, newBaseGroupSize: nat) returns (result: seq<nat>)
    requires base >= 2 && baseGroupSize >= 1
    requires newBase >= 2 && newBaseGroupSize >= 1
    requires IsDigits(input, base)
    ensures IsDigits(result, newBase)
    ensures BEValue(result, newBase) == BEValue(input, base)
    ensures result == [] || result[0] != 0
    ensures result == ToDigits(BEValue(input, base), newBase)
  {
    var g, h := baseGroupSize, newBaseGroupSize;
    var n: int := |input|;
    var padding: seq<nat> := Repeat(0, (-n) % g);
    var paddedInput := padding + input;
    LeadingZerosValue(|padding|, input, base);
    PaddedLength(n, g);

    var groupBase := Pow(base, g);
    var groupedInput := GroupDigits(paddedInput, base, g);
    // convert the super-digits, then unpack each into h digits of newBase
    PowMonotone(base, 1, g);
    PowMonotone(newBase, 1, h);
    var newGroupBase := Pow(newBase, h);
    var groupedResult := ConvertBaseReversed(groupedInput, groupBase, newGroupBase);
    result := UngroupDigits(groupedResult, newBase, h);
    // big-endian, then strip the zero digits the grouping left at the top
    ReverseValue(result, newBase);
    result := Reverse(result);
    var resultPadding := LeadingCount(result, 0);
    StripLeadingZeros(result, newBase);
    result := result[resultPadding..];
    ToDigitsValue(BEValue(input, base), newBase);
  }

  /**
   * The packing loop of convert_base_fast: each run of g digits of base in s
   * (whose length is a multiple of g) becomes one digit of base^g, and the
   * packed sequence denotes the same number.
   */
  method GroupDigits(s: seq<nat>, base: nat, g: nat) returns (grouped: seq<nat>)
    requires base >= 2 && g >= 1 && |s| % g == 0
    requires IsDigits(s, base)
    ensures |grouped| * g == |s|
    ensures IsDigits(grouped, Pow(base, g))
    ensures BEValue(grouped, Pow(base, g)) == BEValue(s, base)
  {
    ghost var groups := |s| / g;
    assert |s| == groups * g;
    grouped := [];
    var i := 0;
    while i < |s|
      invariant i == |grouped| * g && i <= |s|
      invariant IsDigits(grouped, Pow(base, g))
      invariant BEValue(grouped, Pow(base, g)) == BEValue(s[..i], base)
      decreases |s| - i
    {
      NextGroupFits(|grouped|, groups, g);
      var d := PackGroup(s, i, g, base);
      GroupStep(s, i, g, base, grouped, d);
      grouped := grouped + [d];
      i := i + g;
    }
    WholePrefix(s);
  }

  /** The inner packing loop of convert_base_fast: the g digits from s[i] on, read as one number. */
  method PackGroup(s: seq<nat>, i: nat, g: nat, base: nat) returns (d: nat)
    requires i + g <= |s|
    ensures d == BEValue(s[i..i + g], base)
  {
    d := 0;
    for j := 0 to g
      invariant d == BEValue(s[i..i + j], base)
    {
      PackStep(s, i, j, base);
      d := d * base + s[i + j];
    }
  }

  /**
   * The unpacking loop of convert_base_fast: each little-endian digit of
   * newBase^h becomes h little-endian digits of newBase, lowest first,
   * denoting the same number.
   */
  method UngroupDigits(grouped: seq<nat>, newBase: nat, h: nat) returns (result: seq<nat>)
    requires newBase >= 2 && h >= 1
    requires IsDigits(grouped, Pow(newBase, h))
    ensures IsDigits(result, newBase)
    ensures LEValue(result, newBase) == LEValue(grouped, Pow(newBase, h))
  {
    var groupBase := Pow(newBase, h);
    result := [];
    for k := 0 to |grouped|
      invariant IsDigits(result, newBase)
      invariant Pow(newBase, |result|) == Pow(groupBase, k)
      invariant LEValue(result, newBase) == LEValue(grouped[..k], groupBase)
    {
      ghost var start := |result|;
      result := UnpackGroup(result, grouped[k], newBase, h);
      UngroupEnd(grouped[..k], grouped[k], groupBase, start, h, newBase);
      assert grouped[..k + 1] == grouped[..k] + [grouped[k]];
    }
    WholePrefix(grouped);
  }

  /**
   * The inner unpacking loop of convert_base_fast: the group digit x below
   * newBase^h becomes h more little-endian digits on top of s, lowest first,
   * worth x at the weight of the first of them.
   */
  method UnpackGroup(s: seq<nat>, x: nat, newBase: nat, h: nat) returns (result: seq<nat>)
    requires newBase >= 2 && IsDigits(s, newBase) && x < Pow(newBase, h)
    ensures |result| == |s| + h && IsDigits(result, newBase)
    ensures LEValue(result, newBase) == LEValue(s, newBase) + Pow(newBase, |s|) * x
  {
    result := s;
    var groupDigit: nat := x;
    ghost var total := LEValue(s, newBase) + Pow(newBase, |s|) * x;
    for j := 0 to h
      invariant |result| == |s| + j
      invariant IsDigits(result, newBase)
      invariant groupDigit < Pow(newBase, h - j)
      invariant LEValue(result, newBase) + Pow(newBase, |result|) * groupDigit == total
    {
      UnpackStep(result, groupDigit, newBase, h - j - 1, total);
      ModNat(groupDigit, newBase);
      var d: nat := groupDigit % newBase;
      result := result + [d];
      groupDigit := groupDigit / newBase;
    }
    UnpackEnd(result, groupDigit, newBase);
  }

  /** A group digit below newBase^0 = 1 is used up and adds nothing. */
  lemma UnpackEnd(s: seq<nat>, x: nat, nb: nat)
    requires x < Pow(nb, 0)
    ensures LEValue(s, nb) + Pow(nb, |s|) * x == LEValue(s, nb)
  {
    MulZero(Pow(nb, |s|));
  }

  /** After h unpacking steps the group digit is used up and the weights line up. */
  lemma UngroupEnd(prev: seq<nat>, y: nat, groupBase: nat, start: nat, h: nat, nb: nat)
    requires groupBase == Pow(nb, h)
    requires Pow(nb, start) == Pow(groupBase, |prev|)
    ensures Pow(nb, start + h) == Pow(groupBase, |prev| + 1)
    ensures LEValue(prev + [y], groupBase) == LEValue(prev, groupBase) + Pow(groupBase, |prev|) * y
  {
    PowAdd(nb, start, h);
    LEValueSnoc(prev, y, groupBase);
  }
}

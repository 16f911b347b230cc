/**
 * The Base58 alphabet of src/bitcoin.py and the meaning of its codec:
 * a byte string is a big-endian number in base 256, its encoding the same
 * number in base 58 written with the alphabet's symbols, and each leading
 * zero byte is carried over as one leading '1' symbol (and back).
 */
module Base58 {
  import opened Digits
  import opened Errors

  /** One character of a (Python 2) byte string. */
  type Byte = x: nat | x < 256

  /**
   * b58digits: the 58 symbols in digit order. Written in six runs: the
   * digits without 0, the upper-case letters without I and O, and the
   * lower-case letters without l.
   */
  const B58Digits: string :=
    "123456789" + "ABCDEFGH" + "JKLMN" + "PQRSTUVWXYZ" + "abcdefghijk" + "mnopqrstuvwxyz"

  /** The symbol of digit v, by code point arithmetic on the six runs. */
  function RunSymbol(v: nat): char
    requires v < 58
  {
    if v < 9 then ('1' as int + v) as char
    else if v < 17 then ('A' as int + (v - 9)) as char
    else if v < 22 then ('J' as int + (v - 17)) as char
    else if v < 33 then ('P' as int + (v - 22)) as char
    else if v < 44 then ('a' as int + (v - 33)) as char
    else ('m' as int + (v - 44)) as char
  }

  lemma AlphabetRuns()
    ensures |B58Digits| == 58
    ensures forall v :: 0 <= v < 58 ==> B58Digits[v] == RunSymbol(v)
  {
  }

  /**
   * The alphabet lists its symbols in strictly increasing code point order,
   * so its 58 symbols are distinct; '1' is digit 0 and 'W' is digit 29.
   */
  lemma AlphabetIncreasing()
    ensures |B58Digits| == 58
    ensures forall i, j :: 0 <= i < j < 58 ==> B58Digits[i] < B58Digits[j]
    ensures B58Digits[0] == '1' && B58Digits[29] == 'W'
  {
    AlphabetRuns();
  }

  /** Index of the first occurrence of c in t, or |t| when c does not occur. */
  function Find(t: string, c: char): (r: nat)
    ensures r <= |t|
    ensures r < |t| ==> t[r] == c
    ensures forall j :: 0 <= j < r ==> t[j] != c
  {
    if t == [] then 0 else if t[0] == c then 0 else 1 + Find(t[1..], c)
  }

  /**
   * c is one of the 58 symbols (a key of b58values): a digit other than 0 or
   * a letter other than I, O and l.
   */
  predicate IsSymbol(c: char) {
    ('1' <= c <= '9') || ('A' <= c <= 'H') || ('J' <= c <= 'N') || ('P' <= c <= 'Z')
    || ('a' <= c <= 'k') || ('m' <= c <= 'z')
  }

  /** IsSymbol describes exactly the characters of the alphabet. */
  lemma SymbolMembership(c: char)
    ensures IsSymbol(c) <==> c in B58Digits
  {
    AlphabetRuns();
    if IsSymbol(c) {
      var v: nat :=
        if c <= '9' then c as int - '1' as int
        else if c <= 'H' then c as int - 'A' as int + 9
        else if c <= 'N' then c as int - 'J' as int + 17
        else if c <= 'Z' then c as int - 'P' as int + 22
        else if c <= 'k' then c as int - 'a' as int + 33
        else c as int - 'm' as int + 44;
      assert B58Digits[v] == c;
    } else {
      forall v | 0 <= v < 58 ensures B58Digits[v] != c {
      }
    }
  }

  /**
   * b58values[c]: the digit a symbol stands for, the position of c in the
   * alphabet; a character outside the alphabet has no entry (the source's
   * KeyError), reported as InvalidSymbol(c).
   */
  function B58Value(c: char): (r: Result<nat>)
    ensures r.Ok? <==> IsSymbol(c)
    ensures r.Ok? ==> r.value < 58 && B58Digits[r.value] == c
    ensures r.Err? ==> r.error == InvalidSymbol(c)
  {
    SymbolMembership(c);
    var i := Find(B58Digits, c);
    if i < |B58Digits| then Ok(i) else Err(InvalidSymbol(c))
  }

  /** b58values inverts b58digits: looking up the symbol of v gives back v. */
  lemma ValueOfSymbol(v: nat)
    requires v < 58
    ensures B58Value(B58Digits[v]) == Ok(v)
  {
    AlphabetIncreasing();
  }

  /** The symbols of a sequence of base-58 digits (`''.join(b58digits[d] for d in ds)`). */
  function Symbols(ds: seq<nat>): (r: string)
    requires IsDigits(ds, 58)
    ensures |r| == |ds|
    ensures forall i :: 0 <= i < |ds| ==> r[i] == B58Digits[ds[i]]
  {
    AlphabetRuns();
    seq(|ds|, i requires 0 <= i < |ds| => B58Digits[ds[i]])
  }

  /** Every character of t is a symbol of the alphabet. */
  predicate AllSymbols(t: string) {
    forall i :: 0 <= i < |t| ==> IsSymbol(t[i])
  }

  /**
   * `[b58values[c] for c in t]`: the digits of t, failing at the first
   * character that is not a symbol.
   */
  function Values(t: string): (r: Result<seq<nat>>)
    ensures r.Ok? <==> AllSymbols(t)
    ensures r.Ok? ==> |r.value| == |t| && IsDigits(r.value, 58)
    ensures r.Ok? ==> forall i :: 0 <= i < |t| ==> B58Digits[r.value[i]] == t[i]
    ensures r.Err? ==> r.error.InvalidSymbol? && r.error.symbol in t
                       && !IsSymbol(r.error.symbol)
  {
    if t == [] then Ok([])
    else
      match B58Value(t[0])
      case Err(e) => Err(e)
      case Ok(v) =>
        match Values(t[1..])
        case Err(e) => Err(e)
        case Ok(vs) => Ok([v] + vs)
  }

  /** Values reports the first character outside the alphabet. */
  lemma {:induction false} ValuesFirstInvalid(t: string, k: nat)
    requires k < |t| && !IsSymbol(t[k])
    requires forall j :: 0 <= j < k ==> IsSymbol(t[j])
    ensures Values(t) == Err(InvalidSymbol(t[k]))
  {
    if k > 0 {
      ValuesFirstInvalid(t[1..], k - 1);
    }
  }

  /** The digits behind the symbols of a digit sequence are that sequence. */
  lemma {:induction false} ValuesOfSymbols(ds: seq<nat>)
    requires IsDigits(ds, 58)
    ensures Values(Symbols(ds)) == Ok(ds)
  {
    if ds != [] {
      var t := Symbols(ds);
      ValueOfSymbol(ds[0]);
      assert t[1..] == Symbols(ds[1..]);
      ValuesOfSymbols(ds[1..]);
      assert [ds[0]] + ds[1..] == ds;
    }
  }

  /** Distinct digits have distinct symbols. */
  lemma SymbolDigit(a: nat, b: nat)
    requires a < 58 && b < 58 && B58Digits[a] == B58Digits[b]
    ensures a == b
  {
    AlphabetIncreasing();
  }

  /** Digit 0 is the only digit written '1'. */
  lemma OneIsZero(v: nat)
    requires v < 58
    ensures B58Digits[v] == '1' <==> v == 0
  {
    AlphabetIncreasing();
  }

  /** The length of a run of k copies of z followed by a sequence not starting with z. */
  lemma LeadingRun<T>(z: T, k: nat, u: seq<T>)
    requires u == [] || u[0] != z
    ensures LeadingCount(Repeat(z, k) + u, z) == k
  {
    var s := Repeat(z, k) + u;
    assert forall i :: 0 <= i < k ==> s[i] == z;
    assert k < |s| ==> s[k] == u[0];
  }

  /**
   * b58encode's result: one '1' per leading zero byte of s, then the
   * base-58 symbols of the number s denotes (nothing when it is zero).
   */
  function Encode(s: seq<Byte>): string {
    Repeat(B58Digits[0], LeadingCount(s, 0)) + Symbols(ToDigits(BEValue(s, 256), 58))
  }

  /**
   * b58decode's result: one zero byte per leading '1' of t, then the bytes of
   * the number the symbols of t denote; InvalidSymbol at the first character
   * outside the alphabet.
   */
  function Decode(t: string): (r: Result<seq<Byte>>)
    ensures r.Ok? <==> AllSymbols(t)
    ensures r.Err? ==> r.error.InvalidSymbol? && r.error.symbol in t
                       && !IsSymbol(r.error.symbol)
  {
    match Values(t)
    case Err(e) => Err(e)
    case Ok(vs) => Ok(Repeat(0, LeadingCount(t, B58Digits[0])) + ToDigits(BEValue(vs, 58), 256))
  }

  /** Every character of an encoding is a symbol of the alphabet. */
  lemma EncodeSymbols(s: seq<Byte>)
    ensures AllSymbols(Encode(s))
  {
    var e := Encode(s);
    var z, ds := LeadingCount(s, 0), ToDigits(BEValue(s, 256), 58);
    SymbolsZeros(z, ds);
    var w := Symbols(Repeat(0, z) + ds);
    assert e == w;
    forall i | 0 <= i < |e| ensures IsSymbol(e[i]) {
      assert e[i] in B58Digits;
      SymbolMembership(e[i]);
    }
  }

  /**
   * b58encode(s) begins with exactly as many '1' symbols as s has leading
   * zero bytes, because the numeric part never starts with digit 0.
   */
  lemma EncodeLeadingOnes(s: seq<Byte>)
    ensures LeadingCount(Encode(s), '1') == LeadingCount(s, 0)
  {
    AlphabetIncreasing();
    var ds := ToDigits(BEValue(s, 256), 58);
    if ds != [] {
      OneIsZero(ds[0]);
    }
    LeadingRun('1', LeadingCount(s, 0), Symbols(ds));
  }

  /** Writing leading zero digits gives leading '1' symbols. */
  lemma SymbolsZeros(k: nat, ds: seq<nat>)
    requires IsDigits(ds, 58)
    ensures IsDigits(Repeat(0, k) + ds, 58)
    ensures Symbols(Repeat(0, k) + ds) == Repeat(B58Digits[0], k) + Symbols(ds)
  {
  }

  /** Round trip: b58decode(b58encode(s)) == s for every byte string, including '' and all-zero ones. */
  lemma DecodeEncode(s: seq<Byte>)
    ensures Decode(Encode(s)) == Ok(s)
  {
    var z, n := LeadingCount(s, 0), BEValue(s, 256);
    EncodedDigits(s);
    // the digits of the encoding denote n, and its '1's restore the zero bytes
    LeadingZerosValue(z, ToDigits(n, 58), 58);
    ToDigitsValue(n, 58);
    BytesOfNumber(s);
  }

  /** A byte string is its leading zeros followed by the canonical bytes of its number. */
  lemma BytesOfNumber(s: seq<Byte>)
    ensures Repeat(0, LeadingCount(s, 0)) + ToDigits(BEValue(s, 256), 256) == s
  {
    StripLeadingZeros(s, 256);
    SplitLeading<nat>(s, 0);
  }

  /**
   * The digits of an encoding: one zero per leading zero byte, then the
   * canonical base-58 digits of the number; its leading '1's are those zeros.
   */
  lemma EncodedDigits(s: seq<Byte>)
    ensures AllSymbols(Encode(s))
    ensures Values(Encode(s)) == Ok(Repeat(0, LeadingCount(s, 0)) + ToDigits(BEValue(s, 256), 58))
    ensures LeadingCount(Encode(s), B58Digits[0]) == LeadingCount(s, 0)
  {
    var z := LeadingCount(s, 0);
    var ds := ToDigits(BEValue(s, 256), 58);
    SymbolsZeros(z, ds);
    ValuesOfSymbols(Repeat(0, z) + ds);
    EncodeLeadingOnes(s);
  }

  /** The leading zero digits of t's values are its leading '1' symbols. */
  lemma LeadingZeroDigits(t: string)
    requires AllSymbols(t)
    ensures LeadingCount(Values(t).value, 0) == LeadingCount(t, B58Digits[0])
  {
    AlphabetIncreasing();
    var vs := Values(t).value;
    var k := LeadingCount(vs, 0);
    forall j | 0 <= j < k ensures t[j] == '1' {
      OneIsZero(vs[j]);
    }
    if k < |t| {
      OneIsZero(vs[k]);
    }
  }

  /**
   * Round trip the other way: every string b58decode accepts is the
   * encoding of what it decodes to, so the codec is a bijection between
   * byte strings and strings over the alphabet.
   */
  lemma EncodeDecode(t: string)
    requires Decode(t).Ok?
    ensures Encode(Decode(t).value) == t
  {
    var k := LeadingCount(t, B58Digits[0]);
    var n := BEValue(Values(t).value, 58);
    DecodedBytes(t);
    assert Encode(Decode(t).value) == Repeat(B58Digits[0], k) + Symbols(ToDigits(n, 58));
    CanonicalSymbols(t);
    SplitLeading(t, B58Digits[0]);
  }

  /** What b58decode returns has t's leading '1's as zero bytes and denotes t's number. */
  lemma DecodedBytes(t: string)
    requires Decode(t).Ok?
    ensures LeadingCount(Decode(t).value, 0) == LeadingCount(t, B58Digits[0])
    ensures BEValue(Decode(t).value, 256) == BEValue(Values(t).value, 58)
  {
    var k := LeadingCount(t, B58Digits[0]);
    var ds := ToDigits(BEValue(Values(t).value, 58), 256);
    assert Decode(t).value == Repeat(0, k) + ds;
    LeadingRun(0, k, ds);
    LeadingZerosValue(k, ds, 256);
    ToDigitsValue(BEValue(Values(t).value, 58), 256);
  }

  /** The canonical base-58 symbols of t's number are t without its leading '1's. */
  lemma CanonicalSymbols(t: string)
    requires AllSymbols(t)
    ensures Symbols(ToDigits(BEValue(Values(t).value, 58), 58)) == t[LeadingCount(t, B58Digits[0])..]
  {
    var vs := Values(t).value;
    var k := LeadingCount(t, B58Digits[0]);
    LeadingZeroDigits(t);
    StripLeadingZeros(vs, 58);
    SymbolsOfValues(t, k);
  }

  /** The symbols of the digits of t from position k on spell t from k on. */
  lemma {:induction false} SymbolsOfValues(t: string, k: nat)
    requires AllSymbols(t) && k <= |t|
    ensures IsDigits(Values(t).value[k..], 58)
    ensures Symbols(Values(t).value[k..]) == t[k..]
  {
    var vs := Values(t).value;
    SymbolsSuffix(vs, k);
    assert Symbols(vs) == t;
  }

  /** Symbols commutes with dropping a prefix. */
  lemma {:induction false} SymbolsSuffix(ds: seq<nat>, k: nat)
    requires IsDigits(ds, 58) && k <= |ds|
    ensures IsDigits(ds[k..], 58)
    ensures Symbols(ds[k..]) == Symbols(ds)[k..]
  {
    assert forall i :: 0 <= i < |ds| - k ==> ds[k..][i] == ds[k + i];
  }

  /** b58decode maps each leading '1' to one leading zero byte. */
  lemma DecodeLeadingZeros(t: string)
    requires Decode(t).Ok?
    ensures LeadingCount(Decode(t).value, 0) == LeadingCount(t, '1')
  {
    AlphabetIncreasing();
    var n := BEValue(Values(t).value, 58);
    LeadingRun(0, LeadingCount(t, B58Digits[0]), ToDigits(n, 256));
  }
}

/**
 * The four Base58 codec routines of src/bitcoin.py: b58encode and b58decode,
 * which go through one big number, and b58encode_nolong and b58decode_nolong,
 * which convert digit lists with convert_base_fast instead. Each is proved to
 * compute Base58.Encode or Base58.Decode, so the two variants agree on every
 * input and inherit the round-trip lemmas proved there.
 */
module Codec {
  import opened Digits
  import opened Errors
  import opened Base58
  import opened Convert

  /** The symbols of a digit sequence with one more digit at the end. */
  lemma SymbolsSnoc(ds: seq<nat>, d: nat)
    requires IsDigits(ds, 58) && d < 58
    ensures IsDigits(ds + [d], 58)
    ensures Symbols(ds + [d]) == Symbols(ds) + [B58Digits[d]]
  {
    var a, b := Symbols(ds + [d]), Symbols(ds) + [B58Digits[d]];
    forall i | 0 <= i < |a| ensures a[i] == b[i] {
    }
  }

  /** The lowest canonical digit of a positive n is n % base, the rest those of n / base. */
  lemma DigitsStep(n: nat, base: nat)
    requires n > 0 && base >= 2
    ensures n / base < n
    ensures ToDigits(n, base) == ToDigits(n / base, base) + [n % base]
  {
    QuotientSmaller(n, base);
  }

  /** Taking one more digit off the low end of n in base 58. */
  lemma SymbolsStep(n: nat)
    requires n > 0
    ensures Symbols(ToDigits(n, 58)) == Symbols(ToDigits(n / 58, 58)) + [B58Digits[n % 58]]
  {
    DigitsStep(n, 58);
    SymbolsSnoc(ToDigits(n / 58, 58), n % 58);
  }

  lemma AppendAssoc<T>(a: seq<T>, b: seq<T>, c: seq<T>)
    ensures (a + b) + c == a + (b + c)
  {
  }

  /** One more copy of z in front of a run of i copies. */
  lemma ConsRepeat<T>(z: T, i: nat, x: seq<T>)
    ensures [z] + (Repeat(z, i) + x) == Repeat(z, i + 1) + x
  {
  }

  /** The run of z at the head of s goes on past a position holding z. */
  lemma LeadingStep<T>(s: seq<T>, z: T, i: nat)
    requires i <= LeadingCount(s, z) && i < |s| && s[i] == z
    ensures i + 1 <= LeadingCount(s, z)
  {
  }

  /** A run of zero bytes is a run of zero digits. */
  lemma ZeroBytes(k: nat)
    ensures Repeat<Byte>(0, k) == Repeat<nat>(0, k)
  {
  }

  /** The value of a prefix grows by one digit. */
  lemma PrefixStep(s: seq<nat>, i: nat, base: nat)
    requires i < |s|
    ensures BEValue(s[..i + 1], base) == BEValue(s[..i], base) * base + s[i]
  {
    assert s[..i + 1][..i] == s[..i];
  }

  /** A string spelled by digits has those digits as its values. */
  lemma SpelledBy(u: string, ds: seq<nat>)
    requires IsDigits(ds, 58) && |ds| == |u|
    requires forall j :: 0 <= j < |u| ==> B58Digits[ds[j]] == u[j]
    ensures AllSymbols(u) && Values(u) == Ok(ds)
  {
    var w := Symbols(ds);
    forall j | 0 <= j < |u| ensures w[j] == u[j] {
    }
    assert w == u;
    ValuesOfSymbols(ds);
  }

  /** The digits of a prefix of symbols grow by the digit of the next symbol. */
  lemma ValuesStep(t: string, i: nat, v: nat)
    requires i < |t| && AllSymbols(t[..i]) && B58Value(t[i]) == Ok(v)
    ensures AllSymbols(t[..i + 1])
    ensures Values(t[..i + 1]).value == Values(t[..i]).value + [v]
  {
    var u, a := t[..i + 1], Values(t[..i]).value;
    var ds := a + [v];
    forall j | 0 <= j < |u| ensures B58Digits[ds[j]] == u[j] {
      if j < i {
        assert t[..i][j] == u[j];
      }
    }
    SpelledBy(u, ds);
  }

  /** One iteration of b58decode's first loop: the number grows by the next symbol's digit. */
  lemma NumberStep(t: string, i: nat, v: nat, value: nat)
    requires i < |t| && AllSymbols(t[..i]) && B58Value(t[i]) == Ok(v)
    requires value == BEValue(Values(t[..i]).value, 58)
    ensures AllSymbols(t[..i + 1])
    ensures value * 58 + v == BEValue(Values(t[..i + 1]).value, 58)
  {
    ValuesStep(t, i, v);
    var ds := Values(t[..i + 1]).value;
    assert ds[..i] == Values(t[..i]).value;
    PrefixStep(ds, i, 58);
    assert ds[..i + 1] == ds;
  }

  /** b58encode: through one number, then one '1' per leading zero byte. */
  method B58Encode(s: seq<Byte>) returns (r: string)
    ensures r == Encode(s)
  {
    var value := BytesValue(s);
    var digits := NumberSymbols(value);
    r := PrependLeading<Byte, char>(s, 0, B58Digits[0], digits);
  }

  /**
   * The last loop of b58encode and of b58decode: one `pad` in front of `rest`
   * for each leading copy of z in s, stopping at the first element that
   * differs.
   */
  method PrependLeading<T(==), U>(s: seq<T>, z: T, pad: U, rest: seq<U>) returns (r: seq<U>)
    ensures r == Repeat(pad, LeadingCount(s, z)) + rest
  {
    r := rest;
    var i := 0;
    while i < |s| && s[i] == z
      invariant i <= LeadingCount(s, z)
      invariant r == Repeat(pad, i) + rest
    {
      LeadingStep(s, z, i);
      ConsRepeat(pad, i, rest);
      r := [pad] + r;
      i := i + 1;
    }
  }

  /** The first loop of b58encode: the number the bytes denote, most significant first. */
  method BytesValue(s: seq<Byte>) returns (value: nat)
    ensures value == BEValue(s, 256)
  {
    value := 0;
    for i := 0 to |s|
      invariant value == BEValue(s[..i], 256)
    {
      PrefixStep(s, i, 256);
      value := value * 256 + s[i];
    }
    WholePrefix(s);
  }

  /** The `while value > 0` loop of b58encode: the symbols of n's canonical base-58 digits. */
  method NumberSymbols(n: nat) returns (r: string)
    ensures r == Symbols(ToDigits(n, 58))
  {
    var value := n;
    r := "";
    while value > 0
      invariant Symbols(ToDigits(value, 58)) + r == Symbols(ToDigits(n, 58))
    {
      var c := value % 58;
      SymbolsStep(value);
      AppendAssoc(Symbols(ToDigits(value / 58, 58)), [B58Digits[c]], r);
      value := value / 58;
      r := [B58Digits[c]] + r;
    }
  }

  /**
   * The first loop of b58decode: the number the symbols of t denote, read
   * most significant first; a character outside the alphabet raises, here
   * InvalidSymbol for the first such character, as Values reports it.
   */
  method SymbolsValue(t: string) returns (r: Result<nat>)
    ensures r.Ok? <==> AllSymbols(t)
    ensures r.Ok? ==> r.value == BEValue(Values(t).value, 58)
    ensures r.Err? ==> Values(t) == Err(r.error)
  {
    var value: nat := 0;
    for i := 0 to |t|
      invariant AllSymbols(t[..i]) && value == BEValue(Values(t[..i]).value, 58)
    {
      var v := B58Value(t[i]);
      if v.Err? {
        forall j | 0 <= j < i ensures IsSymbol(t[j]) {
          assert t[..i][j] == t[j];
        }
        ValuesFirstInvalid(t, i);
        return Err(v.error);
      }
      NumberStep(t, i, v.value, value);
      value := value * 58 + v.value;
    }
    WholePrefix(t);
    r := Ok(value);
  }

  /**
   * b58decode: through one number, then one zero byte per leading '1'; the
   * first character outside the alphabet stops it with InvalidSymbol.
   */
  method B58Decode(t: string) returns (r: Result<seq<Byte>>)
    ensures r == Decode(t)
  {
    var number := SymbolsValue(t);
    if number.Err? {
      return Err(number.error);
    }
    var n := number.value;
    var bytes := NumberBytes(n);
    var zero: Byte := 0;
    bytes := PrependLeading<char, Byte>(t, B58Digits[0], zero, bytes);
    ZeroBytes(LeadingCount(t, B58Digits[0]));
    r := Ok(bytes);
  }

  /** The `while value > 0` loop of b58decode: the bytes of n, most significant first, none of them a leading zero. */
  method NumberBytes(n: nat) returns (bytes: seq<Byte>)
    ensures bytes == ToDigits(n, 256)
  {
    var value := n;
    bytes := [];
    while value > 0
      invariant ToDigits(value, 256) + bytes == ToDigits(n, 256)
    {
      var c: Byte := value % 256;
      DigitsStep(value, 256);
      AppendAssoc(ToDigits(value / 256, 256), [c], bytes);
      value := value / 256;
      bytes := [c] + bytes;
    }
  }

  /** b58encode_nolong: the bytes as base-256 digits, converted three to four at a time. */
  method B58EncodeNoLong(s: seq<Byte>) returns (r: string)
    ensures r == Encode(s)
  {
    var padding := LeadingCount(s, 0);
    var result := ConvertBaseFast(s, 256, 3, 58, 4);
    r := Repeat(B58Digits[0], padding) + Symbols(result);
  }

  /**
   * b58decode_nolong: the symbols' digits converted four to three at a time;
   * looking up the digits fails at the first character outside the alphabet.
   */
  method B58DecodeNoLong(t: string) returns (r: Result<seq<Byte>>)
    ensures r == Decode(t)
  {
    var padding := LeadingCount(t, B58Digits[0]);
    var values := Values(t);
    if values.Err? {
      return Err(values.error);
    }
    var result := ConvertBaseFast(values.value, 58, 4, 256, 3);
    r := Ok(Repeat(0, padding) + result);
  }
}

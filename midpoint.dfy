/**
 * Why hr_address in src/bitcoin.py appends 'W11111' to the prefix. The six
 * symbols stand for 29 * 58^5, the middle of the six lowest base-58 places;
 * swapping the last four bytes for the real checksum moves the number by
 * less than 2^32 either way, which keeps it inside those six places, so the
 * symbols of the prefix survive the re-encoding. The lemma PrefixKept states
 * the outcome: of hr_address's three asserts, the last one never fails.
 */
module Midpoint {
  import opened Digits
  import opened Errors
  import opened Base58
  import opened Address

  /** The digits of 'W11111'. */
  const MidDigits: seq<nat> := [29, 0, 0, 0, 0, 0]

  /** The number 'W11111' denotes, and the powers the argument needs. */
  lemma Constants()
    ensures Pow(58, 5) == 656356768 && Pow(58, 6) == 38068692544
    ensures Pow(256, 4) == 4294967296
    ensures BEValue(MidDigits, 58) == 19034346272
  {
    var zeros: seq<nat> := Repeat(0, 5);
    assert MidDigits == [29] + zeros;
    BEValueConcat([29], zeros, 58);
    BEValueZeros(5, 58);
    assert [29][..0] == [];
    assert BEValue([29], 58) == 29;
    assert BEValue(MidDigits, 58) == 29 * Pow(58, 5);
  }

  /** The digits of prefix + 'W11111' are those of the prefix followed by 29 and five zeros. */
  lemma MidpointDigits(prefix: string)
    requires AllSymbols(prefix)
    ensures AllSymbols(prefix + Midpoint)
    ensures Values(prefix + Midpoint).value == Values(prefix).value + MidDigits
  {
    MidpointSymbols(prefix);
    AlphabetIncreasing();
    var t := prefix + Midpoint;
    var a, b := Values(t).value, Values(prefix).value + MidDigits;
    forall j | 0 <= j < |t| ensures a[j] == b[j] {
      if j < |prefix| {
        assert t[j] == prefix[j];
      } else {
        assert t[j] == Midpoint[j - |prefix|];
      }
      SymbolDigit(a[j], b[j]);
    }
  }

  /** Appending 'W11111' adds no leading zero digit. */
  lemma MidpointLeading(ps: seq<nat>)
    ensures LeadingCount(ps + MidDigits, 0) == LeadingCount(ps, 0)
  {
    var k, s := LeadingCount(ps, 0), ps + MidDigits;
    assert forall j :: 0 <= j < k ==> s[j] == ps[j];
    assert k < |ps| ==> s[k] == ps[k];
    LeadingCountIs(s, 0, k);
  }

  /** prefix + 'W11111' denotes the prefix's number shifted by six places, plus 29 * 58^5. */
  lemma MidpointValue(ps: seq<nat>)
    ensures BEValue(ps + MidDigits, 58)
         == BEValue(ps[LeadingCount(ps, 0)..], 58) * 38068692544 + 19034346272
  {
    var k := LeadingCount(ps, 0);
    Constants();
    BEValueConcat(ps, MidDigits, 58);
    SplitLeading(ps, 0);
    LeadingZerosValue(k, ps[k..], 58);
  }

  /**
   * What b58decode returns for prefix + 'W11111': one zero byte per leading
   * '1' of the prefix, then the bytes of q * 58^6 + 29 * 58^5, where q is the
   * number the rest of the prefix denotes.
   */
  lemma DecodedMidpoint(prefix: string, ps: seq<nat>, k: nat, q: nat)
    requires AllSymbols(prefix) && ps == Values(prefix).value
    requires k == LeadingCount(ps, 0) && q == BEValue(ps[k..], 58)
    ensures Decode(prefix + Midpoint)
         == Ok(Repeat(0, k) + ToDigits(q * 38068692544 + 19034346272, 256))
  {
    var t := prefix + Midpoint;
    MidpointDigits(prefix);
    var vs := Values(t).value;
    assert vs == ps + MidDigits;
    LeadingZeroDigits(t);
    MidpointLeading(ps);
    assert LeadingCount(t, B58Digits[0]) == k;
    MidpointValue(ps);
    assert BEValue(vs, 58) == q * 38068692544 + 19034346272;
    assert Decode(t) == Ok(Repeat(0, k) + ToDigits(BEValue(vs, 58), 256));
  }

  /**
   * When the decoded bytes number 25, the number they denote, being at least
   * 29 * 58^5 > 2^32, takes at least five of them, so at most 20 are
   * leading zeros.
   */
  lemma MidpointBytes(k: nat, v: nat, bin: seq<Byte>)
    requires v >= 19034346272 && |bin| == 25
    requires bin == Repeat(0, k) + ToDigits(v, 256)
    ensures k <= 20 && LeadingCount(bin, 0) == k && BEValue(bin, 256) == v
  {
    var d := ToDigits(v, 256);
    Constants();
    ToDigitsValue(v, 256);
    BEValueBound(d, 256);
    PowGrows(256, 4, |d|);
    LeadingRun(0, k, d);
    LeadingZerosValue(k, d, 256);
  }

  /**
   * ripemd160_to_address(bin[1:-4]) keeps the first 21 bytes of bin and puts
   * the checksum in place of its last 4: the number changes only below 2^32.
   */
  lemma ChecksumSwap(sha256: Hash, bin: seq<Byte>, a: seq<Byte>)
    requires DigestLength32(sha256) && |bin| == 25 && bin[0] == 0
    requires a == RipemdToAddress(sha256, bin[1..21]).value
    ensures |a| == 25 && a[..21] == bin[..21]
    ensures BEValue(bin, 256) == BEValue(bin[..21], 256) * 4294967296 + BEValue(bin[21..], 256)
    ensures BEValue(a, 256) == BEValue(bin[..21], 256) * 4294967296 + BEValue(a[21..], 256)
    ensures BEValue(bin[21..], 256) < 4294967296 && BEValue(a[21..], 256) < 4294967296
  {
    Constants();
    assert a[..21] == [0] + bin[1..21] == bin[..21];
    assert bin == bin[..21] + bin[21..];
    assert a == a[..21] + a[21..];
    BEValueConcat(bin[..21], bin[21..], 256);
    BEValueConcat(a[..21], a[21..], 256);
    BEValueBound(bin[21..], 256);
    BEValueBound(a[21..], 256);
  }

  /** Bytes that agree on the first 21 agree on a run of at most 20 leading zeros. */
  lemma KeptLeading(a: seq<Byte>, bin: seq<Byte>, k: nat)
    requires |a| == 25 && |bin| == 25 && a[..21] == bin[..21]
    requires k <= 20 && LeadingCount(bin, 0) == k
    ensures LeadingCount(a, 0) == k
  {
    assert forall j :: 0 <= j <= k ==> a[j] == a[..21][j] == bin[j];
    LeadingCountIs(a, 0, k);
  }

  /**
   * Below the places of a canonical digit string p, six more places hold any
   * l < 58^6: the canonical digits of p's number shifted by six places plus l
   * start with p.
   */
  lemma ShiftedDigits(p: seq<nat>, q: nat, l: nat, n: nat)
    requires IsDigits(p, 58) && p != [] && p[0] != 0 && q == BEValue(p, 58)
    requires l < 38068692544 && n == q * 38068692544 + l
    ensures ToDigits(n, 58) == p + FixedDigits(l, 6, 58)
  {
    var lo := FixedDigits(l, 6, 58);
    Constants();
    FixedDigitsValue(l, 6, 58);
    BEValueConcat(p, lo, 58);
    assert BEValue(p + lo, 58) == n;
    ToDigitsUnique(p + lo, 58);
  }

  /**
   * One '1' per leading zero digit of the prefix followed by the symbols of
   * digits that begin with the prefix's remaining digits spells out the
   * prefix and more.
   */
  lemma SymbolsPrefix(prefix: string, ps: seq<nat>, k: nat, ds: seq<nat>)
    requires AllSymbols(prefix) && ps == Values(prefix).value && k == LeadingCount(ps, 0)
    requires IsDigits(ds, 58) && |ps| - k <= |ds| && ds[..|ps| - k] == ps[k..]
    ensures prefix <= Repeat(B58Digits[0], k) + Symbols(ds)
  {
    var e := Repeat(B58Digits[0], k) + Symbols(ds);
    forall j | 0 <= j < |prefix| ensures e[j] == prefix[j] {
      if j >= k {
        assert ds[j - k] == ds[..|ps| - k][j - k] == ps[j];
      }
    }
    assert e[..|prefix|] == prefix;
  }

  /**
   * b58encode of bytes with the prefix's leading zeros that denote q * 58^6
   * + l, for any l below 58^6, starts with the prefix: the six lowest places
   * hold l, and the places above them the prefix's own digits.
   */
  lemma PrefixOfEncoding(prefix: string, ps: seq<nat>, k: nat, q: nat, a: seq<Byte>, l: nat)
    requires AllSymbols(prefix) && ps == Values(prefix).value
    requires k == LeadingCount(ps, 0) && q == BEValue(ps[k..], 58)
    requires l < 38068692544 && LeadingCount(a, 0) == k
    requires BEValue(a, 256) == q * 38068692544 + l
    ensures prefix <= Encode(a)
  {
    var n := BEValue(a, 256);
    var ds := ToDigits(n, 58);
    if k < |ps| {
      ShiftedDigits(ps[k..], q, l, n);
      assert ds[..|ps| - k] == ps[k..];
    }
    SymbolsPrefix(prefix, ps, k, ds);
  }

  /**
   * The address hr_address builds from 25 decoded bytes with version byte 0
   * starts with the prefix.
   */
  lemma AddressKeepsPrefix(sha256: Hash, prefix: string, ps: seq<nat>, k: nat, q: nat, bin: seq<Byte>)
    requires DigestLength32(sha256)
    requires AllSymbols(prefix) && ps == Values(prefix).value
    requires k == LeadingCount(ps, 0) && q == BEValue(ps[k..], 58)
    requires bin == Repeat(0, k) + ToDigits(q * 38068692544 + 19034346272, 256)
    requires |bin| == 25 && bin[0] == 0
    ensures prefix <= Encode(RipemdToAddress(sha256, bin[1..21]).value)
  {
    MidpointBytes(k, q * 38068692544 + 19034346272, bin);
    var a := RipemdToAddress(sha256, bin[1..21]).value;
    ChecksumSwap(sha256, bin, a);
    KeptLeading(a, bin, k);
    var l := 19034346272 - BEValue(bin[21..], 256) + BEValue(a[21..], 256);
    PrefixOfEncoding(prefix, ps, k, q, a, l);
  }

  /**
   * hr_address's last assert holds for every prefix: when prefix + 'W11111'
   * decodes to 25 bytes with version byte 0, the address built from them
   * starts with the prefix. The failures left are a character outside the
   * alphabet, a decoding of another length and a non-zero version byte.
   */
  lemma PrefixKept(sha256: Hash, prefix: string)
    requires DigestLength32(sha256)
    ensures HrAddress(sha256, prefix) != Err(PrefixChanged)
  {
    if AllSymbols(prefix) {
      var ps := Values(prefix).value;
      var k := LeadingCount(ps, 0);
      var q := BEValue(ps[k..], 58);
      DecodedMidpoint(prefix, ps, k, q);
      var bin := Decode(prefix + Midpoint).value;
      if |bin| == 25 && bin[0] == 0 {
        AddressKeepsPrefix(sha256, prefix, ps, k, q, bin);
      }
    }
  }

  /**
   * For a prefix of Base58 symbols, hr_address can fail only because
   * prefix + 'W11111' decodes to the wrong length or version.
   */
  lemma SymbolPrefixFailures(sha256: Hash, prefix: string)
    requires DigestLength32(sha256) && AllSymbols(prefix)
    ensures HrAddress(sha256, prefix).Err? ==>
              HrAddress(sha256, prefix).error.DecodedLength? || HrAddress(sha256, prefix).error.NonZeroVersion?
  {
    PrefixKept(sha256, prefix);
  }

  /** A chunk of a lower-case hex digest is made of lower-case hex digits. */
  lemma ChunkHexDigits(hexdigest: string, i: nat)
    requires i < |hexdigest| / 16 && forall j :: 0 <= j < |hexdigest| ==> IsHexDigit(hexdigest[j])
    ensures forall j :: 0 <= j < |Chunk(hexdigest, i)| ==> IsHexDigit(Chunk(hexdigest, i)[j])
  {
    var chunk := Chunk(hexdigest, i);
    assert forall j :: 0 <= j < |chunk| ==> chunk[j] == hexdigest[i * 16 + j];
  }

  /**
   * For a 6-symbol algorithm name and a lower-case hex digest shorter than
   * 256 characters (a SHA-256 digest has 64), hash_to_hr_addresses can fail
   * only because some prefix + 'W11111' decodes to the wrong length or
   * version: never on a character, never on a changed prefix.
   */
  lemma HexDigestFailures(sha256: Hash, algorithm: string, hexdigest: string)
    requires DigestLength32(sha256) && |algorithm| == 6 && AllSymbols(algorithm)
    requires |hexdigest| < 256 && forall i :: 0 <= i < |hexdigest| ==> IsHexDigit(hexdigest[i])
    ensures HashToHrAddresses(sha256, algorithm, hexdigest).Err? ==>
              HashToHrAddresses(sha256, algorithm, hexdigest).error.DecodedLength?
              || HashToHrAddresses(sha256, algorithm, hexdigest).error.NonZeroVersion?
  {
    var r := HashToHrAddresses(sha256, algorithm, hexdigest);
    if r.Err? {
      HashToHrAddressesFailure(sha256, algorithm, hexdigest);
      var i :| 0 <= i < |hexdigest| / 16
               && HrAddress(sha256, ChunkPrefix(algorithm, i + 1, Chunk(hexdigest, i))) == Err(r.error);
      ChunkHexDigits(hexdigest, i);
      ChunkPrefixSymbols(algorithm, i + 1, Chunk(hexdigest, i));
      SymbolPrefixFailures(sha256, ChunkPrefix(algorithm, i + 1, Chunk(hexdigest, i)));
    }
  }
}

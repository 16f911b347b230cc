/**
 * The address builders of src/bitcoin.py: ripemd160_to_address, which wraps
 * a 20-byte digest into a 25-byte checksummed address, hr_address, which
 * turns a Base58 prefix into an address that starts with it, and
 * hash_to_hr_addresses, which spells a hex digest as a list of such
 * addresses. SHA-256 is a parameter of the model: the model relies on nothing but
 * the length of its digests.
 */
module Address {
  import opened Errors
  import opened Base58

  /** A hash of byte strings, standing for `hashlib.sha256(m).digest()`. */
  type Hash = seq<Byte> -> seq<Byte>

  /** Every digest of sha256 has 32 bytes. */
  ghost predicate DigestLength32(sha256: Hash) {
    forall m :: |sha256(m)| == 32
  }

  /** The first 4 bytes of SHA-256(SHA-256(payload)). */
  function Checksum(sha256: Hash, payload: seq<Byte>): (r: seq<Byte>)
    requires DigestLength32(sha256)
    ensures |r| == 4
  {
    sha256(sha256(payload))[..4]
  }

  /**
   * A well-formed address: 25 bytes, version byte 0x00, and the last 4 bytes
   * the checksum of the first 21.
   */
  predicate IsAddress(sha256: Hash, a: seq<Byte>)
    requires DigestLength32(sha256)
  {
    |a| == 25 && a[0] == 0 && a[21..] == Checksum(sha256, a[..21])
  }

  /**
   * ripemd160_to_address: version byte, digest, checksum. A digest of any
   * length other than 160 / 8 = 20 bytes fails the source's assert.
   */
  function RipemdToAddress(sha256: Hash, digest: seq<Byte>): (r: Result<seq<Byte>>)
    requires DigestLength32(sha256)
    ensures r.Ok? <==> |digest| == 20
    ensures r.Err? ==> r.error == InvalidLength(|digest|)
    ensures r.Ok? ==> IsAddress(sha256, r.value) && r.value[1..21] == digest
  {
    if |digest| != 20 then Err(InvalidLength(|digest|))
    else
      var versioned := [0] + digest;
      Ok(versioned + Checksum(sha256, versioned))
  }

  /**
   * Every well-formed address is the one ripemd160_to_address builds from
   * its own digest bytes, so the builder is a bijection between 20-byte
   * digests and well-formed addresses.
   */
  lemma AddressOfDigest(sha256: Hash, a: seq<Byte>)
    requires DigestLength32(sha256) && IsAddress(sha256, a)
    ensures RipemdToAddress(sha256, a[1..21]) == Ok(a)
  {
    assert [0] + a[1..21] == a[..21];
    assert a == a[..21] + a[21..];
  }

  /** Distinct digests give distinct addresses. */
  lemma AddressInjective(sha256: Hash, d1: seq<Byte>, d2: seq<Byte>)
    requires DigestLength32(sha256)
    requires RipemdToAddress(sha256, d1).Ok? && RipemdToAddress(sha256, d2).Ok?
    requires RipemdToAddress(sha256, d1) == RipemdToAddress(sha256, d2)
    ensures d1 == d2
  {
  }

  /** The six symbols hr_address appends to a prefix: 'W' (digit 29 = 58 / 2) and five '1's (zeros). */
  const Midpoint: string := "W11111"

  /** The characters of prefix + 'W11111' are all symbols exactly when those of prefix are. */
  lemma MidpointSymbols(prefix: string)
    ensures AllSymbols(prefix + Midpoint) <==> AllSymbols(prefix)
  {
    var t := prefix + Midpoint;
    if AllSymbols(prefix) {
      forall i | 0 <= i < |t| ensures IsSymbol(t[i]) {
        if i < |prefix| {
          assert t[i] == prefix[i];
        }
      }
    }
    if AllSymbols(t) {
      forall i | 0 <= i < |prefix| ensures IsSymbol(prefix[i]) {
        assert t[i] == prefix[i];
      }
    }
  }

  /**
   * hr_address: decode prefix + 'W11111', keep its first 21 bytes, put the
   * real checksum in place of the last 4 and encode again. Each of the
   * source's three asserts is a checked failure: the decoded bytes are not 25
   * (DecodedLength), their version byte is not 0 (NonZeroVersion), or the
   * address does not start with the prefix (PrefixChanged); a character of
   * the prefix outside the alphabet fails the decoding (InvalidSymbol).
   */
  function HrAddress(sha256: Hash, prefix: string): (r: Result<string>)
    requires DigestLength32(sha256)
    ensures r.Err? && r.error.InvalidSymbol? <==> !AllSymbols(prefix)
  {
    MidpointSymbols(prefix);
    match Decode(prefix + Midpoint)
    case Err(e) => Err(e)
    case Ok(bin) =>
      if |bin| != 25 then Err(DecodedLength(|bin|))
      else if bin[0] != 0 then Err(NonZeroVersion(bin[0]))
      else
        var address := Encode(RipemdToAddress(sha256, bin[1..21]).value);
        if prefix <= address then Ok(address) else Err(PrefixChanged)
  }

  /**
   * What hr_address returns is a Base58 address in the full sense: it starts
   * with the prefix and decodes to a well-formed address whose first 21
   * bytes are those of the decoded prefix + 'W11111'.
   */
  lemma HrAddressSound(sha256: Hash, prefix: string)
    requires DigestLength32(sha256) && HrAddress(sha256, prefix).Ok?
    ensures prefix <= HrAddress(sha256, prefix).value
    ensures Decode(HrAddress(sha256, prefix).value).Ok?
    ensures IsAddress(sha256, Decode(HrAddress(sha256, prefix).value).value)
    ensures Decode(HrAddress(sha256, prefix).value).value[..21]
         == Decode(prefix + Midpoint).value[..21]
  {
    var bin := Decode(prefix + Midpoint).value;
    var a := RipemdToAddress(sha256, bin[1..21]).value;
    DecodeEncode(a);
    assert a[..21] == [0] + bin[1..21];
  }

  /** The lower-case hexadecimal digit of d. */
  function HexDigit(d: nat): char
    requires d < 16
  {
    if d < 10 then ('0' as int + d) as char else ('a' as int + (d - 10)) as char
  }

  /** A lower-case hexadecimal digit. */
  predicate IsHexDigit(c: char) {
    ('0' <= c <= '9') || ('a' <= c <= 'f')
  }

  /** The value of a lower-case hexadecimal digit. */
  function HexDigitValue(c: char): (v: nat)
    requires IsHexDigit(c)
    ensures v < 16
  {
    if c <= '9' then c as int - '0' as int else c as int - 'a' as int + 10
  }

  /** The number a string of lower-case hexadecimal digits denotes, most significant first. */
  function HexValue(r: string): nat
    requires forall i :: 0 <= i < |r| ==> IsHexDigit(r[i])
  {
    if r == [] then 0 else HexValue(r[..|r| - 1]) * 16 + HexDigitValue(r[|r| - 1])
  }

  /** '%x' % n: n in lower-case hexadecimal, without leading zeros ("0" for zero). */
  function Hex(n: nat): (r: string)
    ensures |r| >= 1
    ensures forall i :: 0 <= i < |r| ==> IsHexDigit(r[i])
    ensures |r| > 1 ==> r[0] != '0'
    ensures n < 16 <==> |r| == 1
  {
    if n < 16 then [HexDigit(n)] else Hex(n / 16) + [HexDigit(n % 16)]
  }

  /** '%x' writes n: its digits, read back in base 16, denote n. */
  lemma {:induction false} HexDenotes(n: nat)
    ensures HexValue(Hex(n)) == n
  {
    var r := Hex(n);
    if n >= 16 {
      HexDenotes(n / 16);
      assert r[..|r| - 1] == Hex(n / 16);
    }
  }

  /**
   * s.replace('0', 'o'): every character but '0' is kept, and the '0's,
   * the one hexadecimal digit outside the Base58 alphabet, become the symbol
   * 'o', so a chunk of hex digits becomes a string of symbols.
   */
  function ReplaceZeros(s: string): (r: string)
    ensures |r| == |s|
    ensures forall i :: 0 <= i < |s| && s[i] != '0' ==> r[i] == s[i]
    ensures forall i :: 0 <= i < |r| ==> r[i] != '0'
    ensures forall i :: 0 <= i < |s| && IsHexDigit(s[i]) ==> IsSymbol(r[i])
  {
    seq(|s|, i requires 0 <= i < |s| => if s[i] == '0' then 'o' else s[i])
  }

  /** The prefix of chunk number n: '1%sx%xx%sx' % (algorithm, n, chunk with '0' as 'o'). */
  function ChunkPrefix(algorithm: string, n: nat, chunk: string): string {
    "1" + algorithm + "x" + Hex(n) + "x" + ReplaceZeros(chunk) + "x"
  }

  /** hexdigest[i*16:(i+1)*16] for a chunk index i < len(hexdigest) / 16. */
  function Chunk(hexdigest: string, i: nat): string
    requires i < |hexdigest| / 16
  {
    hexdigest[i * 16..(i + 1) * 16]
  }

  /**
   * The outcome of a list comprehension whose element computations may
   * raise: all the values in order, or the failure of the first element
   * that fails.
   */
  function Collect<T>(rs: seq<Result<T>>): (r: Result<seq<T>>)
    ensures r.Ok? ==> |r.value| == |rs| && forall i :: 0 <= i < |rs| ==> rs[i] == Ok(r.value[i])
    ensures r.Err? ==> exists i :: 0 <= i < |rs| && rs[i] == Err(r.error)
                        && forall j :: 0 <= j < i ==> rs[j].Ok?
  {
    if rs == [] then Ok([])
    else
      assert forall i :: 1 <= i < |rs| ==> rs[1..][i - 1] == rs[i];
      match rs[0]
      case Err(e) => Err(e)
      case Ok(a) =>
        match Collect(rs[1..])
        case Err(e) => Err(e)
        case Ok(rest) => Ok([a] + rest)
  }

  /**
   * hash_to_hr_addresses: an algorithm name of any length but 6 fails the
   * source's assert; otherwise one address for each whole 16-character chunk
   * of the digest, in order (a trailing partial chunk is ignored).
   */
  function HashToHrAddresses(sha256: Hash, algorithm: string, hexdigest: string): (r: Result<seq<string>>)
    requires DigestLength32(sha256)
    ensures |algorithm| != 6 ==> r == Err(AlgorithmLength(|algorithm|))
    ensures r.Ok? ==> |algorithm| == 6 && |r.value| == |hexdigest| / 16
    ensures r.Ok? ==> forall i :: 0 <= i < |r.value| ==>
                        HrAddress(sha256, ChunkPrefix(algorithm, i + 1, Chunk(hexdigest, i))) == Ok(r.value[i])
  {
    if |algorithm| != 6 then Err(AlgorithmLength(|algorithm|))
    else Collect(ChunkAddresses(sha256, algorithm, hexdigest))
  }

  /** hr_address of the prefix of each whole chunk, in chunk order. */
  function ChunkAddresses(sha256: Hash, algorithm: string, hexdigest: string): (r: seq<Result<string>>)
    requires DigestLength32(sha256)
    ensures |r| == |hexdigest| / 16
    ensures forall i :: 0 <= i < |r| ==> r[i] == HrAddress(sha256, ChunkPrefix(algorithm, i + 1, Chunk(hexdigest, i)))
  {
    seq(|hexdigest| / 16, i requires 0 <= i < |hexdigest| / 16 =>
      HrAddress(sha256, ChunkPrefix(algorithm, i + 1, Chunk(hexdigest, i))))
  }

  /**
   * When hash_to_hr_addresses fails on a well-sized algorithm name, the
   * failure is that of the first chunk whose hr_address fails; all chunks
   * before it succeed.
   */
  lemma HashToHrAddressesFailure(sha256: Hash, algorithm: string, hexdigest: string)
    requires DigestLength32(sha256) && |algorithm| == 6
    requires HashToHrAddresses(sha256, algorithm, hexdigest).Err?
    ensures exists i :: 0 <= i < |hexdigest| / 16
              && HrAddress(sha256, ChunkPrefix(algorithm, i + 1, Chunk(hexdigest, i)))
                 == Err(HashToHrAddresses(sha256, algorithm, hexdigest).error)
              && forall j :: 0 <= j < i ==> HrAddress(sha256, ChunkPrefix(algorithm, j + 1, Chunk(hexdigest, j))).Ok?
  {
    var rs := ChunkAddresses(sha256, algorithm, hexdigest);
    var e := Collect(rs).error;
    var i :| 0 <= i < |rs| && rs[i] == Err(e) && forall j :: 0 <= j < i ==> rs[j].Ok?;
    assert HrAddress(sha256, ChunkPrefix(algorithm, i + 1, Chunk(hexdigest, i))) == Err(e);
  }

  /**
   * Up to chunk number 15 the prefix of a chunk of lower-case hex digits is
   * made of Base58 symbols whenever the algorithm name is, so its hr_address
   * cannot fail on a character outside the alphabet: the only '0's, those of
   * the chunk, are replaced by 'o'.
   */
  lemma ChunkPrefixSymbols(algorithm: string, n: nat, chunk: string)
    requires AllSymbols(algorithm) && 1 <= n < 16
    requires forall i :: 0 <= i < |chunk| ==> IsHexDigit(chunk[i])
    ensures AllSymbols(ChunkPrefix(algorithm, n, chunk))
  {
    var h, z := Hex(n), ReplaceZeros(chunk);
    assert h == [HexDigit(n)];
    var t := ChunkPrefix(algorithm, n, chunk);
    assert t == ("1" + algorithm + "x") + h + "x" + z + "x";
    forall i | 0 <= i < |t| ensures IsSymbol(t[i]) {
      if i == 0 {
      } else if i < |algorithm| + 1 {
        assert t[i] == algorithm[i - 1];
      } else if i == |algorithm| + 1 {
      } else if i == |algorithm| + 2 {
        assert t[i] == h[0];
      } else if i == |algorithm| + 3 {
      } else if i < |algorithm| + 4 + |chunk| {
        assert t[i] == z[i - |algorithm| - 4];
      }
    }
  }

  /**
   * For chunk number 16, '%x' writes "10", whose '0' the replacement does
   * not reach, so the prefix holds a character outside the alphabet.
   */
  lemma SixteenthChunk(algorithm: string, chunk: string)
    ensures !AllSymbols(ChunkPrefix(algorithm, 16, chunk))
  {
    assert Hex(16) == Hex(1) + [HexDigit(0)];
    var t := ChunkPrefix(algorithm, 16, chunk);
    assert t[|algorithm| + 3] == '0';
  }

  /**
   * A hex digest of 256 or more characters has a sixteenth chunk, whose
   * hr_address fails on the '0' of its number, so hash_to_hr_addresses
   * fails as a whole.
   */
  lemma LongDigestFails(sha256: Hash, algorithm: string, hexdigest: string)
    requires DigestLength32(sha256) && |algorithm| == 6 && |hexdigest| >= 256
    ensures HashToHrAddresses(sha256, algorithm, hexdigest).Err?
  {
    var prefix := ChunkPrefix(algorithm, 16, Chunk(hexdigest, 15));
    SixteenthChunk(algorithm, Chunk(hexdigest, 15));
    assert HrAddress(sha256, prefix).Err?;
    assert ChunkAddresses(sha256, algorithm, hexdigest)[15].Err?;
  }
}

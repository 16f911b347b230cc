# Base58 codec and human-readable addresses of bitcoinproof, in Dafny

This project models `src/bitcoin.py`, the self-contained Bitcoin Base58 module. The module has four layers, and the model follows them:

- **Digit-base conversion** (`convert.dfy`, specified in `digits.dfy`). `convert_base_reversed`, `convert_base` and `convert_base_fast` are methods with the source's loops. `convert_base` and `convert_base_fast` are proved to return the canonical digits `ToDigits(BEValue(input, base), newBase)`: the same number, every digit below the new base, and no leading zero. `convert_base_reversed` returns the same digits little-endian: its result, reversed, is `ToDigits(...)`.
- **Base58 codec** (`base58.dfy`, `codec.dfy`). The alphabet table and its inverse are in `base58.dfy`. The specification functions `Encode` and `Decode` carry the round-trip and leading-zero lemmas. `b58encode`, `b58decode` and the `_nolong` variants are methods, each proved equal to `Encode` or `Decode`. The two implementations therefore agree on every input.
- **Checksummed addresses** (`address.dfy`). `ripemd160_to_address` builds 25 bytes: version 0, the digest, and a checksum. SHA-256 is a function parameter whose digests have 32 bytes.
- **Human-readable addresses** (`address.dfy`, `midpoint.dfy`). `hr_address` and `hash_to_hr_addresses` are modelled with each of their asserts as a checked failure (`errors.dfy`).
  - `midpoint.dfy` proves the design claim behind `'W11111'` (lines 124-126): the last assert of `hr_address`, the one about the prefix, never fails. `'W11111'` stands for 29·58⁵. Swapping in the checksum moves the number by less than 2³² either way, and 29·58⁵ ± 2³² stays inside [0, 58⁶). So the six low base-58 places absorb the change and the prefix's symbols survive.
  - For chunk number 16, `'%x'` writes "10", so the prefix built by `hash_to_hr_addresses` contains a '0', which is not a Base58 symbol (`Address.SixteenthChunk`). A hex digest of 256 or more characters has such a chunk, so `hash_to_hr_addresses` fails on it (`Address.LongDigestFails`). Shorter digests never reach that chunk: for a lower-case hex digest and an algorithm name of 6 Base58 symbols, `Midpoint.HexDigestFailures` shows they can fail only on the decoded length or version byte. A SHA-256 hex digest has 64 characters, so this is not a defect in the intended use.

Bytes are `Byte = x: nat | x < 256`. Python 2 byte strings are `seq<Byte>`, Base58 strings are `string`, and digit lists are `seq<nat>`. Python's unbounded `long` and `int` are Dafny's `int`/`nat`.

## Model

| member | source | states |
|---|---|---|
| Digits.ToDigits | src/bitcoin.py:56 | the canonical representation: every digit below the base, and no leading zero, so zero is `[]` |
| Digits.ToDigitsValue | src/bitcoin.py:54-73 | the canonical digits of n denote n |
| Digits.ToDigitsUnique | src/bitcoin.py:56-73 | a digit sequence without a leading zero is the canonical digits of its own value, so the minimal representation is unique |
| Digits.StripLeadingZeros | src/bitcoin.py:90-92 | converting digits to their number and back drops exactly their leading zeros |
| Digits.LeadingCount | src/bitcoin.py:96 | the `next(...)` padding count: the first r elements equal z and the next one, if any, does not |
| Digits.Reverse | src/bitcoin.py:72 | `result.reverse()`: same length, element i of the result is element len-1-i of the input |
| Digits.ReverseValue | src/bitcoin.py:72 | reversing turns the little-endian value into the big-endian value |
| Digits.FixedDigitsValue | src/bitcoin.py:124-126 | a number below base^m written as exactly m digits keeps its value |
| Convert.Sweep | src/bitcoin.py:61-62 | the in-place sweep `carry, result[i] = divmod(...)`: the digits stay below new_base, and digits plus carry out equal acc·base + d; with no carry out the top digit stays non-zero |
| Convert.PeelCarry | src/bitcoin.py:63-65 | the `while carry > 0` loop adds the carry at weight new_base^len and ends with a non-zero top digit |
| Convert.MulAddDigit | src/bitcoin.py:59-65 | one outer step turns the canonical little-endian digits of v into those of v·base + d |
| Convert.ConvertBaseReversed | src/bitcoin.py:54-66 | the little-endian result denotes the big-endian input and has no zero top digit (`[]` for a zero-valued input); reversed, it is the canonical representation |
| Convert.ConvertBase | src/bitcoin.py:68-73 | the big-endian result is exactly `ToDigits(value of input, new_base)`: same value, no leading zero |
| Convert.ConvertRoundTrip | src/bitcoin.py:68-73 | converting to another base and back recovers the input without its leading zeros |
| Convert.PaddedLength | src/bitcoin.py:77-78 | padding with `(-len) % g` zeros makes the length a multiple of g |
| Convert.PackGroup | src/bitcoin.py:81-83 | the inner packing loop reads g digits as one number |
| Convert.GroupDigits | src/bitcoin.py:79-84 | the packing loop yields len/g super-digits below base^g that denote the same number |
| Convert.UnpackGroup | src/bitcoin.py:87-89 | a super-digit below new_base^h becomes h digits of new_base worth the super-digit at their weight |
| Convert.UngroupDigits | src/bitcoin.py:85-89 | the unpacking loop yields digits of new_base denoting the same little-endian number |
| Convert.ConvertBaseFast | src/bitcoin.py:75-92 | for all group sizes >= 1, including empty input, the result equals that of convert_base: the canonical digits of the input's value |
| Base58.AlphabetIncreasing | src/bitcoin.py:21 | the table has 58 strictly increasing, hence distinct, symbols; '1' is digit 0 and 'W' is digit 29 |
| Base58.SymbolMembership | src/bitcoin.py:21 | a character is in the table exactly when it is in one of the six ranges 1-9, A-H, J-N, P-Z, a-k, m-z |
| Base58.B58Value | src/bitcoin.py:22 | the `b58values` lookup succeeds exactly on table symbols and returns the index of the symbol; any other character raises |
| Base58.ValueOfSymbol | src/bitcoin.py:21-22 | `b58values` inverts `b58digits`: the value of digit v's symbol is v |
| Base58.SymbolDigit | src/bitcoin.py:21 | distinct digits have distinct symbols |
| Base58.Values | src/bitcoin.py:42 | the digits of a string of symbols, one per character; otherwise a failure naming a non-symbol of the string |
| Base58.ValuesFirstInvalid | src/bitcoin.py:41-42 | the failure names the first character outside the alphabet, where the loop raises |
| Base58.ValuesOfSymbols | src/bitcoin.py:21-22 | looking up the symbols of digits gives back those digits |
| Base58.Decode | src/bitcoin.py:39-52 | b58decode succeeds exactly on strings of symbols and otherwise fails on a non-symbol |
| Base58.EncodeSymbols | src/bitcoin.py:24-37 | every character of an encoding is a Base58 symbol |
| Base58.EncodeLeadingOnes | src/bitcoin.py:29-36 | an encoding begins with exactly as many '1's as the input has leading zero bytes |
| Base58.DecodeLeadingZeros | src/bitcoin.py:44-51 | decoding begins with exactly as many zero bytes as the string has leading '1's |
| Base58.LeadingZeroDigits | src/bitcoin.py:47-51 | the leading '1's of a string are its leading zero digits |
| Base58.DecodedBytes | src/bitcoin.py:39-52 | the decoded bytes keep the leading '1' count and denote the string's number |
| Base58.CanonicalSymbols | src/bitcoin.py:29-31 | the numeric part of an encoding is the string without its leading '1's |
| Base58.DecodeEncode | src/bitcoin.py:24-52 | `b58decode(b58encode(s)) == s` for every byte string, including '' and all-zero strings |
| Base58.EncodeDecode | src/bitcoin.py:24-52 | every string b58decode accepts is the encoding of its decoding, so the codec is a bijection |
| Codec.B58Encode | src/bitcoin.py:24-37 | the three loops of b58encode compute Encode |
| Codec.BytesValue | src/bitcoin.py:25-27 | the first loop of b58encode computes the number the bytes denote, most significant first |
| Codec.NumberSymbols | src/bitcoin.py:28-31 | the divmod loop of b58encode writes the symbols of the number's canonical base-58 digits |
| Codec.PrependLeading | src/bitcoin.py:32-36 | the last loop of b58encode and b58decode puts one pad in front for each leading zero (or '1') and stops at the first other element |
| Base58.EncodedDigits | src/bitcoin.py:24-37 | an encoding is made of symbols, its digits are one zero per leading zero byte followed by the number's canonical digits, and its leading '1's match the zero bytes |
| Base58.BytesOfNumber | src/bitcoin.py:43-51 | a byte string is its leading zeros followed by the canonical bytes of its number, which is what b58decode rebuilds |
| Codec.SymbolsValue | src/bitcoin.py:40-42 | the first loop of b58decode computes the string's number, or fails at the first non-symbol |
| Codec.NumberBytes | src/bitcoin.py:43-46 | the divmod loop writes the canonical bytes of the number |
| Codec.B58Decode | src/bitcoin.py:39-52 | b58decode computes Decode, failure included |
| Codec.B58EncodeNoLong | src/bitcoin.py:94-98 | b58encode_nolong returns the same as b58encode on every input |
| Codec.B58DecodeNoLong | src/bitcoin.py:100-104 | b58decode_nolong returns the same as b58decode on every input, failure included |
| Address.Checksum | src/bitcoin.py:110 | the checksum is 4 bytes long |
| Address.RipemdToAddress | src/bitcoin.py:106-111 | succeeds exactly on 20-byte digests; the result is 25 bytes with version 0, the digest at bytes 1..20 and the checksum of the first 21 bytes; any other length fails the assert |
| Address.AddressOfDigest | src/bitcoin.py:106-111 | every well-formed address is the one built from its own digest bytes |
| Address.AddressInjective | src/bitcoin.py:106-111 | distinct digests give distinct addresses |
| Address.MidpointSymbols | src/bitcoin.py:127 | prefix + 'W11111' is made of symbols exactly when the prefix is |
| Address.HrAddress | src/bitcoin.py:122-132 | fails with InvalidSymbol (the KeyError of b58decode) exactly when the prefix holds a character outside the alphabet |
| Address.HrAddressSound | src/bitcoin.py:127-132 | a returned address starts with the prefix and decodes to a well-formed address sharing its first 21 bytes with the decoded prefix + 'W11111' |
| Address.Hex | src/bitcoin.py:138 | `'%x'`: non-empty lower-case hex digits with no leading '0', one digit exactly below 16 |
| Address.HexDenotes | src/bitcoin.py:138 | the digits `'%x'` writes for n, read back in base 16, denote n |
| Address.ReplaceZeros | src/bitcoin.py:138 | `.replace('0', 'o')` keeps the length and every other character and leaves no '0', so every hex digit of a chunk becomes a Base58 symbol |
| Address.Collect | src/bitcoin.py:137-140 | the list comprehension: all values in order, or the failure of the first element that fails |
| Address.HashToHrAddresses | src/bitcoin.py:134-140 | an algorithm name of length other than 6 fails the assert; otherwise len/16 addresses, address i being hr_address of chunk i's prefix |
| Address.HashToHrAddressesFailure | src/bitcoin.py:137-140 | a failure is that of the first chunk whose hr_address fails, after chunks that all succeed |
| Address.ChunkPrefixSymbols | src/bitcoin.py:138 | for chunk numbers 1..15, hex chunks and a symbol-only algorithm name, the prefix is all Base58 symbols |
| Address.SixteenthChunk | src/bitcoin.py:138 | the prefix of chunk number 16 contains the '0' of "10" and so a non-symbol |
| Address.LongDigestFails | src/bitcoin.py:134-140 | with a 6-character algorithm name, a hex digest of 256 or more characters makes hash_to_hr_addresses fail |
| Midpoint.Constants | src/bitcoin.py:124-126 | the magnitudes the midpoint argument compares: 'W11111' denotes 29·58⁵ = 19034346272, which lies between 2³² = 4294967296 and 58⁶ − 2³², with 58⁶ = 38068692544 |
| Midpoint.MidpointDigits | src/bitcoin.py:127 | the digits of prefix + 'W11111' are the prefix's digits, then 29 and five zeros |
| Midpoint.DecodedMidpoint | src/bitcoin.py:127 | decoding prefix + 'W11111' gives the prefix's leading zeros, then the bytes of q·58⁶ + 29·58⁵ |
| Midpoint.MidpointBytes | src/bitcoin.py:127-128 | with 25 decoded bytes, at most 20 are leading zeros and the bytes denote the decoded number |
| Midpoint.ChecksumSwap | src/bitcoin.py:130 | rebuilding the address keeps the first 21 bytes and changes the number only below 2³² |
| Midpoint.ShiftedDigits | src/bitcoin.py:124-126 | any value below 58⁶ added under a canonical prefix shifted six places leaves the prefix's digits on top |
| Midpoint.PrefixOfEncoding | src/bitcoin.py:130-131 | encoding bytes with the prefix's leading zeros and number q·58⁶ + l, for l < 58⁶, starts with the prefix |
| Midpoint.AddressKeepsPrefix | src/bitcoin.py:127-131 | the re-encoded address of 25 version-0 decoded bytes starts with the prefix |
| Midpoint.PrefixKept | src/bitcoin.py:124-131 | hr_address never fails its startswith assert: the midpoint absorbs the checksum swap for every prefix and every SHA-256 |
| Midpoint.SymbolPrefixFailures | src/bitcoin.py:122-132 | for a prefix of symbols, hr_address can fail only on the decoded length or version byte |
| Midpoint.HexDigestFailures | src/bitcoin.py:134-140 | for a 6-symbol algorithm and a lower-case hex digest under 256 characters, hash_to_hr_addresses fails only on a decoded length or version byte |

## Left out

- `sha256_to_address`, `publickey_to_address` and `sha256_to_hr_addresses` (src/bitcoin.py:113-120, 142-144) are not modelled. They only compose the hash wrappers with a length assert.
- `hashlib.sha256` is a parameter `sha256` that returns 32 bytes, and the model relies on nothing else about it. RIPEMD-160 only appears in the left-out wrappers.
- Python 2's split between `int` and `long`, and the performance reason for grouping, are not modelled. All integers are unbounded.
- `'%x'` and `'%s'` formatting are modelled as the `Hex` function and plain concatenation.
- Exceptions are `Err` values of the `Error` datatype: KeyError from `b58values`, and AssertionError from the asserts. Python's option to disable asserts (`-O`) is not modelled.
- `result[i] = ...` in `convert_base_reversed` and `result.reverse()` update Python lists in place. The model reassigns local `seq` variables instead. The lists are never shared, so there is no aliasing to capture.
- `b58decode_nolong` computes its padding before the lookups that may raise, and `Codec.B58DecodeNoLong` keeps that order. It is proved equal to `Base58.Decode`, which looks up first. Neither step has side effects, so the order does not change the result.
- Convert.ConvertBaseReversed, Convert.ConvertBase: require base >= 2, new_base >= 2 and every digit below base. The source does not check these. With new_base 1 its `while carry > 0` loop never ends, and out-of-range digits are outside the conversion's meaning.
- Convert.ConvertBaseFast: requires group sizes >= 1. With base_group_size 0, `(-len(input)) % 0` at line 77 raises ZeroDivisionError. With new_base_group_size 0, line 86 passes `new_base**0 == 1` as the new base, and `convert_base_reversed` then never leaves its `while carry > 0` loop for an input of non-zero value (it returns [] for a zero-valued input). The model covers neither case.
- Address.HrAddress: which prefixes decode to exactly 25 bytes with version byte 0 is not characterized. The length and version failures are modelled as the source's asserts and are not predicted from the prefix.

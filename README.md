# Hex codec of common-utils, modelled in Dafny

This project models ZeroTier's `hex` module (`src/hex.rs`). The module turns byte slices into lowercase hexadecimal text and back. It also turns 64-bit values into hexadecimal text and back.

- `to_string` and `to_hex_bytes` write two digits per byte, high nibble first, from the table `HEX_CHARS` (`0-9a-f`).
- `from_string` scans text byte by byte:
  - it ignores every byte that is not one of `0-9`, `A-F`, `a-f`;
  - it shifts each digit into a pending `u8`;
  - it pushes that byte after every second digit.
- `from_string_u64` runs the same scan. It folds each completed byte into a `u64` with `n = (n << 8) | byte`, which wraps.
- `to_string_u64` and `to_vec_u64` emit the sixteen nibbles of a `u64`, most significant first. They can skip the leading zeroes.

Modules:
- `Bits` holds the fixed-width integers (`u8`, `u64` as subset types of `int`) and the bit operations written out over integers:
  - `|` is a recursive bitwise OR;
  - `wrapping_shl` is a multiplication reduced modulo the width;
  - `>> 4` and `>> 60` are divisions;
  - `& 0xf` is `% 16`.
- `Hex` holds one method per operation, with the source's loop. Each method is proved equal to a specification function:
  - `Encoding` for the bytes-to-text direction;
  - `Decoding` for `from_string`;
  - `U64Text` for the two `u64` encoders;
  - `DecodingU64` for `from_string_u64`.

  The lemmas then state what those functions mean: round trips, filtering, case insensitivity, lengths, the digit at each position, and the stripping of leading zeroes. The three identical branches of each scan loop are one step method, called with the digit's value.
- `HexExamples` states the cases of the module's unit tests as lemmas about the model, plus one method that runs `ToHexBytes` on an array.

Text is modelled as its bytes, `seq<Byte>`:
- the decoders read their input with `as_bytes()`;
- the encoders emit only ASCII, whose bytes are the character codes.

This is why `to_string_u64` and `to_vec_u64` share one specification, `U64Text`.

`HexExamples.FromString400` shows one behaviour of the model. With leading zeroes skipped, the text of a value can have an odd number of digits. Decoding that text drops the last digit, so `from_string_u64("400")` is `0x40`. No unit test decodes a skipped-zero text with an odd number of digits. The one round trip in that mode that the tests check, `"ff"` and 255, has two digits. The round trip holds for every value in full-width text (`Hex.DecodingU64FullWidth`), which always has sixteen digits.

## Model

| member | source | states |
|---|---|---|
| Hex.TableDigit | src/hex.rs:9-11 | digit `v` of the table is `'0'+v` below 10 and `'a'+v-10` from 10 on |
| Hex.IsHexDigit | src/hex.rs:32-44 | the three range tests `48..=57`, `65..=70` and `97..=102` that make a byte a digit |
| Hex.HexDigitAlphabet | src/hex.rs:32-44 | a byte passes the range tests exactly when its ASCII lowercase form is in `HEX_CHARS` |
| Hex.NibbleValue | src/hex.rs:33-45 | the value `c - 48`, `c - 55` or `c - 87` of an accepted digit: the digit's ASCII lowercase form is the table digit of that value |
| Bits.Or | src/hex.rs:33 | the bitwise OR of `u8` and `u64` values (lines 33 and 78): at least each operand and at most their sum |
| Hex.EmittedDigitValue | src/hex.rs:9-11 | digit `v` of the table is `'0'+v` below 10 and `'a'+v-10` above. The decoders accept it back with value `v`. Only nibble 0 gives `'0'`, and no digit is uppercase |
| Hex.Encoding | src/hex.rs:14-23 | what `to_string` returns: the output has twice as many bytes as the input |
| Hex.ToString | src/hex.rs:14-23 | the loop that pushes `HEX_CHARS[x >> 4]` then `HEX_CHARS[x & 0xf]` for each byte returns exactly `Encoding(b)` |
| Hex.EncodingAt | src/hex.rs:17-21 | the output has length `2 * b.len()`. Characters `2k` and `2k+1` are the table digits of the high and low nibble of byte `k` |
| Hex.EncodingAlphabet | src/hex.rs:9-23 | every character of the output is in `HEX_CHARS` and none is an uppercase `A-F` |
| Hex.ToHexBytes | src/hex.rs:113-124 | given a destination of at least `2 * b.len()` bytes, it returns `2 * b.len()`. It writes the two digits of every byte into the prefix and leaves the rest of `dest` unchanged |
| Bits.U8Shl4 | src/hex.rs:33 | `byte.wrapping_shl(4)` drops the high nibble and moves the low nibble up (`(x % 16) * 16`) |
| Bits.OrShifted | src/hex.rs:33 | OR-ing a value below 2^w into a multiple of 2^w adds it |
| Bits.ShiftOrNibble | src/hex.rs:33 | shifting `byte` left by 4 and OR-ing in a digit value `v`, on `u8`, is `16 * (byte % 16) + v` |
| Hex.ShiftInNibble | src/hex.rs:33 | shifting a digit into the pending byte gives `16 * (byte % 16) + v` |
| Hex.ScanStep | src/hex.rs:32-37 | one digit keeps the scan in step with the digit sequence: the pushed bytes are the packed pairs, and the flag says whether a digit is pending |
| Hex.ScanByte | src/hex.rs:30-51 | each of the three digit ranges maps to its value (`c-48`, `c-55`, `c-87`). Every other byte leaves the state unchanged |
| Hex.Decoding | src/hex.rs:26-53 | what `from_string` returns: one byte for every two digits scanned |
| Hex.HexDigitsValues | src/hex.rs:30-51 | digit `k` of the scan is the value of the `k`-th accepted digit of the input |
| Hex.FromString | src/hex.rs:26-53 | the scan returns exactly `Decoding(s)`, the digit values of `s` packed in pairs, high nibble first |
| Hex.DecodeEncode | src/hex.rs:14-53 | `from_string(to_string(b)) == b` for every byte slice `b` |
| Hex.DigitsOfEncoding | src/hex.rs:14-53 | reading the encoding of `b` gives the two nibbles of every byte of `b`, high first |
| Hex.HexOnlyDigits | src/hex.rs:30-51 | only the accepted digits of the input contribute, one value each |
| Hex.DecodingFilters | src/hex.rs:25-53 | decoding skips every non-hex byte (the result equals the decoding of the digits alone). Its length is half the number of digits, rounded down |
| Hex.DecodingDropsOddDigit | src/hex.rs:34-37 | a digit that comes after an even number of digits adds nothing to the output |
| Hex.DecodingCompletesByte | src/hex.rs:33-36 | a digit that comes after an odd number of digits appends one byte: the previous digit times 16 plus this one |
| Hex.DigitCaseInsensitive | src/hex.rs:38-49 | `A-F` and `a-f` both have the values 10 to 15 |
| Hex.LowerDigitOf | src/hex.rs:38-49 | ASCII lowercasing a byte does not change the digit it contributes: `A-F` become `a-f` with the same values, and `G-Z` become `g-z`, which are not digits either |
| Hex.LowerCaseDigits | src/hex.rs:30-51 | ASCII lowercasing the input does not change the digit sequence scanned from it |
| Hex.DecodingIgnoresCase | src/hex.rs:26-53 | `from_string` returns the same bytes for the input and for its ASCII lowercase form |
| Hex.ShiftStep | src/hex.rs:59-63 | for the sixteen nibbles of `i`, `i >> 60` is the first and `i.wrapping_shl(4)` drops it and appends a zero nibble |
| Bits.U64Shl4 | src/hex.rs:63 | `i.wrapping_shl(4)` on `u64` drops the top nibble and moves the rest up |
| Hex.StripAppend | src/hex.rs:60-62 | the push condition (a nonzero digit, or something already pushed) builds the digits with the leading `'0'`s removed |
| Hex.EncodeRound | src/hex.rs:59-63 | one round pushes the digit of the top nibble, unless it is a skipped leading zero, and shifts the value up by one nibble |
| Hex.U64Text | src/hex.rs:56-66 | what `to_string_u64` and `to_vec_u64` return: a suffix of the sixteen digits of `i`, at most 16 bytes, and all 16 unless leading zeroes are skipped |
| Hex.ToStringU64 | src/hex.rs:56-66 | the sixteen rounds return exactly `U64Text(i, skip)`: the sixteen digits of `i`, with the leading `'0'`s stripped when `skip` holds |
| Hex.ToVecU64 | src/hex.rs:101-111 | the same rounds return the same bytes, `U64Text(i, skip)` |
| Hex.FullWidthAt | src/hex.rs:58-63 | without skipping, the text has 16 characters, and character `k` is `HEX_CHARS[(i >> (60 - 4k)) & 0xf]` |
| Hex.StripLeadingZeroesShape | src/hex.rs:60 | skipping removes exactly the leading `'0'`s. What is left is a suffix of the full text that is empty or starts with another digit |
| Hex.U64TextEmpty | src/hex.rs:60 | with leading zeroes skipped, the text is empty exactly when `i == 0` |
| Hex.U64TextLow | src/hex.rs:56-66 | for `i < 16^m`, with leading zeroes skipped, only the digits of the `m` low nibbles remain to be stripped |
| Bits.U64Shl8 | src/hex.rs:77 | `n.wrapping_shl(8)` on `u64` drops the top byte and moves the rest up |
| Bits.ShiftOrByte | src/hex.rs:77-78 | shifting `n` left by 8 and OR-ing in `byte`, on `u64`, is `(256 n + byte) mod 2^64` |
| Hex.ShiftInByte | src/hex.rs:77-78 | folding a completed byte into the value gives `(256 n + byte) mod 2^64` |
| Hex.FoldStep | src/hex.rs:74-80 | one digit keeps the value equal to the wrapping fold of the completed pairs. The value changes only when a pair is completed |
| Hex.ScanByteU64 | src/hex.rs:72-95 | each of the three digit ranges maps to its value. Every other byte leaves the state unchanged |
| Hex.FromStringU64 | src/hex.rs:68-98 | the scan returns exactly `DecodingU64(s)`, the wrapping big-endian fold over the bytes `from_string(s)` returns |
| Hex.FoldPackedNibbles | src/hex.rs:77-78 | folding the bytes of an even number of digits gives their base-16 value mod 2^64 |
| Hex.DecodingU64 | src/hex.rs:68-98 | what `from_string_u64` returns, the wrapping fold over the bytes of `from_string(s)`: the base-16 value of the digits of `s`, with an odd last digit dropped, reduced mod 2^64 |
| Hex.DecodingPaired | src/hex.rs:34-36 | only digits that complete a pair are packed: an odd last digit adds no byte |
| Hex.DecodingU64FullWidth | src/hex.rs:56-98 | `from_string_u64(to_string_u64(i, false)) == i` for every `u64` |
| Hex.HexDigitsOfText | src/hex.rs:9-11 | reading the table digits of some nibbles back gives the nibbles |
| HexExamples.ToAndFromString | src/hex.rs:131-136 | `to_string(&[1,2,3,4])` is `"01020304"`, and `from_string` reads it back to `[1,2,3,4]` |
| HexExamples.MaxText | src/hex.rs:141-143 | `to_string_u64(u64::MAX, false)` and `to_vec_u64(u64::MAX, false)` are sixteen `f`s |
| HexExamples.ZeroText | src/hex.rs:145-149 | `to_string_u64(0, false)` is sixteen `0`s, and `to_string_u64(0, true)` is empty |
| HexExamples.Text400 | src/hex.rs:151-153 | `to_string_u64(0x400, true)` is `"400"`, and `to_vec_u64(1024, true)` is `[52, 48, 48]` |
| HexExamples.FromString0x400 | src/hex.rs:155-156 | `from_string_u64("0x400")` is `0x400`, because the `x` is skipped |
| HexExamples.FromString0x0 | src/hex.rs:158-159 | `from_string_u64("0x0")` is 0 |
| HexExamples.FromStringMax | src/hex.rs:161-162 | `from_string_u64("ffffffffffffffff")` is `u64::MAX` |
| HexExamples.FromStringFF | src/hex.rs:164-165 | `from_string_u64("ff")` is 255 |
| HexExamples.TextFF | src/hex.rs:166-168 | `to_string_u64(255, true)` is `"ff"` |
| HexExamples.FromString400 | src/hex.rs:68-98 | `from_string_u64("400")` is `0x40`, because an odd last digit is dropped |
| HexExamples.ToHexBytesCase | src/hex.rs:188-193 | `to_hex_bytes(&[52, 48, 48], &mut [0; 6])` returns 6 and writes `[51, 52, 51, 48, 51, 48]` |

## Left out

- Capacity: the `with_capacity` and `reserve` calls only size buffers. They do not change any result.
- Hex.ToHexBytes: the out-of-bounds panic for a too-short `dest` is a precondition, not a modelled failure.
- Hex.ToHexBytes: `b` is an immutable value. A Rust shared slice cannot alias the mutable `dest`, so nothing is lost.
- Characters: `String`, `&str` and `char` are modelled by their bytes.
  - The decoders accept any byte sequence, not only valid UTF-8.
  - The `as char` casts in `to_string` and `to_string_u64` are identities on the ASCII digits.
- Tests: the test functions themselves. Their cases appear under `HexExamples`, and `to_vec_u64(u64::MIN, false)` is covered by `HexExamples.ZeroText`.

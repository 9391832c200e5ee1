/**
 * The cases the repository's unit tests check, stated about the model.
 * Text is written as its ASCII codes: 48-57 are `0-9`, 97-102 are `a-f`,
 * 120 is `x`.
 */
module HexExamples {
  import opened Bits
  import opened Hex

  const U64_MAX: U64 := 0xFFFF_FFFF_FFFF_FFFF

  /** `to_string(&[1, 2, 3, 4])` is `"01020304"`, and `from_string` reads it back. */
  lemma ToAndFromString()
    ensures Encoding([1, 2, 3, 4]) == [48, 49, 48, 50, 48, 51, 48, 52]
    ensures Decoding([48, 49, 48, 50, 48, 51, 48, 52]) == [1, 2, 3, 4]
  {
    Encoding1234();
    DecodeEncode([1, 2, 3, 4]);
  }

  lemma Encoding1234()
    ensures Encoding([1, 2, 3, 4]) == [48, 49, 48, 50, 48, 51, 48, 52]
  {
    var b: seq<Byte> := [1, 2, 3, 4];
    EncodingAt(b, 0);
    EncodingAt(b, 1);
    EncodingAt(b, 2);
    EncodingAt(b, 3);
  }

  /** `to_string_u64(u64::MAX, false)` is sixteen `f`s, as is `to_vec_u64(u64::MAX, false)`. */
  lemma MaxText()
    ensures U64Text(U64_MAX, false) == seq(16, _ => 102)
  {
    Pow16Facts();
    NibblesAllOnes(16);
    assert HexText(seq(16, _ => 15)) == seq(16, _ => 102);
  }

  /** `to_string_u64(0, false)` is sixteen `0`s and `to_string_u64(0, true)` is empty. */
  lemma ZeroText()
    ensures U64Text(0, false) == seq(16, _ => 48)
    ensures U64Text(0, true) == []
  {
    FullWidthLow(0, 0);
    assert HexText(Zeros(16)) == seq(16, _ => 48);
    U64TextEmpty(0);
  }

  /** `to_string_u64(0x400, true)` is `"400"`, the bytes `to_vec_u64(1024, true)` returns. */
  lemma Text400()
    ensures U64Text(0x400, true) == [52, 48, 48]
  {
    assert Pow16(3) == 0x1000;
    U64TextLow(0x400, 3);
    Digits400();
  }

  lemma Digits400()
    ensures StripLeadingZeroes(HexText(Nibbles(0x400, 3))) == [52, 48, 48]
  {
    assert Nibbles(4, 1) == [4];
    assert Nibbles(0x40, 2) == [4, 0];
    var t: seq<Byte> := [52, 48, 48];
    EmittedDigitValue(4);
    EmittedDigitValue(0);
    assert HexText([4, 0, 0]) == t;
  }

  /** `to_string_u64(255, true)` is `"ff"`. */
  lemma TextFF()
    ensures U64Text(255, true) == [102, 102]
  {
    assert Pow16(2) == 0x100;
    U64TextLow(255, 2);
    assert Nibbles(255, 2) == [15, 15];
    assert HexText([15, 15]) == [102, 102];
  }

  /** `from_string_u64("0x400")` is `0x400`: the `x` is skipped. */
  lemma FromString0x400()
    ensures DecodingU64([48, 120, 52, 48, 48]) == 0x400
  {
    var d: seq<Nibble> := [0, 4, 0, 0];
    Digits0x400();
    assert d[..|d| - |d| % 2] == d;
    Base16Of400();
  }

  lemma Digits0x400()
    ensures HexDigits([48, 120, 52, 48, 48]) == [0, 4, 0, 0]
  {
    var s: seq<Byte> := [48, 120, 52, 48, 48];
    assert s[..0] == [];
    HexDigitsSnoc(s, 0);
    HexDigitsSnoc(s, 1);
    HexDigitsSnoc(s, 2);
    HexDigitsSnoc(s, 3);
    HexDigitsSnoc(s, 4);
    assert s[..5] == s;
  }

  lemma Base16Of400()
    ensures Base16([0, 4, 0, 0]) == 0x400
  {
    var d: seq<Nibble> := [0, 4, 0, 0];
    assert d[..3][..2][..1] == [0] && d[..3][..2] == [0, 4] && d[..3] == [0, 4, 0];
    assert Base16([0, 4]) == 4;
    assert Base16([0, 4, 0]) == 0x40;
  }

  /**
   * `from_string_u64("400")` is `0x40`, not `0x400`: the text of a value with
   * leading zeroes skipped can have an odd number of digits, and then its last
   * digit has no partner and is dropped.
   */
  lemma FromString400()
    ensures DecodingU64([52, 48, 48]) == 0x40
  {
    var d: seq<Nibble> := [4, 0, 0];
    Digits400Text();
    assert d[..2] == [4, 0] && d[..2][..1] == [4];
    assert Base16([4, 0]) == 0x40;
  }

  lemma Digits400Text()
    ensures HexDigits([52, 48, 48]) == [4, 0, 0]
  {
    var s: seq<Byte> := [52, 48, 48];
    assert s[..0] == [];
    HexDigitsSnoc(s, 0);
    HexDigitsSnoc(s, 1);
    HexDigitsSnoc(s, 2);
    assert s[..3] == s;
  }

  /** `from_string_u64("0x0")` is 0: the single digit after the `x` pairs with the leading `0`. */
  lemma FromString0x0()
    ensures DecodingU64([48, 120, 48]) == 0
  {
    var s: seq<Byte> := [48, 120, 48];
    assert s[..0] == [];
    HexDigitsSnoc(s, 0);
    HexDigitsSnoc(s, 1);
    HexDigitsSnoc(s, 2);
    assert s[..3] == s;
    assert HexDigits(s) == [0, 0];
  }

  /** `from_string_u64("ffffffffffffffff")` is `u64::MAX`. */
  lemma FromStringMax()
    ensures DecodingU64(seq(16, _ => 102)) == U64_MAX
  {
    MaxText();
    DecodingU64FullWidth(U64_MAX);
  }

  /** `from_string_u64("ff")` is 255. */
  lemma FromStringFF()
    ensures DecodingU64([102, 102]) == 255
  {
    assert HexText([15, 15]) == [102, 102];
    HexDigitsOfText([15, 15]);
    assert Base16([15, 15]) == 255;
  }

  /** `to_hex_bytes(&[52, 48, 48], &mut [0; 6])` writes `[51, 52, 51, 48, 51, 48]` and returns 6. */
  method ToHexBytesCase() returns (n: nat, dest: array<Byte>)
    ensures n == 6 && dest.Length == 6
    ensures dest[..] == [51, 52, 51, 48, 51, 48]
  {
    dest := new Byte[6](_ => 0);
    n := ToHexBytes([52, 48, 48], dest);
    EncodingAt([52, 48, 48], 0);
    EncodingAt([52, 48, 48], 1);
    EncodingAt([52, 48, 48], 2);
    assert dest[..] == dest[..n];
  }
}

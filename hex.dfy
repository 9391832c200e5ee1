/**
 * The hexadecimal codec: byte slices to lowercase hex text and back, and
 * 64-bit values to and from hex digits.
 *
 * Text is modelled as the bytes it is read as (`as_bytes()`); the text the
 * encoders produce is ASCII, so its bytes are the characters' codes.
 * Every operation is a method with the loop of the original, proved equal to
 * a specification function; the lemmas below state what those functions mean.
 */
module Hex {
  import opened Bits

  /** A value of one hex digit. */
  type Nibble = x: int | 0 <= x < 16

  /** The digits the encoders emit, `0-9` then lowercase `a-f`. */
  const HEX_CHARS: seq<Byte> := [48, 49, 50, 51, 52, 53, 54, 55, 56, 57, 97, 98, 99, 100, 101, 102]

  const ZERO_CHAR: Byte := 48

  // ---------------------------------------------------------------------
  // Digits

  /** The bytes the decoders accept as digits: `0-9`, `A-F`, `a-f`. */
  predicate IsHexDigit(c: Byte)
  {
    48 <= c <= 57 || 65 <= c <= 70 || 97 <= c <= 102
  }

  /** The accepted digits are the bytes whose lowercase form is in the table. */
  lemma HexDigitAlphabet(c: Byte)
    ensures IsHexDigit(c) <==> LowerDigit(c) in HEX_CHARS
  {
  }

  /**
   * The value of an accepted digit; `A-F` and `a-f` both mean 10-15. The
   * digit lowered is the one the table holds for the value (`TableDigit`).
   */
  function NibbleValue(c: Byte): (v: Nibble)
    requires IsHexDigit(c)
    ensures LowerDigit(c) == if v < 10 then 48 + v else 87 + v
  {
    if 48 <= c <= 57 then c - 48
    else if 65 <= c <= 70 then c - 55
    else c - 87
  }

  /** Digit `v` of the table is `'0' + v` below 10 and `'a' + v - 10` above. */
  lemma TableDigit(v: Nibble)
    ensures HEX_CHARS[v] == if v < 10 then 48 + v else 87 + v
  {
  }

  /** The digit value a byte contributes to the scan: one, or none. */
  function DigitOf(c: Byte): seq<Nibble>
  {
    if IsHexDigit(c) then [NibbleValue(c)] else []
  }

  /** The values of the hex digits of `s`, in order; other bytes are skipped. */
  function HexDigits(s: seq<Byte>): (d: seq<Nibble>)
    ensures |d| <= |s|
  {
    if s == [] then [] else HexDigits(s[..|s| - 1]) + DigitOf(s[|s| - 1])
  }

  /** The hex digits of `s`, the other bytes removed. */
  function HexOnly(s: seq<Byte>): (r: seq<Byte>)
    ensures |r| <= |s|
    ensures forall k :: 0 <= k < |r| ==> IsHexDigit(r[k])
  {
    if s == [] then []
    else HexOnly(s[..|s| - 1]) + (if IsHexDigit(s[|s| - 1]) then [s[|s| - 1]] else [])
  }

  /** Every emitted digit is accepted back with its value; only nibble 0 gives `'0'`. */
  lemma EmittedDigitValue(v: Nibble)
    ensures HEX_CHARS[v] == if v < 10 then 48 + v else 87 + v
    ensures IsHexDigit(HEX_CHARS[v]) && NibbleValue(HEX_CHARS[v]) == v
    ensures HEX_CHARS[v] == ZERO_CHAR <==> v == 0
    ensures HEX_CHARS[v] in HEX_CHARS && !(65 <= HEX_CHARS[v] <= 70)
  {
    TableDigit(v);
  }

  lemma {:induction false} HexDigitsAppend(p: seq<Byte>, q: seq<Byte>)
    ensures HexDigits(p + q) == HexDigits(p) + HexDigits(q)
  {
    if q == [] {
      assert p + q == p;
    } else {
      var q' := q[..|q| - 1];
      assert (p + q)[..|p + q| - 1] == p + q';
      HexDigitsAppend(p, q');
    }
  }

  /** Scanning one more byte adds that byte's digit, if it has one. */
  lemma HexDigitsSnoc(s: seq<Byte>, i: nat)
    requires i < |s|
    ensures HexDigits(s[..i + 1]) == HexDigits(s[..i]) + DigitOf(s[i])
  {
    assert s[..i + 1][..i] == s[..i];
  }

  // ---------------------------------------------------------------------
  // Bytes to text: `to_string`, `to_hex_bytes`

  /** The two digits of one byte, high nibble first. */
  function EncodeByte(x: Byte): seq<Byte>
  {
    [HEX_CHARS[x / 16], HEX_CHARS[x % 16]]
  }

  /** The lowercase hex text of `b`. */
  function Encoding(b: seq<Byte>): (r: seq<Byte>)
    ensures |r| == 2 * |b|
  {
    if b == [] then [] else Encoding(b[..|b| - 1]) + EncodeByte(b[|b| - 1])
  }

  /** Bytes `2k` and `2k+1` of the encoding are the digits of byte `k`, high nibble first. */
  lemma {:induction false} EncodingAt(b: seq<Byte>, k: nat)
    requires k < |b|
    ensures Encoding(b)[2 * k] == HEX_CHARS[b[k] / 16]
    ensures Encoding(b)[2 * k + 1] == HEX_CHARS[b[k] % 16]
  {
    if k < |b| - 1 {
      EncodingAt(b[..|b| - 1], k);
    }
  }

  /** Every byte of an encoding is one of `0-9a-f`, never an uppercase digit. */
  lemma EncodingAlphabet(b: seq<Byte>)
    ensures forall j :: 0 <= j < |Encoding(b)| ==> Encoding(b)[j] in HEX_CHARS
    ensures forall j :: 0 <= j < |Encoding(b)| ==> !(65 <= Encoding(b)[j] <= 70)
  {
    var r := Encoding(b);
    forall j | 0 <= j < |r|
      ensures r[j] in HEX_CHARS && !(65 <= r[j] <= 70)
    {
      var k := j / 2;
      EncodingAt(b, k);
      if j % 2 == 0 {
        assert j == 2 * k;
        EmittedDigitValue(b[k] / 16);
      } else {
        assert j == 2 * k + 1;
        EmittedDigitValue(b[k] % 16);
      }
    }
  }

  /** `to_string`: push the two digits of each byte onto the output. */
  method ToString(b: seq<Byte>) returns (s: seq<Byte>)
    ensures s == Encoding(b)
  {
    s := [];
    for i := 0 to |b|
      invariant s == Encoding(b[..i])
    {
      var x := b[i];
      assert b[..i + 1][..i] == b[..i];
      s := s + [HEX_CHARS[x / 16]];
      s := s + [HEX_CHARS[x % 16]];
    }
    assert b[..|b|] == b;
  }

  /**
   * `to_hex_bytes`: write the digits into `dest` in place and return how
   * many were written. The original panics when `dest` is too short; here
   * that is the precondition.
   */
  method ToHexBytes(b: seq<Byte>, dest: array<Byte>) returns (j: nat)
    requires 2 * |b| <= dest.Length
    modifies dest
    ensures j == 2 * |b|
    ensures dest[..j] == Encoding(b)
    ensures dest[j..] == old(dest[j..])
  {
    ghost var e := Encoding(b);
    j := 0;
    for i := 0 to |b|
      invariant j == 2 * i
      invariant forall k :: 0 <= k < j ==> dest[k] == e[k]
      invariant forall k :: j <= k < dest.Length ==> dest[k] == old(dest[k])
    {
      var x := b[i];
      EncodingAt(b, i);
      dest[j] := HEX_CHARS[x / 16];
      dest[j + 1] := HEX_CHARS[x % 16];
      j := j + 2;
    }
  }

  // ---------------------------------------------------------------------
  // Text to bytes: `from_string`

  /**
   * Pairs consecutive nibbles into bytes: byte `k` has nibble `2k` as its
   * high half and nibble `2k+1` as its low half; an odd last one is dropped.
   */
  function PackNibbles(d: seq<Nibble>): (r: seq<Byte>)
    ensures |r| == |d| / 2
  {
    seq(|d| / 2, k requires 0 <= k < |d| / 2 => 16 * (d[2 * k] as int) + d[2 * k + 1])
  }

  /** What `from_string` returns for `s`: one byte for every two digits. */
  function Decoding(s: seq<Byte>): (r: seq<Byte>)
    ensures |r| == |HexDigits(s)| / 2
  {
    PackNibbles(HexDigits(s))
  }

  /** One more nibble either waits for its partner or completes a byte. */
  lemma PackAppend(d: seq<Nibble>, v: Nibble)
    ensures |d| % 2 == 0 ==> PackNibbles(d + [v]) == PackNibbles(d)
    ensures |d| % 2 == 1 ==> PackNibbles(d + [v]) == PackNibbles(d) + [16 * (d[|d| - 1] as int) + v]
  {
    if |d| % 2 == 0 {
      PackAppendEven(d, v);
    } else {
      PackAppendOdd(d, v);
    }
  }

  lemma PackAppendEven(d: seq<Nibble>, v: Nibble)
    requires |d| % 2 == 0
    ensures PackNibbles(d + [v]) == PackNibbles(d)
  {
  }

  lemma PackAppendOdd(d: seq<Nibble>, v: Nibble)
    requires |d| % 2 == 1
    ensures PackNibbles(d + [v]) == PackNibbles(d) + [16 * (d[|d| - 1] as int) + v]
  {
  }

  /** The scan state after the digits `d`: the bytes pushed, the flag, and the pending nibble. */
  ghost predicate ScanState(d: seq<Nibble>, b: seq<Byte>, byte: Byte, have8: bool)
  {
    b == PackNibbles(d) && Pending(d, byte, have8)
  }

  /** The flag says whether a digit is waiting for its partner, and `byte` holds it. */
  ghost predicate Pending(d: seq<Nibble>, byte: Byte, have8: bool)
  {
    (have8 <==> |d| % 2 == 1) &&
    (have8 ==> byte % 16 == d[|d| - 1])
  }

  /** Scanning a digit `v` keeps the state in step with the digits scanned. */
  lemma ScanDigit(d: seq<Nibble>, b: seq<Byte>, byte: Byte, have8: bool, v: Nibble, next: Byte)
    requires ScanState(d, b, byte, have8) && next == 16 * (byte % 16) + v
    ensures ScanState(d + [v], if have8 then b + [next] else b, next, !have8)
  {
    PendingStep(d, byte, have8, v);
    if have8 {
      PackAppendOdd(d, v);
    } else {
      PackAppendEven(d, v);
    }
  }

  /** After a digit `v` the flag flips and `v` is the low nibble of the pending byte. */
  lemma PendingStep(d: seq<Nibble>, byte: Byte, have8: bool, v: Nibble)
    requires Pending(d, byte, have8)
    ensures Pending(d + [v], 16 * (byte % 16) + v, !have8)
  {
    DivUnique(16 * (byte % 16) + v, 16, byte % 16, v);
    assert (d + [v])[|d|] == v;
  }

  /**
   * `byte.wrapping_shl(4) | v`: shift a digit into the pending byte; its old
   * low nibble becomes the high one.
   */
  method ShiftInNibble(byte: Byte, v: Nibble) returns (r: Byte)
    ensures r == 16 * (byte % 16) + v
  {
    ShiftOrNibble(byte, v);
    r := Or(U8Shl4(byte), v);
  }

  /**
   * One hex digit `v` met by the scan of `from_string`: shift it into
   * `byte`, push `byte` if it completes a pair, flip the flag.
   */
  method ScanStep(b: seq<Byte>, byte: Byte, have8: bool, v: Nibble, ghost d: seq<Nibble>)
    returns (b': seq<Byte>, byte': Byte, have8': bool)
    requires ScanState(d, b, byte, have8)
    ensures ScanState(d + [v], b', byte', have8')
  {
    byte' := ShiftInNibble(byte, v);
    ScanDigit(d, b, byte, have8, v, byte');
    b' := b;
    if have8 {
      b' := b' + [byte'];
    }
    have8' := !have8;
  }

  /**
   * The body of the scan of `from_string` for one byte `c`: a digit goes
   * to `ScanStep` with its value; any other byte leaves the state as it is.
   */
  method ScanByte(b: seq<Byte>, byte: Byte, have8: bool, c: Byte, ghost d: seq<Nibble>)
    returns (b': seq<Byte>, byte': Byte, have8': bool)
    requires ScanState(d, b, byte, have8)
    ensures ScanState(d + DigitOf(c), b', byte', have8')
  {
    if 48 <= c <= 57 {
      b', byte', have8' := ScanStep(b, byte, have8, c - 48, d);
    } else if 65 <= c <= 70 {
      b', byte', have8' := ScanStep(b, byte, have8, c - 55, d);
    } else if 97 <= c <= 102 {
      b', byte', have8' := ScanStep(b, byte, have8, c - 87, d);
    } else {
      b', byte', have8' := b, byte, have8;
      assert d + DigitOf(c) == d;
    }
  }

  /**
   * `from_string`: scan the bytes, shift each digit into `byte`, and push
   * `byte` after every second digit.
   */
  method FromString(s: seq<Byte>) returns (b: seq<Byte>)
    ensures b == Decoding(s)
  {
    b := [];
    var byte: Byte := 0;
    var have8 := false;
    assert s[..0] == [];
    for i := 0 to |s|
      invariant ScanState(HexDigits(s[..i]), b, byte, have8)
    {
      HexDigitsSnoc(s, i);
      b, byte, have8 := ScanByte(b, byte, have8, s[i], HexDigits(s[..i]));
    }
    assert s[..|s|] == s;
  }

  // ---------------------------------------------------------------------
  // What `from_string` and `to_string` promise

  /** Each byte split into its two nibbles, high first. */
  function SplitNibbles(b: seq<Byte>): (d: seq<Nibble>)
    ensures |d| == 2 * |b|
  {
    if b == [] then [] else SplitNibbles(b[..|b| - 1]) + [b[|b| - 1] / 16, b[|b| - 1] % 16]
  }

  /** Reading an encoding back gives the nibbles of the bytes, high first. */
  lemma {:induction false} DigitsOfEncoding(b: seq<Byte>)
    ensures HexDigits(Encoding(b)) == SplitNibbles(b)
  {
    if b != [] {
      var b', x := b[..|b| - 1], b[|b| - 1];
      DigitsOfEncoding(b');
      assert Encoding(b) == Encoding(b') + EncodeByte(x);
      HexDigitsAppend(Encoding(b'), EncodeByte(x));
      DigitsOfEncodeByte(x);
    }
  }

  lemma DigitsOfEncodeByte(x: Byte)
    ensures HexDigits(EncodeByte(x)) == [x / 16, x % 16]
  {
    var e := EncodeByte(x);
    EmittedDigitValue(x / 16);
    EmittedDigitValue(x % 16);
    assert e[..1] == [e[0]] && [e[0]][..0] == [];
    assert HexDigits([e[0]]) == [x / 16];
  }

  /** Pairing the split nibbles up again gives the bytes back. */
  lemma {:induction false} PackSplit(b: seq<Byte>)
    ensures PackNibbles(SplitNibbles(b)) == b
  {
    if b != [] {
      var b', x := b[..|b| - 1], b[|b| - 1];
      var d := SplitNibbles(b');
      PackSplit(b');
      assert SplitNibbles(b) == d + [x / 16] + [x % 16];
      PackAppendEven(d, x / 16);
      PackAppendOdd(d + [x / 16], x % 16);
      assert (d + [x / 16])[|d|] == x / 16;
      assert b == b' + [x];
    }
  }

  /** `from_string(to_string(b)) == b`. */
  lemma DecodeEncode(b: seq<Byte>)
    ensures Decoding(Encoding(b)) == b
  {
    DigitsOfEncoding(b);
    PackSplit(b);
  }

  /** Only the hex digits of the input matter, and every two of them make one byte. */
  lemma {:induction false} HexOnlyDigits(s: seq<Byte>)
    ensures HexDigits(HexOnly(s)) == HexDigits(s)
    ensures |HexDigits(s)| == |HexOnly(s)|
  {
    if s != [] {
      var s', c := s[..|s| - 1], s[|s| - 1];
      HexOnlyDigits(s');
      var tail := if IsHexDigit(c) then [c] else [];
      HexDigitsAppend(HexOnly(s'), tail);
      assert tail != [] ==> tail[..0] == [];
      assert HexDigits(tail) == DigitOf(c);
    }
  }

  /** Digit `k` of the scan is the value of the `k`-th hex digit of the input. */
  lemma {:induction false} HexDigitsValues(s: seq<Byte>)
    ensures |HexDigits(s)| == |HexOnly(s)|
    ensures forall k :: 0 <= k < |HexOnly(s)| ==> HexDigits(s)[k] == NibbleValue(HexOnly(s)[k])
  {
    if s != [] {
      var s', c := s[..|s| - 1], s[|s| - 1];
      HexDigitsValues(s');
      assert HexDigits(s) == HexDigits(s') + DigitOf(c);
      assert HexOnly(s) == HexOnly(s') + (if IsHexDigit(c) then [c] else []);
    }
  }

  /** The last digit scanned is the value of the last hex digit of the input. */
  lemma {:induction false} LastDigitValue(s: seq<Byte>)
    requires |HexOnly(s)| > 0
    ensures |HexDigits(s)| == |HexOnly(s)|
    ensures HexDigits(s)[|HexDigits(s)| - 1] == NibbleValue(HexOnly(s)[|HexOnly(s)| - 1])
  {
    HexOnlyDigits(s);
    var s', c := s[..|s| - 1], s[|s| - 1];
    assert HexDigits(s) == HexDigits(s') + DigitOf(c);
    assert HexOnly(s) == HexOnly(s') + (if IsHexDigit(c) then [c] else []);
    if !IsHexDigit(c) {
      LastDigitValue(s');
    }
  }

  /**
   * Decoding skips every byte that is not a hex digit, and yields one byte per
   * two digits: a trailing odd digit is dropped.
   */
  lemma DecodingFilters(s: seq<Byte>)
    ensures Decoding(s) == Decoding(HexOnly(s))
    ensures |Decoding(s)| == |HexOnly(s)| / 2
  {
    HexOnlyDigits(s);
  }

  /** A digit that has no partner yet adds nothing to the decoding. */
  lemma DecodingDropsOddDigit(s: seq<Byte>, c: Byte)
    requires |HexOnly(s)| % 2 == 0 && IsHexDigit(c)
    ensures Decoding(s + [c]) == Decoding(s)
  {
    HexOnlyDigits(s);
    DecodingSnoc(s, c);
    PackAppendEven(HexDigits(s), NibbleValue(c));
  }

  /** The second digit of a pair completes a byte, high nibble first. */
  lemma DecodingCompletesByte(s: seq<Byte>, c: Byte)
    requires |HexOnly(s)| % 2 == 1 && IsHexDigit(c)
    ensures Decoding(s + [c]) ==
      Decoding(s) + [16 * (NibbleValue(HexOnly(s)[|HexOnly(s)| - 1]) as int) + NibbleValue(c)]
  {
    LastDigitValue(s);
    DecodingSnoc(s, c);
    PackAppendOdd(HexDigits(s), NibbleValue(c));
  }

  /** The decoding of one more byte is the packing of one more digit, if it is one. */
  lemma DecodingSnoc(s: seq<Byte>, c: Byte)
    ensures Decoding(s + [c]) == PackNibbles(HexDigits(s) + DigitOf(c))
  {
    HexDigitsSnoc(s + [c], |s|);
    assert (s + [c])[..|s|] == s && (s + [c])[..|s| + 1] == s + [c];
  }

  /** `A-F` and `a-f` decode to the same values, 10 to 15. */
  lemma DigitCaseInsensitive(v: int)
    requires 10 <= v < 16
    ensures NibbleValue(55 + v) == v && NibbleValue(87 + v) == v
  {
  }

  /** ASCII lowercase: `A-Z` turned into `a-z`; every other byte kept. */
  function LowerDigit(c: Byte): Byte
  {
    if 65 <= c <= 90 then c + 32 else c
  }

  /** The input with every ASCII uppercase letter lowered. */
  function LowerCase(s: seq<Byte>): (r: seq<Byte>)
    ensures |r| == |s|
  {
    seq(|s|, k requires 0 <= k < |s| => LowerDigit(s[k]))
  }

  /** `A-F` and `a-f` are the same digits, and `G-Z` and `g-z` are none. */
  lemma LowerDigitOf(c: Byte)
    ensures DigitOf(LowerDigit(c)) == DigitOf(c)
  {
    if 65 <= c <= 70 {
      DigitCaseInsensitive(c - 55);
    }
  }

  /** Lowering the case of the input does not change the digits scanned from it. */
  lemma {:induction false} LowerCaseDigits(s: seq<Byte>)
    ensures HexDigits(LowerCase(s)) == HexDigits(s)
  {
    if s != [] {
      var s', c, l := s[..|s| - 1], s[|s| - 1], LowerCase(s);
      LowerCaseDigits(s');
      assert l[..|s| - 1] == LowerCase(s');
      assert HexDigits(l) == HexDigits(LowerCase(s')) + DigitOf(LowerDigit(c));
      LowerDigitOf(c);
    }
  }

  /** Decoding does not depend on the case of the digits. */
  lemma DecodingIgnoresCase(s: seq<Byte>)
    ensures Decoding(LowerCase(s)) == Decoding(s)
  {
    LowerCaseDigits(s);
  }

  // ---------------------------------------------------------------------
  // 64-bit values to text: `to_string_u64`, `to_vec_u64`

  function Pow16(n: nat): (r: nat)
    ensures r >= 1
  {
    if n == 0 then 1 else 16 * Pow16(n - 1)
  }

  lemma Pow16Facts()
    ensures Pow16(15) == 0x1000_0000_0000_0000 && Pow16(16) == U64_MODULUS
  {
    assert Pow16(4) == 0x1_0000;
    assert Pow16(8) == 0x1_0000_0000;
    assert Pow16(12) == 0x1_0000_0000_0000;
  }

  /** The `n` low nibbles of `x`, most significant first. */
  function Nibbles(x: nat, n: nat): (d: seq<Nibble>)
    ensures |d| == n
  {
    if n == 0 then [] else Nibbles(x / 16, n - 1) + [x % 16]
  }

  /** The number whose base-16 digits, most significant first, are `d`. */
  function Base16(d: seq<Nibble>): nat
  {
    if d == [] then 0 else 16 * Base16(d[..|d| - 1]) + d[|d| - 1]
  }

  /** `k` zero nibbles. */
  function Zeros(k: nat): seq<Nibble>
  {
    seq(k, _ => 0)
  }

  /** The digit characters of the nibbles `d`. */
  function HexText(d: seq<Nibble>): seq<Byte>
  {
    seq(|d|, k requires 0 <= k < |d| => HEX_CHARS[d[k]])
  }

  /** One more nibble adds its table digit to the text. */
  lemma HexTextPrefix(d: seq<Nibble>, k: nat)
    requires k < |d|
    ensures HexText(d)[..k + 1] == HexText(d)[..k] + [HEX_CHARS[d[k]]]
  {
    assert HexText(d)[k] == HEX_CHARS[d[k]];
  }

  /** All sixteen digits of `i`, most significant first. */
  function FullWidth(i: U64): seq<Byte>
  {
    HexText(Nibbles(i, 16))
  }

  /** `t` with its leading `'0'` characters removed. */
  function StripLeadingZeroes(t: seq<Byte>): (r: seq<Byte>)
    ensures |r| <= |t|
  {
    if t != [] && t[0] == ZERO_CHAR then StripLeadingZeroes(t[1..]) else t
  }

  /**
   * Stripping removes exactly the leading `'0'`s: what is left is a suffix
   * of `t` that is empty or starts with another character, and everything
   * before it is `'0'`.
   */
  lemma {:induction false} StripLeadingZeroesShape(t: seq<Byte>)
    ensures StripLeadingZeroes(t) == t[|t| - |StripLeadingZeroes(t)|..]
    ensures forall k :: 0 <= k < |t| - |StripLeadingZeroes(t)| ==> t[k] == ZERO_CHAR
    ensures StripLeadingZeroes(t) != [] ==> StripLeadingZeroes(t)[0] != ZERO_CHAR
  {
    if t != [] && t[0] == ZERO_CHAR {
      StripLeadingZeroesShape(t[1..]);
      var r := StripLeadingZeroes(t);
      assert t[1..][|t| - 1 - |r|..] == t[|t| - |r|..];
      forall k | 0 <= k < |t| - |r|
        ensures t[k] == ZERO_CHAR
      {
        if k > 0 {
          assert t[k] == t[1..][k - 1];
        }
      }
    }
  }

  /** What the encoder loop has pushed after the digits `p`. */
  function Kept(p: seq<Byte>, skipLeadingZeroes: bool): seq<Byte>
  {
    if skipLeadingZeroes then StripLeadingZeroes(p) else p
  }

  /**
   * What `to_string_u64` and `to_vec_u64` return: a suffix of the sixteen
   * digits of `i`, all of them unless leading zeroes are skipped.
   */
  function U64Text(i: U64, skipLeadingZeroes: bool): (r: seq<Byte>)
    ensures |r| <= 16 && r == FullWidth(i)[16 - |r|..]
    ensures !skipLeadingZeroes ==> |r| == 16
  {
    StripLeadingZeroesShape(FullWidth(i));
    Kept(FullWidth(i), skipLeadingZeroes)
  }

  lemma DivDiv(x: nat, p: nat)
    requires p > 0
    ensures (x / 16) / p == x / (16 * p)
  {
    var q, r := x / 16, x % 16;
    var q2, r2 := q / p, q % p;
    assert x == 16 * q + r;
    assert q == q2 * p + r2;
    assert x == q2 * (16 * p) + (16 * r2 + r);
    DivUnique(x, 16 * p, q2, 16 * r2 + r);
  }

  /** The nibbles of a value below 16^n are its base-16 digits. */
  lemma {:induction false} Base16Nibbles(x: nat, n: nat)
    requires x < Pow16(n)
    ensures Base16(Nibbles(x, n)) == x
  {
    if n > 0 {
      var d := Nibbles(x, n);
      assert d[..n - 1] == Nibbles(x / 16, n - 1);
      Base16Nibbles(x / 16, n - 1);
    }
  }

  /** Nibble `k` of `x` is `(x >> 4(n-1-k)) & 0xf`. */
  lemma {:induction false} NibblesAt(x: nat, n: nat, k: nat)
    requires k < n
    ensures Nibbles(x, n)[k] == (x / Pow16(n - 1 - k)) % 16
  {
    if k < n - 1 {
      NibblesAt(x / 16, n - 1, k);
      DivDiv(x, Pow16(n - 2 - k));
    }
  }

  lemma {:induction false} Base16Bound(d: seq<Nibble>)
    ensures Base16(d) < Pow16(|d|)
  {
    if d != [] {
      Base16Bound(d[..|d| - 1]);
    }
  }

  /** The first digit weighs 16^(number of digits after it). */
  lemma {:induction false} Base16Cons(a: Nibble, t: seq<Nibble>)
    ensures Base16([a] + t) == a * Pow16(|t|) + Base16(t)
  {
    if t != [] {
      var t' := t[..|t| - 1];
      assert ([a] + t)[..|t|] == [a] + t';
      Base16Cons(a, t');
      calc {
        Base16([a] + t);
        16 * Base16([a] + t') + t[|t| - 1];
        16 * (a * Pow16(|t'|) + Base16(t')) + t[|t| - 1];
        a * (16 * Pow16(|t'|)) + (16 * Base16(t') + t[|t| - 1]);
      }
    }
  }

  lemma {:induction false} Base16Zeros(d: seq<Nibble>)
    requires forall k :: 0 <= k < |d| ==> d[k] == 0
    ensures Base16(d) == 0
  {
    if d != [] {
      Base16Zeros(d[..|d| - 1]);
    }
  }

  /**
   * One round of the encoder loop on sixteen digits `d`: `i >> 60` is the
   * first digit, and `i.wrapping_shl(4)` drops it and appends a zero.
   */
  lemma ShiftStep(d: seq<Nibble>)
    requires |d| == 16
    ensures Base16(d) < U64_MODULUS
    ensures Base16(d) / 0x1000_0000_0000_0000 == d[0]
    ensures U64Shl4(Base16(d)) == Base16(d[1..] + [0])
  {
    Pow16Facts();
    assert d == [d[0]] + d[1..];
    Base16Cons(d[0], d[1..]);
    Base16Bound(d[1..]);
    assert (d[1..] + [0])[..15] == d[1..];
  }

  /** Appending a digit to the stripped text. */
  lemma {:induction false} StripAppend(p: seq<Byte>, c: Byte)
    ensures StripLeadingZeroes(p + [c]) ==
      if StripLeadingZeroes(p) == [] && c == ZERO_CHAR then [] else StripLeadingZeroes(p) + [c]
  {
    if p != [] && p[0] == ZERO_CHAR {
      assert (p + [c])[1..] == p[1..] + [c];
      StripAppend(p[1..], c);
    }
  }

  /**
   * One round of the encoder loops: `cur` holds the sixteen nibbles `w`;
   * its top nibble is `cur >> 60`, its digit is pushed unless it is a
   * leading zero to skip, and `cur.wrapping_shl(4)` moves the next nibble up.
   */
  method EncodeRound(cur: U64, s: seq<Byte>, skipLeadingZeroes: bool, ghost w: seq<Nibble>, ghost p: seq<Byte>)
    returns (cur': U64, s': seq<Byte>)
    requires |w| == 16 && cur == Base16(w)
    requires s == Kept(p, skipLeadingZeroes)
    ensures cur' == Base16(w[1..] + [0])
    ensures s' == Kept(p + [HEX_CHARS[w[0]]], skipLeadingZeroes)
  {
    ShiftStep(w);
    var ii := cur / 0x1000_0000_0000_0000;
    EmittedDigitValue(ii);
    StripAppend(p, HEX_CHARS[ii]);
    s' := s;
    if ii != 0 || |s'| != 0 || !skipLeadingZeroes {
      s' := s' + [HEX_CHARS[ii]];
    }
    cur' := U64Shl4(cur);
  }

  /** After round `k` the nibbles left in `cur` are the rest of `n`, then zeroes. */
  lemma RoundNibbles(n: seq<Nibble>, k: nat)
    requires k < |n|
    ensures |n[k..] + Zeros(k)| == |n| && (n[k..] + Zeros(k))[0] == n[k]
    ensures (n[k..] + Zeros(k))[1..] + [0] == n[k + 1..] + Zeros(k + 1)
  {
    assert (n[k..] + Zeros(k))[1..] + [0] == n[k + 1..] + Zeros(k + 1);
  }

  /**
   * `to_string_u64`: sixteen rounds, each taking the top nibble with `>> 60`
   * and shifting it out with `wrapping_shl(4)`; a digit is pushed unless
   * leading zeroes are skipped and nothing has been pushed yet.
   */
  method ToStringU64(i: U64, skipLeadingZeroes: bool) returns (s: seq<Byte>)
    ensures s == U64Text(i, skipLeadingZeroes)
  {
    ghost var n := Nibbles(i, 16);
    ghost var t := FullWidth(i);
    Pow16Facts();
    Base16Nibbles(i, 16);
    assert n[0..] + Zeros(0) == n;
    s := [];
    var cur := i;
    for k := 0 to 16
      invariant cur == Base16(n[k..] + Zeros(k))
      invariant s == Kept(t[..k], skipLeadingZeroes)
    {
      RoundNibbles(n, k);
      HexTextPrefix(n, k);
      cur, s := EncodeRound(cur, s, skipLeadingZeroes, n[k..] + Zeros(k), t[..k]);
    }
    assert t[..16] == t;
  }

  /** `to_vec_u64`: the same loop, pushing the digit bytes onto a vector. */
  method ToVecU64(i: U64, skipLeadingZeroes: bool) returns (v: seq<Byte>)
    ensures v == U64Text(i, skipLeadingZeroes)
  {
    ghost var n := Nibbles(i, 16);
    ghost var t := FullWidth(i);
    Pow16Facts();
    Base16Nibbles(i, 16);
    assert n[0..] + Zeros(0) == n;
    v := [];
    var cur := i;
    for k := 0 to 16
      invariant cur == Base16(n[k..] + Zeros(k))
      invariant v == Kept(t[..k], skipLeadingZeroes)
    {
      RoundNibbles(n, k);
      HexTextPrefix(n, k);
      cur, v := EncodeRound(cur, v, skipLeadingZeroes, n[k..] + Zeros(k), t[..k]);
    }
    assert t[..16] == t;
  }

  /** Character `k` of the full-width text is `HEX_CHARS[(i >> (60 - 4k)) & 0xf]`. */
  lemma FullWidthAt(i: U64, k: nat)
    requires k < 16
    ensures |U64Text(i, false)| == 16
    ensures U64Text(i, false)[k] == HEX_CHARS[(i / Pow16(15 - k)) % 16]
  {
    NibblesAt(i, 16, k);
  }

  /** With leading zeroes skipped the text is empty exactly for 0. */
  lemma U64TextEmpty(i: U64)
    ensures U64Text(i, true) == [] <==> i == 0
  {
    var n := Nibbles(i, 16);
    var t := FullWidth(i);
    StripLeadingZeroesShape(t);
    if i == 0 {
      forall k | 0 <= k < 16
        ensures t[k] == ZERO_CHAR
      {
        NibblesAt(i, 16, k);
      }
    }
    if U64Text(i, true) == [] {
      forall k | 0 <= k < 16
        ensures n[k] == 0
      {
        assert t[k] == HEX_CHARS[n[k]];
        EmittedDigitValue(n[k]);
      }
      Pow16Facts();
      Base16Nibbles(i, 16);
      Base16Zeros(n);
    }
  }

  /** A value below 16^m has only zeroes above its `m` low nibbles. */
  lemma {:induction false} NibblesHigh(x: nat, n: nat, m: nat)
    requires m <= n && x < Pow16(m)
    ensures Nibbles(x, n) == Zeros(n - m) + Nibbles(x, m)
  {
    if m == n {
      assert Zeros(0) == [];
    } else if m == 0 {
      NibblesHigh(x, n - 1, 0);
      assert Zeros(n - 1) + [0] == Zeros(n);
    } else {
      assert x < 16 * Pow16(m - 1);
      NibblesHigh(x / 16, n - 1, m - 1);
      assert Zeros(n - m) + Nibbles(x / 16, m - 1) + [x % 16] == Zeros(n - m) + Nibbles(x, m);
    }
  }

  /** The nibbles of 16^n - 1 are all 15. */
  lemma {:induction false} NibblesAllOnes(n: nat)
    ensures Nibbles(Pow16(n) - 1, n) == seq(n, _ => 15)
  {
    if n > 0 {
      NibblesAllOnes(n - 1);
      DivUnique(Pow16(n) - 1, 16, Pow16(n - 1) - 1, 15);
      assert seq(n - 1, _ => 15) + [15] == seq(n, _ => 15);
    }
  }

  /** `'0'` characters in front of `t` are all stripped. */
  lemma {:induction false} StripZeroPrefix(k: nat, t: seq<Byte>)
    ensures StripLeadingZeroes(HexText(Zeros(k)) + t) == StripLeadingZeroes(t)
  {
    if k > 0 {
      var z := HexText(Zeros(k)) + t;
      assert z[0] == ZERO_CHAR;
      assert z[1..] == HexText(Zeros(k - 1)) + t;
      StripZeroPrefix(k - 1, t);
    } else {
      assert HexText(Zeros(k)) + t == t;
    }
  }

  lemma HexTextAppend(a: seq<Nibble>, b: seq<Nibble>)
    ensures HexText(a + b) == HexText(a) + HexText(b)
  {
    assert forall j :: 0 <= j < |a + b| ==> HexText(a + b)[j] == (HexText(a) + HexText(b))[j];
  }

  /** The text of a value below 16^m is `16 - m` zero characters, then the digits of its `m` low nibbles. */
  lemma FullWidthLow(i: U64, m: nat)
    requires m <= 16 && i < Pow16(m)
    ensures FullWidth(i) == HexText(Zeros(16 - m)) + HexText(Nibbles(i, m))
  {
    NibblesHigh(i, 16, m);
    HexTextAppend(Zeros(16 - m), Nibbles(i, m));
  }

  /** With leading zeroes skipped, only the digits of the `m` low nibbles of a value below 16^m are left to strip. */
  lemma U64TextLow(i: U64, m: nat)
    requires m <= 16 && i < Pow16(m)
    ensures U64Text(i, true) == StripLeadingZeroes(HexText(Nibbles(i, m)))
  {
    FullWidthLow(i, m);
    StripZeroPrefix(16 - m, HexText(Nibbles(i, m)));
  }

  // ---------------------------------------------------------------------
  // Text to a 64-bit value: `from_string_u64`

  /** One byte folded into the value: the top byte is shifted out. */
  function FoldByte(n: U64, x: Byte): U64
  {
    (256 * n + x) % U64_MODULUS
  }

  /** Bytes folded big-endian into a `u64` with `n = (n << 8) | byte`, wrapping. */
  function WrappingFold(b: seq<Byte>): U64
  {
    if b == [] then 0 else FoldByte(WrappingFold(b[..|b| - 1]), b[|b| - 1])
  }

  /**
   * What `from_string_u64` returns for `s`: the wrapping fold over the bytes
   * `from_string` returns. That is the value of the complete digit pairs of
   * the input, reduced to 64 bits: a trailing odd digit is dropped, and only
   * the last sixteen digits of the rest survive the wrapping shifts.
   */
  function DecodingU64(s: seq<Byte>): (r: U64)
    ensures r == Base16(PairedDigits(s)) % U64_MODULUS
  {
    DecodingPaired(s);
    FoldPackedNibbles(PairedDigits(s));
    WrappingFold(Decoding(s))
  }

  /** `n.wrapping_shl(8) | byte`: shift a completed byte into the value. */
  method ShiftInByte(n: U64, byte: Byte) returns (r: U64)
    ensures r == FoldByte(n, byte)
  {
    ShiftOrByte(n, byte);
    r := Or(U64Shl8(n), byte);
  }

  /** The fold over one more byte. */
  lemma WrappingFoldSnoc(b: seq<Byte>, x: Byte)
    ensures WrappingFold(b + [x]) == FoldByte(WrappingFold(b), x)
  {
    assert (b + [x])[..|b|] == b;
  }

  /** The state of `from_string_u64` after the digits `d`: the value folded so far and the pending nibble. */
  ghost predicate FoldState(d: seq<Nibble>, n: U64, byte: Byte, have8: bool)
  {
    n == WrappingFold(PackNibbles(d)) && Pending(d, byte, have8)
  }

  /** Scanning a digit `v`: a completed byte is folded into the value. */
  lemma FoldDigit(d: seq<Nibble>, n: U64, byte: Byte, have8: bool, v: Nibble, next: Byte)
    requires FoldState(d, n, byte, have8) && next == 16 * (byte % 16) + v
    ensures FoldState(d + [v], if have8 then FoldByte(n, next) else n, next, !have8)
  {
    PendingStep(d, byte, have8, v);
    if have8 {
      PackAppendOdd(d, v);
      WrappingFoldSnoc(PackNibbles(d), next);
    } else {
      PackAppendEven(d, v);
    }
  }

  /**
   * One hex digit `v` met by the scan of `from_string_u64`: shift it into
   * `byte`, fold `byte` into `n` if it was the second digit of a pair, flip
   * the flag.
   */
  method FoldStep(n: U64, byte: Byte, have8: bool, v: Nibble, ghost d: seq<Nibble>)
    returns (n': U64, byte': Byte, have8': bool)
    requires FoldState(d, n, byte, have8)
    ensures FoldState(d + [v], n', byte', have8')
    ensures n' == if have8 then FoldByte(n, byte') else n
  {
    byte' := ShiftInNibble(byte, v);
    FoldDigit(d, n, byte, have8, v, byte');
    n' := n;
    if have8 {
      n' := ShiftInByte(n', byte');
    }
    have8' := !have8;
  }

  /**
   * The body of the scan of `from_string_u64` for one byte `c`: a digit
   * goes to `FoldStep` with its value; any other byte leaves the state as
   * it is.
   */
  method ScanByteU64(n: U64, byte: Byte, have8: bool, c: Byte, ghost d: seq<Nibble>)
    returns (n': U64, byte': Byte, have8': bool)
    requires FoldState(d, n, byte, have8)
    ensures FoldState(d + DigitOf(c), n', byte', have8')
  {
    if 48 <= c <= 57 {
      n', byte', have8' := FoldStep(n, byte, have8, c - 48, d);
    } else if 65 <= c <= 70 {
      n', byte', have8' := FoldStep(n, byte, have8, c - 55, d);
    } else if 97 <= c <= 102 {
      n', byte', have8' := FoldStep(n, byte, have8, c - 87, d);
    } else {
      n', byte', have8' := n, byte, have8;
      assert d + DigitOf(c) == d;
    }
  }

  /**
   * `from_string_u64`: the scan of `from_string`, folding each completed
   * byte into `n` instead of pushing it.
   */
  method FromStringU64(s: seq<Byte>) returns (n: U64)
    ensures n == DecodingU64(s)
  {
    n := 0;
    var byte: Byte := 0;
    var have8 := false;
    assert s[..0] == [];
    for i := 0 to |s|
      invariant FoldState(HexDigits(s[..i]), n, byte, have8)
    {
      HexDigitsSnoc(s, i);
      n, byte, have8 := ScanByteU64(n, byte, have8, s[i], HexDigits(s[..i]));
    }
    assert s[..|s|] == s;
  }

  lemma ModAddMultiple(k: int, y: int)
    ensures (k * U64_MODULUS + y) % U64_MODULUS == y % U64_MODULUS
  {
    DivUnique(k * U64_MODULUS + y, U64_MODULUS, k + y / U64_MODULUS, y % U64_MODULUS);
  }

  /** Reducing before the shift does not change the reduced result. */
  lemma ModAbsorb(x: int, y: int)
    ensures (256 * (x % U64_MODULUS) + y) % U64_MODULUS == (256 * x + y) % U64_MODULUS
  {
    var q := x / U64_MODULUS;
    assert 256 * x + y == (256 * q) * U64_MODULUS + (256 * (x % U64_MODULUS) + y);
    ModAddMultiple(256 * q, 256 * (x % U64_MODULUS) + y);
  }

  /** Folding packed nibbles gives their base-16 value, reduced to 64 bits. */
  lemma {:induction false} FoldPackedNibbles(d: seq<Nibble>)
    requires |d| % 2 == 0
    ensures WrappingFold(PackNibbles(d)) == Base16(d) % U64_MODULUS
  {
    if d != [] {
      var e, a, c := d[..|d| - 2], d[|d| - 2], d[|d| - 1];
      var y := 16 * (a as int) + c;
      assert d == e + [a] + [c];
      PackPair(e, a, c);
      Base16Pair(e, a, c);
      WrappingFoldSnoc(PackNibbles(e), y);
      FoldPackedNibbles(e);
      ModAbsorb(Base16(e), y);
    }
  }

  /** Two more nibbles make one more byte. */
  lemma PackPair(e: seq<Nibble>, a: Nibble, c: Nibble)
    requires |e| % 2 == 0
    ensures PackNibbles(e + [a] + [c]) == PackNibbles(e) + [16 * (a as int) + c]
  {
    PackAppendEven(e, a);
    PackAppendOdd(e + [a], c);
    assert (e + [a])[|e|] == a;
  }

  /** Two more digits multiply the value by 256. */
  lemma Base16Pair(e: seq<Nibble>, a: Nibble, c: Nibble)
    ensures Base16(e + [a] + [c]) == 256 * Base16(e) + (16 * (a as int) + c)
  {
    assert (e + [a] + [c])[..|e| + 1] == e + [a] && (e + [a])[..|e|] == e;
  }

  /** The digits of `s` that complete a pair: a trailing odd digit is dropped. */
  function PairedDigits(s: seq<Byte>): (e: seq<Nibble>)
    ensures |e| % 2 == 0 && e <= HexDigits(s) && |HexDigits(s)| - |e| <= 1
  {
    var d := HexDigits(s);
    d[..|d| - |d| % 2]
  }

  /** Only the paired digits are packed. */
  lemma DecodingPaired(s: seq<Byte>)
    ensures Decoding(s) == PackNibbles(PairedDigits(s))
  {
    var d, e := HexDigits(s), PairedDigits(s);
    if |d| % 2 == 1 {
      assert d == e + [d[|d| - 1]];
      PackAppendEven(e, d[|d| - 1]);
    } else {
      assert d == e;
    }
  }


  /** `from_string_u64(to_string_u64(i, false)) == i`. */
  lemma DecodingU64FullWidth(i: U64)
    ensures DecodingU64(U64Text(i, false)) == i
  {
    var n := Nibbles(i, 16);
    assert U64Text(i, false) == HexText(n);
    HexDigitsOfText(n);
    FoldPackedNibbles(n);
    NibblesValue(i);
  }

  /** The sixteen nibbles of a `u64` are its base-16 digits. */
  lemma NibblesValue(i: U64)
    ensures Base16(Nibbles(i, 16)) % U64_MODULUS == i
  {
    Pow16Facts();
    Base16Nibbles(i, 16);
    DivUnique(i, U64_MODULUS, 0, i);
  }

  /** Reading the text of some nibbles back gives the nibbles. */
  lemma {:induction false} HexDigitsOfText(d: seq<Nibble>)
    ensures HexDigits(HexText(d)) == d
  {
    if d != [] {
      var d' := d[..|d| - 1];
      assert HexText(d)[..|d| - 1] == HexText(d');
      HexDigitsOfText(d');
      EmittedDigitValue(d[|d| - 1]);
    }
  }
}

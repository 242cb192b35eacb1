/**
 * The entry point of `src/lib.rs` and its canonical digest encoder: the 64
 * coefficients of the tree digest, nine bits each, are packed into a
 * 72-byte little-endian array through a chain of string transformations
 * (per-element binary, bit reversal, hex digits, byte parsing).
 */
module Lib {
  import opened Wrappers
  import opened Swifft
  import opened Bits
  import Hash

  /** `SWIFFT_DIGEST_BITS`: `Z257::NUM_BITS * Polynomial::N`. */
  const SWIFFT_DIGEST_BITS: nat := NUM_BITS * N

  /** Length of the encoded digest. */
  const DIGEST_BYTES: nat := 72

  // ---------------------------------------------------------------------
  // Characters and binary strings
  // ---------------------------------------------------------------------

  predicate IsBinaryChar(c: char)
  {
    c == '0' || c == '1'
  }

  predicate IsBinary(s: string)
  {
    forall i :: 0 <= i < |s| ==> IsBinaryChar(s[i])
  }

  function Digit(c: char): nat
  {
    if c == '1' then 1 else 0
  }

  function BitChar(b: nat): char
  {
    if b == 1 then '1' else '0'
  }

  /** The value of a string of binary digits, most significant digit first. */
  function BinValue(s: string): nat
  {
    if |s| == 0 then 0 else 2 * BinValue(s[..|s| - 1]) + Digit(s[|s| - 1])
  }

  /** The value of nibble `t` of `bits`: characters `[4 t, 4 t + 4)`. */
  function NibbleAt(bits: string, t: nat): nat
    requires 4 * t + 4 <= |bits|
  {
    BinValue(bits[4 * t .. 4 * t + 4])
  }

  /** A digit that `u8::from_str_radix(_, 16)` accepts. */
  predicate IsHexDigit(c: char)
  {
    ('0' <= c <= '9') || ('a' <= c <= 'f') || ('A' <= c <= 'F')
  }

  function HexDigitValue(c: char): (v: nat)
    requires IsHexDigit(c)
    ensures v < 16
  {
    if c <= '9' then c as int - '0' as int
    else if c >= 'a' then c as int - 'a' as int + 10
    else c as int - 'A' as int + 10
  }

  // ---------------------------------------------------------------------
  // The string pipeline
  // ---------------------------------------------------------------------

  /** `format!("{e:b}")`: binary digits, most significant first, without leading zeros. */
  function FormatBinary(e: nat): (s: string)
    ensures 1 <= |s| && IsBinary(s)
    ensures |s| > 1 ==> s[0] == '1'
  {
    if e < 2 then [BitChar(e)] else FormatBinary(e / 2) + [BitChar(e % 2)]
  }

  /** `format!("{:0>w}", s)`: `s` right-aligned in `w` characters, filled with '0'. */
  function ZeroPadLeft(s: string, w: nat): (r: string)
    ensures |r| == if |s| < w then w else |s|
  {
    if |s| < w then seq(w - |s|, _ => '0') + s else s
  }

  /** `.chars().rev().collect()`. */
  function Reverse(s: string): (r: string)
    ensures |r| == |s|
    ensures forall i :: 0 <= i < |s| ==> r[i] == s[|s| - 1 - i]
  {
    if |s| == 0 then [] else [s[|s| - 1]] + Reverse(s[..|s| - 1])
  }

  /** `bits_9_le`: the binary form of `e`, padded to nine digits, reversed. */
  function ElementBits(e: uint16): (bits: string)
    ensures |bits| >= NUM_BITS && IsBinary(bits)
  {
    ZeroPadLeftValue(FormatBinary(e), NUM_BITS);
    Reverse(ZeroPadLeft(FormatBinary(e), NUM_BITS))
  }

  /** `bit_string_576` after the digest loop: the `ElementBits` of every element, in order. */
  function BitString(digest: seq<uint16>): string
  {
    if |digest| == 0 then "" else BitString(digest[..|digest| - 1]) + ElementBits(digest[|digest| - 1])
  }

  /** `nibble_bin_to_hex`: the hex digit of a four-character binary string;
    * `None` where the source panics. */
  function NibbleBinToHex(bin: string): (hex: Option<char>)
    ensures hex.Some? <==> |bin| == 4 && IsBinary(bin)
    ensures hex.Some? ==> IsHexDigit(hex.value) && HexDigitValue(hex.value) == BinValue(bin)
  {
    NibbleValue(bin);
    if bin == "0000" then Some('0')
    else if bin == "0001" then Some('1')
    else if bin == "0010" then Some('2')
    else if bin == "0011" then Some('3')
    else if bin == "0100" then Some('4')
    else if bin == "0101" then Some('5')
    else if bin == "0110" then Some('6')
    else if bin == "0111" then Some('7')
    else if bin == "1000" then Some('8')
    else if bin == "1001" then Some('9')
    else if bin == "1010" then Some('a')
    else if bin == "1011" then Some('b')
    else if bin == "1100" then Some('c')
    else if bin == "1101" then Some('d')
    else if bin == "1110" then Some('e')
    else if bin == "1111" then Some('f')
    else None
  }

  /** `be_hex_string`: the string cut into four-character nibbles (a shorter
    * tail is dropped), each mapped through `nibble_bin_to_hex`; `None` where
    * a nibble makes the source panic. */
  function HexString(bits: string): (hex: Option<string>)
    ensures hex.Some? <==> IsBinary(bits[..|bits| / 4 * 4])
    ensures hex.Some? ==> |hex.value| == |bits| / 4
    decreases |bits|
  {
    if |bits| < 4 then Some("")
    else
      WholeNibblesSplit(bits);
      match NibbleBinToHex(bits[..4])
      case None => None
      case Some(h) =>
        match HexString(bits[4..])
        case None => None
        case Some(rest) => Some([h] + rest)
  }

  /** The whole nibbles of `bits` are binary iff its first nibble is and the
    * whole nibbles of the rest are. */
  lemma WholeNibblesSplit(bits: string)
    requires |bits| >= 4
    ensures IsBinary(bits[..|bits| / 4 * 4]) <==> IsBinary(bits[..4]) && IsBinary(bits[4..][..(|bits| - 4) / 4 * 4])
  {
    var n := |bits| / 4 * 4;
    assert (|bits| - 4) / 4 * 4 == n - 4;
    assert bits[..n] == bits[..4] + bits[4..][..n - 4];
  }

  /** `u8::from_str_radix` of the two characters `hi`, `lo` in base 16: two
    * hex digits, or a '+' sign and one digit; `None` where the source's
    * `unwrap` panics. */
  function ParseHexByte(hi: char, lo: char): (b: Option<uint8>)
    ensures b.Some? <==> (IsHexDigit(hi) || hi == '+') && IsHexDigit(lo)
    ensures b.Some? && IsHexDigit(hi) ==> b.value == 16 * HexDigitValue(hi) + HexDigitValue(lo)
    ensures b.Some? && hi == '+' ==> b.value == HexDigitValue(lo)
  {
    if !IsHexDigit(lo) then None
    else if hi == '+' then Some(HexDigitValue(lo))
    else if IsHexDigit(hi) then Some(16 * HexDigitValue(hi) + HexDigitValue(lo))
    else None
  }

  // ---------------------------------------------------------------------
  // The packing the encoder promises
  // ---------------------------------------------------------------------

  /** A digest every element of which fits in `NUM_BITS` bits. */
  predicate IsDigest9(digest: seq<uint16>)
  {
    |digest| == N && forall i :: 0 <= i < N ==> digest[i] < 512
  }

  /** The sum of `digest[i] * 2^(9 i)`. */
  function PackedValue(digest: seq<uint16>): nat
  {
    if |digest| == 0 then 0 else digest[0] + 512 * PackedValue(digest[1..])
  }

  /** The `n` low bytes of `x`, least significant first. */
  function LeBytes(x: nat, n: nat): (bytes: seq<uint8>)
    ensures |bytes| == n
  {
    if n == 0 then [] else [x % 256] + LeBytes(x / 256, n - 1)
  }

  /** Bytes read as one little-endian number. */
  function LeValue(bytes: seq<uint8>): nat
  {
    if |bytes| == 0 then 0 else bytes[0] + 256 * LeValue(bytes[1..])
  }

  /** The `n` low 9-bit limbs of `x`, least significant first. */
  function Limbs9(x: nat, n: nat): (limbs: seq<uint16>)
    ensures |limbs| == n
    ensures forall i :: 0 <= i < n ==> limbs[i] < 512
  {
    if n == 0 then [] else [x % 512] + Limbs9(x / 512, n - 1)
  }

  /** The canonical digest: the 72-byte little-endian encoding of `PackedValue(digest)`. */
  function Encode(digest: seq<uint16>): (bytes: seq<uint8>)
    ensures |bytes| == DIGEST_BYTES
  {
    LeBytes(PackedValue(digest), DIGEST_BYTES)
  }

  /** The inverse of `Encode`: the 64 nine-bit groups of the 72 bytes. */
  function Decode(bytes: seq<uint8>): (digest: seq<uint16>)
    ensures IsDigest9(digest)
  {
    Limbs9(LeValue(bytes), N)
  }

  // ---------------------------------------------------------------------
  // The encoder and the entry point, as the source runs them
  // ---------------------------------------------------------------------

  /** The `for element in digest` loop: appends the `bits_9_le` of every
    * element to `bit_string_576`. */
  method AppendElementBits(digest: seq<uint16>) returns (bitString: string)
    ensures bitString == BitString(digest)
    ensures |bitString| >= NUM_BITS * |digest|
    ensures |bitString| == NUM_BITS * |digest| <==> forall i :: 0 <= i < |digest| ==> digest[i] < 512
  {
    bitString := "";
    for i := 0 to |digest|
      invariant bitString == BitString(digest[..i])
    {
      assert digest[..i + 1][..i] == digest[..i];
      bitString := bitString + ElementBits(digest[i]);
    }
    assert digest[..|digest|] == digest;
    BitStringLength(digest);
  }

  /** The `for_each` over two-digit chunks of `be_hex_string`: each chunk is
    * parsed as a byte and inserted at index 0, so the last chunk parsed
    * comes first. */
  method InsertParsedBytes(hex: string) returns (le: seq<uint8>)
    requires |hex| % 2 == 0
    requires forall t :: 0 <= t < |hex| ==> IsHexDigit(hex[t])
    ensures |le| == |hex| / 2
    ensures forall m :: 0 <= m < |le| ==>
      le[m] == 16 * HexDigitValue(hex[2 * (|le| - 1 - m)]) + HexDigitValue(hex[2 * (|le| - 1 - m) + 1])
  {
    le := [];
    for c := 0 to |hex| / 2
      invariant |le| == c
      invariant forall m :: 0 <= m < c ==>
        le[m] == 16 * HexDigitValue(hex[2 * (c - 1 - m)]) + HexDigitValue(hex[2 * (c - 1 - m) + 1])
    {
      // `u8::from_str_radix(byte_str, 16).unwrap()` succeeds on two hex digits
      var byte := ParseHexByte(hex[2 * c], hex[2 * c + 1]);
      le := [byte.value] + le;
    }
  }

  /** The encoding half of `swifft_hash_1280_720_24`: builds the bit string,
    * checks its length, reverses it, maps it to hex digits and assembles the
    * bytes. */
  method EncodeDigest(digest: seq<uint16>) returns (r: Outcome<seq<uint8>>)
    requires |digest| == N
    ensures r.Panic? <==> exists i :: 0 <= i < N && digest[i] >= 512
    ensures r.Panic? ==> r.failure == AssertEqFailed(|BitString(digest)|, SWIFFT_DIGEST_BITS)
    ensures r.Ok? ==> r.value == Encode(digest)
  {
    var bitString := AppendElementBits(digest);
    if |bitString| != SWIFFT_DIGEST_BITS {
      return Panic(AssertEqFailed(|bitString|, SWIFFT_DIGEST_BITS));
    }
    BitStringLayout(digest);
    bitString := Reverse(bitString);
    HexStringLayout(bitString);
    var hex := HexString(bitString).value;
    assert |hex| == 144;
    var le := InsertParsedBytes(hex);
    assert |le| == DIGEST_BYTES;
    PipelineMatchesEncode(digest, bitString, hex, le);
    r := Ok(le);
  }

  /** `swifft_hash_1280_720_24` of `src/lib.rs`: checks the image length,
    * hashes the image and encodes the digest. */
  method SwifftHash1280x720x24(sw: Primitive, imageData: seq<uint8>) returns (r: Outcome<seq<uint8>>)
    ensures |imageData| != Hash.IMAGE_BYTES ==> r == Panic(AssertEqFailed(|imageData|, Hash.IMAGE_BYTES))
    ensures |imageData| == Hash.IMAGE_BYTES ==> r == Ok(Encode(Hash.TreeHash(sw, imageData)))
    ensures |imageData| == Hash.IMAGE_BYTES ==> Decode(r.value) == Hash.TreeHash(sw, imageData)
  {
    if |imageData| != Hash.IMAGE_BYTES {
      return Panic(AssertEqFailed(|imageData|, Hash.IMAGE_BYTES));
    }
    var digest := Hash.SwifftHash1280x720x24(sw, imageData);
    r := EncodeDigest(digest.value);
    DecodeEncode(digest.value);
  }

  // ---------------------------------------------------------------------
  // Lemmas: the string pipeline
  // ---------------------------------------------------------------------

  lemma {:induction false} ZerosValue(k: nat)
    ensures BinValue(seq(k, _ => '0')) == 0
  {
    if k > 0 {
      assert seq(k, _ => '0')[..k - 1] == seq(k - 1, _ => '0');
      ZerosValue(k - 1);
    }
  }

  /** The value of a four-character string, digit by digit. */
  lemma NibbleValue(bin: string)
    ensures |bin| == 4 ==>
      BinValue(bin) == 8 * Digit(bin[0]) + 4 * Digit(bin[1]) + 2 * Digit(bin[2]) + Digit(bin[3])
  {
    if |bin| == 4 {
      var s3 := bin[..3];
      var s2 := s3[..2];
      var s1 := s2[..1];
      assert BinValue(bin) == 2 * BinValue(s3) + Digit(bin[3]);
      assert BinValue(s3) == 2 * BinValue(s2) + Digit(bin[2]);
      assert BinValue(s2) == 2 * BinValue(s1) + Digit(bin[1]);
      assert s1[..0] == [];
      assert BinValue(s1) == Digit(bin[0]);
    }
  }

  lemma BinValueSnoc(s: string, c: char)
    ensures BinValue(s + [c]) == 2 * BinValue(s) + Digit(c)
  {
    assert (s + [c])[..|s|] == s;
  }

  /** Appending `b` shifts the value of `a` left by `|b|` bits. */
  lemma {:induction false} BinValueConcat(a: string, b: string)
    ensures BinValue(a + b) == BinValue(a) * Pow2(|b|) + BinValue(b)
  {
    if |b| == 0 {
      assert a + b == a;
    } else {
      var init, last := b[..|b| - 1], b[|b| - 1];
      assert b == init + [last];
      assert a + b == (a + init) + [last];
      BinValueSnoc(a + init, last);
      BinValueSnoc(init, last);
      BinValueConcat(a, init);
      var x, p, y, d := BinValue(a), Pow2(|init|), BinValue(init), Digit(last);
      assert Pow2(|b|) == 2 * p;
      ShiftLeftOne(x, p, y, d);
    }
  }

  lemma ShiftLeftOne(x: int, p: int, y: int, d: int)
    ensures 2 * (x * p + y) + d == x * (2 * p) + (2 * y + d)
  {
  }

  /** Bit `j` of a binary string's value is its `j`-th digit from the right. */
  lemma {:induction false} BitOfBinValue(s: string, j: nat)
    requires j < |s|
    ensures Bit(BinValue(s), j) == Digit(s[|s| - 1 - j])
  {
    var init := s[..|s| - 1];
    var d := Digit(s[|s| - 1]);
    assert Pow2(1) == 2;
    assert BinValue(s) == d + Pow2(1) * BinValue(init);
    BitOfSplit(d, BinValue(init), 1, j);
    if j > 0 {
      BitOfBinValue(init, j - 1);
    }
  }

  /** `FormatBinary` writes exactly the value of `e`. */
  lemma {:induction false} FormatBinaryValue(e: nat)
    ensures BinValue(FormatBinary(e)) == e
  {
    if e >= 2 {
      var s := FormatBinary(e);
      assert s[..|s| - 1] == FormatBinary(e / 2);
      FormatBinaryValue(e / 2);
    }
  }

  /** `FormatBinary(e)` fits in `n` characters exactly when `e < 2^n`. */
  lemma {:induction false} FormatBinaryLength(e: nat, n: nat)
    requires n >= 1
    ensures |FormatBinary(e)| <= n <==> e < Pow2(n)
  {
    assert Pow2(n) == 2 * Pow2(n - 1);
    if e >= 2 && n > 1 {
      FormatBinaryLength(e / 2, n - 1);
    }
  }

  /** Zero-padding on the left keeps a binary string binary and keeps its value. */
  lemma ZeroPadLeftValue(s: string, w: nat)
    requires IsBinary(s)
    ensures IsBinary(ZeroPadLeft(s, w))
    ensures BinValue(ZeroPadLeft(s, w)) == BinValue(s)
  {
    if |s| < w {
      BinValueConcat(seq(w - |s|, _ => '0'), s);
      ZerosValue(w - |s|);
    }
  }

  /** An element below 512 yields exactly nine characters, bit `j` of the
    * element at offset `j`; a larger element yields more than nine. */
  lemma ElementBitsLayout(e: uint16)
    ensures e < 512 ==> |ElementBits(e)| == NUM_BITS
    ensures e < 512 ==> forall j :: 0 <= j < NUM_BITS ==> ElementBits(e)[j] == BitChar(Bit(e, j))
    ensures e >= 512 ==> |ElementBits(e)| > NUM_BITS
  {
    var f := FormatBinary(e);
    var padded := ZeroPadLeft(f, NUM_BITS);
    assert Pow2(9) == 512;
    FormatBinaryLength(e, NUM_BITS);
    if e < 512 {
      FormatBinaryValue(e);
      ZeroPadLeftValue(f, NUM_BITS);
      forall j | 0 <= j < NUM_BITS
        ensures ElementBits(e)[j] == BitChar(Bit(e, j))
      {
        BitOfBinValue(padded, j);
        assert IsBinaryChar(padded[8 - j]);
      }
    }
  }

  /** The bit string has at least nine characters per element, and exactly
    * that many precisely when every element is below 512. */
  lemma {:induction false} BitStringLength(digest: seq<uint16>)
    ensures |BitString(digest)| >= NUM_BITS * |digest|
    ensures |BitString(digest)| == NUM_BITS * |digest| <==> forall i :: 0 <= i < |digest| ==> digest[i] < 512
  {
    if |digest| > 0 {
      var init := digest[..|digest| - 1];
      BitStringLength(init);
      ElementBitsLayout(digest[|digest| - 1]);
      assert forall i :: 0 <= i < |init| ==> init[i] == digest[i];
    }
  }

  /** Character `p` of the bit string is bit `p % 9` of element `p / 9`. */
  lemma {:induction false} BitStringLayout(digest: seq<uint16>)
    requires forall i :: 0 <= i < |digest| ==> digest[i] < 512
    ensures |BitString(digest)| == NUM_BITS * |digest|
    ensures forall p :: 0 <= p < NUM_BITS * |digest| ==> BitString(digest)[p] == BitChar(Bit(digest[p / 9], p % 9))
  {
    if |digest| > 0 {
      var n := |digest|;
      var init := digest[..n - 1];
      BitStringLayout(init);
      ElementBitsLayout(digest[n - 1]);
      forall p | 0 <= p < NUM_BITS * n
        ensures BitString(digest)[p] == BitChar(Bit(digest[p / 9], p % 9))
      {
        if p < 9 * (n - 1) {
          assert BitString(digest)[p] == BitString(init)[p];
          assert init[p / 9] == digest[p / 9];
        } else {
          assert p / 9 == n - 1;
          assert BitString(digest)[p] == ElementBits(digest[n - 1])[p - 9 * (n - 1)];
        }
      }
    }
  }

  /** A binary string of whole nibbles maps to one hex digit per nibble, of the nibble's value. */
  lemma {:induction false} HexStringLayout(bits: string)
    requires |bits| % 4 == 0 && IsBinary(bits)
    ensures HexString(bits).Some?
    ensures |HexString(bits).value| == |bits| / 4
    ensures forall t :: 0 <= t < |bits| / 4 ==>
      IsHexDigit(HexString(bits).value[t]) && HexDigitValue(HexString(bits).value[t]) == NibbleAt(bits, t)
  {
    if |bits| >= 4 {
      var rest := bits[4..];
      HexStringLayout(rest);
      var h := HexString(bits).value;
      forall t | 0 <= t < |bits| / 4
        ensures IsHexDigit(h[t]) && HexDigitValue(h[t]) == NibbleAt(bits, t)
      {
        if t > 0 {
          assert rest[4 * (t - 1) .. 4 * (t - 1) + 4] == bits[4 * t .. 4 * t + 4];
        }
      }
    }
  }

  /** Byte `c` of a binary string is worth 16 times nibble `2 c` plus nibble `2 c + 1`. */
  lemma ByteOfNibbles(s: string, c: nat)
    requires 8 * c + 8 <= |s|
    ensures BinValue(s[8 * c .. 8 * c + 8]) == 16 * NibbleAt(s, 2 * c) + NibbleAt(s, 2 * c + 1)
  {
    var w := s[8 * c .. 8 * c + 8];
    assert w[..4] == s[4 * (2 * c) .. 4 * (2 * c) + 4];
    assert w[4..] == s[4 * (2 * c + 1) .. 4 * (2 * c + 1) + 4];
    assert w == w[..4] + w[4..];
    BinValueConcat(w[..4], w[4..]);
    assert Pow2(4) == 16;
  }

  lemma {:induction false} BinValueBound(s: string)
    ensures BinValue(s) < Pow2(|s|)
  {
    if |s| > 0 {
      BinValueBound(s[..|s| - 1]);
    }
  }

  /** Bit `b` of byte `71 - k` of the reversed bit string is bit `(8 k + b) % 9`
    * of element `(8 k + b) / 9`. */
  lemma ReversedBitAt(digest: seq<uint16>, msbFirst: string, k: nat, b: nat)
    requires IsDigest9(digest)
    requires |msbFirst| == SWIFFT_DIGEST_BITS
    requires msbFirst == Reverse(BitString(digest))
    requires k < DIGEST_BYTES && b < 8
    ensures Bit(BinValue(msbFirst[8 * (71 - k) .. 8 * (71 - k) + 8]), b) == Bit(digest[(8 * k + b) / 9], (8 * k + b) % 9)
  {
    var p := 8 * k + b;
    var bit := Bit(digest[p / 9], p % 9);
    WindowBit(msbFirst, k, b);
    BitStringLayout(digest);
    assert msbFirst[575 - p] == BitString(digest)[p] == BitChar(bit);
    assert Digit(BitChar(bit)) == bit;
  }

  /** Bit `b` of the eight-character window `71 - k` of a 576-character string is
    * the digit at `575 - (8 k + b)`. */
  lemma WindowBit(msbFirst: string, k: nat, b: nat)
    requires |msbFirst| == SWIFFT_DIGEST_BITS
    requires k < DIGEST_BYTES && b < 8
    ensures Bit(BinValue(msbFirst[8 * (71 - k) .. 8 * (71 - k) + 8]), b) == Digit(msbFirst[575 - (8 * k + b)])
  {
    var w := msbFirst[8 * (71 - k) .. 8 * (71 - k) + 8];
    BitOfBinValue(w, b);
    assert w[7 - b] == msbFirst[575 - (8 * k + b)];
  }

  /** Bit `b` of byte `k` of the encoding is bit `(8 k + b) % 9` of element `(8 k + b) / 9`. */
  lemma EncodedBitAt(digest: seq<uint16>, k: nat, b: nat)
    requires IsDigest9(digest)
    requires k < DIGEST_BYTES && b < 8
    ensures Bit(Encode(digest)[k], b) == Bit(digest[(8 * k + b) / 9], (8 * k + b) % 9)
  {
    var x, p := PackedValue(digest), 8 * k + b;
    assert Encode(digest) == LeBytes(x, DIGEST_BYTES);
    LeBytesBit(x, DIGEST_BYTES, k, b);
    assert Bit(Encode(digest)[k], b) == Bit(x, p);
    PackedValueBit(digest, p);
  }

  /** Byte `71 - k` of the reversed bit string, read as binary, is byte `k` of the encoding. */
  lemma PipelineByte(digest: seq<uint16>, msbFirst: string, k: nat)
    requires IsDigest9(digest)
    requires |msbFirst| == SWIFFT_DIGEST_BITS
    requires msbFirst == Reverse(BitString(digest))
    requires k < DIGEST_BYTES
    ensures BinValue(msbFirst[8 * (71 - k) .. 8 * (71 - k) + 8]) == Encode(digest)[k]
  {
    var v := BinValue(msbFirst[8 * (71 - k) .. 8 * (71 - k) + 8]);
    var e := Encode(digest)[k];
    forall b | 0 <= b < 8
      ensures Bit(v, b) == Bit(e, b)
    {
      ReversedBitAt(digest, msbFirst, k, b);
      EncodedBitAt(digest, k, b);
    }
    assert Pow2(8) == 256;
    BinValueBound(msbFirst[8 * (71 - k) .. 8 * (71 - k) + 8]);
    BitsEqual(v, e, 8);
  }

  /** The bytes the source assembles from the hex digits of the reversed bit
    * string are the canonical encoding of the digest. */
  lemma PipelineMatchesEncode(digest: seq<uint16>, msbFirst: string, hex: string, le: seq<uint8>)
    requires IsDigest9(digest)
    requires |msbFirst| == SWIFFT_DIGEST_BITS
    requires msbFirst == Reverse(BitString(digest))
    requires |hex| == 144
    requires forall t :: 0 <= t < 144 ==> IsHexDigit(hex[t]) && HexDigitValue(hex[t]) == NibbleAt(msbFirst, t)
    requires |le| == DIGEST_BYTES
    requires forall m :: 0 <= m < DIGEST_BYTES ==>
      le[m] == 16 * HexDigitValue(hex[2 * (71 - m)]) + HexDigitValue(hex[2 * (71 - m) + 1])
    ensures le == Encode(digest)
  {
    forall k | 0 <= k < DIGEST_BYTES
      ensures le[k] == Encode(digest)[k]
    {
      AssembledByte(digest, msbFirst, hex[2 * (71 - k)], hex[2 * (71 - k) + 1], k);
    }
  }

  /** The byte parsed from hex digits `2 (71 - k)` and `2 (71 - k) + 1` is byte `k` of the encoding. */
  lemma AssembledByte(digest: seq<uint16>, msbFirst: string, hi: char, lo: char, k: nat)
    requires IsDigest9(digest)
    requires |msbFirst| == SWIFFT_DIGEST_BITS
    requires msbFirst == Reverse(BitString(digest))
    requires k < DIGEST_BYTES && IsHexDigit(hi) && IsHexDigit(lo)
    requires HexDigitValue(hi) == NibbleAt(msbFirst, 2 * (71 - k))
    requires HexDigitValue(lo) == NibbleAt(msbFirst, 2 * (71 - k) + 1)
    ensures 16 * HexDigitValue(hi) + HexDigitValue(lo) == Encode(digest)[k]
  {
    ByteOfNibbles(msbFirst, 71 - k);
    PipelineByte(digest, msbFirst, k);
  }

  // ---------------------------------------------------------------------
  // Lemmas: the packing
  // ---------------------------------------------------------------------

  /** Bit `b` of byte `k` of `LeBytes(x, n)` is bit `8 k + b` of `x`. */
  lemma {:induction false} LeBytesBit(x: nat, n: nat, k: nat, b: nat)
    requires k < n && b < 8
    ensures Bit(LeBytes(x, n)[k], b) == Bit(x, 8 * k + b)
  {
    assert Pow2(8) == 256;
    BitOfSplit(x % 256, x / 256, 8, 8 * k + b);
    if k > 0 {
      LeBytesBit(x / 256, n - 1, k - 1, b);
    }
  }

  /** Bit `p` of `PackedValue(digest)` is bit `p % 9` of element `p / 9`. */
  lemma {:induction false} PackedValueBit(digest: seq<uint16>, p: nat)
    requires forall i :: 0 <= i < |digest| ==> digest[i] < 512
    requires p < 9 * |digest|
    ensures Bit(PackedValue(digest), p) == Bit(digest[p / 9], p % 9)
  {
    assert Pow2(9) == 512;
    BitOfSplit(digest[0], PackedValue(digest[1..]), 9, p);
    if p >= 9 {
      PackedValueBit(digest[1..], p - 9);
    }
  }

  /** Bit `b` of output byte `k` is bit `(8 k + b) % 9` of element `(8 k + b) / 9`. */
  lemma EncodeLayout(digest: seq<uint16>)
    requires IsDigest9(digest)
    ensures forall k, b :: 0 <= k < DIGEST_BYTES && 0 <= b < 8 ==>
      Bit(Encode(digest)[k], b) == Bit(digest[(8 * k + b) / 9], (8 * k + b) % 9)
  {
    forall k, b | 0 <= k < DIGEST_BYTES && 0 <= b < 8
      ensures Bit(Encode(digest)[k], b) == Bit(digest[(8 * k + b) / 9], (8 * k + b) % 9)
    {
      LeBytesBit(PackedValue(digest), DIGEST_BYTES, k, b);
      PackedValueBit(digest, 8 * k + b);
    }
  }

  lemma {:induction false} PackedValueBound(digest: seq<uint16>)
    requires forall i :: 0 <= i < |digest| ==> digest[i] < 512
    ensures PackedValue(digest) < Pow2(9 * |digest|)
  {
    if |digest| > 0 {
      PackedValueBound(digest[1..]);
      Pow2Add(9, 9 * (|digest| - 1));
      assert Pow2(9) == 512;
    }
  }

  lemma {:induction false} LeValueBound(bytes: seq<uint8>)
    ensures LeValue(bytes) < Pow2(8 * |bytes|)
  {
    if |bytes| > 0 {
      LeValueBound(bytes[1..]);
      Pow2Add(8, 8 * (|bytes| - 1));
      assert Pow2(8) == 256;
    }
  }

  lemma {:induction false} LeValueOfLeBytes(x: nat, n: nat)
    requires x < Pow2(8 * n)
    ensures LeValue(LeBytes(x, n)) == x
  {
    if n > 0 {
      Pow2Add(8, 8 * (n - 1));
      assert Pow2(8) == 256;
      assert LeBytes(x, n)[1..] == LeBytes(x / 256, n - 1);
      LeValueOfLeBytes(x / 256, n - 1);
    }
  }

  lemma {:induction false} LeBytesOfLeValue(bytes: seq<uint8>)
    ensures LeBytes(LeValue(bytes), |bytes|) == bytes
  {
    if |bytes| > 0 {
      LeBytesOfLeValue(bytes[1..]);
      assert LeValue(bytes) % 256 == bytes[0];
      assert LeValue(bytes) / 256 == LeValue(bytes[1..]);
    }
  }

  lemma {:induction false} Limbs9OfPackedValue(digest: seq<uint16>)
    requires forall i :: 0 <= i < |digest| ==> digest[i] < 512
    ensures Limbs9(PackedValue(digest), |digest|) == digest
  {
    if |digest| > 0 {
      Limbs9OfPackedValue(digest[1..]);
      assert PackedValue(digest) % 512 == digest[0];
      assert PackedValue(digest) / 512 == PackedValue(digest[1..]);
    }
  }

  lemma {:induction false} PackedValueOfLimbs9(x: nat, n: nat)
    requires x < Pow2(9 * n)
    ensures PackedValue(Limbs9(x, n)) == x
  {
    if n > 0 {
      Pow2Add(9, 9 * (n - 1));
      assert Pow2(9) == 512;
      assert Limbs9(x, n)[1..] == Limbs9(x / 512, n - 1);
      PackedValueOfLimbs9(x / 512, n - 1);
    }
  }

  /** Decoding the encoding of a digest recovers every element. */
  lemma DecodeEncode(digest: seq<uint16>)
    requires IsDigest9(digest)
    ensures Decode(Encode(digest)) == digest
  {
    PackedValueBound(digest);
    LeValueOfLeBytes(PackedValue(digest), DIGEST_BYTES);
    Limbs9OfPackedValue(digest);
  }

  /** Every 72-byte string is the encoding of exactly one digest: the packing has no spare bits. */
  lemma EncodeDecode(bytes: seq<uint8>)
    requires |bytes| == DIGEST_BYTES
    ensures Encode(Decode(bytes)) == bytes
  {
    LeValueBound(bytes);
    PackedValueOfLimbs9(LeValue(bytes), N);
    LeBytesOfLeValue(bytes);
  }

  /** Distinct digests have distinct encodings. */
  lemma EncodeInjective(d1: seq<uint16>, d2: seq<uint16>)
    requires IsDigest9(d1) && IsDigest9(d2)
    requires Encode(d1) == Encode(d2)
    ensures d1 == d2
  {
    DecodeEncode(d1);
    DecodeEncode(d2);
  }

  lemma {:induction false} PackedValueOfZeros(n: nat)
    ensures PackedValue(seq(n, _ => 0)) == 0
  {
    if n > 0 {
      assert seq(n, _ => 0)[1..] == seq(n - 1, _ => 0);
      PackedValueOfZeros(n - 1);
    }
  }

  lemma {:induction false} LeBytesOfZero(n: nat)
    ensures LeBytes(0, n) == seq(n, _ => 0)
  {
    if n > 0 {
      LeBytesOfZero(n - 1);
    }
  }

  /** The all-zero digest encodes to 72 zero bytes. */
  lemma EncodeZero()
    ensures Encode(seq(N, _ => 0)) == seq(DIGEST_BYTES, _ => 0)
  {
    PackedValueOfZeros(N);
    LeBytesOfZero(DIGEST_BYTES);
  }
}

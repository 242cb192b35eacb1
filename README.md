# swifft-bindgen: the reduction-tree hasher and its digest encoder, in Dafny

This project models the core of `swifft-bindgen`, a WebAssembly binding
that hashes one 1280x720 image with 24-bit pixels (2,764,800 bytes) with
the SWIFFT compression function, then packs the resulting 64 field elements
into 72 bytes.

- `hash.dfy` (module `Hash`, from `src/hash.rs`). It holds the crate
  constants, derived by chained ceiling division. It has the ground round
  (`GroundRound`: one compression per 128-byte block, read from a byte
  iterator that never runs dry). It has one `ReduceLevel` method for the
  three copy-pasted reduction rounds, called with the source's own counts.
  `CollectInput` fills the `[ZERO; M]` array from the shared iterator.
  `FinalRound` returns the coefficients. The pure functions `GroundLevel`,
  `NextLevel`, `GroupInput` and `TreeHash` state what the rounds compute.
- `lib.dfy` (module `Lib`, from `src/lib.rs`). It models the string
  pipeline of the encoder step by step: `FormatBinary` is `{:b}`,
  `ZeroPadLeft` is `{:0>9}`, then `Reverse`, `ElementBits`, `BitString`,
  `NibbleBinToHex`, `HexString` and `ParseHexByte`. Two loop methods do the
  work: `AppendElementBits` (the `push_str` loop) and `InsertParsedBytes`
  (the `insert(0, …)` loop). `EncodeDigest` and the entry point compose
  them. The model proves that this pipeline equals `Encode`, the 72-byte
  little-endian encoding of `Σ digest[i]·2^(9i)`. It proves the bit layout,
  the round trip with `Decode` in both directions, injectivity, and the
  all-zero case.
- `swifft.dfy` (module `Swifft`) is the interface of the external `swifft`
  crate. `Polynomial` is 64 coefficients in `[0, 257)`, and `ZERO` is all
  zeros. `parse_input_block` and `swifft_hash` are the two function-valued
  fields of a `Primitive`, which every operation takes as a parameter. So
  every result holds for any deterministic compression function.
- `bits.dfy` (module `Bits`) defines powers of two and the bits of a
  natural number. `wrappers.dfy` defines `Option` and `Outcome`.

A failing `assert_eq!` on a value that depends on the input becomes an
`Outcome.Panic` carrying both operands. This covers the image length and
the 576-character bit string. An `assert_eq!` that always holds becomes a
Dafny `assert`, so it is proved. Two `unwrap`s are proved never to fail:
the byte iterator's `next().unwrap()` and `from_str_radix(..).unwrap()`. So
is the panic arm of `nibble_bin_to_hex`.

Facts about the rounds' shape that the model keeps:

- The ground round does not pad a short final block: `next().unwrap()` at
  `src/hash.rs:26` needs 128 to divide the image size, and `RoundCounts`
  proves that it does.
- The code runs exactly three reduction rounds of fixed sizes, then one
  final compression; it does not loop until one digest remains.
- `FOURTH_ROUND_DIGEST` is derived from `SECOND_ROUND_DIGEST`
  (`src/hash.rs:13`), so it is 85, not the 6 its comment states. The model
  keeps 85. `FourthRoundPadding` shows that groups 6 to 84 of the fourth
  round compress the all-`ZERO` input. The final compression gets the same
  input as in the 6-group tree exactly when `swifft_hash` maps the
  all-`ZERO` input to `ZERO` (`FinalInputsAgreeIff`), so in that case the
  digests are equal (`FourthRoundCountHarmless`). Whether SWIFFT's linear
  compression maps the all-`ZERO` input to `ZERO` is not part of this
  model.

## Model

| member | source | states |
|---|---|---|
| `Hash.DivCeil` | src/hash.rs:9-13 | `usize::div_ceil`: the result is the least `r` with `a <= r * b` |
| `Hash.RoundCounts` | src/hash.rs:6-13 | the chained ceiling divisions give 2,764,800 bytes, 21,600 blocks (128 divides the image exactly), 1,350, 85 and 85 (not 6) digests |
| `Hash.CollectInput` | src/hash.rs:42-48 | slot `i` of `[ZERO; M]` takes the next digest when the shared iterator has one and stays `ZERO` otherwise; the iterator advances to `min(pos + M, len)` |
| `Hash.GroundRound` | src/hash.rs:18-35 | exactly `IMAGE_INPUT_BLOCKS` digests; digest `k` compresses bytes `[128k, 128(k+1))` in order; the byte iterator never runs dry, so the `unwrap` cannot panic |
| `Hash.ReduceLevel` | src/hash.rs:36-56 | a round of `count` groups returns `count` digests; digest `g` compresses `prev[gM .. gM+M)`, zero-padded past the end (the loop proves the shared iterator stands at `min(gM, len)` after `g` groups) |
| `Hash.FinalRound` | src/hash.rs:97-107 | returns the 64 coefficient values of the compression of the first `M` fourth-round digests, zero-padded |
| `Hash.Coefficients` | src/hash.rs:107 | the 64 values returned are the polynomial's coefficients, each below 257 |
| `Hash.TreeHash` | src/hash.rs:15-107 | the digest is 64 values, each below 257 |
| `Hash.SwifftHash1280x720x24` | src/hash.rs:15-107 | panics with both lengths when the input is not 2,764,800 bytes; otherwise returns `TreeHash`, and every length `assert_eq!` of the rounds holds |
| `Hash.GroupsPartitionLevel` | src/hash.rs:36-52 | with `ceil(len/M)` groups, digest `p` lands in slot `p % M` of group `p / M`, and every group starts inside the level |
| `Hash.DigestSlot` | src/hash.rs:43-48 | a single digest `p` lands in slot `p % M` of group `p / M < count` |
| `Hash.GroupStart` | src/hash.rs:40-48 | group `g < ceil(len/M)` starts at digest `gM`, which exists |
| `Hash.GroupSlot` | src/hash.rs:42-48 | slot `i` of group `g` is `prev[gM + i]` when that exists, `ZERO` otherwise |
| `Hash.GroupPastEndIsZero` | src/hash.rs:83-89 | a group starting at or past the end of the level is the all-`ZERO` input |
| `Hash.FourthRoundPadding` | src/hash.rs:13 | the fourth round has 85 groups where `ceil(85/16) = 6` would do, and groups 6 to 84 compress the all-`ZERO` input |
| `Hash.FinalInputIsFirstDigests` | src/hash.rs:100-106 | with at least `M` fourth-round digests, the final input is exactly the first `M` of them |
| `Hash.FinalInputsAgreeIff` | src/hash.rs:79-106 | the final inputs of the 85-group and the 6-group fourth rounds are equal iff compressing the all-`ZERO` input yields `ZERO` |
| `Hash.FourthRoundCountHarmless` | src/hash.rs:10-13 | when compressing the all-`ZERO` input yields `ZERO`, the digest equals that of the tree whose round sizes are each derived from the round before |
| `Lib.FormatBinary` | src/lib.rs:36 | `{:b}` yields a non-empty binary string with no leading zero |
| `Lib.FormatBinaryValue` | src/lib.rs:36 | the binary string's value is the element |
| `Lib.FormatBinaryLength` | src/lib.rs:36-40 | the binary string fits in `n` characters iff the element is below `2^n` |
| `Lib.ZeroPadLeft` | src/lib.rs:37 | `{:0>w}` yields `max(len, w)` characters |
| `Lib.ZeroPadLeftValue` | src/lib.rs:37 | padding keeps the string binary and keeps its value |
| `Lib.Reverse` | src/lib.rs:45 | `rev().collect()` keeps the length and puts character `len-1-i` at `i` |
| `Lib.ElementBits` | src/lib.rs:36-37 | `bits_9_le` is a binary string of at least 9 characters |
| `Lib.ElementBitsLayout` | src/lib.rs:36-38 | an element below 512 yields exactly 9 characters, with bit `j` at offset `j`; a larger element yields more than 9 |
| `Lib.BitStringLength` | src/lib.rs:34-40 | the bit string has at least 9 characters per element, and exactly `9·64 = 576` iff every element is below 512, so the length `assert_eq!` fails iff some element is 512 or more |
| `Lib.BitStringLayout` | src/lib.rs:32-39 | character `p` of the bit string is bit `p % 9` of element `p / 9` |
| `Lib.AppendElementBits` | src/lib.rs:34-39 | the `push_str` loop builds the concatenation of all `bits_9_le`, with the length facts above |
| `Lib.NibbleBinToHex` | src/lib.rs:78-97 | returns a digit iff the input is 4 binary characters (panics otherwise); that digit's hex value is the nibble's binary value |
| `Lib.NibbleValue` | src/lib.rs:78-97 | a 4-character string is worth `8·c0 + 4·c1 + 2·c2 + c3` |
| `Lib.HexString` | src/lib.rs:46-54 | the four-character chunks (a shorter tail dropped) map to hex digits without a panic iff every whole chunk is binary, giving `len/4` digits |
| `Lib.HexStringLayout` | src/lib.rs:45-55 | 576 binary characters map to 144 hex digits, and digit `t` is the value of characters `[4t, 4t+4)`, most significant first |
| `Lib.ParseHexByte` | src/lib.rs:59-65 | `from_str_radix(_, 16)` succeeds iff the characters are two hex digits, or `+` and one digit; the byte is `16·hi + lo` |
| `Lib.InsertParsedBytes` | src/lib.rs:56-69 | inserting each parsed byte at index 0 gives `len/2` bytes in reverse parse order |
| `Lib.ByteOfNibbles` | src/lib.rs:57-65 | byte `c` of the reversed bit string is worth 16 times nibble `2c` plus nibble `2c+1` |
| `Lib.ReversedBitAt` | src/lib.rs:45-65 | bit `b` of the byte the source parses as chunk `71-k` is bit `(8k+b) % 9` of element `(8k+b) / 9` |
| `Lib.AssembledByte` | src/lib.rs:56-69 | the byte parsed from hex digits `2(71-k)` and `2(71-k)+1` is byte `k` of `Encode` |
| `Lib.PipelineByte` | src/lib.rs:42-70 | the byte parsed from chunk `71-k` equals byte `k` of `Encode` |
| `Lib.PipelineMatchesEncode` | src/lib.rs:42-70 | the 72 bytes the source assembles are exactly `Encode(digest)` |
| `Lib.EncodeDigest` | src/lib.rs:32-70 | panics iff some element is 512 or more, reporting the bit-string length against 576; otherwise returns `Encode(digest)` |
| `Lib.SwifftHash1280x720x24` | src/lib.rs:27-76 | panics with both lengths on a wrong-size image; otherwise never panics, returns the 72-byte `Encode` of `TreeHash`, and `Decode` of it is that digest |
| `Lib.Encode` | src/lib.rs:24-25 | the canonical digest is 72 bytes |
| `Lib.EncodedBitAt` | src/lib.rs:24-25 | bit `b` of byte `k` of the encoding is bit `(8k+b) % 9` of element `(8k+b) / 9` |
| `Lib.EncodeLayout` | src/lib.rs:24-25 | the same bit layout for all 72 bytes and 8 bits at once |
| `Lib.PackedValueBit` | src/lib.rs:24-25 | bit `p` of `Σ digest[i]·2^(9i)` is bit `p % 9` of element `p / 9` |
| `Lib.LeBytesBit` | src/lib.rs:24-25 | bit `b` of little-endian byte `k` of `x` is bit `8k+b` of `x` |
| `Lib.DecodeEncode` | src/lib.rs:24-25 | extracting the 9-bit groups of the encoding recovers every element |
| `Lib.EncodeDecode` | src/lib.rs:24-25 | every 72-byte string is the encoding of its decoding, so the packing has no spare bits |
| `Lib.EncodeInjective` | src/lib.rs:24-25 | distinct 9-bit digests have distinct encodings |
| `Lib.EncodeZero` | src/lib.rs:24-25 | the all-zero digest encodes to 72 zero bytes |

## Left out

- The internals of the `swifft` crate are left out: `swifft_hash`, `parse_input_block`, `Polynomial`, `Z257`, and the FFT and field arithmetic. They are not part of this model. The two operations are function parameters, `Polynomial` is its 64 coefficients, and `ZERO` is all zeros.
- The wasm and JavaScript glue is left out: `Uint8Array`, `to_vec`, `new_with_length` and `copy_from`. Input and output are `seq<uint8>`.
- `init_panic_hook` is console wiring, and the `init_thread_pool` re-export is a thread pool that the shown logic does not use.
- Panic message text is not modelled. A panic records only the two operands of the failing `assert_eq!`.
- `Vec::with_capacity` hints are not modelled. They do not affect any result.
- Lib.ParseHexByte: models `u8::from_str_radix` on the two-character chunks the source passes, not on strings of other lengths, which the source never builds.
- Collision resistance and bit-flip sensitivity of the whole hash are left out. They depend on the compression function, which is a parameter here.

/**
 * The part of the external `swifft` crate that this crate relies on.
 *
 * The crate's transform (FFT over Z257, the key multiplication) is not
 * modelled.  Its two operations, `parse_input_block` and `swifft_hash`, are
 * carried as function values in a `Primitive`, so every statement of the
 * model holds for whatever deterministic functions of these types they are.
 */
module Swifft {

  type uint8 = x: int | 0 <= x < 0x100
  type uint16 = x: int | 0 <= x < 0x1_0000

  /** The field modulus. */
  const Q: nat := 257

  /** An element of the field Z257. */
  type Z257 = x: int | 0 <= x < 257

  /** `Z257::NUM_BITS`: bits needed to represent any field element. */
  const NUM_BITS: nat := 9

  /** `Polynomial::N`: coefficients per polynomial. */
  const N: nat := 64

  /** `swifft::hash::M`: polynomials consumed by one compression. */
  const M: nat := 16

  /** `swifft::hash::INPUT_BLOCK_SIZE`: bytes consumed by one ground compression. */
  const INPUT_BLOCK_SIZE: nat := 128

  /** A polynomial, seen through its `N` coefficients. */
  type Polynomial = p: seq<Z257> | |p| == 64 witness seq(64, _ => 0)

  /** `Polynomial::ZERO`. */
  const ZERO: Polynomial := seq(64, _ => 0)

  /** `[Polynomial; M]`, the argument of `swifft_hash`. */
  type HashInput = s: seq<Polynomial> | |s| == 16 witness seq<Polynomial>(16, _ => ZERO)

  /** `[u8; INPUT_BLOCK_SIZE]`, the argument of `parse_input_block`. */
  type InputBlock = s: seq<uint8> | |s| == 128 witness seq(128, _ => 0)

  /** `[Polynomial::ZERO; M]`, the value every compression input starts from. */
  const ZERO_INPUT: HashInput := seq<Polynomial>(16, _ => ZERO)

  /** The two operations of the crate used here. */
  datatype Primitive = Primitive(
    parseInputBlock: InputBlock -> HashInput,
    swifftHash: HashInput -> Polynomial)
}

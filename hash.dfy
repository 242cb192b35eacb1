/**
 * The reduction-tree hasher of `src/hash.rs`: a 1280x720 image of 24-bit
 * pixels is cut into `INPUT_BLOCK_SIZE`-byte blocks, each block is
 * compressed, and the digests are then grouped `M` at a time and compressed
 * again, over three rounds and a final compression.
 */
module Hash {
  import opened Wrappers
  import opened Swifft

  const IMAGE_PIXELS: nat := 1280 * 720
  const BITS_PER_PIXEL: nat := 24
  const IMAGE_BITS: nat := IMAGE_PIXELS * BITS_PER_PIXEL
  /** `u8::BITS`. */
  const U8_BITS: nat := 8
  const IMAGE_BYTES: nat := DivCeil(IMAGE_BITS, U8_BITS)
  const IMAGE_INPUT_BLOCKS: nat := DivCeil(IMAGE_BYTES, INPUT_BLOCK_SIZE)
  const SECOND_ROUND_DIGEST: nat := DivCeil(IMAGE_INPUT_BLOCKS, M)
  const THIRD_ROUND_DIGEST: nat := DivCeil(SECOND_ROUND_DIGEST, M)
  /** Derived, as declared, from `SECOND_ROUND_DIGEST`, not from `THIRD_ROUND_DIGEST`. */
  const FOURTH_ROUND_DIGEST: nat := DivCeil(SECOND_ROUND_DIGEST, M)

  /** `usize::div_ceil`: the least number of `b`-sized parts that cover `a`. */
  function DivCeil(a: nat, b: nat): (r: nat)
    requires b > 0
    ensures a <= r * b
    ensures r > 0 ==> (r - 1) * b < a
  {
    a / b + (if a % b > 0 then 1 else 0)
  }

  function Min(a: int, b: int): int
  {
    if a <= b then a else b
  }

  /** The round sizes, as chained ceiling divisions evaluate them. */
  lemma RoundCounts()
    ensures IMAGE_BYTES == 2_764_800
    ensures IMAGE_INPUT_BLOCKS == 21_600
    ensures IMAGE_INPUT_BLOCKS * INPUT_BLOCK_SIZE == IMAGE_BYTES
    ensures SECOND_ROUND_DIGEST == 1_350
    ensures THIRD_ROUND_DIGEST == 85
    ensures FOURTH_ROUND_DIGEST == 85
  {
  }

  // ---------------------------------------------------------------------
  // Specification of the tree
  // ---------------------------------------------------------------------

  /** The `k`-th block of the image: bytes `[k * INPUT_BLOCK_SIZE, (k + 1) * INPUT_BLOCK_SIZE)`. */
  function InputBlockAt(image: seq<uint8>, k: nat): InputBlock
    requires (k + 1) * INPUT_BLOCK_SIZE <= |image|
  {
    image[k * INPUT_BLOCK_SIZE .. (k + 1) * INPUT_BLOCK_SIZE]
  }

  /** The input of group `g` of a reduction round over `prev`: slot `i` holds
    * `prev[g * M + i]` when that digest exists and `ZERO` otherwise. */
  function GroupInput(prev: seq<Polynomial>, g: nat): HashInput
  {
    seq<Polynomial>(M, i requires 0 <= i < M => if g * M + i < |prev| then prev[g * M + i] else ZERO)
  }

  /** The digests of the ground round, one per image block, in order. */
  function GroundLevel(sw: Primitive, image: seq<uint8>): seq<Polynomial>
    requires |image| == IMAGE_BYTES
  {
    RoundCounts();
    seq<Polynomial>(IMAGE_INPUT_BLOCKS, k requires 0 <= k < IMAGE_INPUT_BLOCKS =>
      sw.swifftHash(sw.parseInputBlock(InputBlockAt(image, k))))
  }

  /** The digests of a reduction round of `count` groups over `prev`. */
  function NextLevel(sw: Primitive, prev: seq<Polynomial>, count: nat): seq<Polynomial>
  {
    seq<Polynomial>(count, g requires 0 <= g < count => sw.swifftHash(GroupInput(prev, g)))
  }

  /** `.coefficients().map(|c| c.value())`. */
  function Coefficients(p: Polynomial): (values: seq<uint16>)
    ensures |values| == N
    ensures forall c :: 0 <= c < N ==> values[c] as int == p[c] as int < Q
  {
    seq(N, c requires 0 <= c < N => p[c] as uint16)
  }

  /** The value `swifft_hash_1280_720_24` returns for an image of the right size. */
  function TreeHash(sw: Primitive, image: seq<uint8>): (digest: seq<uint16>)
    requires |image| == IMAGE_BYTES
    ensures |digest| == N
    ensures forall c :: 0 <= c < N ==> digest[c] < Q
  {
    var first := GroundLevel(sw, image);
    var second := NextLevel(sw, first, SECOND_ROUND_DIGEST);
    var third := NextLevel(sw, second, THIRD_ROUND_DIGEST);
    var fourth := NextLevel(sw, third, FOURTH_ROUND_DIGEST);
    Coefficients(sw.swifftHash(GroupInput(fourth, 0)))
  }

  // ---------------------------------------------------------------------
  // The rounds, as the source runs them
  // ---------------------------------------------------------------------

  /** Fills `[ZERO; M]` from the shared iterator, now at `prev[pos..]`: slot
    * `i` takes the iterator's next digest while there is one.  Returns the
    * input and the iterator's new position. */
  method CollectInput(prev: seq<Polynomial>, pos: nat) returns (input: HashInput, next: nat)
    requires pos <= |prev|
    ensures next == Min(pos + M, |prev|)
    ensures forall i :: 0 <= i < M ==> input[i] == if pos + i < |prev| then prev[pos + i] else ZERO
  {
    var slots := new Polynomial[M](_ => ZERO);
    next := pos;
    for i := 0 to M
      invariant next == Min(pos + i, |prev|)
      invariant forall s :: 0 <= s < i ==> slots[s] == if pos + s < |prev| then prev[pos + s] else ZERO
      invariant forall s :: i <= s < M ==> slots[s] == ZERO
    {
      if next < |prev| {
        slots[i] := prev[next];
        next := next + 1;
      }
    }
    input := slots[..];
  }

  /** The ground round: compresses each `INPUT_BLOCK_SIZE`-byte block of the
    * image, read in order from one byte iterator that never runs dry. */
  method GroundRound(sw: Primitive, image: seq<uint8>) returns (digests: seq<Polynomial>)
    requires |image| == IMAGE_BYTES
    ensures |digests| == IMAGE_INPUT_BLOCKS
    ensures forall k :: 0 <= k < IMAGE_INPUT_BLOCKS ==>
      digests[k] == sw.swifftHash(sw.parseInputBlock(InputBlockAt(image, k)))
  {
    RoundCounts();
    digests := [];
    var pos := 0;
    for k := 0 to IMAGE_INPUT_BLOCKS
      invariant pos == k * INPUT_BLOCK_SIZE
      invariant |digests| == k
      invariant forall h :: 0 <= h < k ==>
        digests[h] == sw.swifftHash(sw.parseInputBlock(InputBlockAt(image, h)))
    {
      var block := new uint8[INPUT_BLOCK_SIZE](_ => 0);
      for i := 0 to INPUT_BLOCK_SIZE
        invariant pos == k * INPUT_BLOCK_SIZE + i
        invariant forall s :: 0 <= s < i ==> block[s] == image[k * INPUT_BLOCK_SIZE + s]
      {
        // `vec_iterator.next().unwrap()`: the iterator still has a byte
        assert pos < |image|;
        block[i] := image[pos];
        pos := pos + 1;
      }
      assert block[..] == InputBlockAt(image, k);
      digests := digests + [sw.swifftHash(sw.parseInputBlock(block[..]))];
    }
  }

  /** One reduction round of `count` groups: each group takes the next `M`
    * digests of `prev` from one shared iterator, zero-padded once it runs
    * dry, and is compressed into one digest. */
  method ReduceLevel(sw: Primitive, prev: seq<Polynomial>, count: nat) returns (digests: seq<Polynomial>)
    ensures |digests| == count
    ensures forall g :: 0 <= g < count ==> digests[g] == sw.swifftHash(GroupInput(prev, g))
  {
    digests := [];
    var pos := 0;
    for g := 0 to count
      invariant pos == Min(g * M, |prev|)
      invariant |digests| == g
      invariant forall h :: 0 <= h < g ==> digests[h] == sw.swifftHash(GroupInput(prev, h))
    {
      var input;
      input, pos := CollectInput(prev, pos);
      assert input == GroupInput(prev, g);
      digests := digests + [sw.swifftHash(input)];
    }
  }

  /** The final compression of the first `M` fourth-round digests. */
  method FinalRound(sw: Primitive, fourth: seq<Polynomial>) returns (coefficients: seq<uint16>)
    ensures |coefficients| == N
    ensures forall c :: 0 <= c < N ==> coefficients[c] == sw.swifftHash(GroupInput(fourth, 0))[c]
  {
    var input, _ := CollectInput(fourth, 0);
    assert input == GroupInput(fourth, 0);
    var digest := sw.swifftHash(input);
    coefficients := seq(N, c requires 0 <= c < N => digest[c] as uint16);
  }

  /** `swifft_hash_1280_720_24` of `src/hash.rs`. */
  method SwifftHash1280x720x24(sw: Primitive, imageData: seq<uint8>) returns (r: Outcome<seq<uint16>>)
    ensures |imageData| != IMAGE_BYTES ==> r == Panic(AssertEqFailed(|imageData|, IMAGE_BYTES))
    ensures |imageData| == IMAGE_BYTES ==> r == Ok(TreeHash(sw, imageData))
  {
    if |imageData| != IMAGE_BYTES {
      return Panic(AssertEqFailed(|imageData|, IMAGE_BYTES));
    }
    var first := GroundRound(sw, imageData);
    assert |first| == IMAGE_INPUT_BLOCKS;
    assert first == GroundLevel(sw, imageData);
    var second := ReduceLevel(sw, first, SECOND_ROUND_DIGEST);
    assert |second| == SECOND_ROUND_DIGEST;
    assert second == NextLevel(sw, first, SECOND_ROUND_DIGEST);
    var third := ReduceLevel(sw, second, THIRD_ROUND_DIGEST);
    assert |third| == THIRD_ROUND_DIGEST;
    assert third == NextLevel(sw, second, THIRD_ROUND_DIGEST);
    var fourth := ReduceLevel(sw, third, FOURTH_ROUND_DIGEST);
    assert |fourth| == FOURTH_ROUND_DIGEST;
    assert fourth == NextLevel(sw, third, FOURTH_ROUND_DIGEST);
    var coefficients := FinalRound(sw, fourth);
    assert coefficients == Coefficients(sw.swifftHash(GroupInput(fourth, 0)));
    r := Ok(coefficients);
  }

  // ---------------------------------------------------------------------
  // Properties of the tree
  // ---------------------------------------------------------------------

  /** With `DivCeil(|prev|, M)` groups, digest `p` of `prev` lands in slot
    * `p % M` of group `p / M`, and every group starts inside `prev`. */
  lemma GroupsPartitionLevel(prev: seq<Polynomial>, count: nat)
    requires count == DivCeil(|prev|, M)
    ensures forall p :: 0 <= p < |prev| ==> p / M < count && GroupInput(prev, p / M)[p % M] == prev[p]
    ensures forall g :: 0 <= g < count ==> g * M < |prev| && GroupInput(prev, g)[0] == prev[g * M]
  {
    forall p | 0 <= p < |prev|
      ensures p / M < count && GroupInput(prev, p / M)[p % M] == prev[p]
    {
      DigestSlot(prev, count, p);
    }
    forall g | 0 <= g < count
      ensures g * M < |prev| && GroupInput(prev, g)[0] == prev[g * M]
    {
      GroupStart(prev, count, g);
    }
  }

  lemma DigestSlot(prev: seq<Polynomial>, count: nat, p: nat)
    requires count == DivCeil(|prev|, M)
    requires p < |prev|
    ensures p / M < count && GroupInput(prev, p / M)[p % M] == prev[p]
  {
    assert M == 16;
    var g, i := p / 16, p % 16;
    assert p == g * 16 + i;
    assert |prev| <= count * 16;
    GroupSlot(prev, g, i);
  }

  lemma GroupStart(prev: seq<Polynomial>, count: nat, g: nat)
    requires count == DivCeil(|prev|, M)
    requires g < count
    ensures g * M < |prev| && GroupInput(prev, g)[0] == prev[g * M]
  {
    assert M == 16;
    assert (count - 1) * 16 < |prev|;
    assert g * 16 <= (count - 1) * 16;
    GroupSlot(prev, g, 0);
  }

  lemma GroupSlot(prev: seq<Polynomial>, g: nat, i: nat)
    requires i < M
    ensures GroupInput(prev, g)[i] == if g * M + i < |prev| then prev[g * M + i] else ZERO
  {
  }

  /** A group that starts at or past the end of `prev` is all padding. */
  lemma GroupPastEndIsZero(prev: seq<Polynomial>, g: nat)
    requires |prev| <= g * M
    ensures GroupInput(prev, g) == ZERO_INPUT
  {
  }

  /** Because `FOURTH_ROUND_DIGEST` is derived from `SECOND_ROUND_DIGEST`, the
    * fourth round runs 85 groups over 85 digests where 6 would cover them,
    * and groups 6 to 84 compress the all-`ZERO` input. */
  lemma {:induction false} FourthRoundPadding(sw: Primitive, third: seq<Polynomial>)
    requires |third| == THIRD_ROUND_DIGEST
    ensures FOURTH_ROUND_DIGEST == THIRD_ROUND_DIGEST
    ensures DivCeil(THIRD_ROUND_DIGEST, M) == 6
    ensures forall g :: 6 <= g < FOURTH_ROUND_DIGEST ==>
      NextLevel(sw, third, FOURTH_ROUND_DIGEST)[g] == sw.swifftHash(ZERO_INPUT)
  {
    RoundCounts();
    forall g | 6 <= g < FOURTH_ROUND_DIGEST
      ensures NextLevel(sw, third, FOURTH_ROUND_DIGEST)[g] == sw.swifftHash(ZERO_INPUT)
    {
      GroupPastEndIsZero(third, g);
    }
  }

  /** The final compression reads the first `M` fourth-round digests when there are that many. */
  lemma FinalInputIsFirstDigests(fourth: seq<Polynomial>)
    requires |fourth| >= M
    ensures GroupInput(fourth, 0) == fourth[..M]
  {
  }

  /** The tree with every round's size derived from the round just before:
    * the fourth round then has `DivCeil(THIRD_ROUND_DIGEST, M)` groups. */
  function TreeHashDerivedCounts(sw: Primitive, image: seq<uint8>): seq<uint16>
    requires |image| == IMAGE_BYTES
  {
    var first := GroundLevel(sw, image);
    var second := NextLevel(sw, first, SECOND_ROUND_DIGEST);
    var third := NextLevel(sw, second, THIRD_ROUND_DIGEST);
    var fourth := NextLevel(sw, third, DivCeil(THIRD_ROUND_DIGEST, M));
    Coefficients(sw.swifftHash(GroupInput(fourth, 0)))
  }

  /** Over any 85 third-round digests, the final compression of the source's
    * 85-group fourth round and that of a 6-group fourth round get the same
    * input exactly when compressing the all-`ZERO` input yields `ZERO`. */
  lemma {:induction false} FinalInputsAgreeIff(sw: Primitive, third: seq<Polynomial>)
    requires |third| == THIRD_ROUND_DIGEST
    ensures GroupInput(NextLevel(sw, third, FOURTH_ROUND_DIGEST), 0)
              == GroupInput(NextLevel(sw, third, DivCeil(THIRD_ROUND_DIGEST, M)), 0)
            <==> sw.swifftHash(ZERO_INPUT) == ZERO
  {
    FourthRoundPadding(sw, third);
    var asWritten := GroupInput(NextLevel(sw, third, FOURTH_ROUND_DIGEST), 0);
    var derived := GroupInput(NextLevel(sw, third, 6), 0);
    assert asWritten[6] == sw.swifftHash(ZERO_INPUT);
    assert derived[6] == ZERO;
    if sw.swifftHash(ZERO_INPUT) == ZERO {
      forall i | 0 <= i < M
        ensures asWritten[i] == derived[i]
      {
      }
    }
  }

  /** The source's digest equals that of the tree with derived round sizes
    * whenever the compression maps the all-`ZERO` input to `ZERO`. */
  lemma FourthRoundCountHarmless(sw: Primitive, image: seq<uint8>)
    requires |image| == IMAGE_BYTES
    requires sw.swifftHash(ZERO_INPUT) == ZERO
    ensures TreeHash(sw, image) == TreeHashDerivedCounts(sw, image)
  {
    var first := GroundLevel(sw, image);
    var second := NextLevel(sw, first, SECOND_ROUND_DIGEST);
    var third := NextLevel(sw, second, THIRD_ROUND_DIGEST);
    FinalInputsAgreeIff(sw, third);
  }
}

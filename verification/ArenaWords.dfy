/**
 The arena as the machine computes it (core/src/arena/arena_allocator.cpp): addresses and sizes are 64-bit
 words, and every sum wraps. `Arena` counts without bound; here is the wrapped allocation, exactly when the
 two agree, what goes wrong when they do not, and a bound a caller can check under which they do.

 The system that hands out blocks is a list of addresses, the next one for the next block; when the list
 is used up the request for a block fails.
 */
module ArenaWords {
  import Bits
  import opened Wrappers
  import opened Arena

  type Word = x: nat | x < WORD_END

  function Wrap(x: int): Word {
    x % WORD_END
  }

  // ----- the sums, wrapped -----

  /** `align_up`: add the mask, clear its bits. */
  function AlignUpWord(value: Word, alignment: Word): (r: Word)
    requires alignment > 0
  {
    Bits.And(Wrap(value + (alignment - 1)), WORD_END - 1 - (alignment - 1))
  }

  function RawWord(b: Block): Word {
    Wrap(b.base + b.offset)
  }

  function PaddingWord(b: Block, alignment: Word): Word
    requires alignment > 0
  {
    Wrap(AlignUpWord(RawWord(b), alignment) - RawWord(b))
  }

  predicate FitsWord(b: Block, size: Word, alignment: Word)
    requires alignment > 0
  {
    Wrap(b.offset + PaddingWord(b, alignment) + size) <= b.size
  }

  function BumpedWord(s: State, size: Word, alignment: Word): State
    requires Active(s) && alignment > 0
  {
    var b := s.blocks[s.active];
    var taken := PaddingWord(b, alignment) + size;
    State(s.blocks[s.active := b.(offset := Wrap(b.offset + taken))], s.active, Wrap(s.used + taken))
  }

  function NewSizeWord(s: State, size: Word, alignment: Word): Word
    requires s.blocks != []
  {
    Max(Wrap(2 * s.blocks[|s.blocks| - 1].size), Wrap(size + alignment))
  }

  function GrownWord(s: State, size: Word, alignment: Word, supply: Word): State
    requires Active(s) && s.active + 1 == |s.blocks|
  {
    State(s.blocks + [Block(supply, NewSizeWord(s, size, alignment), 0, Max(DEFAULT_ALIGNMENT, alignment))], |s.blocks|, s.used)
  }

  function Advanced(s: State): State
    requires s.active + 1 < |s.blocks|
  {
    State(s.blocks[s.active + 1 := s.blocks[s.active + 1].(offset := 0)], s.active + 1, s.used)
  }

  // ----- the allocation -----

  /** How the retry loop ends: with an address, or with no block to be had. */
  datatype Outcome = Placed(state: State, address: Word) | Exhausted(state: State)

  /** The retry loop of `allocate`. */
  function AllocatedWord(s: State, size: Word, alignment: Word, supplies: seq<Word>): (r: Outcome)
    requires Active(s) && alignment > 0
    ensures Active(r.state) && |s.blocks| <= |r.state.blocks|
    decreases |supplies|, |s.blocks| - s.active
  {
    var b := s.blocks[s.active];
    if FitsWord(b, size, alignment) then Placed(BumpedWord(s, size, alignment), AlignUpWord(RawWord(b), alignment))
    else if s.active + 1 < |s.blocks| then AllocatedWord(Advanced(s), size, alignment, supplies)
    else if supplies == [] then Exhausted(s)
    else AllocatedWord(GrownWord(s, size, alignment, supplies[0]), size, alignment, supplies[1..])
  }

  // ----- alignment never wraps -----

  lemma {:induction false} AlignUpWraps(value: Word, alignment: Word)
    requires IsPowerOfTwo(alignment)
    ensures AlignUpWord(value, alignment) == Wrap(AlignUp(value, alignment))
    ensures AlignUp(value, alignment) <= WORD_END
  {
    hide Bits.And, Bits.Pow2, IsPowerOfTwo, AlignUp, Wrap;
    PowerPositive(alignment);
    var k := PowerTest(alignment);
    SmallPower(k);
    var top := value + (alignment - 1);
    TopMultiple(value, alignment, k);
    if top < WORD_END {
      SmallIsWord(top);
      SmallIsWord(AlignUp(value, alignment));
      AlignUpIsMask(value, k);
    } else {
      WrapOnce(WORD_END);
      WrapOnce(top);
      MaskedTop(top - WORD_END, alignment, k);
    }
  }

  lemma {:induction false} SmallIsWord(x: int)
    requires 0 <= x < WORD_END
    ensures Wrap(x) == x
  {
  }

  lemma {:induction false} WrapOnce(x: int)
    requires WORD_END <= x < 2 * WORD_END
    ensures Wrap(x) == x - WORD_END
  {
  }

  lemma {:induction false} SmallPower(k: nat)
    requires Bits.Pow2(k) < WORD_END
    ensures k < 64
  {
    Bits.Pow2Widths();
    if k >= 64 {
      Bits.Pow2Monotone(64, k);
    }
  }

  /** What is below the alignment is cleared by the mask. */
  lemma {:induction false} MaskedTop(low: nat, alignment: Word, k: nat)
    requires k < 64 && alignment == Bits.Pow2(k) && low < alignment
    ensures Bits.And(low, WORD_END - 1 - (alignment - 1)) == 0
  {
    hide Bits.And, Bits.Pow2;
    Bits.Pow2Widths();
    Bits.Pow2Add(k, 64 - k);
    var q := Bits.Pow2(64 - k);
    BelowMultiple(low, alignment, q);
    AndHighMask(low, k, 64 - k);
    MaskProduct(alignment, q, WORD_END);
    SmallRemainder(low, alignment);
  }

  lemma {:induction false} MaskProduct(p: int, q: int, w: int)
    requires p * q == w
    ensures w - 1 - (p - 1) == p * (q - 1)
  {
  }

  lemma {:induction false} BelowMultiple(x: int, p: int, q: int)
    requires 0 <= x < p && q > 0
    ensures x < p * q
  {
    Bits.MulMonotone(p, 1, q);
  }

  lemma {:induction false} SmallRemainder(x: int, p: int)
    requires 0 <= x < p
    ensures x % p == x
  {
    Bits.QuotientIs(x, p, 0, x);
  }

  /** The end of the address space is a multiple of every alignment, so rounding up stops there at the latest. */
  lemma {:induction false} TopMultiple(value: Word, alignment: Word, k: nat)
    requires k < 64 && alignment == Bits.Pow2(k)
    ensures AlignUp(value, alignment) <= WORD_END
    ensures value + (alignment - 1) >= WORD_END ==> AlignUp(value, alignment) == WORD_END
    ensures value + (alignment - 1) < WORD_END ==> AlignUp(value, alignment) < WORD_END
  {
    Bits.Pow2Widths();
    Bits.Pow2Add(k, 64 - k);
    var top, q := value + (alignment - 1), Bits.Pow2(64 - k);
    assert WORD_END == alignment * q;
    if top >= WORD_END {
      Bits.QuotientIs(top, alignment, q, top - WORD_END);
    }
  }

  /** The padding is the exact one, even where rounding up reaches the end of the address space. */
  lemma {:induction false} PaddingNeverWraps(b: Block, alignment: Word)
    requires IsPowerOfTwo(alignment) && b.base + b.offset < WORD_END
    ensures alignment > 0 && PaddingWord(b, alignment) == Padding(b, alignment) < alignment
    ensures AlignUpWord(RawWord(b), alignment) == Wrap(b.base + b.offset + Padding(b, alignment))
  {
    hide IsPowerOfTwo, AlignUpWord, AlignUp, Wrap;
    PowerPositive(alignment);
    var raw := b.base + b.offset;
    SmallIsWord(raw);
    AlignUpWraps(raw, alignment);
    assert AlignUp(raw, alignment) - raw < alignment;
    WrapDifference(AlignUp(raw, alignment), raw);
  }

  lemma {:induction false} WrapDifference(x: int, y: int)
    requires 0 <= y <= x <= WORD_END && x - y < WORD_END
    ensures Wrap(Wrap(x) - y) == x - y
  {
  }

  // ----- when the wrapped allocation is the exact one -----

  /** Every byte of every block has a 64-bit address, and so does the byte behind it. */
  ghost predicate InWords(s: State) {
    s.used < WORD_END && forall i :: 0 <= i < |s.blocks| ==> s.blocks[i].base + s.blocks[i].size < WORD_END
  }

  /** No sum the allocation computes reaches 2^64: not the fit test of a block it tries, not the size of a
      block it takes, not the bytes used. */
  predicate NoWrap(s: State, size: Word, alignment: Word, supply: Word)
    requires Active(s) && alignment > 0
    decreases |s.blocks| - s.active
  {
    var b := s.blocks[s.active];
    b.offset + Padding(b, alignment) + size < WORD_END &&
    if Fits(b, size, alignment) then s.used + Padding(b, alignment) + size < WORD_END
    else if s.active + 1 < |s.blocks| then NoWrap(Advanced(s), size, alignment, supply)
    else
      2 * s.blocks[|s.blocks| - 1].size < WORD_END && size + alignment < WORD_END &&
      s.used + Padding(NewBlock(s, size, alignment, supply), alignment) + size < WORD_END
  }

  /** A request that overflows with its alignment fits no block. */
  lemma {:induction false} HugeNeverFits(b: Block, size: Word, alignment: Word)
    requires alignment > 0 && size + alignment >= WORD_END && b.base > 0 && b.base + b.size < WORD_END
    ensures !Fits(b, size, alignment)
  {
    var aligned := AlignUp(b.base + b.offset, alignment);
    if aligned < alignment {
      Bits.QuotientIs(aligned, alignment, 0, aligned);
    }
  }

  /** Sizes are words on the wrapped side. */
  ghost predicate WordSizes(s: State) {
    s.used < WORD_END && forall i :: 0 <= i < |s.blocks| ==> s.blocks[i].size < WORD_END
  }

  lemma {:induction false} WordsStayWords(s: State, size: Word, alignment: Word, supplies: seq<Word>)
    requires Active(s) && alignment > 0 && WordSizes(s)
    ensures WordSizes(AllocatedWord(s, size, alignment, supplies).state)
    decreases |supplies|, |s.blocks| - s.active
  {
    hide FitsWord, PaddingWord, NewSizeWord;
    if !FitsWord(s.blocks[s.active], size, alignment) {
      if s.active + 1 < |s.blocks| {
        WordsStayWords(Advanced(s), size, alignment, supplies);
      } else if supplies != [] {
        WordsStayWords(GrownWord(s, size, alignment, supplies[0]), size, alignment, supplies[1..]);
      }
    }
  }

  /** An exact allocation that passes the active block ends beyond it. */
  lemma {:induction false} PassesActive(s: State, size: nat, alignment: nat, supply: nat)
    requires Active(s) && alignment > 0 && !Fits(s.blocks[s.active], size, alignment)
    ensures Allocated(s, size, alignment, supply).active > s.active
    decreases |s.blocks| - s.active
  {
    hide Padding, Fits, NewBlock;
    if s.active + 1 < |s.blocks| && !Fits(Advanced(s).blocks[s.active + 1], size, alignment) {
      PassesActive(Advanced(s), size, alignment, supply);
    }
  }

  lemma {:induction false} AdvancedIs(s: State)
    requires BlocksSound(s) && s.active + 1 < |s.blocks|
    ensures Advanced(s) == State(s.blocks, s.active + 1, s.used) && BlocksSound(Advanced(s))
    ensures InWords(s) ==> InWords(Advanced(s))
  {
    AdvanceKeepsBlocks(s, 1, 1, 0);
  }

  /** The exact new block of an overflowing growth has no 64-bit size. */
  lemma {:induction false} HugeGrowth(s: State, size: Word, alignment: Word, supply: nat)
    requires Active(s) && BlocksSound(s) && InWords(s) && alignment > 0 && size + alignment >= WORD_END
    ensures !WordSizes(Allocated(s, size, alignment, supply))
    decreases |s.blocks| - s.active
  {
    hide Fits, BlocksSound, InWords, Padding, Offsets;
    BlocksAreActive(s);
    BlockInWords(s, s.active);
    HugeNeverFits(s.blocks[s.active], size, alignment);
    if s.active + 1 < |s.blocks| {
      AdvancedIs(s);
      HugeGrowth(Advanced(s), size, alignment, supply);
    } else {
      var t := Allocated(s, size, alignment, supply);
      assert t.blocks[|s.blocks|].size == NewSize(s, size, alignment);
    }
  }

  lemma {:induction false} BlocksAreActive(s: State)
    requires BlocksSound(s)
    ensures Active(s)
  {
  }

  lemma {:induction false} BlockInWords(s: State, i: nat)
    requires BlocksSound(s) && InWords(s) && i < |s.blocks|
    ensures Active(s) && s.blocks[i].base > 0 && s.blocks[i].base + s.blocks[i].size < WORD_END
    ensures s.blocks[i].offset <= s.blocks[i].size
    ensures WordSizes(s)
  {
  }

  lemma {:induction false} FitsAgree(b: Block, size: Word, alignment: Word)
    requires IsPowerOfTwo(alignment) && b.base + b.offset < WORD_END
    ensures alignment > 0 && PaddingWord(b, alignment) == Padding(b, alignment) < alignment
    ensures b.offset + Padding(b, alignment) + size < WORD_END ==> (FitsWord(b, size, alignment) <==> Fits(b, size, alignment))
  {
    hide PaddingWord, Padding, IsPowerOfTwo, Wrap;
    PaddingNeverWraps(b, alignment);
    if b.offset + Padding(b, alignment) + size < WORD_END {
      SmallIsWord(b.offset + PaddingWord(b, alignment) + size);
    }
  }

  /** Past 2^64 but within the alignment of it, the fit test reads a sum below the offset. */
  lemma {:induction false} WrappedFits(b: Block, size: Word, alignment: Word)
    requires IsPowerOfTwo(alignment) && b.base + b.offset < WORD_END && b.offset <= b.size && size + alignment < WORD_END
    requires alignment > 0 && b.offset + Padding(b, alignment) + size >= WORD_END
    ensures FitsWord(b, size, alignment)
  {
    FitsAgree(b, size, alignment);
    hide PaddingWord, Padding, IsPowerOfTwo;
    WrapOnce(b.offset + PaddingWord(b, alignment) + size);
  }

  lemma {:induction false} BumpedAddress(s: State, size: nat, alignment: nat)
    requires Active(s) && alignment > 0
    ensures var b := s.blocks[s.active]; LastAddress(Bumped(s, size, alignment), size) == b.base + b.offset + Padding(b, alignment)
  {
    hide Padding;
  }

  lemma {:induction false} BumpedAgree(s: State, size: Word, alignment: Word)
    requires Active(s) && IsPowerOfTwo(alignment) && alignment > 0
    requires var b := s.blocks[s.active];
      && b.base + b.offset < WORD_END
      && b.offset + Padding(b, alignment) + size < WORD_END && s.used + Padding(b, alignment) + size < WORD_END
    ensures BumpedWord(s, size, alignment) == Bumped(s, size, alignment)
    ensures AlignUpWord(RawWord(s.blocks[s.active]), alignment) == Wrap(LastAddress(Bumped(s, size, alignment), size))
  {
    hide PaddingWord, Padding, IsPowerOfTwo, AlignUpWord, RawWord, LastAddress, Wrap;
    var b := s.blocks[s.active];
    PaddingNeverWraps(b, alignment);
    BumpedAddress(s, size, alignment);
    SmallIsWord(b.offset + (PaddingWord(b, alignment) + size));
    SmallIsWord(s.used + (PaddingWord(b, alignment) + size));
  }

  lemma {:induction false} GrownAgree(s: State, size: Word, alignment: Word, supply: Word)
    requires Active(s) && s.active + 1 == |s.blocks|
    requires 2 * s.blocks[|s.blocks| - 1].size < WORD_END && size + alignment < WORD_END
    ensures GrownWord(s, size, alignment, supply) == Grown(s, size, alignment, supply)
    ensures Grown(s, size, alignment, supply).blocks[|s.blocks|] == NewBlock(s, size, alignment, supply)
  {
  }

  /** What an allocation computes when no sum wraps is the exact allocation. */
  lemma {:induction false} ExactIfNoWrap(s: State, size: Word, alignment: Word, supplies: seq<Word>)
    requires Active(s) && BlocksSound(s) && InWords(s) && IsPowerOfTwo(alignment) && alignment > 0 && supplies != []
    requires NoWrap(s, size, alignment, supplies[0])
    ensures var t := Allocated(s, size, alignment, supplies[0]);
      AllocatedWord(s, size, alignment, supplies) == Placed(t, Wrap(LastAddress(t, size)))
    decreases |s.blocks| - s.active
  {
    hide BlocksSound, InWords, Fits, FitsWord, Padding, PaddingWord, IsPowerOfTwo, Bumped, BumpedWord, GrownWord, LastAddress, NewBlock, RawWord, AlignUpWord;
    var b := s.blocks[s.active];
    BlockInWords(s, s.active);
    FitsAgree(b, size, alignment);
    if Fits(b, size, alignment) {
      BumpedAgree(s, size, alignment);
    } else if s.active + 1 < |s.blocks| {
      AdvancedIs(s);
      ExactIfNoWrap(Advanced(s), size, alignment, supplies);
    } else {
      var g := Grown(s, size, alignment, supplies[0]);
      GrownAgree(s, size, alignment, supplies[0]);
      NewBlockAgrees(s, size, alignment, supplies[0]);
      BumpedAgree(g, size, alignment);
    }
  }

  lemma {:induction false} NewBlockAgrees(s: State, size: Word, alignment: Word, supply: Word)
    requires Active(s) && s.active + 1 == |s.blocks| && IsPowerOfTwo(alignment) && alignment > 0 && size + alignment < WORD_END
    ensures var b := NewBlock(s, size, alignment, supply);
      b.base + b.offset < WORD_END && FitsWord(b, size, alignment) && b.offset + Padding(b, alignment) + size < WORD_END
    ensures Grown(s, size, alignment, supply).used == s.used && Grown(s, size, alignment, supply).active == |s.blocks|
  {
    var b := NewBlock(s, size, alignment, supply);
    NewBlockFits(s, size, alignment, supply);
    FitsAgree(b, size, alignment);
    hide FitsWord, Fits, IsPowerOfTwo, Padding;
  }

  lemma {:induction false} BumpedUsed(s: State, size: nat, alignment: nat)
    requires Active(s) && alignment > 0
    ensures Bumped(s, size, alignment).used == s.used + Padding(s.blocks[s.active], alignment) + size
  {
  }

  /** When one does wrap, the allocation is not the exact one. */
  lemma {:induction false} WrapIsSeen(s: State, size: Word, alignment: Word, supplies: seq<Word>)
    requires Active(s) && BlocksSound(s) && InWords(s) && IsPowerOfTwo(alignment) && alignment > 0 && supplies != []
    requires !NoWrap(s, size, alignment, supplies[0])
    ensures AllocatedWord(s, size, alignment, supplies).state != Allocated(s, size, alignment, supplies[0])
    decreases |s.blocks| - s.active
  {
    hide BlocksSound, InWords, Fits, FitsWord, Padding, PaddingWord, IsPowerOfTwo, Bumped, GrownWord, LastAddress, NewBlock, RawWord, AlignUpWord, WordSizes;
    var b := s.blocks[s.active];
    BlockInWords(s, s.active);
    FitsAgree(b, size, alignment);
    WordsStayWords(s, size, alignment, supplies);
    if size + alignment >= WORD_END {
      HugeGrowth(s, size, alignment, supplies[0]);
    } else if b.offset + Padding(b, alignment) + size >= WORD_END {
      WrappedFits(b, size, alignment);
      OffsetFits(b, size, alignment);
      PassesActive(s, size, alignment, supplies[0]);
    } else if Fits(b, size, alignment) {
      BumpedUsed(s, size, alignment);
      UsedIsWord(Bumped(s, size, alignment));
    } else if s.active + 1 < |s.blocks| {
      AdvancedIs(s);
      WrapIsSeen(Advanced(s), size, alignment, supplies);
    } else {
      GrowthSeen(s, size, alignment, supplies[0]);
    }
  }

  lemma {:induction false} UsedIsWord(s: State)
    ensures s.used >= WORD_END ==> !WordSizes(s)
  {
  }

  lemma {:induction false} OffsetFits(b: Block, size: Word, alignment: Word)
    requires alignment > 0 && b.size < WORD_END && b.offset + Padding(b, alignment) + size >= WORD_END
    ensures !Fits(b, size, alignment)
  {
    hide Padding;
  }

  lemma {:induction false} GrowthSeen(s: State, size: Word, alignment: Word, supply: Word)
    requires Active(s) && s.active + 1 == |s.blocks| && alignment > 0 && !Fits(s.blocks[s.active], size, alignment)
    requires 2 * s.blocks[|s.blocks| - 1].size >= WORD_END || s.used + Padding(NewBlock(s, size, alignment, supply), alignment) + size >= WORD_END
    ensures !WordSizes(Allocated(s, size, alignment, supply))
  {
    hide Fits, Padding;
    var g, t := Grown(s, size, alignment, supply), Allocated(s, size, alignment, supply);
    assert t.blocks[|s.blocks|].size == NewSize(s, size, alignment);
    assert g.blocks[|s.blocks|] == NewBlock(s, size, alignment, supply);
    BumpedUsed(g, size, alignment);
  }

  /** The wrapped allocation is the exact one if and only if no sum on its path reaches 2^64. */
  lemma {:induction false} ExactExactly(s: State, size: Word, alignment: Word, supplies: seq<Word>)
    requires Active(s) && BlocksSound(s) && InWords(s) && IsPowerOfTwo(alignment) && alignment > 0 && supplies != []
    ensures var t := Allocated(s, size, alignment, supplies[0]);
      AllocatedWord(s, size, alignment, supplies) == Placed(t, Wrap(LastAddress(t, size))) <==> NoWrap(s, size, alignment, supplies[0])
  {
    hide BlocksSound, InWords, IsPowerOfTwo, Allocated, AllocatedWord, NoWrap, LastAddress, Wrap;
    if NoWrap(s, size, alignment, supplies[0]) {
      ExactIfNoWrap(s, size, alignment, supplies);
    } else {
      WrapIsSeen(s, size, alignment, supplies);
    }
  }

  // ----- a bound the caller can check -----

  /** Twice the capacity, the request and its alignment stay below 2^64. */
  predicate Roomy(s: State, size: nat, alignment: nat) {
    2 * Sizes(s.blocks) + size + alignment < WORD_END
  }

  lemma {:induction false} SizeWithin(blocks: seq<Block>, i: nat)
    requires i < |blocks|
    ensures blocks[i].size <= Sizes(blocks)
  {
    if i > 0 {
      SizeWithin(blocks[1..], i - 1);
    }
  }

  lemma {:induction false} PaddingBelow(b: Block, alignment: nat)
    requires alignment > 0
    ensures Padding(b, alignment) < alignment
  {
  }

  lemma {:induction false} RoomyIsEnough(s: State, size: Word, alignment: Word, supply: Word)
    requires Active(s) && BlocksSound(s) && alignment > 0 && Roomy(s, size, alignment)
    ensures NoWrap(s, size, alignment, supply)
    decreases |s.blocks| - s.active
  {
    UsedWithinSizes(s);
    SizeWithin(s.blocks, s.active);
    SizeWithin(s.blocks, |s.blocks| - 1);
    PaddingBelow(s.blocks[s.active], alignment);
    PaddingBelow(NewBlock(s, size, alignment, supply), alignment);
    assert s.blocks[s.active].offset <= s.blocks[s.active].size;
    hide BlocksSound, Fits, Padding, Sizes, NewBlock;
    if !Fits(s.blocks[s.active], size, alignment) && s.active + 1 < |s.blocks| {
      AdvancedIs(s);
      RoomyIsEnough(Advanced(s), size, alignment, supply);
    }
  }

  lemma {:induction false} UsedWithinSizes(s: State)
    requires BlocksSound(s)
    ensures s.used <= Sizes(s.blocks)
  {
    OffsetsWithinSizes(s.blocks);
  }

  // ----- what a wrap does -----

  lemma {:induction false} OneIsPower()
    ensures IsPowerOfTwo(1)
  {
    assert Bits.And(1, 0) == 0;
  }

  /** With alignment one there is no padding. */
  lemma {:induction false} ByteTurn(b: Block, size: Word)
    requires b.base + b.offset < WORD_END
    ensures PaddingWord(b, 1) == 0 && AlignUpWord(RawWord(b), 1) == b.base + b.offset
    ensures FitsWord(b, size, 1) <==> Wrap(b.offset + size) <= b.size
  {
    OneIsPower();
    PaddingNeverWraps(b, 1);
    hide AlignUpWord, PaddingWord, Padding;
    SmallIsWord(b.base + b.offset);
  }

  const MAX_WORD: Word := WORD_END - 1

  /** One live byte, then a request for the largest size: the offset comes back to zero, an address is
      answered, and the next request is given the live byte again. */
  lemma {:induction false} LiveByteGivenAgain()
    ensures var s0, s1 := State([Block(64, 4096, 0, 64)], 0, 0), State([Block(64, 4096, 1, 64)], 0, 1);
      && AllocatedWord(s0, 1, 1, []) == Placed(s1, 64)
      && AllocatedWord(s1, MAX_WORD, 1, []) == Placed(s0, 65)
      && !Fits(s1.blocks[0], MAX_WORD, 1)
  {
    var b0, b1 := Block(64, 4096, 0, 64), Block(64, 4096, 1, 64);
    ByteTurn(b0, 1);
    ByteTurn(b1, MAX_WORD);
    hide AlignUpWord, PaddingWord, RawWord, Padding;
    assert Wrap(0 + (0 + 1)) == 1 && Wrap(1 + (0 + MAX_WORD)) == 0 && Wrap(1 + MAX_WORD) == 0;
  }

  /** From an empty last block the same request never ends: its minimum size wraps to zero, a doubled size
      is even, and every block the system hands out is too small. */
  lemma {:induction false} LargestNeverPlaced(s: State, supplies: seq<Word>)
    requires Active(s) && s.active + 1 == |s.blocks|
    requires var b := s.blocks[s.active]; b.offset == 0 && b.base < WORD_END && b.size < MAX_WORD
    ensures AllocatedWord(s, MAX_WORD, 1, supplies).Exhausted?
    decreases |supplies|
  {
    var b := s.blocks[s.active];
    ByteTurn(b, MAX_WORD);
    hide AlignUpWord, PaddingWord, RawWord, FitsWord;
    assert Wrap(0 + MAX_WORD) == MAX_WORD && b.size != MAX_WORD;
    if supplies != [] {
      EvenDoubles(b.size);
      assert Wrap(MAX_WORD + 1) == 0;
      LargestNeverPlaced(GrownWord(s, MAX_WORD, 1, supplies[0]), supplies[1..]);
    }
  }

  lemma {:induction false} EvenDoubles(x: nat)
    ensures Wrap(2 * x) % 2 == 0
  {
    var q := 2 * x / WORD_END;
    assert Wrap(2 * x) == 2 * x - WORD_END * q;
    assert WORD_END * q == 2 * (WORD_END / 2 * q);
  }

  // ----- the world in words -----

  /** A text a size word can measure. */
  type Text = t: string | |t| < WORD_END

  datatype Call = AllocateCall(size: Word, alignment: Word, supplies: seq<Word>) | StoreCall(text: Text, supplies: seq<Word>) | ResetCall

  function GivenWord(w: World, size: Word, alignment: Word, supplies: seq<Word>, text: Option<Text>): World
    requires Active(w.state) && alignment > 0
  {
    match AllocatedWord(w.state, size, alignment, supplies)
    case Exhausted(s) => World(s, w.memory, w.live)
    case Placed(s, address) =>
      World(s, if text.Some? then Written(w.memory, address, text.value) else w.memory,
            w.live + [Region(s.active, Wrap(address - s.blocks[s.active].base), size, alignment, text)])
  }

  function StepWord(w: World, call: Call): World
    requires Active(w.state)
  {
    match call
    case AllocateCall(size, alignment, supplies) =>
      if size == 0 || !IsPowerOfTwo(alignment) then w else GivenWord(w, size, alignment, supplies, None)
    case StoreCall(text, supplies) => if text == "" then w else GivenWord(w, |text|, 1, supplies, Some(text))
    case ResetCall => Step(w, Reset)
  }

  function AnswerWord(s: State, size: Word, alignment: Word, supplies: seq<Word>): Answer
    requires Active(s)
  {
    if size == 0 then Null
    else if !IsPowerOfTwo(alignment) then Refused
    else
      match AllocatedWord(s, size, alignment, supplies)
      case Exhausted(_) => Failed
      case Placed(_, address) => At(address)
  }

  /** The request stays within the bound, and the system has a block for it, apart from the others and inside
      the address space. */
  predicate Granted(s: State, size: Word, alignment: Word, supplies: seq<Word>)
    requires s.blocks != []
  {
    Roomy(s, size, alignment) && supplies != [] && Fresh(s, size, alignment, supplies[0]) &&
    supplies[0] + NewSize(s, size, alignment) < WORD_END
  }

  predicate Ready(w: World, call: Call)
    requires Active(w.state)
  {
    match call
    case AllocateCall(size, alignment, supplies) => Granted(w.state, size, alignment, supplies)
    case StoreCall(text, supplies) => Granted(w.state, |text|, 1, supplies)
    case ResetCall => true
  }

  function OpOf(w: World, call: Call): Op
    requires Active(w.state) && Ready(w, call)
  {
    match call
    case AllocateCall(size, alignment, supplies) => Allocate(size, alignment, supplies[0])
    case StoreCall(text, supplies) => Op.StoreString(text, supplies[0])
    case ResetCall => Reset
  }

  lemma {:induction false} TakenBlock(s: State, size: nat, alignment: nat, supply: nat)
    requires Active(s) && alignment > 0
    ensures var t := Allocated(s, size, alignment, supply);
      |t.blocks| > |s.blocks| ==> t.blocks[|s.blocks|].base == supply && t.blocks[|s.blocks|].size == NewSize(s, size, alignment)
    decreases |s.blocks| - s.active
  {
    hide Fits, Padding;
    if !Fits(s.blocks[s.active], size, alignment) && s.active + 1 < |s.blocks| {
      var g := Grown(s, size, alignment, supply);
      TakenBlock(g, size, alignment, supply);
      assert g.blocks[|g.blocks| - 1].size == s.blocks[|s.blocks| - 1].size;
    }
  }

  lemma {:induction false} ExtendsInWords(s: State, t: State, size: nat, alignment: nat)
    requires InWords(s) && Extends(s, t, size, alignment) && t.used < WORD_END
    requires |t.blocks| > |s.blocks| ==> t.blocks[|s.blocks|].base + t.blocks[|s.blocks|].size < WORD_END
    ensures InWords(t)
  {
    hide LastAddress;
  }

  lemma {:induction false} AllocatedInWords(s: State, size: Word, alignment: Word, supplies: seq<Word>)
    requires Active(s) && BlocksSound(s) && InWords(s) && size > 0 && IsPowerOfTwo(alignment) && alignment > 0
    requires Granted(s, size, alignment, supplies)
    ensures var t := Allocated(s, size, alignment, supplies[0]);
      && AllocatedWord(s, size, alignment, supplies) == Placed(t, Wrap(LastAddress(t, size)))
      && BlocksSound(t) && InWords(t)
  {
    hide BlocksSound, InWords, Extends, Allocated, AllocatedWord, NoWrap, IsPowerOfTwo, LastAddress, Wrap, Fresh, NewSize, Roomy;
    var t := Allocated(s, size, alignment, supplies[0]);
    RoomyIsEnough(s, size, alignment, supplies[0]);
    ExactIfNoWrap(s, size, alignment, supplies);
    BlockInWords(s, s.active);
    WordsStayWords(s, size, alignment, supplies);
    AllocatedSound(s, size, alignment, supplies[0]);
    TakenBlock(s, size, alignment, supplies[0]);
    ExtendsInWords(s, t, size, alignment);
  }

  /** The address answered is the start of the region, and the region the exact one. */
  lemma {:induction false} AddressInWords(t: State, size: nat)
    requires BlocksSound(t) && InWords(t) && t.blocks[t.active].offset >= size
    ensures Active(t) && Wrap(LastAddress(t, size)) == LastAddress(t, size)
    ensures Wrap(LastAddress(t, size) - t.blocks[t.active].base) == t.blocks[t.active].offset - size
  {
    var b := t.blocks[t.active];
    assert b.offset <= b.size && b.base + b.size < WORD_END;
    SmallIsWord(LastAddress(t, size));
    SmallIsWord(b.offset - size);
  }

  lemma {:induction false} GivenAgree(w: World, size: Word, alignment: Word, supplies: seq<Word>, text: Option<Text>)
    requires Sound(w) && InWords(w.state) && size > 0 && IsPowerOfTwo(alignment) && alignment > 0
    requires Granted(w.state, size, alignment, supplies)
    ensures GivenWord(w, size, alignment, supplies, text) == Given(w, size, alignment, supplies[0], text)
    ensures InWords(Given(w, size, alignment, supplies[0], text).state)
    ensures AllocatedWord(w.state, size, alignment, supplies).Placed?
    ensures AllocatedWord(w.state, size, alignment, supplies).address == LastAddress(Allocated(w.state, size, alignment, supplies[0]), size)
  {
    AllocatedInWords(w.state, size, alignment, supplies);
    AllocatedRoom(w.state, size, alignment, supplies[0]);
    AddressInWords(Allocated(w.state, size, alignment, supplies[0]), size);
    hide BlocksSound, InWords, Allocated, AllocatedWord, IsPowerOfTwo, LastAddress, Wrap, Written;
  }

  /** Within the bound the wrapped step is the exact one. */
  lemma {:induction false} StepAgrees(w: World, call: Call)
    requires Sound(w) && InWords(w.state) && Ready(w, call)
    ensures Admissible(w, OpOf(w, call)) && StepWord(w, call) == Step(w, OpOf(w, call)) && InWords(StepWord(w, call).state)
  {
    hide Sound, InWords, IsPowerOfTwo, Given, GivenWord, Fresh, Rewound;
    match call
    case AllocateCall(size, alignment, supplies) =>
      if size != 0 && IsPowerOfTwo(alignment) {
        PowerPositive(alignment);
        GivenAgree(w, size, alignment, supplies, None);
      }
    case StoreCall(text, supplies) =>
      if text != "" {
        OneIsPower();
        GivenAgree(w, |text|, 1, supplies, Some(text));
      }
    case ResetCall =>
      RewoundInWords(w.state);
  }

  lemma {:induction false} RewoundInWords(s: State)
    requires InWords(s)
    ensures InWords(Rewound(s))
  {
  }

  /** So the wrapped step keeps the arena sound. */
  lemma {:induction false} StepWordSound(w: World, call: Call)
    requires Sound(w) && InWords(w.state) && Ready(w, call)
    ensures Sound(StepWord(w, call)) && InWords(StepWord(w, call).state)
  {
    hide Sound, InWords, Step, StepWord, Admissible;
    SoundIsActive(w);
    StepAgrees(w, call);
    StepSound(w, OpOf(w, call));
  }

  ghost predicate ReachesWord(w: World, calls: seq<Call>, final: World)
    decreases |calls|
  {
    if calls == [] then w == final
    else Active(w.state) && Ready(w, calls[0]) && ReachesWord(StepWord(w, calls[0]), calls[1..], final)
  }

  /** And every run of wrapped steps within the bound does. */
  lemma {:induction false} RunWordSound(w: World, calls: seq<Call>, final: World)
    requires Sound(w) && InWords(w.state) && ReachesWord(w, calls, final)
    ensures Sound(final) && InWords(final.state)
    decreases |calls|
  {
    hide Sound, InWords, StepWord, Ready;
    if calls != [] {
      StepWordSound(w, calls[0]);
      RunWordSound(StepWord(w, calls[0]), calls[1..], final);
    }
  }

  // ----- the class -----

  lemma {:induction false} StartsSound(supply: Word, size: Word)
    requires size > 0 && supply > 0 && supply + size < WORD_END
    ensures var s := State([Block(supply, size, 0, DEFAULT_ALIGNMENT)], 0, 0); Sound(World(s, map[], [])) && InWords(s)
  {
    var blocks := [Block(supply, size, 0, DEFAULT_ALIGNMENT)];
    assert blocks[1..] == [];
    assert Offsets(blocks) == 0 + Offsets([]);
  }

  /** The class of core/api/canon.api.cppm, its sums wrapped. */
  class ArenaAllocator {
    var blocks: seq<Block>
    var activeIndex: nat
    var bytesUsed: nat
    const initialBlockSize: Word
    /** The bytes behind the addresses. */
    var memory: map<int, char>
    ghost var live: seq<Region>

    function CurrentState(): State
      reads this
    {
      State(blocks, activeIndex, bytesUsed)
    }

    ghost function Contents(): World
      reads this
    {
      World(CurrentState(), memory, live)
    }

    /** Sound, and inside the address space. */
    ghost predicate Valid()
      reads this
    {
      Sound(Contents()) && InWords(CurrentState())
    }

    constructor (initialBlockSize: Word, supply: Word)
      requires initialBlockSize > 0 && supply > 0 && supply % DEFAULT_ALIGNMENT == 0 && supply + initialBlockSize < WORD_END
      ensures Valid() && this.initialBlockSize == initialBlockSize
      ensures CurrentState() == State([Block(supply, initialBlockSize, 0, DEFAULT_ALIGNMENT)], 0, 0) && live == []
    {
      this.initialBlockSize := initialBlockSize;
      blocks := [Block(supply, initialBlockSize, 0, DEFAULT_ALIGNMENT)];
      activeIndex := 0;
      bytesUsed := 0;
      memory := map[];
      live := [];
      new;
      StartsSound(supply, initialBlockSize);
    }

    /** Construction is refused for an empty initial block. */
    static method Create(initialBlockSize: Word, supply: Word) returns (arena: ArenaAllocator?)
      requires supply > 0 && supply % DEFAULT_ALIGNMENT == 0 && supply + initialBlockSize < WORD_END
      ensures arena == null <==> initialBlockSize == 0
      ensures arena != null ==> fresh(arena) && arena.Valid() && arena.initialBlockSize == initialBlockSize
    {
      if initialBlockSize == 0 {
        return null;
      }
      arena := new ArenaAllocator(initialBlockSize, supply);
    }

    /** `grow_to_fit`: false when the system has no block. */
    method GrowToFit(size: Word, alignment: Word, supplies: seq<Word>) returns (ok: bool, rest: seq<Word>)
      requires Active(CurrentState())
      modifies this`blocks, this`activeIndex
      ensures var s := old(CurrentState());
        if s.active + 1 < |s.blocks| then ok && rest == supplies && CurrentState() == Advanced(s)
        else if supplies == [] then !ok && CurrentState() == s
        else ok && rest == supplies[1..] && CurrentState() == GrownWord(s, size, alignment, supplies[0])
    {
      if activeIndex + 1 < |blocks| {
        activeIndex := activeIndex + 1;
        blocks := blocks[activeIndex := blocks[activeIndex].(offset := 0)];
        return true, supplies;
      }
      if supplies == [] {
        return false, [];
      }
      var growth := Wrap(blocks[|blocks| - 1].size * 2);
      var minimum := Wrap(size + alignment);
      blocks := blocks + [Block(supplies[0], Max(growth, minimum), 0, Max(DEFAULT_ALIGNMENT, alignment))];
      activeIndex := |blocks| - 1;
      return true, supplies[1..];
    }

    /** The retry loop of `allocate`. It ends because every turn moves on to a retained block or takes one
        more from the system. */
    method Place(size: Word, alignment: Word, supplies: seq<Word>) returns (address: Option<Word>)
      requires Active(CurrentState()) && alignment > 0
      modifies this`blocks, this`activeIndex, this`bytesUsed
      ensures match AllocatedWord(old(CurrentState()), size, alignment, supplies)
              case Placed(s, at) => CurrentState() == s && address == Some(at)
              case Exhausted(s) => CurrentState() == s && address == None
    {
      hide AlignUpWord, NewSizeWord;
      var left := supplies;
      while true
        invariant Active(CurrentState())
        invariant AllocatedWord(CurrentState(), size, alignment, left) == AllocatedWord(old(CurrentState()), size, alignment, supplies)
        decreases |left|, |blocks| - activeIndex
      {
        var block := blocks[activeIndex];
        var raw: int := Wrap(block.base + block.offset);
        var aligned: int := AlignUpWord(raw, alignment);
        var padding := Wrap(aligned - raw);
        if Wrap(block.offset + padding + size) <= block.size {
          blocks := blocks[activeIndex := block.(offset := Wrap(block.offset + (padding + size)))];
          bytesUsed := Wrap(bytesUsed + (padding + size));
          return Some(aligned);
        }
        var ok, rest := GrowToFit(size, alignment, left);
        if !ok {
          return None;
        }
        left := rest;
      }
    }

    /** `allocate`: the wrapped step, for every request; within the bound, the exact step, and soundness. */
    method AllocateBytes(size: Word, alignment: Word, supplies: seq<Word>) returns (answer: Answer)
      requires Active(CurrentState())
      modifies this
      ensures Contents() == StepWord(old(Contents()), AllocateCall(size, alignment, supplies))
      ensures answer == AnswerWord(old(CurrentState()), size, alignment, supplies)
      ensures old(Valid()) && Ready(old(Contents()), AllocateCall(size, alignment, supplies)) ==>
        Valid() && Contents() == Step(old(Contents()), Allocate(size, alignment, supplies[0])) &&
        answer == AnswerTo(old(CurrentState()), size, alignment, supplies[0])
    {
      hide Sound, InWords, AllocatedWord, Fresh, IsPowerOfTwo, Granted;
      ghost var before, call := Contents(), AllocateCall(size, alignment, supplies);
      if Valid() && Ready(before, call) {
        StepWordSound(before, call);
        StepAgrees(before, call);
        AnswersAgree(before, size, alignment, supplies);
      }
      hide Step, Ready, OpOf, AnswerTo;
      if size == 0 {
        return Null;
      }
      if !IsPowerOfTwo(alignment) {
        return Refused;
      }
      PowerPositive(alignment);
      var placed := Place(size, alignment, supplies);
      if placed.None? {
        return Failed;
      }
      live := live + [Region(activeIndex, Wrap(placed.value - blocks[activeIndex].base), size, alignment, None)];
      return At(placed.value);
    }

    /** `store_string`: the address of the copy. */
    method StoreString(text: Text, supplies: seq<Word>) returns (answer: Answer)
      requires Active(CurrentState())
      modifies this
      ensures Contents() == StepWord(old(Contents()), StoreCall(text, supplies))
      ensures answer.Null? <==> text == ""
      ensures answer.At? ==> Holds(memory, answer.address, text)
      ensures old(Valid()) && Ready(old(Contents()), StoreCall(text, supplies)) ==>
        Valid() && Contents() == Step(old(Contents()), Op.StoreString(text, supplies[0])) && (text != "" ==> answer.At?)
    {
      hide Sound, InWords, AllocatedWord, Fresh, Written, Granted;
      ghost var before, call := Contents(), StoreCall(text, supplies);
      if Valid() && Ready(before, call) {
        StepWordSound(before, call);
        StepAgrees(before, call);
        OneIsPower();
        if text != "" {
          AnswersAgree(before, |text|, 1, supplies);
        }
      }
      hide Step, Ready, OpOf;
      if text == "" {
        return Null;
      }
      var placed := Place(|text|, 1, supplies);
      if placed.None? {
        return Failed;
      }
      WrittenHolds(memory, placed.value, text);
      memory := Written(memory, placed.value, text);
      live := live + [Region(activeIndex, Wrap(placed.value - blocks[activeIndex].base), |text|, 1, Some(text))];
      return At(placed.value);
    }

    /** `reset`: the offsets go back one block after the other. */
    method ResetAll()
      requires Active(CurrentState())
      modifies this
      ensures Contents() == StepWord(old(Contents()), ResetCall)
      ensures old(Valid()) ==> Valid()
    {
      hide Sound, Offsets, InWords;
      ghost var before := Contents();
      if Valid() {
        StepWordSound(before, ResetCall);
      }
      var i := 0;
      while i < |blocks|
        invariant 0 <= i <= |blocks| == |old(blocks)|
        invariant forall j :: 0 <= j < |blocks| ==> blocks[j] == if j < i then old(blocks)[j].(offset := 0) else old(blocks)[j]
        invariant memory == old(memory)
      {
        blocks := blocks[i := blocks[i].(offset := 0)];
        i := i + 1;
      }
      assert blocks == Rewind(old(blocks));
      activeIndex := 0;
      bytesUsed := 0;
      live := [];
    }

    /** `owns`. */
    method Owns(address: Word) returns (owned: bool)
      ensures InWords(CurrentState()) ==> (owned <==> address != 0 && Owned(CurrentState(), address))
    {
      if address == 0 {
        return false;
      }
      for i := 0 to |blocks|
        invariant InWords(CurrentState()) ==> forall j :: 0 <= j < i ==> !InBlock(blocks[j], address)
      {
        var end := Wrap(blocks[i].base + blocks[i].size);
        if blocks[i].base <= address < end {
          assert InWords(CurrentState()) ==> InBlock(blocks[i], address);
          return true;
        }
      }
      return false;
    }

    /** `capacity`. */
    method Capacity() returns (total: Word)
      ensures total == Wrap(Sizes(blocks))
    {
      total := 0;
      ghost var exact := 0;
      for i := 0 to |blocks|
        invariant exact + Sizes(blocks[i..]) == Sizes(blocks) && total == Wrap(exact)
      {
        assert blocks[i..][1..] == blocks[i + 1..];
        Bits.ModPlus(exact, blocks[i].size, WORD_END);
        exact := exact + blocks[i].size;
        total := Wrap(total + blocks[i].size);
      }
    }
  }

  lemma {:induction false} AnswersAgree(w: World, size: Word, alignment: Word, supplies: seq<Word>)
    requires Sound(w) && InWords(w.state) && Active(w.state) && Granted(w.state, size, alignment, supplies)
    ensures AnswerWord(w.state, size, alignment, supplies) == AnswerTo(w.state, size, alignment, supplies[0])
    ensures size > 0 && IsPowerOfTwo(alignment) ==> alignment > 0 && AllocatedWord(w.state, size, alignment, supplies).Placed?
  {
    hide Sound, InWords, Granted, AllocatedWord, Allocated, IsPowerOfTwo, LastAddress;
    if size > 0 && IsPowerOfTwo(alignment) {
      PowerPositive(alignment);
      GivenAgree(w, size, alignment, supplies, None);
    }
  }
}

/**
 The bump arena (core/src/arena/arena_allocator.cpp) with sizes and addresses counted without bound;
 `ArenaWords` is the same arena in 64-bit words, and the class. Where the program asks the system for a
 block, the address it would get is a parameter, required to be apart from every block the arena holds.
 */
module Arena {
  import Bits
  import opened Wrappers

  const DEFAULT_ALIGNMENT: nat := 64
  const WORD_END: nat := 0x1_0000_0000_0000_0000

  // ----- alignment -----

  /** `is_power_of_two`. */
  predicate IsPowerOfTwo(v: nat) {
    v != 0 && Bits.And(v, v - 1) == 0
  }

  lemma {:induction false} PowerTest(v: nat) returns (k: nat)
    ensures IsPowerOfTwo(v) ==> v == Bits.Pow2(k)
    decreases v
  {
    k := 0;
    if v > 1 {
      var h := v / 2;
      if v % 2 == 0 {
        assert v == 2 * h && v - 1 == 1 + 2 * (h - 1);
        Bits.AndOdd(v, h - 1);
        assert v / 2 == h;
        var j := PowerTest(h);
        k := j + 1;
      } else {
        Bits.AndEven(v, h);
        assert v - 1 == 2 * h;
        AndSelf(h);
      }
    }
  }

  lemma {:induction false} AndSelf(x: nat)
    ensures Bits.And(x, x) == x
  {
    if x > 0 {
      AndSelf(x / 2);
      if x % 2 == 0 {
        Bits.AndEven(x, x / 2);
      } else {
        Bits.AndOdd(x, x / 2);
      }
    }
  }

  lemma {:induction false} PowersPass(k: nat)
    ensures IsPowerOfTwo(Bits.Pow2(k))
  {
    if k == 0 {
      assert Bits.Pow2(0) == 1;
    } else {
      PowersPass(k - 1);
      var h := Bits.Pow2(k - 1);
      assert Bits.Pow2(k) == 2 * h && 2 * h - 1 == 1 + 2 * (h - 1);
      Bits.AndOdd(2 * h, h - 1);
      assert 2 * h / 2 == h;
    }
  }

  /** The least multiple of `alignment` at or above `value`. */
  function AlignUp(value: nat, alignment: nat): (r: nat)
    requires alignment > 0
    ensures value <= r < value + alignment && r % alignment == 0
  {
    var top := value + (alignment - 1);
    RoundedDown(top, alignment);
    top - top % alignment
  }

  lemma {:induction false} RoundedDown(top: nat, alignment: nat)
    requires alignment > 0
    ensures 0 <= top % alignment < alignment && top % alignment <= top && (top - top % alignment) % alignment == 0
  {
    var q, r := top / alignment, top % alignment;
    assert top == alignment * q + r;
    Bits.QuotientIs(top - r, alignment, q, 0);
    if q < 0 {
      Bits.MulMonotone(alignment, q, -1);
    }
    Bits.MulMonotone(alignment, 0, q);
  }

  /** The mask computation of `align_up` on 64-bit addresses that do not wrap. */
  lemma {:induction false} AlignUpIsMask(value: nat, k: nat)
    requires k < 64 && value + (Bits.Pow2(k) - 1) < WORD_END
    ensures Bits.And(value + (Bits.Pow2(k) - 1), WORD_END - 1 - (Bits.Pow2(k) - 1)) == AlignUp(value, Bits.Pow2(k))
  {
    hide Bits.And, Bits.Pow2;
    Bits.Pow2Widths();
    Bits.Pow2Add(k, 64 - k);
    var p, q := Bits.Pow2(k), Bits.Pow2(64 - k);
    HighMask(p, q);
    AndHighMask(value + (p - 1), k, 64 - k);
  }

  lemma {:induction false} HighMask(p: nat, q: nat)
    ensures p * q - 1 - (p - 1) == p * (q - 1)
  {
  }

  lemma {:induction false} AndHighMask(x: nat, k: nat, n: nat)
    requires x < Bits.Pow2(k) * Bits.Pow2(n)
    ensures Bits.And(x, Bits.Pow2(k) * (Bits.Pow2(n) - 1)) == x - x % Bits.Pow2(k)
    decreases k
  {
    var q := Bits.Pow2(n);
    if k == 0 {
      assert Bits.Pow2(0) == 1;
      AndOnes(x, n);
      assert x % 1 == 0;
    } else {
      var h := Bits.Pow2(k - 1);
      assert Bits.Pow2(k) == 2 * h;
      hide Bits.And, Bits.Pow2;
      Doubles(h, q - 1);
      Doubles(h, q);
      Bits.MulMonotone(h, 0, q - 1);
      Bits.AndEven(x, h * (q - 1));
      AndHighMask(x / 2, k - 1, n);
      HalfRemainder(x, h);
    }
  }

  lemma {:induction false} Doubles(h: int, q: int)
    ensures (2 * h) * q == 2 * (h * q)
  {
  }

  lemma {:induction false} HalfRemainder(x: nat, h: nat)
    requires h > 0
    ensures 2 * (x / 2 - (x / 2) % h) == x - x % (2 * h)
  {
    var y := x / 2;
    var q, r := y / h, y % h;
    assert y == h * q + r;
    assert x == (2 * h) * q + (2 * r + x % 2);
    Bits.QuotientIs(x, 2 * h, q, 2 * r + x % 2);
  }

  lemma {:induction false} AndOnes(x: nat, n: nat)
    requires x < Bits.Pow2(n)
    ensures Bits.And(x, Bits.Pow2(n) - 1) == x
    decreases n
  {
    if n > 0 {
      var h := Bits.Pow2(n - 1);
      assert Bits.Pow2(n) - 1 == 1 + 2 * (h - 1);
      Bits.AndOdd(x, h - 1);
      AndOnes(x / 2, n - 1);
    }
  }

  // ----- blocks and the bump -----

  datatype Block = Block(base: nat, size: nat, offset: nat, alignment: nat)

  datatype State = State(blocks: seq<Block>, active: nat, used: nat)

  function Max(x: nat, y: nat): nat {
    if x < y then y else x
  }

  function Padding(b: Block, alignment: nat): nat
    requires alignment > 0
  {
    AlignUp(b.base + b.offset, alignment) - (b.base + b.offset)
  }

  predicate Fits(b: Block, size: nat, alignment: nat)
    requires alignment > 0
  {
    b.offset + Padding(b, alignment) + size <= b.size
  }

  function Bump(b: Block, size: nat, alignment: nat): Block
    requires alignment > 0
  {
    b.(offset := b.offset + Padding(b, alignment) + size)
  }

  /** The size the next new block takes. */
  function NewSize(s: State, size: nat, alignment: nat): nat
    requires s.blocks != []
  {
    Max(2 * s.blocks[|s.blocks| - 1].size, size + alignment)
  }

  function NewBlock(s: State, size: nat, alignment: nat, supply: nat): Block
    requires s.blocks != []
  {
    Block(supply, NewSize(s, size, alignment), 0, Max(DEFAULT_ALIGNMENT, alignment))
  }

  predicate Active(s: State) {
    s.active < |s.blocks|
  }

  /** `grow_to_fit`: the next retained block, rewound, or a new one. */
  function Grown(s: State, size: nat, alignment: nat, supply: nat): (g: State)
    requires Active(s)
    ensures Active(g)
  {
    if s.active + 1 < |s.blocks| then
      State(s.blocks[s.active + 1 := s.blocks[s.active + 1].(offset := 0)], s.active + 1, s.used)
    else State(s.blocks + [NewBlock(s, size, alignment, supply)], |s.blocks|, s.used)
  }

  function Bumped(s: State, size: nat, alignment: nat): State
    requires Active(s) && alignment > 0
  {
    var b := s.blocks[s.active];
    State(s.blocks[s.active := Bump(b, size, alignment)], s.active, s.used + Padding(b, alignment) + size)
  }

  /** The state after a successful allocation. */
  function Allocated(s: State, size: nat, alignment: nat, supply: nat): (r: State)
    requires Active(s) && alignment > 0
    ensures Active(r)
    decreases |s.blocks| - s.active
  {
    if Fits(s.blocks[s.active], size, alignment) then Bumped(s, size, alignment)
    else if s.active + 1 < |s.blocks| then Allocated(Grown(s, size, alignment, supply), size, alignment, supply)
    else Bumped(Grown(s, size, alignment, supply), size, alignment)
  }

  /** The address handed out: the last `size` bytes below the active block's offset. */
  function LastAddress(s: State, size: nat): int
    requires Active(s)
  {
    s.blocks[s.active].base + s.blocks[s.active].offset - size
  }

  lemma {:induction false} NewBlockFits(s: State, size: nat, alignment: nat, supply: nat)
    requires s.blocks != [] && alignment > 0
    ensures Fits(NewBlock(s, size, alignment, supply), size, alignment)
  {
  }

  function Rewind(blocks: seq<Block>): (r: seq<Block>)
    ensures |r| == |blocks| && forall i :: 0 <= i < |blocks| ==> r[i] == blocks[i].(offset := 0)
  {
    seq(|blocks|, i requires 0 <= i < |blocks| => blocks[i].(offset := 0))
  }

  function Rewound(s: State): State {
    State(Rewind(s.blocks), 0, 0)
  }

  // ----- conservation -----

  function Offsets(blocks: seq<Block>): nat {
    if blocks == [] then 0 else blocks[0].offset + Offsets(blocks[1..])
  }

  function Sizes(blocks: seq<Block>): nat {
    if blocks == [] then 0 else blocks[0].size + Sizes(blocks[1..])
  }

  lemma {:induction false} OffsetsUpdate(blocks: seq<Block>, i: nat, b: Block)
    requires i < |blocks|
    ensures Offsets(blocks[i := b]) == Offsets(blocks) - blocks[i].offset + b.offset
  {
    if i == 0 {
      assert blocks[0 := b][1..] == blocks[1..];
    } else {
      assert blocks[i := b][1..] == blocks[1..][i - 1 := b];
      OffsetsUpdate(blocks[1..], i - 1, b);
    }
  }

  lemma {:induction false} OffsetsSnoc(blocks: seq<Block>, b: Block)
    ensures Offsets(blocks + [b]) == Offsets(blocks) + b.offset
  {
    if blocks == [] {
      assert [] + [b] == [b] && [b][1..] == [];
    } else {
      assert (blocks + [b])[1..] == blocks[1..] + [b];
      OffsetsSnoc(blocks[1..], b);
    }
  }

  lemma {:induction false} OffsetsRewound(blocks: seq<Block>)
    ensures Offsets(Rewind(blocks)) == 0
  {
    if blocks != [] {
      OffsetsRewound(blocks[1..]);
      assert Rewind(blocks)[1..] == Rewind(blocks[1..]);
    }
  }

  lemma {:induction false} OffsetsWithinSizes(blocks: seq<Block>)
    requires forall i :: 0 <= i < |blocks| ==> blocks[i].offset <= blocks[i].size
    ensures Offsets(blocks) <= Sizes(blocks)
  {
    if blocks != [] {
      OffsetsWithinSizes(blocks[1..]);
    }
  }

  // ----- the world: the arena, the bytes behind it and what it has handed out -----

  /** A region handed out: bytes `[start, start + size)` of a block, and the text stored there, if any. */
  datatype Region = Region(block: nat, start: nat, size: nat, alignment: nat, text: Option<string>)

  datatype World = World(state: State, memory: map<int, char>, live: seq<Region>)

  predicate Apart(b: Block, c: Block) {
    b.base + b.size <= c.base || c.base + c.size <= b.base
  }

  /** What the system promises of a new block's address. */
  predicate Fresh(s: State, size: nat, alignment: nat, supply: nat)
    requires s.blocks != []
  {
    supply > 0 && supply % Max(DEFAULT_ALIGNMENT, alignment) == 0 &&
    forall i :: 0 <= i < |s.blocks| ==> Apart(s.blocks[i], NewBlock(s, size, alignment, supply))
  }

  ghost predicate BlocksSound(s: State) {
    && Active(s)
    && (forall i :: 0 <= i < |s.blocks| ==> s.blocks[i].base > 0 && s.blocks[i].offset <= s.blocks[i].size && s.blocks[i].size > 0)
    && (forall i, j :: 0 <= i < j < |s.blocks| ==> Apart(s.blocks[i], s.blocks[j]))
    && (forall i :: s.active < i < |s.blocks| ==> s.blocks[i].offset == 0)
    && (forall i :: 0 <= i < |s.blocks| - 1 ==> s.blocks[i + 1].size >= 2 * s.blocks[i].size)
    && s.used == Offsets(s.blocks)
  }

  function AddressOf(s: State, r: Region): nat
    requires r.block < |s.blocks|
  {
    s.blocks[r.block].base + r.start
  }

  /** A live region: inside the used part of one block, aligned, its text still in memory. */
  ghost predicate RegionSound(w: World, r: Region) {
    && r.block <= w.state.active < |w.state.blocks|
    && r.start + r.size <= w.state.blocks[r.block].offset
    && r.alignment > 0 && AddressOf(w.state, r) % r.alignment == 0
    && (r.text.Some? ==> Holds(w.memory, AddressOf(w.state, r), r.text.value) && r.size == |r.text.value|)
  }

  predicate Holds(memory: map<int, char>, address: int, text: string) {
    forall x :: address <= x < address + |text| ==> x in memory && memory[x] == text[x - address]
  }

  predicate Disjoint(s: State, q: Region, r: Region)
    requires q.block < |s.blocks| && r.block < |s.blocks|
  {
    AddressOf(s, q) + q.size <= AddressOf(s, r) || AddressOf(s, r) + r.size <= AddressOf(s, q)
  }

  ghost predicate Sound(w: World) {
    && BlocksSound(w.state)
    && (forall i :: 0 <= i < |w.live| ==> RegionSound(w, w.live[i]))
    && forall i, j :: 0 <= i < j < |w.live| ==> Disjoint(w.state, w.live[i], w.live[j])
  }

  // ----- operations -----

  datatype Op = Allocate(size: nat, alignment: nat, supply: nat) | StoreString(text: string, supply: nat) | Reset

  /** What a call answers: nothing for an empty request, a refusal, a failure for want of a block, or an
      address. */
  datatype Answer = Null | Refused | Failed | At(address: int)

  function NewRegion(s: State, size: nat, alignment: nat, text: Option<string>): Region
    requires Active(s) && s.blocks[s.active].offset >= size
  {
    Region(s.active, s.blocks[s.active].offset - size, size, alignment, text)
  }

  /** The copy of `store_string`. */
  function Written(memory: map<int, char>, address: int, text: string): map<int, char>
    decreases |text|
  {
    if text == "" then memory else Written(memory[address := text[0]], address + 1, text[1..])
  }

  lemma {:induction false} WrittenHolds(memory: map<int, char>, address: int, text: string)
    ensures forall x :: address <= x < address + |text| ==>
              x in Written(memory, address, text) && Written(memory, address, text)[x] == text[x - address]
    ensures forall x :: x in memory && !(address <= x < address + |text|) ==>
              x in Written(memory, address, text) && Written(memory, address, text)[x] == memory[x]
    decreases |text|
  {
    if text != "" {
      WrittenHolds(memory[address := text[0]], address + 1, text[1..]);
    }
  }

  lemma {:induction false} AllocatedRoom(s: State, size: nat, alignment: nat, supply: nat)
    requires Active(s) && alignment > 0
    ensures var r := Allocated(s, size, alignment, supply); r.blocks[r.active].offset >= size
    decreases |s.blocks| - s.active
  {
    if !Fits(s.blocks[s.active], size, alignment) && s.active + 1 < |s.blocks| {
      AllocatedRoom(Grown(s, size, alignment, supply), size, alignment, supply);
    }
  }

  function Given(w: World, size: nat, alignment: nat, supply: nat, text: Option<string>): World
    requires Active(w.state) && alignment > 0
  {
    var s := Allocated(w.state, size, alignment, supply);
    AllocatedRoom(w.state, size, alignment, supply);
    World(s, if text.Some? then Written(w.memory, LastAddress(s, size), text.value) else w.memory,
          w.live + [NewRegion(s, size, alignment, text)])
  }

  function Step(w: World, op: Op): World
    requires Active(w.state)
  {
    match op
    case Allocate(size, alignment, supply) =>
      if size == 0 || !IsPowerOfTwo(alignment) then w else Given(w, size, alignment, supply, None)
    case StoreString(text, supply) => if text == "" then w else Given(w, |text|, 1, supply, Some(text))
    case Reset => World(Rewound(w.state), w.memory, [])
  }

  predicate Admissible(w: World, op: Op)
    requires Active(w.state)
  {
    match op
    case Allocate(size, alignment, supply) => Fresh(w.state, size, alignment, supply)
    case StoreString(text, supply) => Fresh(w.state, |text|, 1, supply)
    case Reset => true
  }

  // ----- what every step keeps -----

  /** How an allocation leaves the other blocks: none moves, none shrinks, and only the block it lands in
      changes, past the bytes already used there. */
  ghost predicate Extends(s: State, r: State, size: nat, alignment: nat) {
    && Active(s) && Active(r) && s.active <= r.active && |s.blocks| <= |r.blocks| <= |s.blocks| + 1
    && (forall i :: 0 <= i < |s.blocks| ==> r.blocks[i].base == s.blocks[i].base && r.blocks[i].size == s.blocks[i].size)
    && (forall i :: 0 <= i < |s.blocks| && i != r.active ==> r.blocks[i].offset == s.blocks[i].offset)
    && r.blocks[r.active].offset >= size
    && (r.active < |s.blocks| ==> s.blocks[r.active].offset <= r.blocks[r.active].offset - size)
    && alignment > 0 && LastAddress(r, size) % alignment == 0
  }

  /** Moving on to a retained block never rewinds live bytes: its offset is already zero. */
  lemma {:induction false} AdvanceKeepsBlocks(s: State, size: nat, alignment: nat, supply: nat)
    requires BlocksSound(s) && s.active + 1 < |s.blocks|
    ensures Grown(s, size, alignment, supply) == State(s.blocks, s.active + 1, s.used)
    ensures BlocksSound(Grown(s, size, alignment, supply))
  {
    var b := s.blocks[s.active + 1];
    assert b.offset == 0;
    assert b.(offset := 0) == b;
    assert s.blocks[s.active + 1 := b] == s.blocks;
  }

  lemma {:induction false} GrowthSound(s: State, size: nat, alignment: nat, supply: nat)
    requires BlocksSound(s) && s.active + 1 == |s.blocks| && size > 0 && Fresh(s, size, alignment, supply)
    ensures BlocksSound(Grown(s, size, alignment, supply))
  {
    hide Apart, Offsets, NewSize;
    OffsetsSnoc(s.blocks, NewBlock(s, size, alignment, supply));
    NewSizeDoubles(s, size, alignment);
  }

  lemma {:induction false} NewSizeDoubles(s: State, size: nat, alignment: nat)
    requires s.blocks != []
    ensures NewSize(s, size, alignment) >= 2 * s.blocks[|s.blocks| - 1].size && NewSize(s, size, alignment) >= size
  {
  }

  lemma {:induction false} BumpedExtends(s: State, size: nat, alignment: nat)
    requires Active(s) && alignment > 0
    ensures Extends(s, Bumped(s, size, alignment), size, alignment)
    ensures |Bumped(s, size, alignment).blocks| == |s.blocks|
  {
    var b := s.blocks[s.active];
    var aligned := AlignUp(b.base + b.offset, alignment);
    assert LastAddress(Bumped(s, size, alignment), size) == aligned;
    hide AlignUp;
  }

  lemma {:induction false} BumpedSound(s: State, size: nat, alignment: nat)
    requires BlocksSound(s) && alignment > 0 && Fits(s.blocks[s.active], size, alignment)
    ensures BlocksSound(Bumped(s, size, alignment)) && Extends(s, Bumped(s, size, alignment), size, alignment)
    ensures |Bumped(s, size, alignment).blocks| == |s.blocks|
  {
    BumpedExtends(s, size, alignment);
    OffsetsUpdate(s.blocks, s.active, Bump(s.blocks[s.active], size, alignment));
    hide Offsets, Padding, Extends;
    var t := Bumped(s, size, alignment);
    forall i, j | 0 <= i < j < |t.blocks|
      ensures Apart(t.blocks[i], t.blocks[j])
    {
      assert Apart(s.blocks[i], s.blocks[j]);
    }
  }

  lemma {:induction false} AllocatedSound(s: State, size: nat, alignment: nat, supply: nat)
    requires Active(s) && BlocksSound(s) && size > 0 && alignment > 0 && Fresh(s, size, alignment, supply)
    ensures BlocksSound(Allocated(s, size, alignment, supply))
    ensures Extends(s, Allocated(s, size, alignment, supply), size, alignment)
    decreases |s.blocks| - s.active
  {
    hide BlocksSound, Fits, Apart, Bumped;
    if Fits(s.blocks[s.active], size, alignment) {
      BumpedSound(s, size, alignment);
    } else if s.active + 1 < |s.blocks| {
      AdvanceKeepsBlocks(s, size, alignment, supply);
      AllocatedSound(Grown(s, size, alignment, supply), size, alignment, supply);
    } else {
      var g := Grown(s, size, alignment, supply);
      GrowthSound(s, size, alignment, supply);
      NewBlockFits(s, size, alignment, supply);
      BumpedSound(g, size, alignment);
    }
  }

  /** A region handed out before lies apart from the bytes handed out now. */
  lemma {:induction false} OldRegionApart(w: World, r: Region, t: State, size: nat, alignment: nat)
    requires BlocksSound(w.state) && BlocksSound(t) && RegionSound(w, r) && Extends(w.state, t, size, alignment)
    ensures AddressOf(t, r) == AddressOf(w.state, r)
    ensures AddressOf(t, r) + r.size <= LastAddress(t, size) || LastAddress(t, size) + size <= AddressOf(t, r)
  {
    var i, a := r.block, t.active;
    if i != a {
      assert Apart(t.blocks[if i < a then i else a], t.blocks[if i < a then a else i]);
    }
  }

  lemma {:induction false} OldRegionSound(w: World, r: Region, t: State, size: nat, alignment: nat, memory: map<int, char>)
    requires BlocksSound(w.state) && BlocksSound(t) && RegionSound(w, r) && Extends(w.state, t, size, alignment)
    requires forall x :: x in w.memory && !(LastAddress(t, size) <= x < LastAddress(t, size) + size) ==>
               x in memory && memory[x] == w.memory[x]
    ensures forall live :: RegionSound(World(t, memory, live), r)
  {
    OldRegionApart(w, r, t, size, alignment);
    if r.text.Some? {
      var text, address := r.text.value, AddressOf(w.state, r);
      forall x | address <= x < address + |text|
        ensures x in memory && memory[x] == text[x - address]
      {
        assert x in w.memory;
      }
    }
  }

  lemma {:induction false} GivenSound(w: World, size: nat, alignment: nat, supply: nat, text: Option<string>)
    requires Sound(w) && size > 0 && alignment > 0 && Fresh(w.state, size, alignment, supply)
    requires text.Some? ==> |text.value| == size
    ensures Sound(Given(w, size, alignment, supply, text))
  {
    hide Allocated, Apart, Fresh;
    var g := Given(w, size, alignment, supply, text);
    var t := g.state;
    AllocatedSound(w.state, size, alignment, supply);
    AllocatedRoom(w.state, size, alignment, supply);
    var r := NewRegion(t, size, alignment, text);
    assert AddressOf(t, r) == LastAddress(t, size);
    if text.Some? {
      WrittenHolds(w.memory, LastAddress(t, size), text.value);
    }
    hide Written;
    assert RegionSound(g, r);
    hide BlocksSound, Extends, RegionSound, Disjoint;
    forall i | 0 <= i < |w.live|
      ensures RegionSound(g, w.live[i]) && Disjoint(t, w.live[i], r) && AddressOf(t, w.live[i]) == AddressOf(w.state, w.live[i])
    {
      OldRegionSound(w, w.live[i], t, size, alignment, g.memory);
      OldRegionApart(w, w.live[i], t, size, alignment);
    }
    assert BlocksSound(t);
  }

  lemma {:induction false} RewoundSound(s: State)
    requires BlocksSound(s)
    ensures BlocksSound(Rewound(s))
  {
    OffsetsRewound(s.blocks);
    hide Offsets;
    forall i, j | 0 <= i < j < |s.blocks|
      ensures Apart(Rewind(s.blocks)[i], Rewind(s.blocks)[j])
    {
      assert Apart(s.blocks[i], s.blocks[j]);
    }
  }

  /** Every operation keeps the arena sound: regions aligned, each inside one block, pairwise disjoint, the
      stored texts intact, and the bytes used exactly the offsets' sum. */
  lemma {:induction false} StepSound(w: World, op: Op)
    requires Sound(w) && Admissible(w, op)
    ensures Sound(Step(w, op))
  {
    hide BlocksSound, RegionSound, IsPowerOfTwo, Given, Fresh, Rewound, Disjoint;
    match op
    case Allocate(size, alignment, supply) =>
      if size != 0 && IsPowerOfTwo(alignment) {
        PowerPositive(alignment);
        GivenSound(w, size, alignment, supply, None);
      }
    case StoreString(text, supply) =>
      if text != "" {
        GivenSound(w, |text|, 1, supply, Some(text));
      }
    case Reset =>
      RewoundSound(w.state);
  }

  lemma {:induction false} PowerPositive(v: nat)
    requires IsPowerOfTwo(v)
    ensures v > 0
  {
  }

  ghost predicate Reaches(w: World, ops: seq<Op>, final: World)
    decreases |ops|
  {
    if ops == [] then w == final
    else Active(w.state) && Admissible(w, ops[0]) && Reaches(Step(w, ops[0]), ops[1..], final)
  }

  /** Over any run from a sound arena. */
  lemma {:induction false} RunSound(w: World, ops: seq<Op>, final: World)
    requires Sound(w) && Reaches(w, ops, final)
    ensures Sound(final)
    decreases |ops|
  {
    hide Sound, Step, Admissible;
    if ops != [] {
      StepSound(w, ops[0]);
      RunSound(Step(w, ops[0]), ops[1..], final);
    }
  }

  lemma {:induction false} SoundIsActive(w: World)
    requires Sound(w)
    ensures Active(w.state)
  {
  }

  /** Used bytes never exceed the capacity, and every live region is owned. */
  lemma {:induction false} UsedWithinCapacity(w: World)
    requires Sound(w)
    ensures w.state.used <= Sizes(w.state.blocks)
    ensures forall i, x :: 0 <= i < |w.live| && AddressOf(w.state, w.live[i]) <= x < AddressOf(w.state, w.live[i]) + w.live[i].size ==>
              Owned(w.state, x)
  {
    OffsetsWithinSizes(w.state.blocks);
    hide Offsets, Sizes;
    forall i, x | 0 <= i < |w.live| && AddressOf(w.state, w.live[i]) <= x < AddressOf(w.state, w.live[i]) + w.live[i].size
      ensures Owned(w.state, x)
    {
      assert RegionSound(w, w.live[i]);
    }
  }

  predicate InBlock(b: Block, address: int) {
    b.base <= address < b.base + b.size
  }

  /** `owns`, for a non-null address. */
  predicate Owned(s: State, address: int) {
    exists i :: 0 <= i < |s.blocks| && InBlock(s.blocks[i], address)
  }

  // ----- replay -----

  datatype Request = Request(size: nat, alignment: nat, supply: nat)

  /** A run of requests: the addresses and the state after them. */
  function Served(s: State, requests: seq<Request>): (State, seq<Answer>)
    requires Active(s)
    decreases |requests|
  {
    if requests == [] then (s, [])
    else
      var q := requests[0];
      if q.size == 0 then
        var (t, rest) := Served(s, requests[1..]);
        (t, [Null] + rest)
      else if !IsPowerOfTwo(q.alignment) then
        var (t, rest) := Served(s, requests[1..]);
        (t, [Refused] + rest)
      else
        var next := Allocated(s, q.size, q.alignment, q.supply);
        var (t, rest) := Served(next, requests[1..]);
        (t, [At(LastAddress(next, q.size))] + rest)
  }

  /** The same arena, holding already the blocks it will come to need. */
  predicate Ahead(s: State, r: State, frame: seq<Block>) {
    && r.active == s.active && r.used == s.used && |s.blocks| <= |frame| == |r.blocks|
    && Rewind(s.blocks) == frame[..|s.blocks|] && r.blocks == s.blocks + frame[|s.blocks|..]
    && forall i :: 0 <= i < |frame| ==> frame[i].offset == 0
  }

  /** Allocation only appends blocks, so rewinding before or after it agrees on the old ones. */
  lemma {:induction false} AllocatedAppends(s: State, size: nat, alignment: nat, supply: nat)
    requires Active(s) && alignment > 0
    ensures var t := Allocated(s, size, alignment, supply); |s.blocks| <= |t.blocks| && Rewind(t.blocks)[..|s.blocks|] == Rewind(s.blocks)
    decreases |s.blocks| - s.active
  {
    hide Fits, Padding, NewBlock;
    if !Fits(s.blocks[s.active], size, alignment) && s.active + 1 < |s.blocks| {
      AllocatedAppends(Grown(s, size, alignment, supply), size, alignment, supply);
    }
  }

  lemma {:induction false} ServedAppends(s: State, requests: seq<Request>)
    requires Active(s)
    ensures var t := Served(s, requests).0; |s.blocks| <= |t.blocks| && Rewind(t.blocks)[..|s.blocks|] == Rewind(s.blocks)
    decreases |requests|
  {
    hide Rewind, IsPowerOfTwo, Allocated, LastAddress;
    if requests != [] {
      var q := requests[0];
      if q.size == 0 || !IsPowerOfTwo(q.alignment) {
        ServedAppends(s, requests[1..]);
      } else {
        PowerPositive(q.alignment);
        var next := Allocated(s, q.size, q.alignment, q.supply);
        AllocatedAppends(s, q.size, q.alignment, q.supply);
        ServedAppends(next, requests[1..]);
        assert Rewind(Served(s, requests).0.blocks)[..|next.blocks|][..|s.blocks|] == Rewind(Served(s, requests).0.blocks)[..|s.blocks|];
      }
    }
  }

  lemma {:induction false} BumpedAhead(s: State, r: State, frame: seq<Block>, size: nat, alignment: nat)
    requires Active(s) && Ahead(s, r, frame) && alignment > 0
    ensures Active(r) && r.blocks[r.active] == s.blocks[s.active]
    ensures Ahead(Bumped(s, size, alignment), Bumped(r, size, alignment), frame)
    ensures LastAddress(Bumped(s, size, alignment), size) == LastAddress(Bumped(r, size, alignment), size)
  {
    hide Padding;
  }

  lemma {:induction false} GrownAhead(s: State, r: State, frame: seq<Block>, size: nat, alignment: nat, supply: nat)
    requires Active(s) && Ahead(s, r, frame) && alignment > 0
    requires var g := Grown(s, size, alignment, supply); |g.blocks| <= |frame| && Rewind(g.blocks) == frame[..|g.blocks|]
    ensures Active(r) && Ahead(Grown(s, size, alignment, supply), Grown(r, size, alignment, supply), frame)
    ensures r.active + 1 < |r.blocks|
  {
    hide NewBlock;
    var g := Grown(s, size, alignment, supply);
    if s.active + 1 == |s.blocks| {
      var b := NewBlock(s, size, alignment, supply);
      assert b.offset == 0 by {
        NewBlockStartsEmpty(s, size, alignment, supply);
      }
      assert Rewind(g.blocks)[|s.blocks|] == b;
      assert frame[|s.blocks|] == frame[..|g.blocks|][|s.blocks|] == b;
      assert frame[|s.blocks|..] == [b] + frame[|s.blocks| + 1..];
    }
  }

  lemma {:induction false} NewBlockStartsEmpty(s: State, size: nat, alignment: nat, supply: nat)
    requires s.blocks != []
    ensures NewBlock(s, size, alignment, supply).offset == 0
  {
  }

  /** An allocation in an arena that already holds the next blocks lands at the same address. */
  lemma {:induction false} AllocatedAhead(s: State, r: State, frame: seq<Block>, size: nat, alignment: nat, supply: nat)
    requires Active(s) && Active(r) && Ahead(s, r, frame) && alignment > 0
    requires var t := Allocated(s, size, alignment, supply); |t.blocks| <= |frame| && Rewind(t.blocks) == frame[..|t.blocks|]
    ensures var t, u := Allocated(s, size, alignment, supply), Allocated(r, size, alignment, supply);
      Ahead(t, u, frame) && LastAddress(t, size) == LastAddress(u, size)
    decreases |s.blocks| - s.active
  {
    hide Ahead, Fits, Bumped, Grown, Rewind;
    BumpedAhead(s, r, frame, size, alignment);
    AheadSizes(s, r, frame);
    if !Fits(s.blocks[s.active], size, alignment) {
      var g, h := Grown(s, size, alignment, supply), Grown(r, size, alignment, supply);
      GrownSizes(s, size, alignment, supply);
      if s.active + 1 < |s.blocks| {
        AllocatedAppends(g, size, alignment, supply);
        PrefixOfFrame(g, Allocated(g, size, alignment, supply), frame);
        GrownAhead(s, r, frame, size, alignment, supply);
        AllocatedAhead(g, h, frame, size, alignment, supply);
      } else {
        BumpedRewinds(g, size, alignment);
        GrownAhead(s, r, frame, size, alignment, supply);
        BumpedAhead(g, h, frame, size, alignment);
        NewBlockFits(s, size, alignment, supply);
        AllocatedFits(h, size, alignment, supply);
      }
    }
  }

  lemma {:induction false} AheadSizes(s: State, r: State, frame: seq<Block>)
    requires Ahead(s, r, frame)
    ensures r.active == s.active && |s.blocks| <= |r.blocks| == |frame|
  {
  }

  lemma {:induction false} GrownSizes(s: State, size: nat, alignment: nat, supply: nat)
    requires Active(s)
    ensures var g := Grown(s, size, alignment, supply);
      && g.active == (if s.active + 1 < |s.blocks| then s.active + 1 else |s.blocks|)
      && |g.blocks| == (if s.active + 1 < |s.blocks| then |s.blocks| else |s.blocks| + 1)
      && (s.active + 1 == |s.blocks| ==> g.blocks[g.active] == NewBlock(s, size, alignment, supply))
  {
  }

  lemma {:induction false} PrefixOfFrame(g: State, t: State, frame: seq<Block>)
    requires |g.blocks| <= |t.blocks| <= |frame| && Rewind(t.blocks) == frame[..|t.blocks|]
    requires Rewind(t.blocks)[..|g.blocks|] == Rewind(g.blocks)
    ensures Rewind(g.blocks) == frame[..|g.blocks|]
  {
    assert frame[..|t.blocks|][..|g.blocks|] == frame[..|g.blocks|];
  }

  lemma {:induction false} BumpedRewinds(g: State, size: nat, alignment: nat)
    requires Active(g) && alignment > 0
    ensures Rewind(Bumped(g, size, alignment).blocks) == Rewind(g.blocks)
    ensures |Bumped(g, size, alignment).blocks| == |g.blocks|
  {
    hide Padding;
  }

  lemma {:induction false} AllocatedFits(s: State, size: nat, alignment: nat, supply: nat)
    requires Active(s) && alignment > 0 && Fits(s.blocks[s.active], size, alignment)
    ensures Allocated(s, size, alignment, supply) == Bumped(s, size, alignment)
  {
  }

  lemma {:induction false} ServedAhead(s: State, r: State, frame: seq<Block>, requests: seq<Request>)
    requires Active(s) && Active(r) && Ahead(s, r, frame)
    requires frame == Rewind(Served(s, requests).0.blocks)
    ensures Served(r, requests).1 == Served(s, requests).1
    ensures Ahead(Served(s, requests).0, Served(r, requests).0, frame)
    decreases |requests|
  {
    hide Ahead, Rewind, IsPowerOfTwo, Allocated, LastAddress;
    if requests != [] {
      var q := requests[0];
      if q.size == 0 || !IsPowerOfTwo(q.alignment) {
        ServedAhead(s, r, frame, requests[1..]);
      } else {
        PowerPositive(q.alignment);
        var next := Allocated(s, q.size, q.alignment, q.supply);
        ServedAppends(next, requests[1..]);
        AllocatedAhead(s, r, frame, q.size, q.alignment, q.supply);
        ServedAhead(next, Allocated(r, q.size, q.alignment, q.supply), frame, requests[1..]);
      }
    }
  }

  /** After a reset, replaying the same requests gives the same answers, ends in the same state, and so takes
      no new block. */
  lemma {:induction false} ReplayIsTheSame(s: State, requests: seq<Request>)
    requires Active(s) && s == Rewound(s)
    ensures Active(Rewound(Served(s, requests).0))
    ensures Served(Rewound(Served(s, requests).0), requests) == Served(s, requests)
  {
    var t := Served(s, requests).0;
    ServedAppends(s, requests);
    var r, frame := Rewound(t), Rewind(t.blocks);
    assert Rewind(s.blocks) == s.blocks;
    assert frame == frame[..|s.blocks|] + frame[|s.blocks|..];
    hide Served;
    assert Ahead(s, r, frame);
    ServedAhead(s, r, frame, requests);
    assert frame[|t.blocks|..] == [] && t.blocks + [] == t.blocks;
  }

  // ----- answers -----

  function AnswerTo(s: State, size: nat, alignment: nat, supply: nat): Answer
    requires Active(s)
  {
    if size == 0 then Null
    else if !IsPowerOfTwo(alignment) then Refused
    else At(LastAddress(Allocated(s, size, alignment, supply), size))
  }
}

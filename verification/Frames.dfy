/**
 The physical frame allocator (kernel/arch/x86/components/physical_memory.c): a bitmap of
 32-bit words, one bit a frame, searched for the lowest free frame or run of frames.

 A word is given by its 32 bits, so that setting or clearing bit j is an update at j.
 */
module Frames {
  import opened Common

  const BITS: int := 32
  /** Words 1 to 127 describe the frames below 16 MB. */
  const LOW_WORDS: int := 128
  const LOW_MASK_LIMIT: int := 0xFF_FFFF

  type Word = w: seq<bool> | |w| == BITS witness seq(BITS, _ => false)

  const ALL_ONES: Word := seq(BITS, _ => true)

  // ---------- The set a bitmap stands for ----------

  predicate Used(words: seq<Word>, f: int)
    requires 0 <= f < BITS * |words|
  {
    words[f / BITS][f % BITS]
  }

  function UsedSet(words: seq<Word>): set<int> {
    set f | 0 <= f < BITS * |words| && Used(words, f)
  }

  function Mark(words: seq<Word>, f: int, used: bool): seq<Word>
    requires 0 <= f < BITS * |words|
  {
    words[f / BITS := words[f / BITS][f % BITS := used]]
  }

  /** Setting a bit adds its frame to the set, clearing it removes the frame. */
  lemma MarkUpdatesSet(words: seq<Word>, f: int, used: bool)
    requires 0 <= f < BITS * |words|
    ensures UsedSet(Mark(words, f, used)) == if used then UsedSet(words) + {f} else UsedSet(words) - {f}
  {
    forall g | 0 <= g < BITS * |words| ensures Used(Mark(words, f, used), g) == if g == f then used else Used(words, g) {
      assert g == g / BITS * BITS + g % BITS && f == f / BITS * BITS + f % BITS;
    }
  }

  // ---------- The searches ----------

  /** The test at bit j of a word: the bit is clear, and so are those of the run as far as
      the word goes. */
  predicate RunFits(w: Word, j: int, count: int)
    requires 0 <= j < BITS
  {
    !w[j] && forall c :: j <= c < BITS && c < j + count ==> !w[c]
  }

  predicate FitsAt(words: seq<Word>, f: int, count: int)
    requires 0 <= f < BITS * |words|
  {
    RunFits(words[f / BITS], f % BITS, count)
  }

  /** The lowest frame in [f, to) where a run may start, or -1. */
  function Lowest(words: seq<Word>, f: int, limit: int, count: int): (r: int)
    requires 0 <= f && limit <= BITS * |words|
    ensures r == -1 || (f <= r < limit && FitsAt(words, r, count))
    ensures forall g :: f <= g < limit && (r == -1 || g < r) ==> !FitsAt(words, g, count)
    decreases limit - f
  {
    if f >= limit then -1
    else if FitsAt(words, f, count) then f
    else Lowest(words, f + 1, limit, count)
  }

  lemma {:induction false} LowestSkips(words: seq<Word>, f: int, g: int, limit: int, count: int)
    requires 0 <= f <= g <= limit <= BITS * |words|
    requires forall k :: f <= k < g ==> !FitsAt(words, k, count)
    ensures Lowest(words, f, limit, count) == Lowest(words, g, limit, count)
    decreases g - f
  {
    if f < g {
      LowestSkips(words, f + 1, g, limit, count);
    }
  }

  function MarkRun(words: seq<Word>, f: int, count: int, used: bool): (out: seq<Word>)
    requires 0 <= f && f + count <= BITS * |words|
    ensures |out| == |words|
    decreases count
  {
    if count <= 0 then words else MarkRun(Mark(words, f, used), f + 1, count - 1, used)
  }

  /** A value of type size_t. */
  function Wrap(x: int): int {
    x % WORD_LIMIT
  }

  /** A counter of type size_t that stands one below n. */
  lemma WrapOnce(n: int)
    requires 0 <= n < WORD_LIMIT
    ensures Wrap(Wrap(n - 1) + 1) == n && Wrap(Wrap(n - 1) - 1) == Wrap(n - 2)
    ensures n > 0 ==> Wrap(n - 1) == n - 1
  {
  }

  /** Both searches look at whole words below this one. */
  function SearchEnd(blocks: nat): int {
    if blocks < LOW_WORDS then LOW_WORDS else blocks
  }

  /** The bitmap goes on far enough for a run that starts in the last searched word. */
  predicate RoomFor(words: nat, blocks: nat, count: int) {
    BITS * SearchEnd(blocks) + count <= BITS * words
  }

  function FindFrame(words: seq<Word>, blocks: nat, mask: int, count: int): (frame: int)
    requires LOW_WORDS < |words| && blocks < |words|
    ensures frame == -1 || BITS <= frame < BITS * SearchEnd(blocks)
  {
    if mask <= LOW_MASK_LIMIT then Lowest(words, BITS, BITS * LOW_WORDS, count)
    else Lowest(words, BITS * LOW_WORDS, BITS * blocks, count)
  }

  /** The bitmap after a request for count frames. */
  function Taken(words: seq<Word>, blocks: nat, mask: int, count: int): (out: seq<Word>)
    requires LOW_WORDS < |words| && blocks < |words| && RoomFor(|words|, blocks, count)
    ensures |out| == |words|
  {
    var frame := FindFrame(words, blocks, mask, count);
    if frame == -1 then words else MarkRun(words, frame, count, true)
  }

  /** (PhysicalAddress_t)(Frame * PAGE_SIZE). */
  function FrameAddress(frame: int): int {
    frame * PAGE_SIZE % WORD_LIMIT
  }

  /** The scan of one word. */
  method SearchWord(w: Word, count: int) returns (j: int)
    ensures 0 <= j <= BITS
    ensures j < BITS ==> RunFits(w, j, count)
    ensures forall b :: 0 <= b < j ==> !RunFits(w, b, count)
  {
    j := 0;
    while j < BITS
      invariant 0 <= j <= BITS
      invariant forall b :: 0 <= b < j ==> !RunFits(w, b, count)
    {
      if !w[j] {
        var found, k, c := true, 0, j;
        while k < count && c < BITS
          invariant c == j + k && 0 <= k && c <= BITS
          invariant found && forall b :: j <= b < c ==> !w[b]
          decreases BITS - c, found
        {
          if w[c] {
            found := false;
            break;
          }
          k, c := k + 1, c + 1;
        }
        if found {
          return;
        }
      }
      j := j + 1;
    }
  }

  class FrameMap {
    const MemoryBitmap: array<Word>
    const MemoryBlocks: nat
    var MemoryBlocksUsed: nat

    /** The high search reads MemoryBlocks words, not MemoryBlocks bits. */
    ghost predicate Valid() {
      MemoryBitmap.Length > LOW_WORDS && MemoryBitmap.Length > MemoryBlocks
    }

    constructor (words: nat, blocks: nat)
      requires words > LOW_WORDS && words > blocks
      ensures Valid() && fresh(MemoryBitmap) && MemoryBlocks == blocks && MemoryBitmap.Length == words
      ensures MemoryBlocksUsed == blocks && forall i :: 0 <= i < words ==> MemoryBitmap[i] == ALL_ONES
    {
      MemoryBitmap := new Word[words](_ => ALL_ONES);
      MemoryBlocks := blocks;
      MemoryBlocksUsed := blocks;
    }

    method MmMemoryMapSetBit(bit: int)
      requires 0 <= bit < BITS * MemoryBitmap.Length
      modifies MemoryBitmap
      ensures MemoryBitmap[..] == Mark(old(MemoryBitmap[..]), bit, true)
    {
      MemoryBitmap[bit / BITS] := MemoryBitmap[bit / BITS][bit % BITS := true];
    }

    method MmMemoryMapUnsetBit(bit: int)
      requires 0 <= bit < BITS * MemoryBitmap.Length
      modifies MemoryBitmap
      ensures MemoryBitmap[..] == Mark(old(MemoryBitmap[..]), bit, false)
    {
      MemoryBitmap[bit / BITS] := MemoryBitmap[bit / BITS][bit % BITS := false];
    }

    /** The word loop that the low and the high search share. */
    method SearchWords(first: int, limit: int, count: int) returns (result: int)
      requires 0 <= first && limit <= MemoryBitmap.Length
      ensures result == if first < limit then Lowest(MemoryBitmap[..], BITS * first, BITS * limit, count) else -1
    {
      result := -1;
      var i := first;
      while i < limit
        invariant first <= i && (i <= limit || i == first)
        invariant forall g :: BITS * first <= g < BITS * i ==> !FitsAt(MemoryBitmap[..], g, count)
      {
        var j := BITS;
        if MemoryBitmap[i] != ALL_ONES {
          j := SearchWord(MemoryBitmap[i], count);
        }
        NothingBefore(MemoryBitmap[..], i, j, count);
        if j < BITS {
          result := i * BITS + j;
          LowestSkips(MemoryBitmap[..], BITS * first, result, BITS * limit, count);
          return;
        }
        i := i + 1;
      }
    }

    /** MmGetFreeMapBitLow. */
    method MmGetFreeMapBitLow(count: int) returns (frame: int)
      requires Valid()
      ensures frame == Lowest(MemoryBitmap[..], BITS, BITS * LOW_WORDS, count)
    {
      frame := SearchWords(1, LOW_WORDS, count);
    }

    /** MmGetFreeMapBitHigh. */
    method MmGetFreeMapBitHigh(count: int) returns (frame: int)
      requires Valid()
      ensures frame == Lowest(MemoryBitmap[..], BITS * LOW_WORDS, BITS * MemoryBlocks, count)
    {
      frame := SearchWords(LOW_WORDS, MemoryBlocks, count);
    }

    /** The loop of MmPhysicalAllocateBlock that marks the frames found. */
    method SetBits(frame: int, count: int)
      requires 0 <= frame && 0 <= count && frame + count <= BITS * MemoryBitmap.Length
      modifies MemoryBitmap
      ensures MemoryBitmap[..] == MarkRun(old(MemoryBitmap[..]), frame, count, true)
    {
      for i := 0 to count
        invariant MarkRun(MemoryBitmap[..], frame + i, count - i, true) == MarkRun(old(MemoryBitmap[..]), frame, count, true)
      {
        MmMemoryMapSetBit(frame + i);
      }
    }

    /** MmPhysicalAllocateBlock.  It counts one block whatever the count, and a failed
        search too, whose frame -1 becomes the address 0xFFFFF000. */
    method MmPhysicalAllocateBlock(mask: int, count: int) returns (address: int)
      requires Valid() && 0 <= count && RoomFor(MemoryBitmap.Length, MemoryBlocks, count)
      modifies this`MemoryBlocksUsed, MemoryBitmap
      ensures address == FrameAddress(FindFrame(old(MemoryBitmap[..]), MemoryBlocks, mask, count))
      ensures MemoryBitmap[..] == Taken(old(MemoryBitmap[..]), MemoryBlocks, mask, count)
      ensures MemoryBlocksUsed == old(MemoryBlocksUsed) + 1
    {
      var frame := -1;
      if mask <= LOW_MASK_LIMIT {
        frame := MmGetFreeMapBitLow(count);
      } else {
        frame := MmGetFreeMapBitHigh(count);
      }
      if frame != -1 {
        SetBits(frame, count);
      }
      MemoryBlocksUsed := MemoryBlocksUsed + 1;
      address := FrameAddress(frame);
    }

    /** MmPhysicalFreeBlock. */
    method MmPhysicalFreeBlock(address: int)
      requires 0 <= address < PAGE_SIZE * BITS * MemoryBitmap.Length
      modifies this`MemoryBlocksUsed, MemoryBitmap
      ensures MemoryBitmap[..] == Mark(old(MemoryBitmap[..]), address / PAGE_SIZE, false)
      ensures MemoryBlocksUsed == if old(MemoryBlocksUsed) == 0 then 0 else old(MemoryBlocksUsed) - 1
    {
      MmMemoryMapUnsetBit(address / PAGE_SIZE);
      if MemoryBlocksUsed != 0 {
        MemoryBlocksUsed := MemoryBlocksUsed - 1;
      }
    }

    /** MmAllocateRegion.  Its 32-bit count runs one round past zero. */
    method MmAllocateRegion(base: int, size: int)
      requires 0 <= base && 0 <= size < WORD_LIMIT
      requires base / PAGE_SIZE + size / PAGE_SIZE + 1 <= BITS * MemoryBitmap.Length
      modifies this`MemoryBlocksUsed, MemoryBitmap
      ensures MemoryBitmap[..] == MarkRun(old(MemoryBitmap[..]), base / PAGE_SIZE, size / PAGE_SIZE + 1, true)
      ensures MemoryBlocksUsed == old(MemoryBlocksUsed) + size / PAGE_SIZE + 1
    {
      var frame, count := base / PAGE_SIZE, size / PAGE_SIZE;
      ghost var n, left := count, count + 1;
      WrapOnce(n + 1);
      hide Wrap;
      while Wrap(count + 1) > 0
        invariant 0 <= left <= n + 1 && count == Wrap(left - 1) && Wrap(count + 1) == left
        invariant frame == base / PAGE_SIZE + n + 1 - left
        invariant MarkRun(MemoryBitmap[..], frame, left, true) == MarkRun(old(MemoryBitmap[..]), base / PAGE_SIZE, n + 1, true)
        invariant MemoryBlocksUsed + left == old(MemoryBlocksUsed) + n + 1
        decreases left
      {
        WrapOnce(left - 1);
        WrapOnce(left);
        MmMemoryMapSetBit(frame);
        frame := frame + 1;
        MemoryBlocksUsed := MemoryBlocksUsed + 1;
        count, left := Wrap(count - 1), left - 1;
      }
    }

    /** MmFreeRegion. */
    method MmFreeRegion(base: int, size: int)
      requires 0 <= base && 0 <= size < WORD_LIMIT
      requires base / PAGE_SIZE + size / PAGE_SIZE <= BITS * MemoryBitmap.Length
      modifies this`MemoryBlocksUsed, MemoryBitmap
      ensures MemoryBitmap[..] == MarkRun(old(MemoryBitmap[..]), base / PAGE_SIZE, size / PAGE_SIZE, false)
      ensures var n := size / PAGE_SIZE;
        MemoryBlocksUsed == if old(MemoryBlocksUsed) < n then 0 else old(MemoryBlocksUsed) - n
    {
      var frame, count := base / PAGE_SIZE, size / PAGE_SIZE;
      while count > 0
        invariant 0 <= count <= size / PAGE_SIZE
        invariant frame == base / PAGE_SIZE + size / PAGE_SIZE - count
        invariant MarkRun(MemoryBitmap[..], frame, count, false) == MarkRun(old(MemoryBitmap[..]), base / PAGE_SIZE, size / PAGE_SIZE, false)
        invariant var n := size / PAGE_SIZE - count;
          MemoryBlocksUsed == if old(MemoryBlocksUsed) < n then 0 else old(MemoryBlocksUsed) - n
      {
        MmMemoryMapUnsetBit(frame);
        frame := frame + 1;
        if MemoryBlocksUsed != 0 {
          MemoryBlocksUsed := MemoryBlocksUsed - 1;
        }
        count := count - 1;
      }
    }
  }

  lemma NothingBefore(words: seq<Word>, i: int, j: int, count: int)
    requires 0 <= i < |words| && 0 <= j <= BITS
    requires words[i] == ALL_ONES || forall b :: 0 <= b < j ==> !RunFits(words[i], b, count)
    ensures forall g :: BITS * i <= g < BITS * i + j ==> !FitsAt(words, g, count)
    ensures j < BITS ==> FitsAt(words, BITS * i + j, count) == RunFits(words[i], j, count)
  {
    forall g | BITS * i <= g < BITS * i + j ensures !FitsAt(words, g, count) {
      assert g / BITS == i && g % BITS == g - BITS * i;
    }
  }

  // ---------- What runs of the allocator keep ----------

  function Span(f: int, count: int): (s: set<int>)
    ensures forall g :: g in s <==> f <= g < f + count
    decreases count
  {
    if count <= 0 then {} else {f} + Span(f + 1, count - 1)
  }

  lemma {:induction false} MarkRunUpdatesSet(words: seq<Word>, f: int, count: int, used: bool)
    requires 0 <= f && 0 <= count && f + count <= BITS * |words|
    ensures UsedSet(MarkRun(words, f, count, used)) ==
            if used then UsedSet(words) + Span(f, count) else UsedSet(words) - Span(f, count)
    decreases count
  {
    if count > 0 {
      MarkUpdatesSet(words, f, used);
      MarkRunUpdatesSet(Mark(words, f, used), f + 1, count - 1, used);
    }
  }

  /** A region that is allocated and then freed leaves its one extra frame behind. */
  lemma RegionLeavesGuardFrame(words: seq<Word>, f: int, count: int)
    requires 0 <= f && 0 <= count && f + count + 1 <= BITS * |words|
    ensures UsedSet(MarkRun(MarkRun(words, f, count + 1, true), f, count, false)) ==
            (UsedSet(words) - Span(f, count)) + {f + count}
  {
    MarkRunUpdatesSet(words, f, count + 1, true);
    MarkRunUpdatesSet(MarkRun(words, f, count + 1, true), f, count, false);
  }

  /** Where a request looks: below 16 MB, but not in the first word, for a mask up to
      0xFFFFFF, and above 16 MB for every other. */
  lemma FoundInRange(words: seq<Word>, blocks: nat, mask: int, count: int)
    requires LOW_WORDS < |words| && blocks < |words|
    ensures var f := FindFrame(words, blocks, mask, count);
      f != -1 ==> if mask <= 0xFF_FFFF then 32 <= f < 4096 else 4096 <= f < 32 * blocks
  {
  }

  /** A request takes the whole run that it finds, and nothing else. */
  lemma TakenTakesRun(words: seq<Word>, blocks: nat, mask: int, count: int)
    requires LOW_WORDS < |words| && blocks < |words| && 0 <= count && RoomFor(|words|, blocks, count)
    ensures var f := FindFrame(words, blocks, mask, count);
      UsedSet(Taken(words, blocks, mask, count)) == if f == -1 then UsedSet(words) else UsedSet(words) + Span(f, count)
  {
    var f := FindFrame(words, blocks, mask, count);
    if f != -1 {
      MarkRunUpdatesSet(words, f, count, true);
    }
  }

  datatype Op = Take(mask: int) | Give(frame: int)

  /** The allocator's state, and the frames its callers hold. */
  datatype State = State(words: seq<Word>, blocks: nat, counter: int, held: set<int>)

  predicate WellFormed(s: State) {
    && LOW_WORDS < |s.words| && s.blocks < |s.words|
    && s.held <= UsedSet(s.words)
    && |s.held| <= s.counter
  }

  /** Single-frame requests that find a frame, and frees of frames that are held. */
  predicate Enabled(s: State, op: Op)
    requires WellFormed(s)
  {
    match op
    case Take(mask) => FindFrame(s.words, s.blocks, mask, 1) != -1
    case Give(frame) => frame in s.held
  }

  function Step(s: State, op: Op): State
    requires WellFormed(s) && Enabled(s, op)
  {
    match op
    case Take(mask) =>
      var f := FindFrame(s.words, s.blocks, mask, 1);
      State(MarkRun(s.words, f, 1, true), s.blocks, s.counter + 1, s.held + {f})
    case Give(frame) =>
      State(Mark(s.words, frame, false), s.blocks, if s.counter == 0 then 0 else s.counter - 1, s.held - {frame})
  }

  lemma FitsIsFree(words: seq<Word>, f: int)
    requires 0 <= f < BITS * |words|
    ensures FitsAt(words, f, 1) <==> f !in UsedSet(words)
  {
  }

  /**
   A single-frame request gets the lowest free frame of its range, which nobody holds, and
   one below 16 MB under the low mask.
   */
  lemma TakeFindsLowest(s: State, mask: int)
    requires WellFormed(s) && FindFrame(s.words, s.blocks, mask, 1) != -1
    ensures var f := FindFrame(s.words, s.blocks, mask, 1);
      && f !in s.held && f !in UsedSet(s.words)
      && (mask <= LOW_MASK_LIMIT ==> FrameAddress(f) + PAGE_SIZE <= 0x100_0000)
      && forall g :: (if mask <= LOW_MASK_LIMIT then BITS else BITS * LOW_WORDS) <= g < f ==> g in UsedSet(s.words)
  {
    var f := FindFrame(s.words, s.blocks, mask, 1);
    FitsIsFree(s.words, f);
    forall g | (if mask <= LOW_MASK_LIMIT then BITS else BITS * LOW_WORDS) <= g < f ensures g in UsedSet(s.words) {
      FitsIsFree(s.words, g);
    }
  }

  /** The counter moves with the set of used frames. */
  lemma StepKeeps(s: State, op: Op)
    requires WellFormed(s) && Enabled(s, op)
    ensures WellFormed(Step(s, op))
    ensures Step(s, op).counter - |UsedSet(Step(s, op).words)| == s.counter - |UsedSet(s.words)|
  {
    match op
    case Take(mask) =>
      var f := FindFrame(s.words, s.blocks, mask, 1);
      FitsIsFree(s.words, f);
      MarkRunUpdatesSet(s.words, f, 1, true);
      assert Span(f, 1) == {f};
    case Give(frame) =>
      MarkUpdatesSet(s.words, frame, false);
  }

  /** A fresh allocator: whatever is marked, nobody holds a frame yet. */
  lemma StartIsWellFormed(words: seq<Word>, blocks: nat, counter: int)
    requires LOW_WORDS < |words| && blocks < |words| && 0 <= counter
    ensures WellFormed(State(words, blocks, counter, {}))
  {
  }

  /** Every operation of the run is enabled when its turn comes. */
  ghost predicate Runs(s: State, ops: seq<Op>)
    requires WellFormed(s)
    decreases |ops|
  {
    ops == [] || (Enabled(s, ops[0]) && WellFormed(Step(s, ops[0])) && Runs(Step(s, ops[0]), ops[1..]))
  }

  ghost function After(s: State, ops: seq<Op>): State
    requires WellFormed(s) && Runs(s, ops)
    decreases |ops|
  {
    if ops == [] then s else After(Step(s, ops[0]), ops[1..])
  }

  /** A run goes as far as its operations are enabled: each leaves a well-formed state. */
  lemma {:induction false} RunsKeepCount(s: State, ops: seq<Op>)
    requires WellFormed(s) && Runs(s, ops)
    ensures var t := After(s, ops);
      && WellFormed(t) && t.held <= UsedSet(t.words)
      && t.counter - |UsedSet(t.words)| == s.counter - |UsedSet(s.words)|
    decreases |ops|
  {
    if ops != [] {
      StepKeeps(s, ops[0]);
      RunsKeepCount(Step(s, ops[0]), ops[1..]);
    }
  }

  /** The frame that operation i of a run takes. */
  ghost function TakenAt(s: State, ops: seq<Op>, i: nat): int
    requires WellFormed(s) && Runs(s, ops) && i < |ops| && ops[i].Take?
    decreases i
  {
    if i == 0 then FindFrame(s.words, s.blocks, ops[0].mask, 1) else TakenAt(Step(s, ops[0]), ops[1..], i - 1)
  }

  /** A frame that is held can be taken only after it has been given back. */
  lemma {:induction false} HeldUntilGiven(s: State, ops: seq<Op>, j: nat, f: int)
    requires WellFormed(s) && Runs(s, ops) && f in s.held
    requires j < |ops| && ops[j].Take? && TakenAt(s, ops, j) == f
    ensures exists k :: 0 <= k < j && ops[k] == Give(f)
    decreases j
  {
    hide UsedSet;
    hide MarkRun;
    hide Mark;
    if j == 0 {
      TakeFindsLowest(s, ops[0].mask);
    } else if ops[0] != Give(f) {
      HeldUntilGiven(Step(s, ops[0]), ops[1..], j - 1, f);
      var k :| 0 <= k < j - 1 && ops[1..][k] == Give(f);
      assert ops[k + 1] == Give(f);
    }
  }

  /** Over every run, no frame is handed out twice without having been given back in between. */
  lemma {:induction false} NeverHandedOutTwice(s: State, ops: seq<Op>, i: nat, j: nat)
    requires WellFormed(s) && Runs(s, ops) && i < j < |ops| && ops[i].Take? && ops[j].Take?
    requires TakenAt(s, ops, i) == TakenAt(s, ops, j)
    ensures exists k :: i < k < j && ops[k] == Give(TakenAt(s, ops, i))
    decreases i
  {
    hide UsedSet;
    hide MarkRun;
    hide Mark;
    var t, rest, f := Step(s, ops[0]), ops[1..], TakenAt(s, ops, i);
    if i == 0 {
      HeldUntilGiven(t, rest, j - 1, f);
      var k :| 0 <= k < j - 1 && rest[k] == Give(f);
      assert ops[k + 1] == Give(f);
    } else {
      NeverHandedOutTwice(t, rest, i - 1, j - 1);
      var k :| i - 1 < k < j - 1 && rest[k] == Give(f);
      assert ops[k + 1] == Give(f);
    }
  }

  // ---------- Where the searches fall short ----------

  /** The high search takes the number of frames for a number of words.  The frame it finds
      exists exactly when some existing frame above 16 MB is free. */
  lemma HighFrameExistsExactly(words: seq<Word>, blocks: nat)
    requires LOW_WORDS < |words| && blocks < |words|
    ensures var f := Lowest(words, BITS * LOW_WORDS, BITS * blocks, 1);
      (f != -1 && f < blocks) <==> exists g :: BITS * LOW_WORDS <= g < blocks && g !in UsedSet(words)
  {
    var f := Lowest(words, BITS * LOW_WORDS, BITS * blocks, 1);
    forall g | 0 <= g < BITS * |words| ensures FitsAt(words, g, 1) <==> g !in UsedSet(words) {}
    if g :| BITS * LOW_WORDS <= g < blocks && g !in UsedSet(words) {
      assert FitsAt(words, g, 1);
    }
    if f != -1 && f < blocks {
      assert f !in UsedSet(words);
    }
  }

  /** When all frames are used and memory behind the bitmap has a clear bit, a request is handed
      a frame that does not exist. */
  lemma HighFrameMayNotExist(blocks: nat)
    requires LOW_WORDS < blocks
    ensures var words: seq<Word> := seq(blocks + 1, i => if i == blocks - 1 then ALL_ONES[0 := false] else ALL_ONES);
      var s := State(words, blocks, blocks, {});
      && WellFormed(s) && (forall g :: 0 <= g < blocks ==> g in UsedSet(words))
      && Enabled(s, Take(0xFFFF_FFFF)) && Step(s, Take(0xFFFF_FFFF)).held == {BITS * (blocks - 1)}
      && BITS * (blocks - 1) >= blocks
  {
    var words: seq<Word> := seq(blocks + 1, i => if i == blocks - 1 then ALL_ONES[0 := false] else ALL_ONES);
    StartIsWellFormed(words, blocks, blocks);
    forall g | 0 <= g < BITS * (blocks - 1) ensures Used(words, g) {
      assert g / BITS < blocks - 1;
    }
    assert FitsAt(words, BITS * (blocks - 1), 1);
  }

  /** A run that stays in its word is free from end to end. */
  lemma RunInWordIsFree(words: seq<Word>, f: int, count: int)
    requires 0 <= f < BITS * |words| && FitsAt(words, f, count) && f % BITS + count <= BITS
    ensures Span(f, count) !! UsedSet(words)
  {
    forall g | f <= g < f + count ensures !Used(words, g) {
      assert g / BITS == f / BITS && g % BITS == f % BITS + g - f;
    }
  }

  /** What a request finds is free from end to end, in every bitmap and whichever search it
      takes, only for single frames: the test stops at the end of the word. */
  lemma RunIsFreeOnlyForSingleFrames(count: int)
    requires count >= 1
    ensures (forall words: seq<Word>, blocks: nat, mask: int |
               LOW_WORDS < |words| && blocks < |words| && RoomFor(|words|, blocks, count) &&
               FindFrame(words, blocks, mask, count) != -1 ::
               Span(FindFrame(words, blocks, mask, count), count) !! UsedSet(words))
       <==> count == 1
  {
    if count == 1 {
      forall words: seq<Word>, blocks: nat, mask: int |
        LOW_WORDS < |words| && blocks < |words| && RoomFor(|words|, blocks, count) &&
        FindFrame(words, blocks, mask, count) != -1
        ensures Span(FindFrame(words, blocks, mask, count), count) !! UsedSet(words)
      {
        RunInWordIsFree(words, FindFrame(words, blocks, mask, count), count);
      }
    } else {
      RunOverlapsNextWord(count);
    }
  }

  /** Only the last bit of word 1 is clear: the run starts there and goes on over used frames. */
  lemma RunOverlapsNextWord(count: int)
    requires count >= 2
    ensures var words: seq<Word> := seq(LOW_WORDS + 1 + count, i => if i == 1 then ALL_ONES[BITS - 1 := false] else ALL_ONES);
      && RoomFor(|words|, 0, count) && FindFrame(words, 0, 0, count) == 2 * BITS - 1
      && !(Span(2 * BITS - 1, count) !! UsedSet(words))
  {
    var words: seq<Word> := seq(LOW_WORDS + 1 + count, i => if i == 1 then ALL_ONES[BITS - 1 := false] else ALL_ONES);
    assert FitsAt(words, 2 * BITS - 1, count);
    forall g | BITS <= g < 2 * BITS - 1 ensures !FitsAt(words, g, count) {
      assert g / BITS == 1;
    }
    assert Used(words, 2 * BITS) && 2 * BITS in Span(2 * BITS - 1, count) && 2 * BITS in UsedSet(words);
  }
}

/**
 Freeing, and everything that holds over whole runs of the kernel heap: no two live
 allocations overlap, frees undo allocations in any order, the BytesFree shortcut never
 hides room, and by how much BytesFree drifts.
 */
module HeapRuns {
  import opened Common
  import opened BlockSpec
  import opened HeapSpec
  import Arithmetic

  // ---------- Freeing ----------

  /** HeapFree of the allocation's address finds the node that serves it. */
  ghost predicate Releasable(h: HeapV, p: Payload)
    requires p in HeapLive(h)
  {
    var (k, i) := Whereabouts(h, p);
    Freeable(List(h, k)[i].cells, p)
  }

  lemma FreeInKeeps(b: BlockV, k: Kind, top: int, p: Payload, unit: int := PAGE_SIZE)
    requires unit > 0 && BlockOk(b, k, top, unit) && p in Live(b.cells) && Freeable(b.cells, p)
    ensures BlockOk(FreeIn(b, p.addr), k, top, unit)
    ensures Live(FreeIn(b, p.addr).cells) == Live(b.cells) - {p}
  {
    FreeKeepsInv(b.cells, b.start, b.End(), k.VeryLarge?, p);
    FreeKeepsLive(b.cells, b.start, b.End(), k.VeryLarge?, p);
    FreeCounts(b, k, top, p, unit);
    FreeInPages(b, k, top, p, unit);
    ServerIsFound(b.cells, b.start, b.End(), k.VeryLarge?, p);
    hide FreeCells;
    hide BlockInv;
    hide FreeBytes;
    hide Live;
    hide InPages;
  }

  lemma FreeCounts(b: BlockV, k: Kind, top: int, p: Payload, unit: int := PAGE_SIZE)
    requires unit > 0 && BlockOk(b, k, top, unit) && p in Live(b.cells) && Freeable(b.cells, p)
    ensures FreeBytes(FreeIn(b, p.addr).cells) <= FreeIn(b, p.addr).bytesFree
  {
    FreeDrift(b, k, top, p, unit);
  }

  lemma FreeInPages(b: BlockV, k: Kind, top: int, p: Payload, unit: int := PAGE_SIZE)
    requires unit > 0 && BlockOk(b, k, top, unit) && p in Live(b.cells) && Freeable(b.cells, p)
    ensures InPages(b.cells) ==> InPages(FreeCells(b.cells, p.addr))
  {
    FreeShape(b.cells, b.start, b.End(), k.VeryLarge?, p);
  }

  /** The block lookup finds the block that serves the address. */
  lemma LocateFinds(h: HeapV, p: Payload, unit: int := PAGE_SIZE)
    requires HeapInv(h, unit) && p in HeapLive(h) && Releasable(h, p)
    ensures var (k, i) := Whereabouts(h, p);
      KindHolding(h, p.addr) == k && Locate(List(h, k), p.addr) == i
  {
    var (k, i) := Whereabouts(h, p);
    var b := List(h, k)[i];
    CellsAscend(b.cells, b.start, b.End(), Server(b.cells, p), Server(b.cells, p));
    NotCovered(h, k, i, p.addr, Normal);
    NotCovered(h, k, i, p.addr, Aligned);
    NotCovered(h, k, i, p.addr, VeryLarge);
  }

  /** An address of one block is covered by no other. */
  lemma NotCovered(h: HeapV, k: Kind, i: nat, a: int, l: Kind)
    requires Apart(h) && i < |List(h, k)| && List(h, k)[i].start <= a < List(h, k)[i].End()
    ensures forall j :: 0 <= j < |List(h, l)| && (l != k || j != i) ==> !Covers(List(h, l)[j], a)
    ensures Locate(List(h, l), a) == if l == k && Covers(List(h, k)[i], a) then i else |List(h, l)|
  {
    forall j | 0 <= j < |List(h, l)| && (l != k || j != i) ensures !Covers(List(h, l)[j], a) {
      ApartAt(h, k, l, i, j);
    }
  }

  lemma FreeShapeOfHeap(h: HeapV, p: Payload, unit: int := PAGE_SIZE)
    requires HeapInv(h, unit) && p in HeapLive(h) && Releasable(h, p)
    ensures var (k, i) := Whereabouts(h, p);
      var b := FreeIn(List(h, k)[i], p.addr);
      && Free(h, p.addr) == WithList(h, k, List(h, k)[i := b])
      && BlockOk(b, k, h.top, unit) && Live(b.cells) == Live(List(h, k)[i].cells) - {p}
      && ListLive(List(h, k)[i := b]) == ListLive(List(h, k)) - {p}
  {
    var (k, i) := Whereabouts(h, p);
    LocateFinds(h, p, unit);
    FreeInKeeps(List(h, k)[i], k, h.top, p, unit);
    forall j | 0 <= j < |List(h, k)| && j != i ensures p !in Live(List(h, k)[j].cells) {
      LiveOnce(h, k, i, k, j, p, unit);
    }
    ListLiveRemove(List(h, k), i, FreeIn(List(h, k)[i], p.addr), p);
  }

  lemma LiveInOneList(h: HeapV, k: Kind, i: nat, l: Kind, p: Payload, unit: int := PAGE_SIZE)
    requires HeapInv(h, unit) && i < |List(h, k)| && p in Live(List(h, k)[i].cells) && l != k
    ensures p !in ListLive(List(h, l))
  {
    forall j | 0 <= j < |List(h, l)| ensures p !in Live(List(h, l)[j].cells) {
      LiveOnce(h, k, i, l, j, p, unit);
    }
  }

  /** HeapFree of a live address ends that allocation and no other, and moves no block. */
  lemma FreeKeeps(h: HeapV, p: Payload, unit: int := PAGE_SIZE)
    requires HeapInv(h, unit) && p in HeapLive(h) && Releasable(h, p)
    ensures HeapInv(Free(h, p.addr), unit)
    ensures HeapLive(Free(h, p.addr)) == HeapLive(h) - {p}
    ensures Free(h, p.addr).top == h.top && BlockCount(Free(h, p.addr)) == BlockCount(h)
  {
    var (k, i) := Whereabouts(h, p);
    FreeShapeOfHeap(h, p, unit);
    ReplaceKeepsInv(h, k, i, FreeIn(List(h, k)[i], p.addr), unit);
    forall l | l != k ensures p !in ListLive(List(h, l)) {
      LiveInOneList(h, k, i, l, p, unit);
    }
    LiveElsewhereStays(h, k, List(h, k)[i := FreeIn(List(h, k)[i], p.addr)], p);
    hide HeapInv;
    hide HeapLive;
    hide ListLive;
    hide Free;
    hide FreeIn;
    hide BlockOk;
  }

  /** Two bytes are enough to be freed. */
  lemma TwoBytesSuffice(h: HeapV, p: Payload, unit: int := PAGE_SIZE)
    requires HeapInv(h, unit) && p in HeapLive(h) && p.size >= 2
    ensures Releasable(h, p)
  {
    var (k, i) := Whereabouts(h, p);
    var b := List(h, k)[i];
    assert Serves(b.cells[Server(b.cells, p)], k.VeryLarge?);
  }

  /**
   HeapFree ends an allocation exactly when its address lies before the last byte of its node,
   and changes nothing otherwise.  In a normal or page block this takes an allocation of two
   bytes, in a custom block a block of two bytes.
   */
  lemma ReleasedExactly(h: HeapV, p: Payload, unit: int := PAGE_SIZE)
    requires HeapInv(h, unit) && p in HeapLive(h)
    ensures HeapLive(Free(h, p.addr)) == HeapLive(h) - {p} <==> Releasable(h, p)
    ensures !Releasable(h, p) ==> Free(h, p.addr) == h
    ensures var (k, i) := Whereabouts(h, p);
      Releasable(h, p) <==> if k.VeryLarge? then List(h, k)[i].length >= 2 else p.size >= 2
  {
    var (k, i) := Whereabouts(h, p);
    var b := List(h, k)[i];
    FreedExactly(b.cells, b.start, b.End(), k.VeryLarge?, p);
    hide BlockInv;
    hide HeapLive;
    hide Freeable;
    hide FreeCells;
    if Releasable(h, p) {
      FreeKeeps(h, p, unit);
    } else {
      LiveInBlock(b, k, h.top, p, unit);
      NothingHeld(h, k, i, p.addr);
    }
  }

  /** An address of a block that none of its nodes holds. */
  lemma NothingHeld(h: HeapV, k: Kind, i: nat, a: int)
    requires Apart(h) && i < |List(h, k)| && List(h, k)[i].start <= a < List(h, k)[i].End()
    requires FirstHolding(List(h, k)[i].cells, a) == |List(h, k)[i].cells|
    ensures Free(h, a) == h
  {
    NotCovered(h, k, i, a, Normal);
    NotCovered(h, k, i, a, Aligned);
    NotCovered(h, k, i, a, VeryLarge);
    hide Apart;
    assert List(h, k)[i := List(h, k)[i]] == List(h, k);
  }

  lemma LiveElsewhereStays(h: HeapV, k: Kind, list: seq<BlockV>, p: Payload)
    requires ListLive(list) == ListLive(List(h, k)) - {p} && forall l :: l != k ==> p !in ListLive(List(h, l))
    ensures HeapLive(WithList(h, k, list)) == HeapLive(h) - {p}
  {
    assert k != Normal ==> p !in ListLive(List(h, Normal));
    assert k != Aligned ==> p !in ListLive(List(h, Aligned));
    assert k != VeryLarge ==> p !in ListLive(List(h, VeryLarge));
    hide ListLive;
  }

  lemma LiveOnce(h: HeapV, k: Kind, i: nat, l: Kind, j: nat, p: Payload, unit: int := PAGE_SIZE)
    requires HeapInv(h, unit) && i < |List(h, k)| && j < |List(h, l)| && (k != l || i != j)
    requires p in Live(List(h, k)[i].cells)
    ensures p !in Live(List(h, l)[j].cells)
  {
    ApartAt(h, k, l, i, j);
    LiveInBlock(List(h, k)[i], k, h.top, p, unit);
    if p in Live(List(h, l)[j].cells) {
      LiveInBlock(List(h, l)[j], l, h.top, p, unit);
      assert false;
    }
  }

  // ---------- Runs ----------

  datatype Op = Allocating(r: Request) | Freeing(addr: int)

  /** Some block covers the address, as the commented-out assertion of HeapFree asks. */
  predicate Located(h: HeapV, addr: int) {
    Locate(List(h, KindHolding(h, addr)), addr) < |List(h, KindHolding(h, addr))|
  }

  /** The lookup finds every address of a block but its last byte. */
  lemma LocatedExactly(h: HeapV, addr: int)
    ensures Located(h, addr) <==>
      exists k, i :: 0 <= i < |List(h, k)| && List(h, k)[i].start <= addr < List(h, k)[i].start + List(h, k)[i].length - 1
  {
    var k := KindHolding(h, addr);
    var i := Locate(List(h, k), addr);
    if Located(h, addr) {
      assert Covers(List(h, k)[i], addr);
    }
    if l, j :| 0 <= j < |List(h, l)| && List(h, l)[j].start <= addr < List(h, l)[j].start + List(h, l)[j].length - 1 {
      assert Covers(List(h, l)[j], addr);
      assert Locate(List(h, l), addr) <= j;
    }
  }

  /** What callers owe: allocations that end, frees of live addresses that are located. */
  ghost predicate Enabled(h: HeapV, op: Op, unit: int)
    requires unit > 0
  {
    match op
    case Allocating(r) => Admissible(r, unit) && Ends(h, r)
    case Freeing(addr) => Located(h, addr) && exists p :: p in HeapLive(h) && p.addr == addr
  }

  ghost function LiveAt(h: HeapV, addr: int): (p: Payload)
    requires exists p :: p in HeapLive(h) && p.addr == addr
    ensures p in HeapLive(h) && p.addr == addr
  {
    var p :| p in HeapLive(h) && p.addr == addr;
    p
  }

  ghost function Step(h: HeapV, op: Op, unit: int): HeapV
    requires unit > 0 && Enabled(h, op, unit)
  {
    match op
    case Allocating(r) => Allocate(h, r).0
    case Freeing(addr) => Free(h, addr)
  }

  /** The books: the allocations made and not yet freed, but for the frees that find no node. */
  ghost function Booked(h: HeapV, books: set<Payload>, op: Op, unit: int): set<Payload>
    requires unit > 0 && Enabled(h, op, unit)
  {
    match op
    case Allocating(r) => books + {Payload(Allocate(h, r).1, Adjust(r).size)}
    case Freeing(addr) => if Releasable(h, LiveAt(h, addr)) then set p | p in books && p.addr != addr else books
  }

  /** What holds in every reachable state. */
  ghost predicate Sound(h: HeapV, books: set<Payload>, unit: int) {
    && HeapInv(h, unit)
    && HeapLive(h) == books
    && (forall p :: p in books ==> p.size >= 1)
  }

  /** No two live allocations anywhere in the heap share a byte. */
  lemma LiveNeverOverlap(h: HeapV, p: Payload, q: Payload, unit: int := PAGE_SIZE)
    requires HeapInv(h, unit) && p in HeapLive(h) && q in HeapLive(h) && p != q
    ensures !Overlap(p, q)
  {
    var (k, i) := Whereabouts(h, p);
    var b := List(h, k)[i];
    LiveInBlock(b, k, h.top, p, unit);
    if q in Live(b.cells) {
      var m, n := Server(b.cells, p), Server(b.cells, q);
      PayloadsApart(b.cells, b.start, b.End(), k.VeryLarge?, if m < n then m else n, if m < n then n else m);
    }
    ApartFromBlock(h, k, i, p, q, unit);
  }

  /** Every step keeps the heap sound and the caller's books exact. */
  lemma StepKeeps(h: HeapV, books: set<Payload>, op: Op, unit: int)
    requires unit > 0 && Sound(h, books, unit) && Enabled(h, op, unit)
    ensures Sound(Step(h, op, unit), Booked(h, books, op, unit), unit)
  {
    match op
    case Allocating(r) =>
      AdjustProperties(r);
      AllocateKeeps(h, r, unit);
    case Freeing(addr) =>
      var p := LiveAt(h, addr);
      ReleasedExactly(h, p, unit);
      if Releasable(h, p) {
        FreeKeeps(h, p, unit);
        forall q | q in books && q != p ensures q.addr != addr {
          LiveNeverOverlap(h, p, q, unit);
        }
      }
  }

  datatype Trace = Trace(heap: HeapV, books: set<Payload>)

  /** The state and the books after a run; None when some operation was not enabled. */
  ghost function Run(h: HeapV, books: set<Payload>, ops: seq<Op>, unit: int): (t: Option<Trace>)
    requires unit > 0 && Sound(h, books, unit)
    ensures t.Some? ==> Sound(t.value.heap, t.value.books, unit)
    decreases |ops|
  {
    if ops == [] then Some(Trace(h, books))
    else if !Enabled(h, ops[0], unit) then None
    else
      StepKeeps(h, books, ops[0], unit);
      Run(Step(h, ops[0], unit), Booked(h, books, ops[0], unit), ops[1..], unit)
  }

  /** The heap as HeapInit leaves it: one normal block, one page block. */
  const INITIAL: HeapV :=
    HeapV([BlockV(DATA_START, NORMAL_BLOCK, Normal, 0xFFFF_FFFF, NORMAL_BLOCK, [Cell(DATA_START, NORMAL_BLOCK, None)])],
          [BlockV(DATA_START + NORMAL_BLOCK, LARGE_BLOCK, Aligned, 0xFFFF_FFFF, LARGE_BLOCK,
                  [Cell(DATA_START + NORMAL_BLOCK, LARGE_BLOCK, None)])],
          [], DATA_START + NORMAL_BLOCK + LARGE_BLOCK)

  lemma InitialIsSound(unit: int := PAGE_SIZE)
    requires IsUnit(unit)
    ensures Sound(INITIAL, {}, unit)
  {
    UnitDivides(unit);
    Arithmetic.MultipleSum(DATA_START, NORMAL_BLOCK, unit);
    Arithmetic.MultipleSum(DATA_START + NORMAL_BLOCK, LARGE_BLOCK, unit);
    assert Live(INITIAL.normal[0].cells) == {} == Live(INITIAL.aligned[0].cells);
    assert FreeBytes(INITIAL.normal[0].cells[1..]) == 0 == FreeBytes(INITIAL.aligned[0].cells[1..]);
  }

  /**
   Over every run from HeapInit of allocations and frees of live addresses, the live
   allocations are exactly those in the caller's books, each inside its own node of one
   block, and no two of them overlap.  This holds for every unit: with 1, custom blocks may
   have any size while alignments are at most 2 or larger than a large block; with 4, the
   kernel's own alignment, they must be multiples of 4; and so on up to a normal block.
   */
  lemma RunsAreSafe(ops: seq<Op>, unit: int)
    requires IsUnit(unit)
    ensures Sound(INITIAL, {}, unit)
    ensures var t := Run(INITIAL, {}, ops, unit);
      t.Some? ==>
        && HeapInv(t.value.heap, unit) && HeapLive(t.value.heap) == t.value.books
        && forall p, q :: p in t.value.books && q in t.value.books && p != q ==> !Overlap(p, q)
  {
    InitialIsSound(unit);
    var t := Run(INITIAL, {}, ops, unit);
    if t.Some? {
      forall p, q | p in t.value.books && q in t.value.books && p != q ensures !Overlap(p, q) {
        LiveNeverOverlap(t.value.heap, p, q, unit);
      }
    }
  }

  // ---------- Freeing everything ----------

  function FreeEach(h: HeapV, ps: seq<Payload>): HeapV
    decreases |ps|
  {
    if ps == [] then h else FreeEach(Free(h, ps[0].addr), ps[1..])
  }

  predicate Pristine(list: seq<BlockV>) {
    forall i :: 0 <= i < |list| ==> list[i].cells == [Cell(list[i].start, list[i].length, None)]
  }

  /** The live allocations to be freed: each once, in some order. */
  ghost predicate Distinct(h: HeapV, ps: seq<Payload>) {
    && (forall i :: 0 <= i < |ps| ==> ps[i] in HeapLive(h) && Releasable(h, ps[i]))
    && (forall i, j :: 0 <= i < j < |ps| ==> ps[i] != ps[j])
  }

  /** A free leaves every other allocation in its block, and every block its length. */
  lemma StaysInBlock(h: HeapV, p: Payload, l: Kind, j: nat, q: Payload, unit: int := PAGE_SIZE)
    requires HeapInv(h, unit) && p in HeapLive(h) && Releasable(h, p) && q != p
    requires j < |List(h, l)| && q in Live(List(h, l)[j].cells)
    ensures var g := Free(h, p.addr);
      j < |List(g, l)| && List(g, l)[j].length == List(h, l)[j].length && q in Live(List(g, l)[j].cells)
  {
    hide HeapInv;
    hide Releasable;
    hide Free;
    hide FreeCells;
    hide Live;
    hide HeapLive;
    hide ListLive;
    hide BlockOk;
    hide FirstHolding;
    FreeShapeOfHeap(h, p, unit);
    var (k, i) := Whereabouts(h, p);
    var list := List(h, k)[i := FreeIn(List(h, k)[i], p.addr)];
    assert l == k ==> List(WithList(h, k, list), l) == list;
  }

  lemma StaysReleasable(h: HeapV, p: Payload, q: Payload, unit: int := PAGE_SIZE)
    requires HeapInv(h, unit) && p in HeapLive(h) && Releasable(h, p) && q in HeapLive(h) && q != p
    ensures q in HeapLive(Free(h, p.addr)) && (Releasable(h, q) ==> Releasable(Free(h, p.addr), q))
  {
    hide HeapInv;
    hide Releasable;
    hide Free;
    hide HeapLive;
    hide Live;
    var g := Free(h, p.addr);
    var (l, j) := Whereabouts(h, q);
    FreeKeeps(h, p, unit);
    ReleasedExactly(h, q, unit);
    ReleasedExactly(g, q, unit);
    StaysInBlock(h, p, l, j, q, unit);
    var (l', j') := Whereabouts(g, q);
    if l' != l || j' != j {
      LiveOnce(g, l, j, l', j', q, unit);
    }
  }

  lemma HeadOrTail<T>(s: seq<T>)
    requires s != []
    ensures forall x :: x in s <==> x == s[0] || x in s[1..]
  {
    assert s == [s[0]] + s[1..];
  }

  lemma DistinctTail(h: HeapV, ps: seq<Payload>, unit: int := PAGE_SIZE)
    requires HeapInv(h, unit) && Distinct(h, ps) && ps != []
    ensures Distinct(Free(h, ps[0].addr), ps[1..])
  {
    hide HeapInv;
    hide HeapLive;
    hide Releasable;
    hide Free;
    var p, rest := ps[0], ps[1..];
    assert p in HeapLive(h) && Releasable(h, p);
    forall i | 0 <= i < |rest| ensures rest[i] in HeapLive(Free(h, p.addr)) && Releasable(Free(h, p.addr), rest[i]) {
      var q := ps[i + 1];
      assert q in HeapLive(h) && Releasable(h, q) && p != q;
      StaysReleasable(h, p, q, unit);
    }
  }

  lemma {:induction false} FreeEachKeeps(h: HeapV, ps: seq<Payload>, unit: int := PAGE_SIZE)
    requires HeapInv(h, unit) && Distinct(h, ps)
    ensures HeapInv(FreeEach(h, ps), unit) && FreeEach(h, ps).top == h.top
    ensures forall p :: p in HeapLive(FreeEach(h, ps)) <==> p in HeapLive(h) && p !in ps
    decreases |ps|
  {
    if ps != [] {
      assert ps[0] in HeapLive(h) && Releasable(h, ps[0]);
      DistinctTail(h, ps, unit);
      hide HeapInv;
      hide HeapLive;
      hide Releasable;
      hide Free;
      hide Distinct;
      FreeKeeps(h, ps[0], unit);
      FreeEachKeeps(Free(h, ps[0].addr), ps[1..], unit);
      HeadOrTail(ps);
    }
  }

  /** Freeing all live allocations, in any order, leaves every block one free node over its whole range. */
  lemma FreeAllRestores(h: HeapV, ps: seq<Payload>, unit: int := PAGE_SIZE)
    requires HeapInv(h, unit) && Distinct(h, ps) && forall p :: p in HeapLive(h) ==> p in ps
    ensures var h' := FreeEach(h, ps);
      Pristine(h'.normal) && Pristine(h'.aligned) && Pristine(h'.veryLarge) && h'.top == h.top
  {
    FreeEachKeeps(h, ps, unit);
    var h' := FreeEach(h, ps);
    assert HeapLive(h') == {};
    NothingLiveIsPristine(h'.normal, Normal, h'.top, unit);
    NothingLiveIsPristine(h'.aligned, Aligned, h'.top, unit);
    NothingLiveIsPristine(h'.veryLarge, VeryLarge, h'.top, unit);
  }

  lemma NothingLiveIsPristine(list: seq<BlockV>, k: Kind, top: int, unit: int := PAGE_SIZE)
    requires unit > 0 && ListOk(list, k, top, unit) && ListLive(list) == {}
    ensures Pristine(list)
  {
    forall i | 0 <= i < |list| ensures list[i].cells == [Cell(list[i].start, list[i].length, None)] {
      forall p | p in Live(list[i].cells) ensures p in ListLive(list) {}
      assert Live(list[i].cells) == {};
      NothingLiveIsOneNode(list[i].cells, list[i].start, list[i].End(), k.VeryLarge?);
    }
  }

  // ---------- The BytesFree shortcut ----------

  /** The quick skip never rejects a block that has room: a block takes a request exactly
      when its mask allows it and some node suits; and the count never drops below zero. */
  lemma SkipNeverHidesRoom(b: BlockV, k: Kind, top: int, a: Request, unit: int)
    requires IsUnit(unit) && BlockOk(b, k, top, unit) && Fitting(a, k, unit)
    ensures Accepts(b, a) <==> b.mask >= a.mask && PlaceIn(b, a).Placed?
    ensures Accepts(b, a) ==> Serve(b, a).bytesFree >= 0
  {
    if PlaceIn(b, a).Placed? {
      AllocShape(b.cells, a.size, a.align, k.VeryLarge?);
      FreeBytesIsLast(b.cells);
      if Accepts(b, a) {
        ServeKeeps(b, k, top, a, unit);
        FreeBytesIsLast(Serve(b, a).cells);
      }
    }
  }

  /** By how much BytesFree exceeds the free bytes. */
  function Excess(b: BlockV): int {
    b.bytesFree - FreeBytes(b.cells)
  }

  datatype BlockOp = Taking(a: Request) | Giving(p: Payload)

  ghost predicate Possible(b: BlockV, k: Kind, op: BlockOp, unit: int)
    requires unit > 0
  {
    match op
    case Taking(a) => Accepts(b, a) && Fitting(a, k, unit)
    case Giving(p) => p in Live(b.cells) && Freeable(b.cells, p)
  }

  ghost function BlockAfter(b: BlockV, k: Kind, op: BlockOp, unit: int): BlockV
    requires unit > 0 && Possible(b, k, op, unit)
  {
    match op
    case Taking(a) => Serve(b, a)
    case Giving(p) => FreeIn(b, p.addr)
  }

  /** What an operation adds to the excess: a split everything it takes, a custom block what it
      is larger than the request, a free its node when that goes to a live successor. */
  ghost function Drift(b: BlockV, k: Kind, op: BlockOp, unit: int): int
    requires unit > 0 && Possible(b, k, op, unit)
  {
    match op
    case Taking(a) =>
      var c := b.cells[|b.cells| - 1];
      if c.len == a.size || k.VeryLarge? then c.len - a.size else a.size + Pad(c.addr, a.align)
    case Giving(p) =>
      var n := Server(b.cells, p);
      if n + 1 < |b.cells| && b.cells[n + 1].owner.Some? then b.cells[n].len else 0
  }

  lemma AllocateDrift(b: BlockV, k: Kind, top: int, a: Request, unit: int)
    requires IsUnit(unit) && BlockOk(b, k, top, unit) && Possible(b, k, Taking(a), unit)
    ensures Excess(Serve(b, a)) == Excess(b) + Drift(b, k, Taking(a), unit)
    ensures Drift(b, k, Taking(a), unit) >= 0
  {
    BlockHasRoom(b, k, top, a, unit);
    AllocTakes(b.cells, b.start, b.End(), a.size, a.align, k.VeryLarge?);
    AllocShape(b.cells, a.size, a.align, k.VeryLarge?);
  }

  lemma FreeDrift(b: BlockV, k: Kind, top: int, p: Payload, unit: int)
    requires unit > 0 && BlockOk(b, k, top, unit) && Possible(b, k, Giving(p), unit)
    ensures Excess(FreeIn(b, p.addr)) == Excess(b) + Drift(b, k, Giving(p), unit)
    ensures Drift(b, k, Giving(p), unit) >= 0
  {
    FreeGives(b.cells, b.start, b.End(), k.VeryLarge?, p);
    ServerIsFound(b.cells, b.start, b.End(), k.VeryLarge?, p);
  }

  ghost predicate BlockRuns(b: BlockV, k: Kind, ops: seq<BlockOp>, unit: int)
    requires unit > 0
    decreases |ops|
  {
    ops == [] || (Possible(b, k, ops[0], unit) && BlockRuns(BlockAfter(b, k, ops[0], unit), k, ops[1..], unit))
  }

  ghost function BlockAfterAll(b: BlockV, k: Kind, ops: seq<BlockOp>, unit: int): BlockV
    requires unit > 0 && BlockRuns(b, k, ops, unit)
    decreases |ops|
  {
    if ops == [] then b else BlockAfterAll(BlockAfter(b, k, ops[0], unit), k, ops[1..], unit)
  }

  ghost function Drifts(b: BlockV, k: Kind, ops: seq<BlockOp>, unit: int): int
    requires unit > 0 && BlockRuns(b, k, ops, unit)
    decreases |ops|
  {
    if ops == [] then 0
    else Drift(b, k, ops[0], unit) + Drifts(BlockAfter(b, k, ops[0], unit), k, ops[1..], unit)
  }

  /** BytesFree over whole runs of a block: it is an upper bound, and exceeds the free bytes by
      the drift of every operation, none of which is ever taken back. */
  lemma {:induction false} BytesFreeDrift(b: BlockV, k: Kind, top: int, ops: seq<BlockOp>, unit: int)
    requires IsUnit(unit) && BlockOk(b, k, top, unit) && BlockRuns(b, k, ops, unit)
    ensures BlockOk(BlockAfterAll(b, k, ops, unit), k, top, unit)
    ensures Excess(BlockAfterAll(b, k, ops, unit)) == Excess(b) + Drifts(b, k, ops, unit)
    ensures Drifts(b, k, ops, unit) >= 0
    decreases |ops|
  {
    if ops != [] {
      var c := BlockAfter(b, k, ops[0], unit);
      match ops[0]
      case Taking(a) =>
        ServeKeeps(b, k, top, a, unit);
        AllocateDrift(b, k, top, a, unit);
        BytesFreeDrift(c, k, top, ops[1..], unit);
      case Giving(p) =>
        FreeInKeeps(b, k, top, p, unit);
        FreeDrift(b, k, top, p, unit);
        BytesFreeDrift(c, k, top, ops[1..], unit);
    }
  }

  // ---------- Custom blocks of odd size ----------

  /** An expansion keeps the next block's address on a multiple of the unit exactly when the
      request is not one for a custom block whose size is no multiple of it. */
  lemma TopStaysAlignedExactly(h: HeapV, r: Request, unit: int)
    requires IsUnit(unit) && h.top % unit == 0 && r.size >= 1
    ensures Expand(h, Adjust(r)).top % unit == 0 <==> !UnalignedBig(r, unit)
  {
    var a := Adjust(r);
    UnitDivides(unit);
    Arithmetic.ModSum(h.top, ExpansionSize(a), unit);
  }
}

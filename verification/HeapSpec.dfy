/**
 The whole kernel heap as a value: three lists of blocks and the address where the
 next block will start; what HeapAllocate and HeapFree make of it, and what holds in
 every state a run of them can reach (kernel/system/heap.c).
 */
module HeapSpec {
  import opened Common
  import opened BlockSpec
  import Arithmetic

  const NORMAL_BLOCK: int := 0x2000
  const LARGE_BLOCK: int := 0x20000
  const HEAP_BASE: int := 0x100_0000
  const STATIC_OFFSET: int := 0x40_0000
  const HEAP_END: int := 0x400_0000
  const DATA_START: int := HEAP_BASE + STATIC_OFFSET

  /** The block flags BLOCK_NORMAL, BLOCK_ALIGNED and BLOCK_VERY_LARGE. */
  datatype Kind = Normal | Aligned | VeryLarge

  datatype BlockV = BlockV(start: int, length: int, kind: Kind, mask: int, bytesFree: int, cells: seq<Cell>) {
    function End(): int { start + length }
  }

  datatype HeapV = HeapV(normal: seq<BlockV>, aligned: seq<BlockV>, veryLarge: seq<BlockV>, top: int)

  function List(h: HeapV, k: Kind): seq<BlockV> {
    match k
    case Normal => h.normal
    case Aligned => h.aligned
    case VeryLarge => h.veryLarge
  }

  function WithList(h: HeapV, k: Kind, list: seq<BlockV>): HeapV {
    match k
    case Normal => h.(normal := list)
    case Aligned => h.(aligned := list)
    case VeryLarge => h.(veryLarge := list)
  }

  // ---------- HeapAllocate ----------

  /** The arguments of HeapAllocate; page and big are the flag bits
      ALLOCATION_PAGEALIGN and ALLOCATION_BIG. */
  datatype Request = Request(size: int, page: bool, big: bool, align: nat, mask: int)

  /** The flags and size after the adjustments at the head of HeapAllocate. */
  function Adjust(r: Request): Request {
    var r1 := if !r.page && !r.big && r.size >= NORMAL_BLOCK then
                r.(size := AlignUp(r.size, PAGE_SIZE), page := true)
              else r;
    var r2 := if !r1.big && r1.size >= LARGE_BLOCK then r1.(big := true) else r1;
    if r2.page && !r2.big && r2.size % PAGE_SIZE != 0 then r2.(size := AlignUp(r2.size, PAGE_SIZE)) else r2
  }

  function KindOf(a: Request): Kind {
    if a.big then VeryLarge else if a.page then Aligned else Normal
  }

  function PlaceIn(b: BlockV, a: Request): Placement {
    AllocCells(b.cells, a.size, a.align, b.kind.VeryLarge?)
  }

  predicate Accepts(b: BlockV, a: Request) {
    !(b.bytesFree < a.size) && !(b.mask < a.mask) && PlaceIn(b, a).Placed?
  }

  function FirstAccepting(list: seq<BlockV>, a: Request): (i: nat)
    ensures i <= |list|
    ensures i < |list| ==> Accepts(list[i], a)
    ensures forall j :: 0 <= j < i ==> !Accepts(list[j], a)
  {
    if list == [] || Accepts(list[0], a) then 0 else 1 + FirstAccepting(list[1..], a)
  }

  /** BytesFree is reduced on an exact fit only. */
  function Serve(b: BlockV, a: Request): BlockV
    requires PlaceIn(b, a).Placed?
  {
    var r := PlaceIn(b, a);
    b.(cells := r.cells, bytesFree := if r.exact then b.bytesFree - a.size else b.bytesFree)
  }

  function ExpansionSize(a: Request): int {
    match KindOf(a)
    case VeryLarge => a.size
    case Aligned => LARGE_BLOCK
    case Normal => NORMAL_BLOCK
  }

  function NewBlock(top: int, a: Request): BlockV {
    var size := ExpansionSize(a);
    BlockV(top, size, KindOf(a), a.mask, size, [Cell(top, size, None)])
  }

  function Expand(h: HeapV, a: Request): HeapV {
    var k := KindOf(a);
    WithList(h, k, List(h, k) + [NewBlock(h.top, a)]).(top := h.top + ExpansionSize(a))
  }

  /** The list for an adjusted request has a block that takes it. */
  predicate Found(h: HeapV, a: Request) {
    FirstAccepting(List(h, KindOf(a)), a) < |List(h, KindOf(a))|
  }

  predicate Ready(h: HeapV, r: Request) {
    Found(h, Adjust(r))
  }

  /** The request is served by the pass after n expansions, and by none before. */
  ghost predicate EndsIn(h: HeapV, r: Request, n: nat)
    decreases n
  {
    if n == 0 then Ready(h, r) else !Ready(h, r) && EndsIn(Expand(h, Adjust(r)), Adjust(r), n - 1)
  }

  /** HeapAllocate comes to an end. */
  ghost predicate Ends(h: HeapV, r: Request) {
    exists n: nat :: EndsIn(h, r, n)
  }

  /** How many expansions the request needs. */
  ghost function Expansions(h: HeapV, r: Request): (n: nat)
    requires Ends(h, r)
    ensures EndsIn(h, r, n)
  {
    var n: nat :| EndsIn(h, r, n);
    n
  }

  /** One pass over the list that finds room. */
  function TakeFound(h: HeapV, a: Request): (HeapV, int)
    requires Found(h, a)
  {
    var k := KindOf(a);
    var i := FirstAccepting(List(h, k), a);
    (WithList(h, k, List(h, k)[i := Serve(List(h, k)[i], a)]), PlaceIn(List(h, k)[i], a).addr)
  }

  /** HeapAllocate: search, or expand and start over with the adjusted arguments. */
  function Allocate(h: HeapV, r: Request): (HeapV, int)
    requires Ends(h, r)
    decreases Expansions(h, r)
  {
    if Ready(h, r) then TakeFound(h, Adjust(r))
    else
      var a := Adjust(r);
      ExpandDescends(h, r);
      Allocate(Expand(h, a), a)
  }

  // ---------- HeapFree ----------

  /** The block lookup is strict too. */
  predicate Covers(b: BlockV, a: int) {
    b.start <= a < b.End() - 1
  }

  function Locate(list: seq<BlockV>, a: int): (i: nat)
    ensures i <= |list|
    ensures i < |list| ==> Covers(list[i], a)
    ensures forall j :: 0 <= j < i ==> !Covers(list[j], a)
  {
    if list == [] || Covers(list[0], a) then 0 else 1 + Locate(list[1..], a)
  }

  function FreeIn(b: BlockV, a: int): BlockV {
    var i := FirstHolding(b.cells, a);
    if i == |b.cells| then b
    else b.(cells := FreeCells(b.cells, a), bytesFree := b.bytesFree + b.cells[i].len)
  }

  /** The list that holds the address: normal blocks first, then page blocks, then custom ones. */
  function KindHolding(h: HeapV, a: int): Kind {
    if Locate(h.normal, a) < |h.normal| then Normal
    else if Locate(h.aligned, a) < |h.aligned| then Aligned
    else VeryLarge
  }

  function Free(h: HeapV, a: int): HeapV {
    var k := KindHolding(h, a);
    var i := Locate(List(h, k), a);
    if i == |List(h, k)| then h
    else WithList(h, k, List(h, k)[i := FreeIn(List(h, k)[i], a)])
  }

  // ---------- The heap invariant ----------

  /** HeapAllocate ends for such a request on every heap: a fresh block of the smallest kind
      passes its tests whatever the block's address. */
  predicate Servable(r: Request) {
    r.size >= 0 && (r.align == 0 || NORMAL_BLOCK % r.align == 0)
  }

  /**
   A unit that divides the fixed block sizes.  The invariant says that every block starts and
   ends on a multiple of it; requests keep that when their custom blocks are multiples of it.
   */
  predicate IsUnit(unit: int) {
    unit > 0 && NORMAL_BLOCK % unit == 0
  }

  predicate Admissible(r: Request, unit: int := PAGE_SIZE)
    requires unit > 0
  {
    r.size >= 1 && Harmless(r.align, unit) && !UnalignedBig(r, unit)
  }

  /** An alignment that divides the unit, or that needs no padding of more than a byte, or
      that no block but a custom one has room to pad to. */
  predicate Harmless(align: nat, unit: int)
    requires unit > 0
  {
    align <= 2 || unit % align == 0 || align > LARGE_BLOCK
  }

  /** A request that would get a block of its own whose size is no multiple of the unit. */
  predicate UnalignedBig(r: Request, unit: int := PAGE_SIZE)
    requires unit > 0
  {
    Adjust(r).big && Adjust(r).size % unit != 0
  }

  predicate BlockOk(b: BlockV, k: Kind, top: int, unit: int := PAGE_SIZE)
    requires unit > 0
  {
    && b.kind == k
    && DATA_START <= b.start && b.start % unit == 0
    && 0 < b.length && b.length % unit == 0 && (!k.VeryLarge? ==> b.length <= LARGE_BLOCK)
    && b.End() <= top
    && BlockInv(b.cells, b.start, b.End(), k.VeryLarge?)
    && FreeBytes(b.cells) <= b.bytesFree
    && (k.Aligned? && unit % PAGE_SIZE == 0 ==> InPages(b.cells))
  }

  predicate InPages(cells: seq<Cell>) {
    forall i :: 0 <= i < |cells| ==> cells[i].addr % PAGE_SIZE == 0
  }

  predicate Disjoint(b: BlockV, c: BlockV) {
    b.End() <= c.start || c.End() <= b.start
  }

  predicate ListOk(list: seq<BlockV>, k: Kind, top: int, unit: int := PAGE_SIZE)
    requires unit > 0
  {
    forall i :: 0 <= i < |list| ==> BlockOk(list[i], k, top, unit)
  }

  predicate SelfApart(list: seq<BlockV>) {
    forall i, j :: 0 <= i < j < |list| ==> Disjoint(list[i], list[j])
  }

  predicate ListsApart(xs: seq<BlockV>, ys: seq<BlockV>) {
    forall i, j :: 0 <= i < |xs| && 0 <= j < |ys| ==> Disjoint(xs[i], ys[j])
  }

  /** No two blocks of the heap share an address. */
  predicate Apart(h: HeapV) {
    && SelfApart(h.normal) && SelfApart(h.aligned) && SelfApart(h.veryLarge)
    && ListsApart(h.normal, h.aligned) && ListsApart(h.normal, h.veryLarge) && ListsApart(h.aligned, h.veryLarge)
  }

  predicate HeapInv(h: HeapV, unit: int := PAGE_SIZE) {
    && IsUnit(unit)
    && DATA_START <= h.top && h.top % unit == 0
    && ListOk(h.normal, Normal, h.top, unit)
    && ListOk(h.aligned, Aligned, h.top, unit)
    && ListOk(h.veryLarge, VeryLarge, h.top, unit)
    && Apart(h)
    && |h.normal| > 0 && |h.aligned| > 0
  }

  ghost function ListLive(list: seq<BlockV>): set<Payload> {
    set i, p | 0 <= i < |list| && p in Live(list[i].cells) :: p
  }

  ghost function HeapLive(h: HeapV): set<Payload> {
    ListLive(h.normal) + ListLive(h.aligned) + ListLive(h.veryLarge)
  }

  // ---------- Adjusting a request ----------

  /** What the adjustments promise: the size never shrinks, page requests are in whole pages,
      and adjusting again changes at most the list that is searched. */
  lemma AdjustProperties(r: Request)
    requires r.size >= 0
    ensures var a := Adjust(r);
      && r.size <= a.size < r.size + PAGE_SIZE
      && a.align == r.align && a.mask == r.mask && (Servable(r) ==> Servable(a))
      && (a.page && !a.big ==> a.size % PAGE_SIZE == 0)
      && (KindOf(a).Normal? ==> a.size < NORMAL_BLOCK)
      && (KindOf(a).Aligned? ==> a.size <= LARGE_BLOCK)
      && Adjust(a) == a.(big := a.big || a.size >= LARGE_BLOCK)
      && (!KindOf(a).Aligned? ==> Adjust(a) == a)
  {
    AlignUpIsMultiple(r.size, PAGE_SIZE);
    var a := Adjust(r);
    if a.page && !a.big {
      Arithmetic.MultipleBelow(LARGE_BLOCK, LARGE_BLOCK, PAGE_SIZE);
    }
  }

  /** What the unit divides. */
  lemma UnitDivides(unit: int)
    requires IsUnit(unit)
    ensures LARGE_BLOCK % unit == 0 && DATA_START % unit == 0
  {
    Arithmetic.DivisorOfMultiple(LARGE_BLOCK, NORMAL_BLOCK, unit);
    Arithmetic.DivisorOfMultiple(DATA_START, NORMAL_BLOCK, unit);
  }

  lemma AdjustAdmissible(r: Request, unit: int := PAGE_SIZE)
    requires IsUnit(unit) && Admissible(r, unit)
    ensures Admissible(Adjust(r), unit) && Adjust(r).size >= r.size && ExpansionSize(Adjust(r)) % unit == 0
  {
    AdjustProperties(r);
    UnitDivides(unit);
  }

  // ---------- Expansion ----------

  lemma NewBlockOk(top: int, r: Request, unit: int := PAGE_SIZE)
    requires IsUnit(unit) && DATA_START <= top && top % unit == 0 && Admissible(r, unit)
    ensures var b := NewBlock(top, Adjust(r));
      BlockOk(b, KindOf(Adjust(r)), b.End(), unit) && b.End() % unit == 0 && Live(b.cells) == {}
  {
    var a := Adjust(r);
    AdjustProperties(r);
    AdjustAdmissible(r, unit);
    Arithmetic.MultipleSum(top, ExpansionSize(a), unit);
    if unit % PAGE_SIZE == 0 {
      Arithmetic.DivisorOfMultiple(top, unit, PAGE_SIZE);
    }
    assert FreeBytes(NewBlock(top, a).cells[1..]) == 0;
  }

  lemma ExpandKeeps(h: HeapV, r: Request, unit: int := PAGE_SIZE)
    requires HeapInv(h, unit) && Admissible(r, unit)
    ensures var a := Adjust(r);
      && HeapInv(Expand(h, a), unit) && Admissible(a, unit)
      && HeapLive(Expand(h, a)) == HeapLive(h)
  {
    var a := Adjust(r);
    AdjustAdmissible(r, unit);
    NewBlockOk(h.top, r, unit);
    AppendKeepsInv(h, KindOf(a), NewBlock(h.top, a), unit);
    ListLiveAppend(List(h, KindOf(a)), NewBlock(h.top, a));
  }

  lemma AppendApart(xs: seq<BlockV>, ys: seq<BlockV>, b: BlockV)
    requires forall i :: 0 <= i < |xs| ==> xs[i].End() <= b.start
    requires forall i :: 0 <= i < |ys| ==> ys[i].End() <= b.start
    ensures SelfApart(xs) ==> SelfApart(xs + [b])
    ensures ListsApart(xs, ys) ==> ListsApart(xs + [b], ys)
    ensures ListsApart(ys, xs) ==> ListsApart(ys, xs + [b])
  {
  }

  lemma AppendOk(list: seq<BlockV>, k: Kind, top: int, b: BlockV, unit: int := PAGE_SIZE)
    requires unit > 0 && ListOk(list, k, top, unit) && top <= b.End()
    ensures ListOk(list, k, b.End(), unit)
    ensures BlockOk(b, k, b.End(), unit) ==> ListOk(list + [b], k, b.End(), unit)
    ensures forall i :: 0 <= i < |list| ==> list[i].End() <= top
  {
  }

  /** A block that starts at the top can join any list. */
  lemma AppendKeepsInv(h: HeapV, k: Kind, b: BlockV, unit: int := PAGE_SIZE)
    requires HeapInv(h, unit) && b.start == h.top && b.End() % unit == 0 && BlockOk(b, k, b.End(), unit)
    ensures HeapInv(WithList(h, k, List(h, k) + [b]).(top := b.End()), unit)
  {
    AppendOk(h.normal, Normal, h.top, b, unit);
    AppendOk(h.aligned, Aligned, h.top, b, unit);
    AppendOk(h.veryLarge, VeryLarge, h.top, b, unit);
    match k
    case Normal => AppendApart(h.normal, h.aligned, b); AppendApart(h.normal, h.veryLarge, b);
    case Aligned => AppendApart(h.aligned, h.normal, b); AppendApart(h.aligned, h.veryLarge, b);
    case VeryLarge => AppendApart(h.veryLarge, h.normal, b); AppendApart(h.veryLarge, h.aligned, b);
  }

  lemma ListLiveAppend(list: seq<BlockV>, b: BlockV)
    ensures ListLive(list + [b]) == ListLive(list) + Live(b.cells)
  {
    var l := list + [b];
    assert forall i :: 0 <= i < |list| ==> l[i] == list[i];
    assert l[|list|] == b;
  }

  /** Rounding up stays below every multiple that was not below. */
  lemma AlignUpBelow(v: int, n: int, a: int)
    requires a > 0 && n % a == 0 && v <= n
    ensures AlignUp(v, a) <= n
  {
    AlignUpIsMultiple(v, a);
    if AlignUp(v, a) > n {
      Arithmetic.MultiplesApart(n, AlignUp(v, a), a);
      assert false;
    }
  }

  lemma NewBlockAccepts(h: HeapV, a: Request)
    requires a.size <= ExpansionSize(a) && (a.align == 0 || a.big || ExpansionSize(a) % a.align == 0)
    ensures Accepts(NewBlock(h.top, a), a)
  {
    if a.align > 0 && !a.big {
      AlignUpBelow(a.size, ExpansionSize(a), a.align);
    }
    assert Suits(NewBlock(h.top, a).cells[0], a.size, a.align, KindOf(a).VeryLarge?);
  }

  /** After an expansion the request is one pass closer to being served. */
  lemma ExpandDescends(h: HeapV, r: Request)
    requires Ends(h, r) && !Ready(h, r)
    ensures Ends(Expand(h, Adjust(r)), Adjust(r))
    ensures Expansions(Expand(h, Adjust(r)), Adjust(r)) == Expansions(h, r) - 1
  {
    var g, a := Expand(h, Adjust(r)), Adjust(r);
    assert EndsIn(g, a, Expansions(h, r) - 1);
    EndsOnce(g, a, Expansions(g, a), Expansions(h, r) - 1);
  }

  lemma {:induction false} EndsOnce(h: HeapV, r: Request, m: nat, n: nat)
    requires EndsIn(h, r, m) && EndsIn(h, r, n)
    ensures m == n
    decreases m
  {
    hide Ready;
    hide Expand;
    hide Adjust;
    if m > 0 && n > 0 {
      EndsOnce(Expand(h, Adjust(r)), Adjust(r), m - 1, n - 1);
    }
  }

  lemma EndsAfter(h: HeapV, r: Request, n: nat)
    requires EndsIn(h, r, n)
    ensures Ends(h, r) && Expansions(h, r) == n
  {
    EndsOnce(h, r, n, Expansions(h, r));
  }

  /** A fresh block takes the adjusted request, unless rounding up made it as large as a page
      block, when it moves on to the custom blocks. */
  lemma ExpandServes(h: HeapV, a: Request)
    requires Adjust(a) == a && a.size <= ExpansionSize(a)
    requires a.align == 0 || a.big || ExpansionSize(a) % a.align == 0
    ensures Ready(Expand(h, a), a)
  {
    NewBlockAccepts(h, a);
    var l := List(Expand(h, a), KindOf(a));
    assert Accepts(l[|l| - 1], a);
  }

  /** With an alignment that divides a normal block HeapAllocate ends on every heap, for every
      size, flag mix and mask, after two expansions at most. */
  lemma ServableEnds(h: HeapV, r: Request)
    requires Servable(r)
    ensures Ends(h, r) && Expansions(h, r) <= if KindOf(Adjust(r)).Aligned? && Adjust(r).size >= LARGE_BLOCK then 2 else 1
  {
    var a := Adjust(r);
    var b, g := Adjust(a), Expand(h, a);
    AdjustProperties(r);
    AdjustProperties(a);
    if r.align > 0 {
      UnitDivides(r.align);
    }
    if Ready(h, r) {
      EndsAfter(h, r, 0);
    } else {
      if b == a {
        ExpandServes(h, a);
        assert EndsIn(g, a, 0);
      } else if !Ready(g, a) {
        ExpandServes(g, b);
        assert EndsIn(Expand(g, b), b, 0);
        assert EndsIn(g, a, 1);
      }
      EndsAfter(h, r, if b == a || Ready(g, a) then 1 else 2);
    }
  }

  // ---------- Allocation ----------

  /** The addresses a live allocation occupies lie in its block. */
  lemma LiveInBlock(b: BlockV, k: Kind, top: int, p: Payload, unit: int := PAGE_SIZE)
    requires unit > 0 && BlockOk(b, k, top, unit) && p in Live(b.cells)
    ensures b.start <= p.addr && p.addr + p.size <= b.End() && p.size >= 1
  {
    var i := Server(b.cells, p);
    CellsAscend(b.cells, b.start, b.End(), i, i);
    assert Serves(b.cells[i], k.VeryLarge?);
  }

  lemma ReplaceApart(xs: seq<BlockV>, ys: seq<BlockV>, i: nat, b: BlockV)
    requires i < |xs| && b.start == xs[i].start && b.length == xs[i].length
    ensures SelfApart(xs) ==> SelfApart(xs[i := b])
    ensures ListsApart(xs, ys) ==> ListsApart(xs[i := b], ys)
    ensures ListsApart(ys, xs) ==> ListsApart(ys, xs[i := b])
  {
  }

  lemma ReplaceKeepsInv(h: HeapV, k: Kind, i: nat, b: BlockV, unit: int := PAGE_SIZE)
    requires HeapInv(h, unit) && i < |List(h, k)| && BlockOk(b, k, h.top, unit)
    requires b.start == List(h, k)[i].start && b.length == List(h, k)[i].length
    ensures HeapInv(WithList(h, k, List(h, k)[i := b]), unit)
  {
    match k
    case Normal => ReplaceApart(h.normal, h.aligned, i, b); ReplaceApart(h.normal, h.veryLarge, i, b);
    case Aligned => ReplaceApart(h.aligned, h.normal, i, b); ReplaceApart(h.aligned, h.veryLarge, i, b);
    case VeryLarge => ReplaceApart(h.veryLarge, h.normal, i, b); ReplaceApart(h.veryLarge, h.aligned, i, b);
  }

  lemma ListLiveAdd(list: seq<BlockV>, i: nat, b: BlockV, p: Payload)
    requires i < |list| && Live(b.cells) == Live(list[i].cells) + {p}
    ensures ListLive(list[i := b]) == ListLive(list) + {p}
  {
    var l := list[i := b];
    forall q | q in ListLive(list) + {p} ensures q in ListLive(l) {
      if q == p {
        assert q in Live(l[i].cells);
      } else {
        var j :| 0 <= j < |list| && q in Live(list[j].cells);
        assert q in Live(l[j].cells);
      }
    }
  }

  lemma ListLiveRemove(list: seq<BlockV>, i: nat, b: BlockV, p: Payload)
    requires i < |list| && Live(b.cells) == Live(list[i].cells) - {p}
    requires forall j :: 0 <= j < |list| && j != i ==> p !in Live(list[j].cells)
    ensures ListLive(list[i := b]) == ListLive(list) - {p}
  {
    var l := list[i := b];
    forall q | q in ListLive(list) - {p} ensures q in ListLive(l) {
      var j :| 0 <= j < |list| && q in Live(list[j].cells);
      assert q in Live(l[j].cells);
    }
  }

  /** An adjusted request for a block of the kind. */
  predicate Fitting(a: Request, k: Kind, unit: int := PAGE_SIZE)
    requires unit > 0
  {
    a.size >= 1 && Harmless(a.align, unit) && (k.Aligned? ==> a.size % PAGE_SIZE == 0)
  }

  /** The block has room for the padding of a request that passes its tests. */
  lemma BlockHasRoom(b: BlockV, k: Kind, top: int, a: Request, unit: int := PAGE_SIZE)
    requires unit > 0 && BlockOk(b, k, top, unit) && Fitting(a, k, unit)
    ensures b.End() % unit == 0 && (!k.VeryLarge? ==> RoomToPad(b.start, b.End(), a.align))
  {
    Arithmetic.MultipleSum(b.start, b.length, unit);
    if a.align > 0 && unit % a.align == 0 {
      Arithmetic.DivisorOfMultiple(b.End(), unit, a.align);
    }
  }

  /** Serving a request in a block of its kind. */
  lemma ServeKeeps(b: BlockV, k: Kind, top: int, a: Request, unit: int := PAGE_SIZE)
    requires IsUnit(unit) && BlockOk(b, k, top, unit) && Accepts(b, a) && Fitting(a, k, unit)
    ensures var p := Payload(PlaceIn(b, a).addr, a.size);
      && BlockOk(Serve(b, a), k, top, unit)
      && Live(Serve(b, a).cells) == Live(b.cells) + {p}
      && (forall q :: q in Live(b.cells) ==> !Overlap(q, p))
      && (!k.Normal? && unit % PAGE_SIZE == 0 ==> p.addr % PAGE_SIZE == 0)
      && b.start <= p.addr && p.addr + p.size <= b.End()
  {
    hide PlaceIn;
    hide BlockInv;
    hide InPages;
    hide Overlap;
    hide Live;
    hide FreeBytes;
    ServeInBlock(b, k, top, a, unit);
    ServeCounts(b, k, top, a, unit);
    if !k.Normal? && unit % PAGE_SIZE == 0 {
      ServeInPages(b, k, top, a, unit);
    }
  }

  lemma ServeInBlock(b: BlockV, k: Kind, top: int, a: Request, unit: int := PAGE_SIZE)
    requires IsUnit(unit) && BlockOk(b, k, top, unit) && Accepts(b, a) && Fitting(a, k, unit)
    ensures var r := PlaceIn(b, a);
      && BlockInv(r.cells, b.start, b.End(), k.VeryLarge?)
      && Live(r.cells) == Live(b.cells) + {Payload(r.addr, a.size)}
      && (forall q :: q in Live(b.cells) ==> !Overlap(q, Payload(r.addr, a.size)))
      && b.start <= r.addr && r.addr + a.size <= b.End()
  {
    BlockHasRoom(b, k, top, a, unit);
    AllocKeeps(b.cells, b.start, b.End(), a.size, a.align, k.VeryLarge?);
  }

  /** BytesFree stays an upper bound. */
  lemma ServeCounts(b: BlockV, k: Kind, top: int, a: Request, unit: int := PAGE_SIZE)
    requires IsUnit(unit) && BlockOk(b, k, top, unit) && Accepts(b, a) && Fitting(a, k, unit)
    ensures FreeBytes(Serve(b, a).cells) <= Serve(b, a).bytesFree
  {
    BlockHasRoom(b, k, top, a, unit);
    AllocTakes(b.cells, b.start, b.End(), a.size, a.align, k.VeryLarge?);
  }

  /** With a unit of whole pages every node of a page block starts on a page and goes on to. */
  lemma ServeInPages(b: BlockV, k: Kind, top: int, a: Request, unit: int := PAGE_SIZE)
    requires IsUnit(unit) && unit % PAGE_SIZE == 0 && !k.Normal?
    requires BlockOk(b, k, top, unit) && Accepts(b, a) && Fitting(a, k, unit)
    ensures PlaceIn(b, a).addr % PAGE_SIZE == 0
    ensures k.Aligned? ==> InPages(PlaceIn(b, a).cells)
  {
    AllocShape(b.cells, a.size, a.align, k.VeryLarge?);
    var c := b.cells[|b.cells| - 1];
    Arithmetic.DivisorOfMultiple(b.start, unit, PAGE_SIZE);
    if k.Aligned? && c.len != a.size {
      CellsAscend(b.cells, b.start, b.End(), |b.cells| - 1, |b.cells| - 1);
      PadInPages(c, a, unit);
      hide Pad;
      hide Suits;
      hide BlockInv;
      hide FreeBytes;
      Arithmetic.MultipleSum(c.addr, Pad(c.addr, a.align), PAGE_SIZE);
      Arithmetic.MultipleSum(c.addr + Pad(c.addr, a.align), a.size, PAGE_SIZE);
    }
  }

  /** In a node of a page block the padding is none or a page. */
  lemma PadInPages(c: Cell, a: Request, unit: int)
    requires IsUnit(unit) && c.addr % PAGE_SIZE == 0 && Fitting(a, Aligned, unit)
    requires Suits(c, a.size, a.align, false) && c.len <= LARGE_BLOCK && c.len != a.size
    ensures Pad(c.addr, a.align) % PAGE_SIZE == 0
  {
    if a.align > LARGE_BLOCK {
      TooShortToPad(c.len, a.size, a.align);
    } else if a.align > 2 {
      Arithmetic.DivisorOfMultiple(NORMAL_BLOCK, unit, a.align);
      PadAtPage(c.addr, a.align);
    }
  }

  /** The padding at a page boundary is none or a page: the alignments are powers of two. */
  lemma PadAtPage(addr: int, align: int)
    requires addr % PAGE_SIZE == 0 && align > 0 && NORMAL_BLOCK % align == 0
    ensures Pad(addr, align) % PAGE_SIZE == 0
  {
    AlignmentsAreOfPages(align);
    if align == NORMAL_BLOCK {
      AlignUpIsMultiple(addr, align);
      assert AlignUp(addr, align) == addr + Pad(addr, align);
      Arithmetic.DivisorOfMultiple(AlignUp(addr, align), align, PAGE_SIZE);
      Arithmetic.ModSum(Pad(addr, align), addr, PAGE_SIZE);
    } else {
      Arithmetic.DivisorOfMultiple(addr, PAGE_SIZE, align);
    }
    hide Pad;
  }

  lemma AlignmentsAreOfPages(align: int)
    requires align > 0 && NORMAL_BLOCK % align == 0
    ensures align == NORMAL_BLOCK || PAGE_SIZE % align == 0
  {
    assert Arithmetic.PowerOfTwo(6) == 64 && Arithmetic.PowerOfTwo(12) == PAGE_SIZE;
    assert Arithmetic.PowerOfTwo(13) == NORMAL_BLOCK;
    Arithmetic.DivisorOfPower(align, 12);
  }

  /** What one call of HeapAllocate promises. */
  ghost predicate Allocated(h: HeapV, r: Request, h': HeapV, addr: int, unit: int := PAGE_SIZE) {
    var p := Payload(addr, Adjust(r).size);
    && HeapInv(h', unit)
    && HeapLive(h') == HeapLive(h) + {p}
    && (forall q :: q in HeapLive(h) ==> !Overlap(q, p))
    && DATA_START <= addr && addr + p.size <= h'.top
    && ((Adjust(r).page || Adjust(r).big) && unit % PAGE_SIZE == 0 ==> addr % PAGE_SIZE == 0)
  }

  lemma ReadyKeeps(h: HeapV, r: Request, unit: int := PAGE_SIZE)
    requires HeapInv(h, unit) && Admissible(r, unit) && Ready(h, r)
    ensures Allocated(h, r, TakeFound(h, Adjust(r)).0, TakeFound(h, Adjust(r)).1, unit)
  {
    hide FreeBytes;
    hide BlockInv;
    hide PlaceIn;
    hide InPages;
    hide Live;
    hide Harmless;
    var a := Adjust(r);
    var k := KindOf(a);
    var i := FirstAccepting(List(h, k), a);
    var b := List(h, k)[i];
    var p := Payload(PlaceIn(b, a).addr, a.size);
    AdjustProperties(r);
    AdjustAdmissible(r, unit);
    hide Adjust;
    ServeKeeps(b, k, h.top, a, unit);
    ReplaceKeepsInv(h, k, i, Serve(b, a), unit);
    ListLiveAdd(List(h, k), i, Serve(b, a), p);
    forall q | q in HeapLive(h) ensures !Overlap(q, p) {
      ApartFromBlock(h, k, i, p, q, unit);
    }
  }

  /** A payload inside one block overlaps no allocation of another. */
  lemma ApartFromBlock(h: HeapV, k: Kind, i: nat, p: Payload, q: Payload, unit: int := PAGE_SIZE)
    requires HeapInv(h, unit) && i < |List(h, k)| && q in HeapLive(h)
    requires List(h, k)[i].start <= p.addr && p.addr + p.size <= List(h, k)[i].End()
    requires q in Live(List(h, k)[i].cells) ==> !Overlap(q, p)
    ensures !Overlap(q, p)
  {
    var (l, j) := Whereabouts(h, q);
    if l != k || j != i {
      LiveInBlock(List(h, l)[j], l, h.top, q, unit);
      assert Disjoint(List(h, l)[j], List(h, k)[i]) by { ApartAt(h, k, l, i, j); }
    }
  }

  lemma ApartAt(h: HeapV, k: Kind, l: Kind, i: nat, j: nat)
    requires Apart(h) && i < |List(h, k)| && j < |List(h, l)| && (k != l || i != j)
    ensures Disjoint(List(h, l)[j], List(h, k)[i])
  {
    if k == l {
      if i < j {
        assert Disjoint(List(h, k)[i], List(h, k)[j]);
      } else {
        assert Disjoint(List(h, k)[j], List(h, k)[i]);
      }
    } else if k.Normal? || l.VeryLarge? {
      assert Disjoint(List(h, k)[i], List(h, l)[j]);
    } else {
      assert Disjoint(List(h, l)[j], List(h, k)[i]);
    }
  }

  /** The block that serves a live allocation. */
  ghost function Whereabouts(h: HeapV, p: Payload): (w: (Kind, nat))
    requires p in HeapLive(h)
    ensures w.1 < |List(h, w.0)| && p in Live(List(h, w.0)[w.1].cells)
  {
    var k := if p in ListLive(h.normal) then Normal else if p in ListLive(h.aligned) then Aligned else VeryLarge;
    var i :| 0 <= i < |List(h, k)| && p in Live(List(h, k)[i].cells);
    (k, i)
  }

  function BlockCount(h: HeapV): nat {
    |h.normal| + |h.aligned| + |h.veryLarge|
  }

  /**
   HeapAllocate on every reachable heap, for every size, flag mix and mask, every harmless
   alignment, and custom blocks that are multiples of the unit: when it ends, it hands out an
   address whose bytes lie below the top and overlap no live allocation, and keeps the
   invariant.  With a unit of whole pages, page and custom blocks hand out page boundaries.
   */
  lemma {:induction false} AllocateKeeps(h: HeapV, r: Request, unit: int := PAGE_SIZE)
    requires HeapInv(h, unit) && Admissible(r, unit) && Ends(h, r)
    ensures Allocated(h, r, Allocate(h, r).0, Allocate(h, r).1, unit)
    ensures BlockCount(Allocate(h, r).0) == BlockCount(h) + Expansions(h, r)
    ensures h.top <= Allocate(h, r).0.top
    decreases Expansions(h, r)
  {
    if Ready(h, r) {
      ReadyKeeps(h, r, unit);
    } else {
      var a := Adjust(r);
      AdjustProperties(r);
      AdjustAdmissible(r, unit);
      ExpandKeeps(h, r, unit);
      ExpandDescends(h, r);
      AllocateKeeps(Expand(h, a), a, unit);
    }
  }
}

/**
 Where the heap's promises end: which alignments and custom sizes keep allocations apart and
 inside their blocks, which requests never end, and runs from the initial heap that go wrong
 (kernel/system/heap.c).
 */
module HeapLimits {
  import opened Common
  import opened BlockSpec
  import opened HeapSpec
  import opened HeapRuns
  import opened Arithmetic

  /** HEAP_STANDARD_ALIGN: kmalloc asks for this alignment, the page allocations for none. */
  const STANDARD_ALIGN: int := 4
  const ANY: int := 0xFFFF_FFFF
  const TOP: int := INITIAL.top

  /** A request for a block of its own. */
  function Custom(size: int): Request { Request(size, true, false, 0, ANY) }

  /** One for a normal or a page block. */
  function Ask(size: int, page: bool, align: nat): Request { Request(size, page, false, align, ANY) }

  function Small(size: int): Request { Ask(size, false, STANDARD_ALIGN) }

  // ---------- Runs of allocations ----------

  /** The allocations that a run of requests is handed, in order.  A call that does not end is
      the last of its run. */
  ghost function Handed(h: HeapV, rs: seq<Request>): seq<Payload>
    decreases |rs|
  {
    if rs == [] || !Ends(h, rs[0]) then []
    else
      var (g, addr) := Allocate(h, rs[0]);
      [Payload(addr, Adjust(rs[0]).size)] + Handed(g, rs[1..])
  }

  predicate PairwiseApart(ps: seq<Payload>) {
    forall i, j :: 0 <= i < j < |ps| ==> !Overlap(ps[i], ps[j])
  }

  ghost predicate InSomeBlock(h: HeapV, p: Payload) {
    exists k, i :: 0 <= i < |List(h, k)| && List(h, k)[i].start <= p.addr && p.addr + p.size <= List(h, k)[i].End()
  }

  /** Every allocation of the run lies in a block when it is handed out. */
  ghost predicate AllInside(h: HeapV, rs: seq<Request>)
    decreases |rs|
  {
    if rs == [] || !Ends(h, rs[0]) then true
    else
      var (g, addr) := Allocate(h, rs[0]);
      InSomeBlock(g, Payload(addr, Adjust(rs[0]).size)) && AllInside(g, rs[1..])
  }

  /** A sound heap hands out allocations that are apart from each other and from the live ones. */
  lemma {:induction false} HandedApart(h: HeapV, rs: seq<Request>, unit: int)
    requires HeapInv(h, unit)
    requires forall r :: r in rs ==> Admissible(r, unit)
    ensures PairwiseApart(Handed(h, rs)) && AllInside(h, rs)
    ensures forall p, q :: p in HeapLive(h) && q in Handed(h, rs) ==> !Overlap(p, q)
    decreases |rs|
  {
    if rs != [] && Ends(h, rs[0]) {
      var (g, addr) := Allocate(h, rs[0]);
      var p, rest := Payload(addr, Adjust(rs[0]).size), Handed(g, rs[1..]);
      AllocateKeeps(h, rs[0], unit);
      HandedApart(g, rs[1..], unit);
      LiveIsInside(g, p, unit);
      assert Handed(h, rs) == [p] + rest && p in HeapLive(g);
      hide HeapInv;
      hide HeapLive;
      hide Allocate;
      hide Overlap;
      assert forall i :: 0 <= i < |rest| ==> rest[i] in rest;
    }
  }

  lemma LiveIsInside(h: HeapV, p: Payload, unit: int)
    requires HeapInv(h, unit)
    ensures p in HeapLive(h) ==> InSomeBlock(h, p)
  {
    if p in HeapLive(h) {
      var (k, i) := Whereabouts(h, p);
      LiveInBlock(List(h, k)[i], k, h.top, p, unit);
    }
  }

  /** No block ends above the top. */
  ghost predicate Below(h: HeapV) {
    forall k, i :: 0 <= i < |List(h, k)| ==> List(h, k)[i].End() <= h.top
  }

  lemma BelowList(h: HeapV, k: Kind)
    requires Below(h)
    ensures forall i :: 0 <= i < |List(h, k)| ==> List(h, k)[i].End() <= h.top
  {
  }

  lemma BelowWith(h: HeapV, k: Kind, list: seq<BlockV>, top: int)
    requires Below(h) && h.top <= top && forall i :: 0 <= i < |list| ==> list[i].End() <= top
    ensures Below(WithList(h, k, list).(top := top))
  {
    var g := WithList(h, k, list).(top := top);
    forall l, i | 0 <= i < |List(g, l)| ensures List(g, l)[i].End() <= top {
      assert l != k ==> List(g, l) == List(h, l);
    }
  }

  lemma {:induction false} AllocateBelow(h: HeapV, r: Request)
    requires Below(h) && Ends(h, r) && r.size >= 0
    ensures Below(Allocate(h, r).0)
    decreases Expansions(h, r)
  {
    var a := Adjust(r);
    var k := KindOf(a);
    AdjustProperties(r);
    hide Adjust;
    hide Accepts;
    hide PlaceIn;
    hide Below;
    if Ready(h, r) {
      BelowList(h, k);
      var i := FirstAccepting(List(h, k), a);
      BelowWith(h, k, List(h, k)[i := Serve(List(h, k)[i], a)], h.top);
    } else {
      BelowList(h, k);
      ExpandDescends(h, r);
      BelowWith(h, k, List(h, k) + [NewBlock(h.top, a)], h.top + ExpansionSize(a));
      AllocateBelow(Expand(h, a), a);
    }
  }

  // ---------- Single steps of a run ----------

  /** In a block with one free node the request goes there or nowhere. */
  lemma OneNode(b: BlockV, c: Cell, a: Request)
    requires b.cells == [c] && Suits(c, a.size, a.align, b.kind.VeryLarge?)
    ensures var r := PlaceIn(b, a);
      && r.Placed? && r.cells == Place(c, a.size, a.align, b.kind.VeryLarge?)
      && r.addr == if c.len == a.size || b.kind.VeryLarge? then c.addr else c.addr + Pad(c.addr, a.align)
  {
    assert FirstSuiting(b.cells, a.size, a.align, b.kind.VeryLarge?) == 0;
  }

  /** In a block whose first node is taken and whose second is free it goes to the second. */
  lemma SecondNode(b: BlockV, taken: Cell, c: Cell, a: Request)
    requires b.cells == [taken, c] && taken.owner.Some? && !b.kind.VeryLarge? && c.len != a.size
    requires Suits(c, a.size, a.align, false)
    ensures var r := PlaceIn(b, a);
      r.Placed? && r.cells == [taken] + Place(c, a.size, a.align, false) && r.addr == c.addr + Pad(c.addr, a.align)
  {
    assert FirstSuiting(b.cells, a.size, a.align, false) == 1 by {
      assert FirstSuiting(b.cells[1..], a.size, a.align, false) == 0;
    }
  }

  /** A node that is too short takes nothing. */
  lemma NoNode(b: BlockV, a: Request)
    requires forall i :: 0 <= i < |b.cells| ==> !Suits(b.cells[i], a.size, a.align, b.kind.VeryLarge?)
    ensures !Accepts(b, a)
  {
    var i := FirstSuiting(b.cells, a.size, a.align, b.kind.VeryLarge?);
  }

  lemma FirstOfAppended(l: seq<BlockV>, b: BlockV, a: Request)
    requires Accepts(b, a) && forall i :: 0 <= i < |l| ==> !Accepts(l[i], a)
    ensures FirstAccepting(l + [b], a) == |l|
    ensures (l + [b])[|l|] == b && forall c :: (l + [b])[|l| := c] == l + [c]
  {
    hide Accepts;
    assert forall i :: 0 <= i < |l| ==> (l + [b])[i] == l[i];
    assert (l + [b])[|l|] == b;
  }

  lemma AllocateReady(h: HeapV, r: Request)
    requires Ready(h, r)
    ensures Ends(h, r) && Allocate(h, r) == TakeFound(h, Adjust(r))
  {
    assert EndsIn(h, r, 0);
  }

  lemma AllocateExpanding(h: HeapV, r: Request)
    requires Ends(h, r) && !Ready(h, r)
    ensures Ends(Expand(h, Adjust(r)), Adjust(r))
    ensures Allocate(h, r) == Allocate(Expand(h, Adjust(r)), Adjust(r))
  {
    ExpandDescends(h, r);
  }

  /** When no block of its list takes an adjusted request, it gets a fresh one. */
  lemma GetsFreshBlock(h: HeapV, r: Request)
    requires Servable(r) && !Ready(h, r) && Adjust(Adjust(r)) == Adjust(r)
    ensures Ends(h, r)
    ensures var a := Adjust(r);
      var b := NewBlock(h.top, a);
      && Accepts(b, a)
      && Allocate(h, r) == (WithList(h, KindOf(a), List(h, KindOf(a)) + [Serve(b, a)]).(top := h.top + ExpansionSize(a)),
                            PlaceIn(b, a).addr)
  {
    var a := Adjust(r);
    var b := NewBlock(h.top, a);
    hide Allocate;
    hide Accepts;
    hide PlaceIn;
    hide Serve;
    ServableEnds(h, r);
    AllocateExpanding(h, r);
    AdjustProperties(r);
    if a.align > 0 {
      UnitDivides(a.align);
    }
    NewBlockAccepts(h, a);
    FirstOfAppended(List(h, KindOf(a)), b, a);
    hide NewBlock;
    hide Adjust;
    hide FirstAccepting;
    AllocateReady(Expand(h, a), a);
  }

  /** A custom block is handed out from its start. */
  lemma CustomGetsTop(h: HeapV, size: int)
    requires size >= LARGE_BLOCK && forall i :: 0 <= i < |h.veryLarge| ==> !Accepts(h.veryLarge[i], Adjust(Custom(size)))
    ensures Adjust(Custom(size)).size == size && Ends(h, Custom(size))
    ensures Allocate(h, Custom(size)).1 == h.top && Allocate(h, Custom(size)).0.top == h.top + size
    ensures Allocate(h, Custom(size)).0.normal == h.normal && Allocate(h, Custom(size)).0.aligned == h.aligned
    ensures var l, n := Allocate(h, Custom(size)).0.veryLarge, |h.veryLarge|;
      |l| == n + 1 && l[..n] == h.veryLarge && l[n].cells == [Cell(h.top, size, Some(Payload(h.top, size)))]
  {
    var a := Adjust(Custom(size));
    GetsFreshBlock(h, Custom(size));
    OneNode(NewBlock(h.top, a), Cell(h.top, size, None), a);
  }

  /** A request below the block size of its kind, as it is after the adjustments. */
  predicate Plain(r: Request) {
    Adjust(r) == r && !r.big && 0 <= r.size < ExpansionSize(r)
  }

  /** What the first allocation makes of a fresh block. */
  function Begun(start: int, r: Request): BlockV {
    var size, pad := ExpansionSize(r), Pad(start, r.align);
    BlockV(start, size, KindOf(r), r.mask, size,
           [Cell(start, r.size + pad, Some(Payload(start + pad, r.size))),
            Cell(start + r.size + pad, size - r.size - pad, None)])
  }

  lemma FirstInBlock(top: int, r: Request)
    requires Plain(r) && Suits(Cell(top, ExpansionSize(r), None), r.size, r.align, false)
    ensures var b := NewBlock(top, r);
      PlaceIn(b, r).Placed? && PlaceIn(b, r).addr == top + Pad(top, r.align) && Serve(b, r) == Begun(top, r)
  {
    OneNode(NewBlock(top, r), Cell(top, ExpansionSize(r), None), r);
    hide Pad;
    hide Adjust;
  }

  /** A request that no block of its kind takes starts a fresh one, after its padding. */
  lemma AskGetsTop(h: HeapV, r: Request)
    requires Plain(r) && Servable(r) && forall i :: 0 <= i < |List(h, KindOf(r))| ==> !Accepts(List(h, KindOf(r))[i], r)
    ensures Ends(h, r)
    ensures var k, n := KindOf(r), |List(h, KindOf(r))|;
      var g := Allocate(h, r).0;
      && Allocate(h, r).1 == h.top + Pad(h.top, r.align) && g.top == h.top + ExpansionSize(r) && g.veryLarge == h.veryLarge
      && |List(g, k)| == n + 1 && List(g, k)[..n] == List(h, k) && List(g, k)[n] == Begun(h.top, r)
  {
    hide Allocate;
    hide PlaceIn;
    hide Pad;
    hide Accepts;
    hide NewBlock;
    hide Serve;
    GetsFreshBlock(h, r);
    FreshSuits(h.top, r);
    FirstInBlock(h.top, r);
    hide Begun;
  }

  lemma FreshSuits(top: int, r: Request)
    requires Plain(r) && Servable(r)
    ensures Suits(Cell(top, ExpansionSize(r), None), r.size, r.align, false)
  {
    if r.align > 0 {
      UnitDivides(r.align);
      AlignUpBelow(r.size, ExpansionSize(r), r.align);
    }
  }

  // ---------- Which requests end ----------

  /** An expansion helps exactly when the fresh block takes the request. */
  lemma ReadyAfterExpand(h: HeapV, a: Request)
    requires Adjust(a) == a && !Ready(h, a)
    ensures Ready(Expand(h, a), a) <==> Accepts(NewBlock(h.top, a), a)
  {
    var l, b := List(h, KindOf(a)), NewBlock(h.top, a);
    hide Accepts;
    hide NewBlock;
    hide Adjust;
    assert (l + [b])[|l|] == b;
    assert forall i :: 0 <= i < |l| ==> (l + [b])[i] == l[i];
  }

  /** With an alignment above the block size a fresh block takes the request exactly when it
      starts on a multiple. */
  lemma BeyondBlock(top: int, a: Request)
    requires !a.big && 1 <= a.size < ExpansionSize(a) < a.align
    ensures Accepts(NewBlock(top, a), a) <==> top % a.align == 0
  {
    TooShortToPad(ExpansionSize(a), a.size, a.align);
    if top % a.align == 0 {
      OneNode(NewBlock(top, a), Cell(top, ExpansionSize(a), None), a);
    } else {
      NoNode(NewBlock(top, a), a);
    }
  }

  /** The top comes to a multiple of the alignment, and the request ends. */
  lemma {:induction false} EndsWhenAligned(h: HeapV, a: Request, n: nat)
    requires Adjust(a) == a && !a.big && 1 <= a.size < ExpansionSize(a) < a.align
    requires (h.top + n * ExpansionSize(a)) % a.align == 0
    ensures Ends(h, a)
    decreases n
  {
    hide Accepts;
    hide Adjust;
    if Ready(h, a) {
      EndsAfter(h, a, 0);
    } else {
      var g := Expand(h, a);
      if n == 0 {
        BeyondBlock(h.top, a);
        ReadyAfterExpand(h, a);
        assert EndsIn(g, a, 0);
        EndsAfter(h, a, 1);
      } else {
        assert n * ExpansionSize(a) == (n - 1) * ExpansionSize(a) + ExpansionSize(a);
        EndsWhenAligned(g, a, n - 1);
        EndsAfter(h, a, Expansions(g, a) + 1);
      }
    }
  }

  /** The top never does: the request is refused for ever. */
  lemma {:induction false} NeverEnds(h: HeapV, a: Request, n: nat)
    requires Adjust(a) == a && !a.big && 1 <= a.size < ExpansionSize(a) < a.align && a.align % ExpansionSize(a) == 0
    requires !Ready(h, a) && h.top % ExpansionSize(a) != 0
    ensures !EndsIn(h, a, n)
    decreases n
  {
    hide Ready;
    hide Adjust;
    hide Accepts;
    if n > 0 {
      if h.top % a.align == 0 {
        DivisorOfMultiple(h.top, a.align, ExpansionSize(a));
        assert false;
      }
      BeyondBlock(h.top, a);
      hide NewBlock;
      hide List;
      hide WithList;
      ReadyAfterExpand(h, a);
      NeverEnds(Expand(h, a), a, n - 1);
    }
  }

  /** How many blocks of a size it takes from a multiple of it to one of the alignment. */
  lemma ReachAligned(top: int, size: int, align: int) returns (n: nat)
    requires 0 < size < align && align % size == 0 && top % size == 0
    ensures (top + n * size) % align == 0
  {
    var q, m := top / size, align / size;
    assert top == q * size && align == m * size;
    Scale(-m, size);
    n := AlignUp(q, m) - q;
    AlignUpIsMultiple(q, m);
    ScaledMultiple(AlignUp(q, m), m, size);
    assert n * size == AlignUp(q, m) * size - q * size;
  }

  /** The adjusted request goes to a block with a size of its own; also one that rounding up
      made as large as a page block, from the second pass on. */
  predicate GoesToCustom(r: Request) {
    Adjust(Adjust(r)).big
  }

  /**
   HeapAllocate ends exactly when a block takes the request already, or it goes to the custom
   blocks, or it asks for no bytes, or the alignment is at most the block size of its kind, or
   the top is a multiple of that size.
   */
  lemma EndsExactly(h: HeapV, r: Request)
    requires r.size >= 0 && (r.align == 0 || IsPowerOfTwo(r.align))
    ensures var size := ExpansionSize(Adjust(r));
      Ends(h, r) <==> Ready(h, r) || GoesToCustom(r) || r.size == 0 || r.align <= size || h.top % size == 0
  {
    var a := Adjust(r);
    var size := ExpansionSize(a);
    AdjustProperties(r);
    if Ready(h, r) {
      EndsAfter(h, r, 0);
    } else if GoesToCustom(r) {
      CustomEnds(h, r);
    } else if r.size == 0 || r.align <= size {
      assert Adjust(a) == a && a.size < size;
      SizesArePowers();
      if 0 < r.align <= size {
        PowerDivides(r.align, size);
      }
      EndsAtOnce(h, r);
    } else {
      SizesArePowers();
      PowerDivides(size, r.align);
      hide Ready;
      hide Adjust;
      EndsAsAdjusted(h, r);
      if h.top % size == 0 {
        var n := ReachAligned(h.top, size, r.align);
        EndsWhenAligned(h, a, n);
      } else {
        forall n: nat ensures !EndsIn(h, a, n) {
          NeverEnds(h, a, n);
        }
      }
    }
  }

  lemma SizesArePowers()
    ensures IsPowerOfTwo(NORMAL_BLOCK) && IsPowerOfTwo(LARGE_BLOCK) && IsPowerOfTwo(2 * LARGE_BLOCK)
  {
    assert PowerOfTwo(6) == 64 && PowerOfTwo(12) == PAGE_SIZE;
    assert PowerOfTwo(13) == NORMAL_BLOCK;
    assert PowerOfTwo(17) == LARGE_BLOCK;
    assert PowerOfTwo(18) == 2 * LARGE_BLOCK;
  }

  lemma CustomEnds(h: HeapV, r: Request)
    requires r.size >= 0 && GoesToCustom(r) && !Ready(h, r)
    ensures Ends(h, r)
  {
    var a := Adjust(r);
    var b, g := Adjust(a), Expand(h, a);
    AdjustProperties(r);
    AdjustProperties(a);
    if Ready(g, a) {
      assert EndsIn(g, a, 0);
      EndsAfter(h, r, 1);
    } else {
      ExpandServes(g, b);
      assert EndsIn(Expand(g, b), b, 0);
      assert EndsIn(g, a, 1);
      EndsAfter(h, r, 2);
    }
  }

  lemma EndsAtOnce(h: HeapV, r: Request)
    requires var a := Adjust(r);
      Adjust(a) == a && !a.big && 0 <= a.size < ExpansionSize(a) &&
      (a.size == 0 || a.align == 0 || ExpansionSize(a) % a.align == 0) && !Ready(h, r)
    ensures Ends(h, r)
  {
    var a := Adjust(r);
    if a.align > 0 && ExpansionSize(a) % a.align == 0 {
      AlignUpBelow(a.size, ExpansionSize(a), a.align);
    }
    OneNode(NewBlock(h.top, a), Cell(h.top, ExpansionSize(a), None), a);
    ReadyAfterExpand(h, a);
    assert EndsIn(Expand(h, a), a, 0);
    EndsAfter(h, r, 1);
  }

  /** A request that adjusts no further ends when its adjusted form does. */
  lemma EndsAsAdjusted(h: HeapV, r: Request)
    requires Adjust(Adjust(r)) == Adjust(r)
    ensures Ends(h, r) <==> Ends(h, Adjust(r))
  {
    var a := Adjust(r);
    if n: nat :| EndsIn(h, r, n) {
      assert EndsIn(h, a, n);
    }
    if n: nat :| EndsIn(h, a, n) {
      assert EndsIn(h, r, n);
    }
  }

  /** One page, aligned to two page blocks, is never served: the first page block lies at the
      wrong address, and so does every further one. */
  lemma PageRequestNeverEnds()
    ensures !Ends(INITIAL, Ask(PAGE_SIZE, true, 2 * LARGE_BLOCK))
  {
    var r := Ask(PAGE_SIZE, true, 2 * LARGE_BLOCK);
    TooShortToPad(LARGE_BLOCK, PAGE_SIZE, 2 * LARGE_BLOCK);
    NoNode(INITIAL.aligned[0], r);
    assert !Ready(INITIAL, r);
    SizesArePowers();
    EndsExactly(INITIAL, r);
  }

  // ---------- Which alignments and custom sizes are harmless ----------

  /**
   An alignment that breaks no run with custom blocks of the size: it needs no padding of more
   than a byte, or no block but a custom one has room to pad to it, or it fits a normal block
   and the custom blocks are multiples of it.
   */
  predicate Tolerated(align: nat, z: int) {
    align <= 2 || align > LARGE_BLOCK || (align <= NORMAL_BLOCK && z % align == 0)
  }

  /** Requests with these alignments or none, and custom blocks of size z or of a size that
      every alignment up to a normal block divides. */
  ghost predicate Usual(r: Request, z: int, aligns: set<nat>) {
    && r.size >= 1 && (r.align == 0 || r.align in aligns)
    && (Adjust(r).big ==>
          Adjust(r).size == z || forall a :: a in aligns && 0 < a <= NORMAL_BLOCK ==> Adjust(r).size % a == 0)
  }

  ghost predicate AllUsual(rs: seq<Request>, z: int, aligns: set<nat>) {
    forall r :: r in rs ==> Usual(r, z, aligns)
  }

  /** The first of the run, and the rest of it from there. */
  lemma HandedStep(h: HeapV, r: Request, rs: seq<Request>)
    requires Ends(h, r) && r.size >= 0
    ensures Below(h) ==> Below(Allocate(h, r).0)
    ensures Handed(h, [r] + rs) == [Payload(Allocate(h, r).1, Adjust(r).size)] + Handed(Allocate(h, r).0, rs)
    ensures !PairwiseApart(Handed(Allocate(h, r).0, rs)) ==> !PairwiseApart(Handed(h, [r] + rs))
    ensures !AllInside(Allocate(h, r).0, rs) ==> !AllInside(h, [r] + rs)
  {
    assert ([r] + rs)[1..] == rs;
    if Below(h) {
      AllocateBelow(h, r);
    }
    hide Allocate;
    hide Overlap;
    hide Below;
    hide InSomeBlock;
    hide Adjust;
    var all, rest := Handed(h, [r] + rs), Handed(Allocate(h, r).0, rs);
    assert forall i :: 0 <= i < |rest| ==> rest[i] == all[i + 1];
  }

  /** The run goes wrong: allocations overlap, and one leaves its block. */
  ghost predicate Breaks(h: HeapV, rs: seq<Request>) {
    !PairwiseApart(Handed(h, rs)) && !AllInside(h, rs)
  }

  lemma BreaksLater(h: HeapV, r: Request, rs: seq<Request>)
    requires Ends(h, r) && Breaks(Allocate(h, r).0, rs) && r.size >= 0
    ensures Breaks(h, [r] + rs)
  {
    HandedStep(h, r, rs);
  }

  /** The custom blocks are all taken. */
  predicate CustomTaken(h: HeapV) {
    forall i :: 0 <= i < |h.veryLarge| ==> |h.veryLarge[i].cells| == 1 && h.veryLarge[i].cells[0].owner.Some?
  }

  /** An allocation that goes past the top overlaps the custom block that comes next. */
  lemma OverrunBreaks(h: HeapV, r: Request)
    requires Ends(h, r) && Adjust(r) == r && Below(h) && r.size >= 0
    requires var (g, addr) := Allocate(h, r); CustomTaken(g) && addr < g.top < addr + r.size
    ensures Breaks(h, [r] + [Custom(LARGE_BLOCK)])
  {
    var (g, addr) := Allocate(h, r);
    var p, q := Payload(addr, r.size), Payload(g.top, LARGE_BLOCK);
    forall i | 0 <= i < |g.veryLarge| ensures !Accepts(g.veryLarge[i], Adjust(Custom(LARGE_BLOCK))) {
      NoNode(g.veryLarge[i], Adjust(Custom(LARGE_BLOCK)));
    }
    CustomGetsTop(g, LARGE_BLOCK);
    HandedStep(h, r, [Custom(LARGE_BLOCK)]);
    HandedStep(g, Custom(LARGE_BLOCK), []);
    assert [Custom(LARGE_BLOCK)] + [] == [Custom(LARGE_BLOCK)];
    hide Allocate;
    var ps := Handed(h, [r] + [Custom(LARGE_BLOCK)]);
    assert ps[0] == p && ps[1] == q && Overlap(p, q);
    assert !InSomeBlock(g, p);
    assert ([r] + [Custom(LARGE_BLOCK)])[0] == r;
  }

  // ---------- The bad runs ----------

  /** The kind of blocks a bad run uses: normal ones, unless a normal block and its padding are
      of the same size but for a byte. */
  predicate InPageBlocks(z: int, a: int)
    requires a > 0
  {
    a == NORMAL_BLOCK && z % a == a - 1
  }

  /** Fills the first block of its kind, but for a byte or a page. */
  function Filler(page: bool, a: nat): Request {
    if page then Ask(LARGE_BLOCK - PAGE_SIZE, true, a) else Ask(NORMAL_BLOCK - 1, false, a)
  }

  /** Puts the free node of a fresh block at the wrong offset. */
  function Shifter(page: bool, a: nat): Request {
    if page then Ask(3 * PAGE_SIZE, true, a) else Ask(2, false, a)
  }

  /** Is too long for that node with its padding. */
  function Overrunner(page: bool, a: nat): Request {
    if page then Ask(LARGE_BLOCK - 4 * PAGE_SIZE, true, a) else Ask(NORMAL_BLOCK - a, false, a)
  }

  /** A run that goes wrong from the initial heap. */
  function BadRun(z: int, a: nat): seq<Request>
    requires a > 0
  {
    if a > NORMAL_BLOCK then [Filler(true, a)] + [Custom(LARGE_BLOCK)]
    else
      var page := InPageBlocks(z, a);
      [Custom(z)] + ([Filler(page, a)] +
      (if z % a == a - 1 then [Shifter(page, a)] + ([Overrunner(page, a)] + [Custom(LARGE_BLOCK)])
       else [Filler(false, a)] + [Custom(LARGE_BLOCK)]))
  }

  lemma PlainRequests(page: bool, a: nat)
    ensures Plain(Filler(page, a)) && Plain(Shifter(page, a))
    ensures page || a <= NORMAL_BLOCK ==> Plain(Overrunner(page, a)) || (!page && a == 0)
  {
  }

  /** The padding where the custom size puts the block. */
  lemma PadAfter(z: int, a: int)
    requires a > 0 && NORMAL_BLOCK % a == 0
    ensures (TOP + z) % a == z % a && Pad(TOP + z, a) == if z % a == 0 then 0 else a - z % a
  {
    DivisorOfMultiple(TOP, NORMAL_BLOCK, a);
    ModSum(TOP, z, a);
  }

  /** The first block of the kind is filled, and a custom block follows the first blocks. */
  predicate Primed(h: HeapV, z: int, page: bool) {
    var l := if page then h.aligned else h.normal;
    && |l| == 1 && |l[0].cells| == 2 && l[0].cells[0].owner.Some? && !l[0].kind.VeryLarge?
    && l[0].cells[1].len == (if page then PAGE_SIZE else 1)
    && CustomTaken(h) && h.top == TOP + z
  }

  /** A first block that is free, and its kind's only one, takes the filler. */
  lemma FillFirst(h: HeapV, z: int, page: bool, a: nat)
    requires a > 0 && NORMAL_BLOCK % a == 0
    requires (if page then h.aligned == INITIAL.aligned else h.normal == INITIAL.normal) && CustomTaken(h) && h.top == TOP + z
    ensures Ends(h, Filler(page, a)) && Primed(Allocate(h, Filler(page, a)).0, z, page)
  {
    var r := Filler(page, a);
    var b := List(h, KindOf(r))[0];
    PlainRequests(page, a);
    DivisorOfMultiple(DATA_START, NORMAL_BLOCK, a);
    DivisorOfMultiple(DATA_START + NORMAL_BLOCK, NORMAL_BLOCK, a);
    hide Adjust;
    OneNode(b, b.cells[0], r);
    assert FirstAccepting(List(h, KindOf(r)), r) == 0;
    AllocateReady(h, r);
    hide Allocate;
  }

  /** The heap after a custom allocation and a filled block. */
  lemma Prime(z: int, page: bool, a: nat) returns (h0: HeapV, h: HeapV)
    requires z >= LARGE_BLOCK && a > 0 && NORMAL_BLOCK % a == 0
    ensures Ends(INITIAL, Custom(z)) && h0 == Allocate(INITIAL, Custom(z)).0
    ensures Ends(h0, Filler(page, a)) && h == Allocate(h0, Filler(page, a)).0
    ensures Primed(h, z, page) && Below(h)
  {
    hide Allocate;
    hide Primed;
    CustomGetsTop(INITIAL, z);
    AllocateBelow(INITIAL, Custom(z));
    h0 := Allocate(INITIAL, Custom(z)).0;
    assert h0.veryLarge == h0.veryLarge[..0] + [h0.veryLarge[0]];
    FillFirst(h0, z, page, a);
    hide Below;
    AllocateBelow(h0, Filler(page, a));
    h := Allocate(h0, Filler(page, a)).0;
  }

  /** A padding of two bytes or more: the longest request in a fresh normal block overruns. */
  lemma OverrunAtOnce(h: HeapV, z: int, a: nat)
    requires Primed(h, z, false) && Below(h) && 0 < a && NORMAL_BLOCK % a == 0 && 0 < z % a < a - 1
    ensures Breaks(h, [Filler(false, a)] + [Custom(LARGE_BLOCK)])
  {
    var r := Filler(false, a);
    PlainRequests(false, a);
    NoNode(h.normal[0], r);
    PadAfter(z, a);
    hide Pad;
    hide Allocate;
    hide Accepts;
    AskGetsTop(h, r);
    OverrunBreaks(h, r);
  }

  /** A padding of one byte: after the shifter the overrunner does. */
  lemma OverrunAtSecond(h: HeapV, z: int, page: bool, a: nat)
    requires Primed(h, z, page) && Below(h) && 4 <= a && NORMAL_BLOCK % a == 0 && z % a == a - 1
    requires page <==> a == NORMAL_BLOCK
    ensures Breaks(h, [Shifter(page, a)] + ([Overrunner(page, a)] + [Custom(LARGE_BLOCK)]))
  {
    var s, r := Shifter(page, a), Overrunner(page, a);
    var k := KindOf(s);
    PlainRequests(page, a);
    Scale(NORMAL_BLOCK / a - 1, a);
    NoNode(List(h, k)[0], s);
    NoNode(List(h, k)[0], r);
    PadAfter(z, a);
    hide Pad;
    hide Allocate;
    hide Accepts;
    AskGetsTop(h, s);
    AllocateBelow(h, s);
    var g := Allocate(h, s).0;
    assert List(g, k)[0] == List(g, k)[..1][0] == List(h, k)[0];
    SecondOverruns(g, h.top, page, a);
    OverrunBreaks(g, r);
    BreaksLater(h, s, [r] + [Custom(LARGE_BLOCK)]);
  }

  /** The free node that the shifter leaves has the wrong offset, and passes the test. */
  lemma ShiftedNode(start: int, page: bool, a: nat)
    requires 4 <= a && NORMAL_BLOCK % a == 0 && start % a == a - 1 && (page <==> a == NORMAL_BLOCK)
    ensures var s, r := Shifter(page, a), Overrunner(page, a);
      var size, used := ExpansionSize(s), s.size + Pad(start, a);
      var c := Cell(start + used, size - used, None);
      && ExpansionSize(r) == size && Suits(c, r.size, a, false) && c.len != r.size
      && c.len < r.size + Pad(c.addr, a)
  {
    ModSum(start, 3, a);
    if page {
      ModSum(start, 3 * PAGE_SIZE + 1, a);
    } else {
      ModSum(NORMAL_BLOCK - a, a, a);
    }
  }

  /** A second block whose free node takes what the first block does not. */
  lemma ServedBySecond(g: HeapV, r: Request)
    requires Plain(r)
    requires var l := List(g, KindOf(r));
      && |l| == 2 && !Accepts(l[0], r)
      && |l[1].cells| == 2 && l[1].cells[0].owner.Some? && !l[1].kind.VeryLarge? && l[1].mask >= r.mask && l[1].bytesFree >= r.size
      && Suits(l[1].cells[1], r.size, r.align, false) && l[1].cells[1].len != r.size
    ensures Ends(g, r)
    ensures var c := List(g, KindOf(r))[1].cells[1];
      var (f, addr) := Allocate(g, r);
      f.top == g.top && f.veryLarge == g.veryLarge && addr == c.addr + Pad(c.addr, r.align)
  {
    var l := List(g, KindOf(r));
    hide Pad;
    hide Suits;
    SecondNode(l[1], l[1].cells[0], l[1].cells[1], r);
    hide PlaceIn;
    assert FirstAccepting(l, r) == 1 by {
      assert FirstAccepting(l[1..], r) == 0;
    }
    AllocateReady(g, r);
    hide Allocate;
  }

  /** The node left by the shifter takes a request that is too long for it with its padding. */
  lemma SecondOverruns(g: HeapV, start: int, page: bool, a: nat)
    requires 4 <= a && NORMAL_BLOCK % a == 0 && start % a == a - 1 && (page <==> a == NORMAL_BLOCK)
    requires var l := List(g, KindOf(Shifter(page, a)));
      && |l| == 2 && !Accepts(l[0], Overrunner(page, a)) && l[1] == Begun(start, Shifter(page, a))
    requires g.top == start + ExpansionSize(Shifter(page, a)) && CustomTaken(g)
    ensures var r := Overrunner(page, a);
      && Ends(g, r) && Adjust(r) == r
      && var (f, addr) := Allocate(g, r);
         CustomTaken(f) && addr < f.top < addr + r.size
  {
    var r := Overrunner(page, a);
    ShiftedNode(start, page, a);
    PlainRequests(page, a);
    assert a <= NORMAL_BLOCK && (!page ==> a < NORMAL_BLOCK) by {
      Scale(NORMAL_BLOCK / a - 1, a);
    }
    hide Pad;
    hide Suits;
    hide Accepts;
    hide Adjust;
    hide Allocate;
    ServedBySecond(g, r);
  }

  /** Every alignment between a normal and a large block, and every smaller one from 4 up that
      does not divide the custom size, has a run that goes wrong. */
  lemma BadRunBreaks(z: int, a: nat)
    requires z >= LARGE_BLOCK && IsPowerOfTwo(a) && !Tolerated(a, z)
    ensures Breaks(INITIAL, BadRun(z, a))
  {
    hide Primed;
    hide Breaks;
    SizesArePowers();
    if a > NORMAL_BLOCK {
      FirstPageOverruns(a);
    } else {
      PowerDivides(a, NORMAL_BLOCK);
      AtLeastFour(a);
      hide IsPowerOfTwo;
      var page := InPageBlocks(z, a);
      var h0, h := Prime(z, page, a);
      var rest := if z % a == a - 1 then [Shifter(page, a)] + ([Overrunner(page, a)] + [Custom(LARGE_BLOCK)])
                  else [Filler(false, a)] + [Custom(LARGE_BLOCK)];
      hide Allocate;
      assert Breaks(h, rest) by {
        if z % a == a - 1 {
          OverrunAtSecond(h, z, page, a);
        } else {
          OverrunAtOnce(h, z, a);
        }
      }
      BreaksLater(h0, Filler(page, a), rest);
      BreaksLater(INITIAL, Custom(z), [Filler(page, a)] + rest);
    }
  }

  lemma AtLeastFour(a: nat)
    requires IsPowerOfTwo(a) && a > 2
    ensures a >= 4
  {
    assert IsPowerOfTwo(2) by {
      assert PowerOfTwo(1) == 2;
    }
    PowerDivides(2, a);
  }

  /** How the first page block lies to such an alignment. */
  lemma FirstPagePadding(a: nat)
    requires IsPowerOfTwo(a) && NORMAL_BLOCK < a <= LARGE_BLOCK
    ensures 2 * NORMAL_BLOCK <= a && Pad(DATA_START + NORMAL_BLOCK, a) == a - NORMAL_BLOCK
    ensures AlignUp(LARGE_BLOCK - PAGE_SIZE, a) <= LARGE_BLOCK
  {
    SizesArePowers();
    PowerDivides(NORMAL_BLOCK, a);
    PowerDivides(a, LARGE_BLOCK);
    hide IsPowerOfTwo;
    AlignUpBelow(LARGE_BLOCK - PAGE_SIZE, LARGE_BLOCK, a);
    hide AlignUp;
    DivisorOfMultiple(DATA_START, LARGE_BLOCK, a);
    ModSum(DATA_START, NORMAL_BLOCK, a);
    DivModIs(NORMAL_BLOCK, 0, NORMAL_BLOCK, a);
  }

  /** From 2 * NORMAL_BLOCK to LARGE_BLOCK the first page request already overruns. */
  lemma FirstPageOverruns(a: nat)
    requires IsPowerOfTwo(a) && NORMAL_BLOCK < a <= LARGE_BLOCK
    ensures Breaks(INITIAL, [Filler(true, a)] + [Custom(LARGE_BLOCK)])
  {
    var r, b := Filler(true, a), INITIAL.aligned[0];
    FirstPagePadding(a);
    hide Pad;
    hide AlignUp;
    hide IsPowerOfTwo;
    hide Breaks;
    PlainRequests(true, a);
    OneNode(b, b.cells[0], r);
    assert FirstAccepting(INITIAL.aligned, r) == 0;
    AllocateReady(INITIAL, r);
    hide Allocate;
    hide PlaceIn;
    OverrunBreaks(INITIAL, r);
  }

  /** The run asks for nothing unusual. */
  lemma BadRunIsUsual(z: int, a: nat, aligns: set<nat>)
    requires z >= LARGE_BLOCK && a in aligns && a > 0 && forall b :: b in aligns ==> b == 0 || IsPowerOfTwo(b)
    ensures AllUsual(BadRun(z, a), z, aligns)
  {
    SizesArePowers();
    forall b | b in aligns && 0 < b <= NORMAL_BLOCK ensures LARGE_BLOCK % b == 0 {
      PowerDivides(b, LARGE_BLOCK);
    }
    hide IsPowerOfTwo;
    forall r | r in BadRun(z, a) ensures Usual(r, z, aligns) {
    }
  }

  /** The largest of the alignments that fits a normal block, or 1: a unit for all of them. */
  ghost function UnitOf(aligns: set<nat>, n: nat): int {
    if n < 2 then 1 else if PowerOfTwo(n) in aligns then PowerOfTwo(n) else UnitOf(aligns, n - 1)
  }

  lemma {:induction false} UnitFits(aligns: set<nat>, n: nat, m: nat)
    ensures var u := UnitOf(aligns, n);
      && (u == 1 || (u in aligns && 4 <= u <= PowerOfTwo(n))) && PowerOfTwo(n) % u == 0 && u > 0
      && (2 <= m <= n && PowerOfTwo(m) in aligns ==> u % PowerOfTwo(m) == 0)
  {
    if n >= 2 {
      PowersGrow(2, n);
      if PowerOfTwo(n) in aligns {
        if m <= n {
          PowersGrow(m, n);
        }
      } else {
        UnitFits(aligns, n - 1, m);
        PowersGrow(n - 1, n);
        DivisorOfMultiple(PowerOfTwo(n), PowerOfTwo(n - 1), UnitOf(aligns, n - 1));
      }
    }
  }

  lemma UsualIsAdmissible(r: Request, z: int, aligns: set<nat>, unit: int)
    requires Usual(r, z, aligns) && IsUnit(unit) && (unit == 1 || (unit in aligns && z % unit == 0))
    requires r.align == 0 || Harmless(r.align, unit)
    ensures Admissible(r, unit)
  {
    Scale(NORMAL_BLOCK / unit, unit);
  }

  lemma UsualRunsAreSafe(rs: seq<Request>, z: int, aligns: set<nat>)
    requires forall a :: a in aligns ==> (a == 0 || IsPowerOfTwo(a)) && Tolerated(a, z)
    requires AllUsual(rs, z, aligns)
    ensures PairwiseApart(Handed(INITIAL, rs)) && AllInside(INITIAL, rs)
  {
    var unit := UnitOf(aligns, 13);
    assert PowerOfTwo(13) == NORMAL_BLOCK by {
      assert PowerOfTwo(6) == 64;
    }
    UnitFits(aligns, 13, 0);
    forall a | a in aligns ensures Harmless(a, unit) {
      if 2 < a <= NORMAL_BLOCK {
        var m: nat :| a == PowerOfTwo(m);
        if m > 13 {
          PowersGrow(14, m);
        }
        UnitFits(aligns, 13, m);
      }
    }
    hide UnitOf;
    hide Handed;
    hide AllInside;
    hide HeapInv;
    hide PairwiseApart;
    forall r | r in rs ensures Admissible(r, unit) {
      UsualIsAdmissible(r, z, aligns, unit);
    }
    InitialIsSound(unit);
    assert HeapInv(INITIAL, unit);
    HandedApart(INITIAL, rs, unit);
  }

  /**
   Which alignments are harmless together with which custom sizes: over every run of requests
   with alignments of the set and custom blocks of the size, no two allocations overlap, if and
   only if each alignment is 1 or 2, or larger than a large block, or fits a normal block and
   divides the custom size.  The same holds of staying inside the blocks.
   */
  lemma AlignmentsExactly(z: int, aligns: set<nat>)
    requires z >= LARGE_BLOCK && forall a :: a in aligns ==> a == 0 || IsPowerOfTwo(a)
    ensures (forall rs | AllUsual(rs, z, aligns) :: PairwiseApart(Handed(INITIAL, rs)))
       <==> forall a :: a in aligns ==> Tolerated(a, z)
    ensures (forall rs | AllUsual(rs, z, aligns) :: AllInside(INITIAL, rs))
       <==> forall a :: a in aligns ==> Tolerated(a, z)
  {
    hide Handed;
    hide AllInside;
    hide PairwiseApart;
    hide BadRun;
    hide AllUsual;
    hide IsPowerOfTwo;
    if a :| a in aligns && !Tolerated(a, z) {
      BadRunBreaks(z, a);
      BadRunIsUsual(z, a, aligns);
    } else {
      forall rs | AllUsual(rs, z, aligns) ensures PairwiseApart(Handed(INITIAL, rs)) && AllInside(INITIAL, rs) {
        UsualRunsAreSafe(rs, z, aligns);
      }
    }
  }

  /** Under the kernel's own alignments a custom size is harmless if and only if it is a
      multiple of 4. */
  lemma CustomSizesExactly(z: int)
    requires z >= LARGE_BLOCK
    ensures (forall rs | AllUsual(rs, z, {STANDARD_ALIGN}) :: PairwiseApart(Handed(INITIAL, rs))) <==> z % STANDARD_ALIGN == 0
  {
    assert IsPowerOfTwo(STANDARD_ALIGN) by {
      assert PowerOfTwo(2) == STANDARD_ALIGN;
    }
    AlignmentsExactly(z, {STANDARD_ALIGN});
    hide AllUsual;
    hide Handed;
    assert STANDARD_ALIGN in {STANDARD_ALIGN};
  }

  /** With custom blocks that it divides an alignment is harmless if and only if it is at most a
      normal block or larger than a large one. */
  lemma LargeAlignmentsExactly(align: nat)
    requires IsPowerOfTwo(align)
    ensures (forall rs | AllUsual(rs, LARGE_BLOCK, {align}) :: AllInside(INITIAL, rs))
       <==> align <= NORMAL_BLOCK || align > LARGE_BLOCK
  {
    AlignmentsExactly(LARGE_BLOCK, {align});
    hide AllUsual;
    hide AllInside;
    SizesArePowers();
    if align <= NORMAL_BLOCK {
      PowerDivides(align, LARGE_BLOCK);
    }
    assert align in {align};
  }

  /**
   The block alone, before a second request divides it: the first request in a fresh normal
   block stays inside it, whatever its size, if and only if the block's address has
   remainder 0 or 3.  The remainder is that of the custom sizes before it.
   */
  lemma FreshBlockIsSafeExactly(top: int)
    ensures (forall size | 1 <= size < NORMAL_BLOCK ::
               var p := PlaceIn(NewBlock(top, Small(size)), Small(size));
               p.Placed? ==> p.addr + size <= top + NORMAL_BLOCK)
       <==> top % STANDARD_ALIGN == 0 || top % STANDARD_ALIGN == 3
  {
    forall size | 1 <= size < NORMAL_BLOCK
      ensures var p := PlaceIn(NewBlock(top, Small(size)), Small(size));
        p.Placed? && p.addr == top + Pad(top, STANDARD_ALIGN)
    {
      FreshSuits(top, Small(size));
      FirstInBlock(top, Small(size));
    }
    hide PlaceIn;
    var size := NORMAL_BLOCK - 1;
    var p := PlaceIn(NewBlock(top, Small(size)), Small(size));
    assert p.addr + size <= top + NORMAL_BLOCK <==> Pad(top, STANDARD_ALIGN) <= 1;
  }

  // ---------- Other limits, each with a run from the initial heap ----------

  /** The first allocation in the first normal block. */
  lemma FirstSmall(size: int, align: nat)
    requires 1 <= size < NORMAL_BLOCK && (align == 0 || NORMAL_BLOCK % align == 0)
    ensures var r := Ask(size, false, align);
      && Ends(INITIAL, r) && Adjust(r) == r && Allocate(INITIAL, r).1 == DATA_START
      && Allocate(INITIAL, r).0 == INITIAL.(normal := [Begun(DATA_START, r)]) && Pad(DATA_START, align) == 0
  {
    var r, b := Ask(size, false, align), INITIAL.normal[0];
    if align > 0 {
      DivisorOfMultiple(DATA_START, NORMAL_BLOCK, align);
    }
    OneNode(b, b.cells[0], r);
    assert FirstAccepting(INITIAL.normal, r) == 0;
    AllocateReady(INITIAL, r);
  }

  /** An allocation of one byte outlives its free. */
  lemma OneByteStays()
    ensures Ends(INITIAL, Small(1))
    ensures var (h, addr) := Allocate(INITIAL, Small(1));
      Free(h, addr) == h && Payload(addr, 1) in HeapLive(h)
  {
    FirstSmall(1, STANDARD_ALIGN);
    var (h, addr) := Allocate(INITIAL, Small(1));
    InitialIsSound();
    AllocateKeeps(INITIAL, Small(1));
    ReleasedExactly(h, Payload(addr, 1));
    assert h.aligned == INITIAL.aligned && h.veryLarge == [];
    LiveInBlock(h.normal[0], Normal, h.top, Payload(addr, 1));
  }

  /** A custom block that was allocated and freed is one free node again. */
  lemma CustomComesBack() returns (f: HeapV)
    ensures Ends(INITIAL, Custom(LARGE_BLOCK))
    ensures var (h, block) := Allocate(INITIAL, Custom(LARGE_BLOCK));
      f == Free(h, block) && block == TOP
    ensures HeapInv(f) && |f.veryLarge| == 1 && f.veryLarge[0].cells == [Cell(TOP, LARGE_BLOCK, None)]
    ensures f.veryLarge[0].mask == ANY && f.veryLarge[0].bytesFree >= LARGE_BLOCK
  {
    hide Allocate;
    GetsFreshBlock(INITIAL, Custom(LARGE_BLOCK));
    var a := Adjust(Custom(LARGE_BLOCK));
    OneNode(NewBlock(TOP, a), Cell(TOP, LARGE_BLOCK, None), a);
    var (h, block) := Allocate(INITIAL, Custom(LARGE_BLOCK));
    InitialIsSound();
    AllocateKeeps(INITIAL, Custom(LARGE_BLOCK));
    f := Free(h, block);
    FreeKeeps(h, Payload(block, LARGE_BLOCK));
  }

  /** One byte in a custom block that was in use before can be freed. */
  lemma OneByteOfCustomIsFreed()
    ensures Ends(INITIAL, Custom(LARGE_BLOCK))
    ensures var (h, block) := Allocate(INITIAL, Custom(LARGE_BLOCK));
      var r := Request(1, false, true, 0, ANY);
      && Ends(Free(h, block), r)
      && var (g, addr) := Allocate(Free(h, block), r);
         addr == block && Payload(addr, 1) in HeapLive(g) && HeapLive(Free(g, addr)) == HeapLive(g) - {Payload(addr, 1)}
  {
    var f := CustomComesBack();
    var r, b := Request(1, false, true, 0, ANY), f.veryLarge[0];
    hide Allocate;
    hide Free;
    assert BlockOk(b, VeryLarge, f.top, 1);
    OneNode(b, b.cells[0], r);
    assert FirstAccepting(f.veryLarge, r) == 0;
    AllocateReady(f, r);
    AllocateKeeps(f, r, 1);
    var (g, addr) := Allocate(f, r);
    ReleasedExactly(g, Payload(addr, 1), 1);
  }

  /** After an unaligned request an exact fit is handed out off the alignment it asks for. */
  lemma ExactFitIsUnaligned()
    ensures Ends(INITIAL, Ask(3, false, 0))
    ensures var h := Allocate(INITIAL, Ask(3, false, 0)).0;
      Ends(h, Small(NORMAL_BLOCK - 3)) && Allocate(h, Small(NORMAL_BLOCK - 3)).1 % STANDARD_ALIGN == 3
  {
    FirstSmall(3, 0);
    var h, s := Allocate(INITIAL, Ask(3, false, 0)).0, Small(NORMAL_BLOCK - 3);
    var cells := h.normal[0].cells;
    assert FirstSuiting(cells, s.size, s.align, false) == 1 by {
      assert FirstSuiting(cells[1..], s.size, s.align, false) == 0;
    }
    assert FirstAccepting(h.normal, s) == 0;
    AllocateReady(h, s);
  }
}

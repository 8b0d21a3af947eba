/**
 One heap block as a value: the list of nodes that tile its address range, and
 what the sub-allocator and the sub-freer of kernel/system/heap.c make of it.

 A cell is a node together with the live allocation it serves, if any.  The
 specification keeps every branch of the code, including those that the
 invariant below shows to be unreachable.
 */
module BlockSpec {
  import opened Common
  import Arithmetic

  /** A live allocation: the address handed out and the size it was made for. */
  datatype Payload = Payload(addr: int, size: int)

  datatype Cell = Cell(addr: int, len: int, owner: Option<Payload>) {
    function End(): int { addr + len }
  }

  // ---------- Alignment arithmetic (defs.h:66-67) ----------

  /** ALIGN(v, a, 1). */
  function AlignUp(v: int, a: int): int
    requires a > 0
  {
    if v % a == 0 then v else v + a - v % a
  }

  function Pad(addr: int, align: nat): int {
    if align == 0 || addr % align == 0 then 0 else align - addr % align
  }

  // ---------- HeapAllocateSizeInBlock ----------

  /** The tests a node must pass before it is used. */
  predicate Suits(c: Cell, size: int, align: nat, whole: bool) {
    && c.owner.None?
    && size <= c.len
    && (c.len == size || whole || align == 0 || c.addr % align == 0 || AlignUp(size, align) <= c.len)
  }

  /** The index of the first suitable node, or |cells|. */
  function FirstSuiting(cells: seq<Cell>, size: int, align: nat, whole: bool): (i: nat)
    ensures i <= |cells|
    ensures i < |cells| ==> Suits(cells[i], size, align, whole)
    ensures forall j :: 0 <= j < i ==> !Suits(cells[j], size, align, whole)
  {
    if cells == [] || Suits(cells[0], size, align, whole) then 0
    else 1 + FirstSuiting(cells[1..], size, align, whole)
  }

  /** What the chosen node becomes: itself on an exact fit, else a new node and the rest. */
  function Place(c: Cell, size: int, align: nat, whole: bool): seq<Cell> {
    if c.len == size || whole then
      [c.(owner := Some(Payload(c.addr, size)))]
    else
      var pad := Pad(c.addr, align);
      [Cell(c.addr, size + pad, Some(Payload(c.addr + pad, size))),
       Cell(c.addr + size + pad, c.len - size - pad, None)]
  }

  datatype Placement = NoFit | Placed(cells: seq<Cell>, addr: int, exact: bool)

  function AllocCells(cells: seq<Cell>, size: int, align: nat, whole: bool): Placement {
    var i := FirstSuiting(cells, size, align, whole);
    if i == |cells| then NoFit
    else
      var c := cells[i];
      var exact := c.len == size || whole;
      Placed(cells[..i] + Place(c, size, align, whole) + cells[i + 1..],
             if exact then c.addr else c.addr + Pad(c.addr, align), exact)
  }

  // ---------- HeapFreeAddressInNode ----------

  /** The lookup is strict: the last byte of a node does not belong to it. */
  predicate Holds(c: Cell, a: int) {
    c.addr <= a < c.End() - 1
  }

  function FirstHolding(cells: seq<Cell>, a: int): (i: nat)
    ensures i <= |cells|
    ensures i < |cells| ==> Holds(cells[i], a)
    ensures forall j :: 0 <= j < i ==> !Holds(cells[j], a)
  {
    if cells == [] || Holds(cells[0], a) then 0 else 1 + FirstHolding(cells[1..], a)
  }

  /** The freed node i, merged as the code merges it: into a free predecessor, else
      into the successor whatever the successor's state, else left alone. */
  function Merge(cells: seq<Cell>, i: nat): seq<Cell>
    requires i < |cells|
  {
    var c := cells[i].(owner := None);
    if |cells| == 1 then [c]
    else if i > 0 && cells[i - 1].owner.None? then
      cells[..i - 1] + [cells[i - 1].(len := cells[i - 1].len + c.len)] + cells[i + 1..]
    else if i + 1 < |cells| then
      cells[..i] + [cells[i + 1].(addr := c.addr, len := cells[i + 1].len + c.len)] + cells[i + 2..]
    else
      cells[..i] + [c]
  }

  function FreeCells(cells: seq<Cell>, a: int): seq<Cell> {
    var i := FirstHolding(cells, a);
    if i == |cells| then cells else Merge(cells, i)
  }

  // ---------- The block invariant ----------

  /** The nodes tile [start, end) in list order. */
  predicate Tiles(cells: seq<Cell>, start: int, end: int) {
    && |cells| > 0
    && cells[0].addr == start
    && cells[|cells| - 1].End() == end
    && (forall i :: 0 <= i < |cells| ==> cells[i].len >= 0)
    && (forall i :: 0 < i < |cells| ==> cells[i - 1].End() == cells[i].addr)
  }

  /** A live allocation lies inside its own node; in a block that is split it ends with it,
      in a custom block it starts with it. */
  predicate Serves(c: Cell, whole: bool) {
    c.owner.Some? ==>
      && c.owner.value.size >= 1
      && c.addr <= c.owner.value.addr
      && c.owner.value.addr + c.owner.value.size <= c.End()
      && (if whole then c.owner.value.addr == c.addr else c.owner.value.addr + c.owner.value.size == c.End())
  }

  predicate OnlyLastFree(cells: seq<Cell>) {
    forall i :: 0 <= i < |cells| - 1 ==> cells[i].owner.Some?
  }

  predicate BlockInv(cells: seq<Cell>, start: int, end: int, whole: bool) {
    && Tiles(cells, start, end)
    && OnlyLastFree(cells)
    && (forall i :: 0 <= i < |cells| ==> Serves(cells[i], whole))
    && (whole ==> |cells| == 1)
  }

  ghost function Live(cells: seq<Cell>): set<Payload> {
    set i | 0 <= i < |cells| && cells[i].owner.Some? :: cells[i].owner.value
  }

  /** The bytes a block could still hand out: those of its last node, if free. */
  function FreeBytes(cells: seq<Cell>): int {
    if cells == [] then 0
    else (if cells[0].owner.None? then cells[0].len else 0) + FreeBytes(cells[1..])
  }

  predicate Overlap(p: Payload, q: Payload) {
    p.addr < q.addr + q.size && q.addr < p.addr + p.size
  }

  // ---------- Geometry ----------

  lemma {:induction false} CellsAscend(cells: seq<Cell>, start: int, end: int, i: int, j: int)
    requires Tiles(cells, start, end) && 0 <= i <= j < |cells|
    ensures start <= cells[i].addr && cells[j].End() <= end
    ensures i < j ==> cells[i].End() <= cells[j].addr
    decreases j - i
  {
    if i < j {
      CellsAscend(cells, start, end, i, j - 1);
      assert cells[j - 1].End() == cells[j].addr;
      EndsBelow(cells, start, end, j);
    } else {
      StartsAbove(cells, start, end, i);
      EndsBelow(cells, start, end, j);
    }
  }

  lemma {:induction false} StartsAbove(cells: seq<Cell>, start: int, end: int, i: int)
    requires Tiles(cells, start, end) && 0 <= i < |cells|
    ensures start <= cells[i].addr
  {
    if i > 0 {
      StartsAbove(cells, start, end, i - 1);
      assert cells[i - 1].End() == cells[i].addr;
    }
  }

  lemma {:induction false} EndsBelow(cells: seq<Cell>, start: int, end: int, j: int)
    requires Tiles(cells, start, end) && 0 <= j < |cells|
    ensures cells[j].End() <= end
    decreases |cells| - j
  {
    if j + 1 < |cells| {
      EndsBelow(cells, start, end, j + 1);
      assert cells[j + 1 - 1].End() == cells[j + 1].addr;
    }
  }

  /** No two nodes serve overlapping allocations, and every allocation lies in the block. */
  lemma {:induction false} PayloadsApart(cells: seq<Cell>, start: int, end: int, whole: bool, i: int, j: int)
    requires BlockInv(cells, start, end, whole)
    requires 0 <= i < j < |cells| && cells[i].owner.Some? && cells[j].owner.Some?
    ensures !Overlap(cells[i].owner.value, cells[j].owner.value)
    ensures cells[i].owner != cells[j].owner
  {
    CellsAscend(cells, start, end, i, j);
    assert Serves(cells[i], whole) && Serves(cells[j], whole);
  }

  // ---------- Is the test against ALIGN(Size) enough? ----------

  lemma PaddingFits(addr: int, len: int, size: int, align: int)
    requires align > 0 && addr % align != 0
    requires (addr + len) % align < addr % align
    requires AlignUp(size, align) <= len
    ensures size + Pad(addr, align) <= len
  {
    Arithmetic.ModSum(addr, len, align);
    AlignUpIsMultiple(size, align);
    Arithmetic.MultipleBelow(AlignUp(size, align), len, align);
  }

  lemma AlignUpIsMultiple(v: int, a: int)
    requires a > 0
    ensures AlignUp(v, a) % a == 0 && v <= AlignUp(v, a) < v + a
  {
    if v % a != 0 {
      assert (v / a + 1) * a == (v / a) * a + a;
      Arithmetic.DivModIs(v + a - v % a, v / a + 1, 0, a);
    }
  }

  /** A node shorter than the alignment never passes the padding test. */
  lemma TooShortToPad(len: int, size: int, align: int)
    requires size >= 1 && 0 <= len < align
    ensures AlignUp(size, align) > len
  {
    AlignUpIsMultiple(size, align);
    if AlignUp(size, align) <= len {
      Arithmetic.MultipleBelow(AlignUp(size, align), len, align);
      Arithmetic.DivModIs(len, 0, len, align);
      assert false;
    }
  }

  /**
   The split path tests ALIGN(Size) but takes Size plus the padding.  For a node at
   an unaligned address this is enough for every request exactly when the node is
   shorter than the alignment, or ends at a smaller offset from it than it starts
   (a node that ends on a multiple is the useful case), or both offsets are the last.
   */
  lemma PaddingTestExact(addr: int, len: int, align: int)
    requires align > 0 && len >= 0 && addr % align != 0
    ensures (forall size | 1 <= size && size != len && AlignUp(size, align) <= len :: size + Pad(addr, align) <= len)
       <==> (len < align || (addr + len) % align < addr % align || (addr + len) % align == addr % align == align - 1)
  {
    var a, e, r := addr % align, (addr + len) % align, len % align;
    Arithmetic.ModSum(addr, len, align);
    if len < align || e < a || e == a == align - 1 {
      forall size | 1 <= size && size != len && AlignUp(size, align) <= len
        ensures size + Pad(addr, align) <= len
      {
        AlignUpIsMultiple(size, align);
        if len < align {
          TooShortToPad(len, size, align);
          assert false;
        } else if e < a {
          PaddingFits(addr, len, size, align);
        }
      }
    } else {
      var bad := if r > 0 then len - r else len - 1;
      LongestMultiple(len, align);
      assert AlignUp(bad, align) <= len && bad != len && bad >= 1;
      assert bad + Pad(addr, align) > len;
    }
  }

  lemma LongestMultiple(len: int, align: int)
    requires 1 < align <= len
    ensures len % align > 0 ==> AlignUp(len - len % align, align) == len - len % align >= 1
    ensures len % align == 0 ==> AlignUp(len - 1, align) == len
  {
    var q := len / align;
    assert len == q * align + len % align;
    Arithmetic.Scale(q, align);
    if len % align > 0 {
      Arithmetic.DivModIs(len - len % align, q, 0, align);
    } else {
      assert (q - 1) * align == q * align - align;
      Arithmetic.DivModIs(len - 1, q - 1, align - 1, align);
    }
  }

  // ---------- Allocation keeps the invariant ----------

  /** In a block whose nodes meet the invariant only the last node can be chosen. */
  lemma OnlyLastSuits(cells: seq<Cell>, size: int, align: nat, whole: bool)
    requires |cells| > 0 && OnlyLastFree(cells)
    ensures var i := FirstSuiting(cells, size, align, whole); i >= |cells| - 1
  {
  }

  /** The padding test is enough in a block over [start, end): the alignment divides the end,
      or is too small to need more than a byte, or is larger than the block. */
  predicate RoomToPad(start: int, end: int, align: nat) {
    align <= 2 || end - start < align || end % align == 0
  }

  lemma RoomInside(start: int, addr: int, end: int, align: nat)
    requires start <= addr
    ensures RoomToPad(start, end, align) ==> RoomToPad(addr, end, align)
  {
  }

  /** A node cut in two: the parts tile what it tiled and the new one ends its allocation. */
  lemma PlaceKeeps(c: Cell, size: int, align: nat, whole: bool)
    requires size >= 1 && Suits(c, size, align, whole)
    requires !whole ==> RoomToPad(c.addr, c.End(), align)
    ensures var cs := Place(c, size, align, whole);
      && 1 <= |cs| <= 2 && (whole ==> |cs| == 1)
      && cs[0].addr == c.addr && cs[|cs| - 1].End() == c.End()
      && (forall i :: 0 <= i < |cs| ==> cs[i].len >= 0 && Serves(cs[i], whole))
      && cs[0].owner.Some? && cs[0].owner.value.size == size
      && (|cs| == 2 ==> cs[0].End() == cs[1].addr && cs[1].owner.None?)
  {
    if align > 0 && c.len != size && !whole && c.addr % align != 0 {
      PaddingTestExact(c.addr, c.len, align);
    }
  }

  /** The end of a tiling can be tiled anew. */
  lemma ReplaceLast(cells: seq<Cell>, start: int, end: int, whole: bool, cs: seq<Cell>)
    requires BlockInv(cells, start, end, whole)
    requires 1 <= |cs| <= 2 && (whole ==> |cs| == 1)
    requires cs[0].addr == cells[|cells| - 1].addr && cs[|cs| - 1].End() == end
    requires forall i :: 0 <= i < |cs| ==> cs[i].len >= 0 && Serves(cs[i], whole)
    requires |cs| == 2 ==> cs[0].owner.Some? && cs[0].End() == cs[1].addr
    ensures BlockInv(cells[..|cells| - 1] + cs, start, end, whole)
  {
  }

  /** An allocation rewrites the last node only. */
  lemma AllocShape(cells: seq<Cell>, size: int, align: nat, whole: bool)
    requires |cells| > 0 && OnlyLastFree(cells)
    ensures var r := AllocCells(cells, size, align, whole);
      var c := cells[|cells| - 1];
      r.Placed? ==>
        && Suits(c, size, align, whole)
        && r.cells == cells[..|cells| - 1] + Place(c, size, align, whole)
        && Place(c, size, align, whole)[0].owner == Some(Payload(r.addr, size))
        && r.exact == (c.len == size || whole)
  {
    OnlyLastSuits(cells, size, align, whole);
    var i := FirstSuiting(cells, size, align, whole);
    if i < |cells| {
      assert cells[i + 1..] == [];
    }
  }

  /** Allocation keeps the tiling, adds exactly one live allocation inside the block,
      and that one overlaps none that was live. */
  lemma AllocKeeps(cells: seq<Cell>, start: int, end: int, size: int, align: nat, whole: bool)
    requires BlockInv(cells, start, end, whole) && size >= 1
    requires !whole ==> RoomToPad(start, end, align)
    ensures var r := AllocCells(cells, size, align, whole);
      r.Placed? ==>
        && BlockInv(r.cells, start, end, whole)
        && Live(r.cells) == Live(cells) + {Payload(r.addr, size)}
        && (forall p :: p in Live(cells) ==> !Overlap(p, Payload(r.addr, size)))
        && start <= r.addr && r.addr + size <= end
  {
    var r := AllocCells(cells, size, align, whole);
    if r.Placed? {
      var n := |cells| - 1;
      var cs := Place(cells[n], size, align, whole);
      AllocShape(cells, size, align, whole);
      CellsAscend(cells, start, end, n, n);
      hide RoomToPad;
      assert !whole ==> RoomToPad(cells[n].addr, end, align) by { RoomInside(start, cells[n].addr, end, align); }
      PlaceKeeps(cells[n], size, align, whole);
      ReplaceLast(cells, start, end, whole, cs);
      assert Live(cs) == {Payload(r.addr, size)} by { LiveOfPlaced(cs); }
      LiveButLast(cells);
      LiveOfAppend(cells[..n], cs);
      assert Serves(cs[0], whole);
      forall p | p in Live(cells) ensures !Overlap(p, Payload(r.addr, size)) {
        var k :| 0 <= k < |cells| && cells[k].owner == Some(p);
        CellsAscend(cells, start, end, k, n);
        assert Serves(cells[k], whole);
      }
    }
  }

  lemma LiveOfPlaced(cs: seq<Cell>)
    requires 1 <= |cs| <= 2 && cs[0].owner.Some? && (|cs| == 2 ==> cs[1].owner.None?)
    ensures Live(cs) == {cs[0].owner.value}
  {
  }

  lemma LiveButLast(cells: seq<Cell>)
    requires |cells| > 0 && cells[|cells| - 1].owner.None?
    ensures Live(cells) == Live(cells[..|cells| - 1])
  {
    var n := |cells| - 1;
    assert cells == cells[..n] + [cells[n]];
    LiveOfAppend(cells[..n], [cells[n]]);
    assert Live([cells[n]]) == {};
  }

  lemma {:induction false} FreeBytesIsLast(cells: seq<Cell>)
    requires |cells| > 0 && OnlyLastFree(cells)
    ensures var c := cells[|cells| - 1]; FreeBytes(cells) == if c.owner.None? then c.len else 0
  {
    if |cells| > 1 {
      assert cells[0].owner.Some?;
      assert OnlyLastFree(cells[1..]);
      FreeBytesIsLast(cells[1..]);
    }
  }

  /** What an allocation takes from the free bytes: all of the node, or size and padding. */
  lemma AllocTakes(cells: seq<Cell>, start: int, end: int, size: int, align: nat, whole: bool)
    requires BlockInv(cells, start, end, whole) && size >= 1
    requires !whole ==> RoomToPad(start, end, align)
    ensures var r := AllocCells(cells, size, align, whole);
      var c := cells[|cells| - 1];
      r.Placed? ==>
        && FreeBytes(cells) == c.len >= size
        && FreeBytes(r.cells) == if r.exact then 0 else c.len - size - Pad(c.addr, align)
  {
    var r := AllocCells(cells, size, align, whole);
    if r.Placed? {
      AllocShape(cells, size, align, whole);
      AllocKeeps(cells, start, end, size, align, whole);
      FreeBytesIsLast(cells);
      FreeBytesIsLast(r.cells);
    }
  }

  lemma LiveOfAppend(xs: seq<Cell>, ys: seq<Cell>)
    ensures Live(xs + ys) == Live(xs) + Live(ys)
  {
    forall p | p in Live(xs) + Live(ys) ensures p in Live(xs + ys) {
      if p in Live(xs) {
        var i :| 0 <= i < |xs| && xs[i].owner == Some(p);
        assert (xs + ys)[i] == xs[i];
      } else {
        var i :| 0 <= i < |ys| && ys[i].owner == Some(p);
        assert (xs + ys)[|xs| + i] == ys[i];
      }
    }
  }

  // ---------- Freeing keeps the invariant ----------

  /** The index of the node that serves p. */
  ghost function Server(cells: seq<Cell>, p: Payload): (k: nat)
    requires p in Live(cells)
    ensures k < |cells| && cells[k].owner == Some(p)
  {
    var k :| 0 <= k < |cells| && cells[k].owner == Some(p);
    k
  }

  /** The strict lookup finds the allocation's address in its node. */
  ghost predicate Freeable(cells: seq<Cell>, p: Payload)
    requires p in Live(cells)
  {
    Holds(cells[Server(cells, p)], p.addr)
  }

  /** Such an address is found in its own node. */
  lemma ServerIsFound(cells: seq<Cell>, start: int, end: int, whole: bool, p: Payload)
    requires BlockInv(cells, start, end, whole) && p in Live(cells) && Freeable(cells, p)
    ensures FirstHolding(cells, p.addr) == Server(cells, p)
  {
    var k := Server(cells, p);
    forall j | 0 <= j < k ensures !Holds(cells[j], p.addr) {
      CellsAscend(cells, start, end, j, k);
    }
  }

  /** Node k given to its successor, or left free when it is the last. */
  function Fold(cells: seq<Cell>, k: nat): seq<Cell>
    requires k < |cells|
  {
    var c := cells[k];
    cells[..k] +
    (if k + 1 < |cells| then
       [cells[k + 1].(addr := c.addr, len := cells[k + 1].len + c.len)] + cells[k + 2..]
     else
       [c.(owner := None)])
  }

  /** Freeing a live address folds its node forward.  The branch that merges with a
      free predecessor is never taken. */
  lemma FreeShape(cells: seq<Cell>, start: int, end: int, whole: bool, p: Payload)
    requires BlockInv(cells, start, end, whole) && p in Live(cells) && Freeable(cells, p)
    ensures FreeCells(cells, p.addr) == Fold(cells, Server(cells, p))
  {
    ServerIsFound(cells, start, end, whole, p);
    var k := Server(cells, p);
    assert k > 0 ==> cells[k - 1].owner.Some?;
  }

  lemma FreeKeepsInv(cells: seq<Cell>, start: int, end: int, whole: bool, p: Payload)
    requires BlockInv(cells, start, end, whole) && p in Live(cells) && Freeable(cells, p)
    ensures BlockInv(FreeCells(cells, p.addr), start, end, whole)
  {
    FreeShape(cells, start, end, whole, p);
    FoldKeepsInv(cells, start, end, whole, Server(cells, p));
  }

  lemma FoldKeepsInv(cells: seq<Cell>, start: int, end: int, whole: bool, k: nat)
    requires BlockInv(cells, start, end, whole) && k < |cells|
    ensures BlockInv(Fold(cells, k), start, end, whole)
  {
    var out := Fold(cells, k);
    if k + 1 < |cells| {
      assert Serves(cells[k + 1], whole) && cells[k + 1 - 1].End() == cells[k + 1].addr;
      assert Serves(out[k], whole) && out[k].End() == cells[k + 1].End() && out[k].addr == cells[k].addr;
      assert forall i :: 0 <= i < |out| ==> i == k || out[i] == if i < k then cells[i] else cells[i + 1];
      assert |out| == |cells| - 1;
    }
  }

  /** Freeing ends exactly the one allocation. */
  lemma FreeKeepsLive(cells: seq<Cell>, start: int, end: int, whole: bool, p: Payload)
    requires BlockInv(cells, start, end, whole) && p in Live(cells) && Freeable(cells, p)
    ensures Live(FreeCells(cells, p.addr)) == Live(cells) - {p}
  {
    FreeShape(cells, start, end, whole, p);
    var k := Server(cells, p);
    OthersServeOthers(cells, start, end, whole, k);
    LiveSplit(cells, k);
    LiveOfFold(cells, k);
  }

  lemma LiveSplit(cells: seq<Cell>, k: nat)
    requires k < |cells| && cells[k].owner.Some?
    ensures Live(cells) == Live(cells[..k]) + {cells[k].owner.value} + Live(cells[k + 1..])
  {
    var tail := cells[k + 1..];
    assert cells == (cells[..k] + [cells[k]]) + tail;
    LiveOfAppend(cells[..k] + [cells[k]], tail);
    LiveOfAppend(cells[..k], [cells[k]]);
    LiveOfPlaced([cells[k]]);
  }

  lemma LiveOfFold(cells: seq<Cell>, k: nat)
    requires k < |cells| && cells[k].owner.Some?
    ensures Live(Fold(cells, k)) == Live(cells[..k]) + Live(cells[k + 1..])
  {
    var c, tail := cells[k], cells[k + 1..];
    if tail != [] {
      var succ := tail[0].(addr := c.addr, len := tail[0].len + c.len);
      assert tail == [tail[0]] + tail[1..] && tail[1..] == cells[k + 2..];
      LiveOfAppend([succ], tail[1..]);
      LiveOfAppend([tail[0]], tail[1..]);
      SameOwnerSameLive(succ, tail[0]);
      LiveOfAppend(cells[..k], [succ] + tail[1..]);
    } else {
      LiveOfAppend(cells[..k], [c.(owner := None)]);
      assert Live([c.(owner := None)]) == {};
    }
  }

  lemma SameOwnerSameLive(c: Cell, d: Cell)
    requires c.owner == d.owner
    ensures Live([c]) == Live([d])
  {
    if c.owner.Some? {
      LiveOfPlaced([c]);
      LiveOfPlaced([d]);
    }
  }

  lemma OthersServeOthers(cells: seq<Cell>, start: int, end: int, whole: bool, k: nat)
    requires BlockInv(cells, start, end, whole) && k < |cells| && cells[k].owner.Some?
    ensures cells[k].owner.value !in Live(cells[..k]) + Live(cells[k + 1..])
  {
    forall j | 0 <= j < |cells| && j != k && cells[j].owner.Some? ensures cells[j].owner != cells[k].owner {
      PayloadsApart(cells, start, end, whole, if j < k then j else k, if j < k then k else j);
    }
  }

  /** What a free gives back to the free bytes: its node, or nothing when that goes to a
      successor that is live. */
  lemma FreeGives(cells: seq<Cell>, start: int, end: int, whole: bool, p: Payload)
    requires BlockInv(cells, start, end, whole) && p in Live(cells) && Freeable(cells, p)
    ensures var k := Server(cells, p);
      FreeBytes(FreeCells(cells, p.addr)) ==
      FreeBytes(cells) + if k + 1 < |cells| && cells[k + 1].owner.Some? then 0 else cells[k].len
  {
    FreeShape(cells, start, end, whole, p);
    FoldKeepsInv(cells, start, end, whole, Server(cells, p));
    FreeBytesIsLast(cells);
    FreeBytesIsLast(FreeCells(cells, p.addr));
    hide FreeBytes;
  }

  /**
   The strict lookup: an allocation is freed by its address exactly when that lies before the
   last byte of its node, and nothing changes otherwise.  In a block that is split this takes
   two bytes; in a custom block a node of two bytes, whatever the allocation has.
   */
  lemma FreedExactly(cells: seq<Cell>, start: int, end: int, whole: bool, p: Payload)
    requires BlockInv(cells, start, end, whole) && p in Live(cells)
    ensures Live(FreeCells(cells, p.addr)) == Live(cells) - {p} <==> Freeable(cells, p)
    ensures !Freeable(cells, p) ==> FirstHolding(cells, p.addr) == |cells| && FreeCells(cells, p.addr) == cells
    ensures Freeable(cells, p) <==> if whole then end - start >= 2 else p.size >= 2
  {
    var k := Server(cells, p);
    assert Serves(cells[k], whole);
    if Freeable(cells, p) {
      FreeKeepsLive(cells, start, end, whole, p);
    } else {
      forall j | 0 <= j < |cells| ensures !Holds(cells[j], p.addr) {
        CellsAscend(cells, start, end, if j < k then j else k, if j < k then k else j);
      }
    }
  }

  /** Once nothing is live the block is one free node over its whole range again. */
  lemma NothingLiveIsOneNode(cells: seq<Cell>, start: int, end: int, whole: bool)
    requires BlockInv(cells, start, end, whole) && Live(cells) == {}
    ensures cells == [Cell(start, end - start, None)]
  {
    ServedIsLive(cells, 0);
  }

  lemma ServedIsLive(cells: seq<Cell>, i: nat)
    requires i < |cells|
    ensures cells[i].owner.Some? ==> cells[i].owner.value in Live(cells)
  {
  }

  /** Allocated nodes and live allocations match one to one. */
  lemma {:induction false} OneNodeEach(cells: seq<Cell>, start: int, end: int, whole: bool)
    requires BlockInv(cells, start, end, whole)
    ensures |Live(cells)| == if cells[|cells| - 1].owner.None? then |cells| - 1 else |cells|
  {
    OneNodeEachPrefix(cells, start, end, whole, |cells| - 1);
    var n := |cells| - 1;
    assert cells == cells[..n] + [cells[n]];
    LiveOfAppend(cells[..n], [cells[n]]);
    if cells[n].owner.Some? {
      LiveOfPlaced([cells[n]]);
      OthersServeOthers(cells, start, end, whole, n);
    } else {
      assert Live([cells[n]]) == {};
    }
  }

  lemma {:induction false} OneNodeEachPrefix(cells: seq<Cell>, start: int, end: int, whole: bool, n: nat)
    requires BlockInv(cells, start, end, whole) && n < |cells|
    ensures |Live(cells[..n])| == n
  {
    if n == 0 {
      assert Live(cells[..0]) == {};
    } else {
      OneNodeEachPrefix(cells, start, end, whole, n - 1);
      assert cells[..n] == cells[..n - 1] + [cells[n - 1]];
      LiveOfAppend(cells[..n - 1], [cells[n - 1]]);
      LiveOfPlaced([cells[n - 1]]);
      OthersServeOthers(cells, start, end, whole, n - 1);
    }
  }

  // ---------- Alignment of what is handed out ----------

  /** The returned address is a multiple of the alignment exactly when the node is split,
      being neither of the requested length nor in a custom block, or lies on one already. */
  lemma AlignedUnlessExact(cells: seq<Cell>, size: int, align: nat, whole: bool)
    requires align > 0 && AllocCells(cells, size, align, whole).Placed?
    ensures var r := AllocCells(cells, size, align, whole);
      var c := cells[FirstSuiting(cells, size, align, whole)];
      r.addr % align == 0 <==> !(c.len == size || whole) || c.addr % align == 0
  {
    var c := cells[FirstSuiting(cells, size, align, whole)];
    if c.addr % align != 0 {
      assert (c.addr / align + 1) * align == (c.addr / align) * align + align;
      Arithmetic.DivModIs(c.addr + align - c.addr % align, c.addr / align + 1, 0, align);
    }
  }
}

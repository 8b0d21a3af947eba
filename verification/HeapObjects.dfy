/**
 The heap's linked structures as the code keeps them: nodes linked into blocks, blocks
 linked into three lists, and a stack of recycled nodes (kernel/system/heap.c,
 kernel/includes/heap.h).  The methods here walk and relink them in place; each is proved
 against the value-level specification of BlockSpec and HeapSpec.
 */
module HeapObjects {
  import opened Common
  import opened BlockSpec
  import opened HeapSpec

  class Node {
    /** The address of the node itself. */
    const Header: int
    var Address: int
    var Length: int
    var Allocated: bool
    var Link: Node?
    /** The block the node is linked into, or the heap that recycles it. */
    ghost var Home: object?

    constructor (header: int)
      ensures Header == header && Link == null && Home == null
    {
      Header := header;
      Address, Length, Allocated, Link, Home := 0, 0, false, null, null;
    }
  }

  ghost function NodeAt(s: seq<Node>, i: int): Node? {
    if 0 <= i < |s| then s[i] else null
  }

  ghost predicate Linked(head: Node?, s: seq<Node>)
    reads s`Link
  {
    head == NodeAt(s, 0) && forall i {:trigger s[i].Link} :: 0 <= i < |s| ==> s[i].Link == NodeAt(s, i + 1)
  }

  ghost function Inserted<T>(s: seq<T>, i: nat, x: T): (r: seq<T>)
    requires i <= |s|
    ensures |r| == |s| + 1 && r[i] == x
    ensures forall k :: 0 <= k < i ==> r[k] == s[k]
    ensures forall k :: i < k < |r| ==> r[k] == s[k - 1]
  {
    s[..i] + [x] + s[i..]
  }

  ghost function Removed<T>(s: seq<T>, i: nat): (r: seq<T>)
    requires i < |s|
    ensures |r| == |s| - 1
    ensures forall k :: 0 <= k < i ==> r[k] == s[k]
    ensures forall k :: i <= k < |r| ==> r[k] == s[k + 1]
  {
    s[..i] + s[i + 1..]
  }

  ghost predicate Shows(n: Node, c: Cell)
    reads n`Address, n`Length, n`Allocated
  {
    n.Address == c.addr && n.Length == c.len && n.Allocated == c.owner.Some?
  }

  class Block {
    /** The address of the block's header. */
    const Header: int
    var AddressStart: int
    var AddressEnd: int
    var Kind: Kind
    var Mask: int
    var BytesFree: int
    var Link: Block?
    var Nodes: Node?

    ghost var Chain: seq<Node>
    ghost var Cells: seq<Cell>
    /** The block's position in its list. */
    ghost var Position: nat

    ghost predicate OwnsChain()
      reads `Chain, Chain`Home
    {
      Injective(Chain) && forall i :: 0 <= i < |Chain| ==> Chain[i].Home == this
    }

    ghost predicate ShowsCells()
      reads `Chain, `Cells, Chain`Address, Chain`Length, Chain`Allocated
    {
      |Chain| == |Cells| && forall i :: 0 <= i < |Chain| ==> Shows(Chain[i], Cells[i])
    }

    /** The nodes are linked in order, belong to this block, and show its cells. */
    ghost predicate Valid()
      reads `Nodes, `Chain, `Cells, Chain
    {
      Linked(Nodes, Chain) && OwnsChain() && ShowsCells()
    }

    ghost function View(): BlockV
      reads this
    {
      BlockV(AddressStart, AddressEnd - AddressStart + 1, Kind, Mask, BytesFree, Cells)
    }

    constructor (header: int, start: int, size: int, mask: int, kind: Kind, node: Node)
      modifies node
      ensures Header == header && Valid() && Chain == [node] && Link == null
      ensures View() == BlockV(start, size, kind, mask, size, [Cell(start, size, None)])
    {
      Header := header;
      AddressStart, AddressEnd, BytesFree := start, start + size - 1, size;
      Kind, Mask, Link, Nodes := kind, mask, null, node;
      Chain, Cells := [node], [Cell(start, size, None)];
      new;
      node.Address, node.Link, node.Allocated, node.Length := start, null, false, size;
      node.Home := this;
    }

    /** The walk of HeapFreeAddressInNode. */
    method FindHolding(address: int) returns (prev: Node?, curr: Node?, ghost i: nat)
      requires Valid()
      ensures i == FirstHolding(Cells, address) <= |Chain|
      ensures curr == NodeAt(Chain, i) && prev == NodeAt(Chain, i - 1)
    {
      prev, curr, i := null, Nodes, 0;
      while curr != null
        invariant 0 <= i <= |Chain| && curr == NodeAt(Chain, i) && prev == NodeAt(Chain, i - 1)
        invariant forall j :: 0 <= j < i ==> !Holds(Cells[j], address)
        decreases |Chain| - i
      {
        assert Shows(Chain[i], Cells[i]);
        var aStart, aEnd := curr.Address, curr.Address + curr.Length - 1;
        if address >= aStart && address < aEnd {
          return;
        }
        prev, curr := curr, curr.Link;
        i := i + 1;
      }
    }

    /** The walk of HeapAllocateSizeInBlock. */
    method FindSuiting(size: int, align: nat) returns (prev: Node?, curr: Node?, ghost i: nat)
      requires Valid()
      ensures i == FirstSuiting(Cells, size, align, Kind.VeryLarge?) <= |Chain|
      ensures curr == NodeAt(Chain, i) && prev == NodeAt(Chain, i - 1)
    {
      prev, curr, i := null, Nodes, 0;
      while curr != null
        invariant 0 <= i <= |Chain| && curr == NodeAt(Chain, i) && prev == NodeAt(Chain, i - 1)
        invariant forall j :: 0 <= j < i ==> !Suits(Cells[j], size, align, Kind.VeryLarge?)
        decreases |Chain| - i
      {
        assert Shows(Chain[i], Cells[i]);
        if !(curr.Allocated || curr.Length < size) {
          if curr.Length == size || Kind.VeryLarge? {
            return;
          }
          if !(align != 0 && curr.Address % align != 0 && curr.Length < AlignUp(size, align)) {
            return;
          }
        }
        prev, curr := curr, curr.Link;
        i := i + 1;
      }
    }

    /** The exact-fit path: the node is handed out as it is. */
    method TakeWhole(curr: Node, ghost i: nat, size: int) returns (address: int)
      requires Valid() && i < |Chain| && curr == Chain[i]
      modifies `BytesFree, `Cells, curr`Allocated
      ensures Valid() && BytesFree == old(BytesFree) - size
      ensures address == old(Cells)[i].addr
      ensures Cells == old(Cells)[i := old(Cells)[i].(owner := Some(Payload(address, size)))]
    {
      assert Shows(Chain[i], Cells[i]);
      curr.Allocated := true;
      address := curr.Address;
      BytesFree := BytesFree - size;
      Cells := Cells[i := Cells[i].(owner := Some(Payload(address, size)))];
    }

    /** The chosen node gives up its first bytes. */
    method Shrink(curr: Node, ghost i: nat, taken: int)
      requires Valid() && i < |Chain| && curr == Chain[i]
      modifies `Cells, curr`Address, curr`Length
      ensures Valid()
      ensures var c := old(Cells)[i]; Cells == old(Cells)[i := Cell(c.addr + taken, c.len - taken, c.owner)]
    {
      assert Shows(Chain[i], Cells[i]);
      curr.Address, curr.Length := curr.Address + taken, curr.Length - taken;
      Cells := Cells[i := Cell(Cells[i].addr + taken, Cells[i].len - taken, Cells[i].owner)];
    }

    /** Links a filled-in node in front of node i. */
    method LinkBefore(prev: Node?, ghost i: nat, hNode: Node, ghost c: Cell)
      requires Valid() && i < |Chain| && hNode.Link == Chain[i] && prev == NodeAt(Chain, i - 1)
      requires hNode.Home != this && Shows(hNode, c)
      modifies `Nodes, `Chain, `Cells, hNode`Home, (if prev != null then {prev} else {})`Link
      ensures Valid()
      ensures Chain == Inserted(old(Chain), i, hNode) && Cells == Inserted(old(Cells), i, c)
    {
      hide Inserted;
      if prev != null {
        prev.Link := hNode;
      } else {
        Nodes := hNode;
      }
      hNode.Home := this;
      Chain, Cells := Inserted(Chain, i, hNode), Inserted(Cells, i, c);
    }

    /** The split path: a new node in front of the chosen one takes the request and its padding. */
    method Split(prev: Node?, curr: Node, ghost i: nat, hNode: Node, size: int, align: nat) returns (address: int)
      requires Valid() && i < |Chain| && curr == Chain[i] && prev == NodeAt(Chain, i - 1)
      requires Cells[i].len != size && Cells[i].owner.None?
      requires hNode.Home != this
      modifies `Nodes, `Chain, `Cells, curr`Address, curr`Length, hNode, (if prev != null then {prev} else {})`Link
      ensures Valid()
      ensures address == old(Cells)[i].addr + Pad(old(Cells)[i].addr, align)
      ensures Chain == Inserted(old(Chain), i, hNode)
      ensures Cells == old(Cells)[..i] + Place(old(Cells)[i], size, align, false) + old(Cells)[i + 1..]
    {
      hide Inserted;
      assert Shows(Chain[i], Cells[i]);
      ghost var c, cells := Cells[i], Cells;
      hNode.Address, hNode.Allocated, hNode.Link := curr.Address, true, curr;
      var taken := size;
      if align != 0 && hNode.Address % align != 0 {
        taken := taken + align - hNode.Address % align;
        hNode.Length := taken;
        address := AlignUp(hNode.Address, align);
      } else {
        hNode.Length := taken;
        address := hNode.Address;
      }
      Shrink(curr, i, taken);
      LinkBefore(prev, i, hNode, Place(c, size, align, false)[0]);
      PlacedAsInserted(cells, i, size, align);
    }

    /** The exact-fit path for a request. */
    method ServeWhole(curr: Node, ghost n: nat, a: Request) returns (address: int)
      requires Valid() && n == FirstSuiting(Cells, a.size, a.align, Kind.VeryLarge?) < |Chain| && curr == Chain[n]
      requires n < |Cells| && (Cells[n].len == a.size || Kind.VeryLarge?)
      modifies `BytesFree, `Cells, curr`Allocated
      ensures Valid()
      ensures PlaceIn(old(View()), a).Placed? && address == PlaceIn(old(View()), a).addr && View() == Serve(old(View()), a)
    {
      ServedExact(View(), a, n);
      address := TakeWhole(curr, n, a.size);
    }

    /** The split path for a request. */
    method ServeSplit(prev: Node?, curr: Node, ghost n: nat, hNode: Node, a: Request) returns (address: int)
      requires Valid() && n == FirstSuiting(Cells, a.size, a.align, Kind.VeryLarge?) < |Chain|
      requires curr == Chain[n] && prev == NodeAt(Chain, n - 1) && hNode.Home != this
      requires n < |Cells| && Cells[n].len != a.size && !Kind.VeryLarge?
      modifies `Nodes, `Chain, `Cells, curr`Address, curr`Length, hNode, (if prev != null then {prev} else {})`Link
      ensures Valid() && Chain == Inserted(old(Chain), n, hNode)
      ensures PlaceIn(old(View()), a).Placed? && address == PlaceIn(old(View()), a).addr && View() == Serve(old(View()), a)
    {
      ServedSplit(View(), a, n);
      address := Split(prev, curr, n, hNode, a.size, a.align);
    }

    /** Node i gets the length of the node after it. */
    method Grow(node: Node, ghost i: nat, more: int)
      requires Valid() && i < |Chain| && node == Chain[i]
      modifies `Cells, node`Length
      ensures Valid() && Cells == old(Cells)[i := old(Cells)[i].(len := old(Cells)[i].len + more)]
    {
      assert Shows(Chain[i], Cells[i]);
      node.Length := node.Length + more;
      Cells := Cells[i := Cells[i].(len := Cells[i].len + more)];
    }

    /** Node i takes over the range of the node before it. */
    method TakeOver(node: Node, ghost i: nat, address: int, more: int)
      requires Valid() && i < |Chain| && node == Chain[i]
      modifies `Cells, node`Address, node`Length
      ensures Valid() && Cells == old(Cells)[i := old(Cells)[i].(addr := address, len := old(Cells)[i].len + more)]
    {
      assert Shows(Chain[i], Cells[i]);
      node.Address, node.Length := address, node.Length + more;
      Cells := Cells[i := Cells[i].(addr := address, len := Cells[i].len + more)];
    }

    /** The found node is marked free. */
    method Release(node: Node, ghost i: nat)
      requires Valid() && i < |Chain| && node == Chain[i]
      modifies `BytesFree, `Cells, node`Allocated
      ensures Valid() && Cells == old(Cells)[i := old(Cells)[i].(owner := None)]
      ensures BytesFree == old(BytesFree) + old(Cells)[i].len
    {
      assert Shows(Chain[i], Cells[i]);
      node.Allocated := false;
      BytesFree := BytesFree + node.Length;
      Cells := Cells[i := Cells[i].(owner := None)];
    }

    /** Unlinks node i after its length and address went to a neighbour. */
    method Unlink(prev: Node?, curr: Node, ghost i: nat)
      requires Valid() && i < |Chain| && curr == Chain[i] && prev == NodeAt(Chain, i - 1)
      modifies `Nodes, `Chain, `Cells, curr, (if prev != null then {prev} else {})`Link
      ensures Valid() && curr.Link == null && curr.Home == this
      ensures Chain == Removed(old(Chain), i) && Cells == Removed(old(Cells), i)
    {
      hide Removed;
      if prev == null {
        Nodes := curr.Link;
      } else {
        prev.Link := curr.Link;
      }
      curr.Link, curr.Address, curr.Length := null, 0, 0;
      Chain, Cells := Removed(Chain, i), Removed(Cells, i);
    }
  }

  ghost function BlockAt(s: seq<Block>, i: int): Block? {
    if 0 <= i < |s| then s[i] else null
  }

  ghost predicate LinkedBlocks(head: Block?, s: seq<Block>)
    reads s`Link
  {
    head == BlockAt(s, 0) && forall i {:trigger s[i].Link} :: 0 <= i < |s| ==> s[i].Link == BlockAt(s, i + 1)
  }

  class Heap {
    var HeapBase: int
    var MemStartData: int
    var MemHeaderCurrent: int
    var MemHeaderMax: int
    var HeapEnd: int
    var NodeRecycler: Node?
    var Blocks: Block?
    var PageBlocks: Block?
    var CustomBlocks: Block?

    ghost var Recycled: seq<Node>
    /** The blocks of each list, in link order. */
    ghost var Lists: Kind -> seq<Block>
    /** What the linked structure shows. */
    ghost var View: HeapV
    ghost var Owned: set<Block>
    ghost var Nodes: set<Node>

    /** The fields as HeapInit and HeapCreate reset them, before the first blocks. */
    constructor (base: int, end: int)
      ensures Valid() && View == HeapV([], [], [], base + STATIC_OFFSET) && Owned == {} && Nodes == {} && Recycled == []
      ensures HeapBase == MemHeaderCurrent == MemHeaderMax == base && HeapEnd == end && CustomBlocks == null
    {
      HeapBase, MemHeaderCurrent, MemHeaderMax, HeapEnd := base, base, base, end;
      MemStartData := base + STATIC_OFFSET;
      NodeRecycler, Blocks, PageBlocks, CustomBlocks := null, null, null, null;
      Recycled, Owned, Nodes := [], {}, {};
      Lists := k => [];
      View := HeapV([], [], [], base + STATIC_OFFSET);
    }

    // ---------- The recycler ----------

    ghost predicate RecyclerOk()
      reads `NodeRecycler, `Recycled, Recycled`Link, Recycled`Home
    {
      && Linked(NodeRecycler, Recycled)
      && Injective(Recycled)
      && forall i :: 0 <= i < |Recycled| ==> Recycled[i].Home == this
    }

    lemma RecyclerEmpty()
      requires Valid()
      ensures NodeRecycler == null <==> Recycled == []
    {
    }

    method Recycle(node: Node)
      requires RecyclerOk() && node.Link == null && node.Home != this
      modifies `NodeRecycler, `Recycled, node`Link, node`Home
      ensures RecyclerOk() && Recycled == [node] + old(Recycled)
    {
      if NodeRecycler == null {
        NodeRecycler := node;
      } else {
        node.Link := NodeRecycler;
        NodeRecycler := node;
      }
      node.Home := this;
      Recycled := Inserted(Recycled, 0, node);
    }

    method PopRecycled() returns (node: Node)
      requires RecyclerOk() && NodeRecycler != null
      modifies `NodeRecycler, `Recycled
      ensures RecyclerOk() && node == old(NodeRecycler) == old(Recycled)[0] && Recycled == old(Recycled)[1..]
    {
      node := NodeRecycler;
      NodeRecycler := NodeRecycler.Link;
      Recycled := Removed(Recycled, 0);
    }

    // ---------- The whole structure ----------

    /** Every block and node the heap owns is sound. */
    ghost predicate NodesValid()
      reads `Owned, `Nodes, `NodeRecycler, `Recycled, Owned`Nodes, Owned`Chain, Owned`Cells, Nodes
    {
      && (forall i :: 0 <= i < |Recycled| ==> Recycled[i] in Nodes)
      && RecyclerOk()
      && BlocksValid()
    }

    ghost predicate BlocksValid()
      reads `Owned, `Nodes, Owned`Nodes, Owned`Chain, Owned`Cells, Nodes
    {
      forall b :: b in Owned ==> (forall i :: 0 <= i < |b.Chain| ==> b.Chain[i] in Nodes) && b.Valid()
    }

    ghost function HeadOf(k: Kind): Block?
      reads `Blocks, `PageBlocks, `CustomBlocks
    {
      match k
      case Normal => Blocks
      case Aligned => PageBlocks
      case VeryLarge => CustomBlocks
    }

    /** The list of a kind hangs from its head and is as long as the view says. */
    ghost predicate Chained(k: Kind)
      reads `Lists, `Blocks, `PageBlocks, `CustomBlocks, `View, `Owned, Owned`Link
    {
      && (forall i :: 0 <= i < |Lists(k)| ==> Lists(k)[i] in Owned)
      && LinkedBlocks(HeadOf(k), Lists(k))
      && |Lists(k)| == |List(View, k)|
    }

    /** Block i of a list is where it should be and shows what it should. */
    ghost predicate Shown(k: Kind, i: nat)
      reads `Lists, `View, `Owned, Owned
    {
      i < |Lists(k)| == |List(View, k)| ==>
        var b := Lists(k)[i];
        b in Owned && b.Kind == k && b.Position == i && b.View() == List(View, k)[i]
    }

    ghost predicate ListsValid()
      reads `Lists, `Blocks, `PageBlocks, `CustomBlocks, `View, `Owned, `MemStartData
      reads Owned
    {
      && (forall k :: Chained(k))
      && (forall k, i: nat :: Shown(k, i))
      && View.top == MemStartData
    }

    /** Says nothing of the header counters, which the structure does not depend on. */
    ghost predicate Valid()
      reads `Lists, `Blocks, `PageBlocks, `CustomBlocks, `View, `Owned, `MemStartData
      reads `Nodes, `NodeRecycler, `Recycled, Owned, Nodes
    {
      NodesValid() && ListsValid()
    }

    lemma ListLengths(k: Kind)
      requires Valid()
      ensures |Lists(k)| == |List(View, k)|
    {
      assert Chained(k);
    }

    /** A block of a list is sound and shows what the specification says of it. */
    lemma Listed(k: Kind, i: nat)
      requires Valid() && i < |Lists(k)|
      ensures Shown(k, i) && i < |List(View, k)| && Lists(k)[i].Valid()
    {
      assert Chained(k) && Shown(k, i);
    }

    /** A list begins at its head, and each block links to the next. */
    lemma NextListed(k: Kind, i: nat)
      requires Valid() && i <= |Lists(k)|
      ensures HeadOf(k) == BlockAt(Lists(k), 0)
      ensures i < |Lists(k)| ==> Lists(k)[i].Link == BlockAt(Lists(k), i + 1)
    {
      assert Chained(k);
    }

    /** HeapFreeLocator, on the list of the given kind. */
    method HeapFreeLocator(head: Block?, address: int, ghost kind: Kind) returns (block: Block?, ghost i: nat)
      requires ListsValid() && head == HeadOf(kind)
      ensures i == Locate(List(View, kind), address) && block == BlockAt(Lists(kind), i)
    {
      block, i := head, 0;
      assert Chained(kind);
      while block != null
        invariant 0 <= i <= |Lists(kind)| && block == BlockAt(Lists(kind), i)
        invariant forall j :: 0 <= j < i ==> !Covers(List(View, kind)[j], address)
        decreases |Lists(kind)| - i
      {
        assert Shown(kind, i);
        if block.AddressStart <= address && block.AddressEnd > address {
          return;
        }
        block := block.Link;
        i := i + 1;
      }
    }

    /** The three lookups at the head of HeapFree. */
    method LocateBlock(address: int) returns (block: Block?, ghost kind: Kind, ghost i: nat)
      requires ListsValid()
      ensures kind == KindHolding(View, address) && i == Locate(List(View, kind), address)
      ensures block == BlockAt(Lists(kind), i)
    {
      kind := Normal;
      block, i := HeapFreeLocator(Blocks, address, kind);
      assert Chained(kind);
      if block == null {
        kind := Aligned;
        block, i := HeapFreeLocator(PageBlocks, address, kind);
        assert Chained(kind);
      }
      if block == null {
        kind := VeryLarge;
        block, i := HeapFreeLocator(CustomBlocks, address, kind);
      }
    }

    method HeapFree(address: int)
      requires Valid()
      requires var k := KindHolding(View, address); Locate(List(View, k), address) < |List(View, k)|
      modifies `View, `NodeRecycler, `Recycled, Owned, Nodes
      ensures Valid()
      ensures View == Free(old(View), address)
      ensures |Recycled| + CellCount(View) == |old(Recycled)| + CellCount(old(View))
    {
      var block;
      ghost var kind, i;
      block, kind, i := LocateBlock(address);
      assert Chained(kind) && Shown(kind, i);
      FreeInBlock(block, kind, i, address);
    }

    /** Freeing in one block leaves the others sound. */
    method FreeAmongBlocks(block: Block, address: int)
      requires NodesValid() && block in Owned
      modifies `NodeRecycler, `Recycled, block`Nodes, block`Chain, block`Cells, block`BytesFree, block.Chain
      ensures NodesValid()
      ensures block.View() == FreeIn(old(block.View()), address)
      ensures |Recycled| + |block.Cells| == |old(Recycled)| + |old(block.Cells)|
    {
      ghost var m := HeapFreeAddressInNode(block, address);
      assert forall i :: 0 <= i < |block.Chain| ==> block.Chain[i] in Nodes;
      forall c | c in Owned && c != block
        ensures c.Valid()
      {
        assert forall j :: 0 <= j < |c.Chain| ==> old(c.Chain[j].Home) == c;
      }
    }

    /** Block i of a list has come to show something else; the view follows. */
    ghost method ShowChanged(kind: Kind, i: nat)
      requires NodesValid() && (forall k :: Chained(k)) && View.top == MemStartData
      requires forall k, j: nat :: k != kind || j != i ==> Shown(k, j)
      requires Chained(kind) && i < |Lists(kind)|
      requires var b := Lists(kind)[i]; b in Owned && b.Kind == kind && b.Position == i
      modifies `View
      ensures Valid()
      ensures View == WithList(old(View), kind, List(old(View), kind)[i := Lists(kind)[i].View()])
    {
      ListWith(View, kind, List(View, kind)[i := Lists(kind)[i].View()]);
      View := WithList(View, kind, List(View, kind)[i := Lists(kind)[i].View()]);
      forall k, j: nat ensures Shown(k, j) {
        assert k != kind || j != i ==> old(Shown(k, j));
      }
      forall k ensures Chained(k) {
        assert old(Chained(k));
      }
    }

    /** The effect on the whole heap of freeing in one block. */
    method FreeInBlock(block: Block, ghost kind: Kind, ghost i: nat, address: int)
      requires Valid() && Chained(kind) && i < |Lists(kind)| && block == Lists(kind)[i]
      modifies `View, `NodeRecycler, `Recycled, Owned, Nodes
      ensures Valid()
      ensures View == WithList(old(View), kind, List(old(View), kind)[i := FreeIn(List(old(View), kind)[i], address)])
      ensures |Recycled| + CellCount(View) == |old(Recycled)| + CellCount(old(View))
    {
      hide CellCount;
      hide BlockCount;
      assert Shown(kind, i);
      CellsReplaced(View, kind, i, FreeIn(List(View, kind)[i], address));
      FreeAmongBlocks(block, address);
      forall k, j: nat | k != kind || j != i ensures Shown(k, j) {
        assert old(Shown(k, j));
      }
      ShowChanged(kind, i);
    }

    // ---------- Allocation in one block ----------

    /** A node that no block and no recycler entry uses. */
    ghost predicate Spare(node: Node)
      reads `Owned, `Recycled, node`Home
    {
      && (forall b :: b in Owned ==> node.Home != b)
      && (forall i :: 0 <= i < |Recycled| ==> Recycled[i] != node)
    }

    /** A recycled node becomes spare. */
    method TakeRecycled() returns (node: Node)
      requires Valid() && NodeRecycler != null
      modifies `NodeRecycler, `Recycled
      ensures Valid() && Spare(node) && node in Nodes && |Recycled| == |old(Recycled)| - 1
    {
      node := PopRecycled();
      forall b | b in Owned ensures node.Home != b {
        assert b.Valid();
      }
    }

    /** The exact-fit path leaves the other blocks sound. */
    method TakeAmongBlocks(block: Block, curr: Node, ghost n: nat, a: Request) returns (address: int)
      requires NodesValid() && block in Owned
      requires n == FirstSuiting(block.Cells, a.size, a.align, block.Kind.VeryLarge?) < |block.Chain| && curr == block.Chain[n]
      requires n < |block.Cells| && (block.Cells[n].len == a.size || block.Kind.VeryLarge?)
      modifies block`BytesFree, block`Cells, curr`Allocated
      ensures NodesValid()
      ensures var b := old(block.View());
        PlaceIn(b, a).Placed? && address == PlaceIn(b, a).addr && block.View() == Serve(b, a)
    {
      address := block.ServeWhole(curr, n, a);
      forall c | c in Owned && c != block
        ensures c.Valid()
      {
        assert forall j :: 0 <= j < |c.Chain| ==> c.Chain[j].Home == c;
      }
    }

    /** No node of another block is touched by a split in this one. */
    lemma SplitTouchesNoOther(block: Block, n: nat, hNode: Node)
      requires BlocksValid() && block in Owned && n < |block.Chain| && Spare(hNode)
      ensures forall c, j :: c in Owned && c != block && 0 <= j < |c.Chain| ==>
        c.Chain[j] != block.Chain[n] && c.Chain[j] != NodeAt(block.Chain, n - 1) && c.Chain[j] != hNode
    {
      assert block.Valid() && block.Chain[n].Home == block && (n > 0 ==> block.Chain[n - 1].Home == block);
      forall c, j | c in Owned && c != block && 0 <= j < |c.Chain| ensures c.Chain[j].Home == c {
      }
    }

    /** The split path leaves the other blocks and the recycler sound. */
    method SplitAmongBlocks(block: Block, prev: Node?, curr: Node, ghost n: nat, hNode: Node, a: Request)
      returns (address: int)
      requires NodesValid() && block in Owned && Spare(hNode)
      requires n == FirstSuiting(block.Cells, a.size, a.align, block.Kind.VeryLarge?) < |block.Chain|
      requires curr == block.Chain[n] && prev == NodeAt(block.Chain, n - 1)
      requires n < |block.Cells| && block.Cells[n].len != a.size && !block.Kind.VeryLarge?
      modifies block`Nodes, block`Chain, block`Cells, block.Chain, hNode
      ensures RecyclerOk() && block.Valid() && block.Chain == Inserted(old(block.Chain), n, hNode)
      ensures forall c :: c in Owned && c != block ==> c.Valid()
      ensures var b := old(block.View());
        PlaceIn(b, a).Placed? && address == PlaceIn(b, a).addr && block.View() == Serve(b, a)
    {
      assert block.Valid() && curr.Home == block && (prev != null ==> prev.Home == block);
      assert forall j :: 0 <= j < |Recycled| ==> Recycled[j].Home == this;
      SplitTouchesNoOther(block, n, hNode);
      address := block.ServeSplit(prev, curr, n, hNode, a);
    }

    /** A node linked into a block counts among the heap's nodes. */
    ghost method Adopt(block: Block, n: nat, hNode: Node)
      requires RecyclerOk() && forall i :: 0 <= i < |Recycled| ==> Recycled[i] in Nodes
      requires n < |block.Chain| && block.Chain[n] == hNode && block in Owned
      requires forall c :: c in Owned ==> c.Valid()
      requires forall c, j :: c in Owned && 0 <= j < |c.Chain| && (c != block || j != n) ==> c.Chain[j] in Nodes
      modifies `Nodes
      ensures NodesValid() && Nodes == old(Nodes) + {hNode}
    {
      Nodes := Nodes + {hNode};
    }

    /** A split whose new node joins the heap's nodes. */
    method SplitAndAdopt(block: Block, prev: Node?, curr: Node, ghost n: nat, hNode: Node, a: Request)
      returns (address: int)
      requires NodesValid() && block in Owned && Spare(hNode)
      requires n == FirstSuiting(block.Cells, a.size, a.align, block.Kind.VeryLarge?) < |block.Chain|
      requires curr == block.Chain[n] && prev == NodeAt(block.Chain, n - 1)
      requires n < |block.Cells| && block.Cells[n].len != a.size && !block.Kind.VeryLarge?
      modifies `Nodes, block`Nodes, block`Chain, block`Cells, block.Chain, hNode
      ensures NodesValid() && Nodes == old(Nodes) + {hNode}
      ensures var b := old(block.View());
        PlaceIn(b, a).Placed? && address == PlaceIn(b, a).addr && block.View() == Serve(b, a)
    {
      address := SplitAmongBlocks(block, prev, curr, n, hNode, a);
      Adopt(block, n, hNode);
    }

    /** The exact-fit path of HeapAllocateSizeInBlock, seen on the whole heap. */
    method TakeInBlock(block: Block, ghost kind: Kind, ghost i: nat, curr: Node, ghost n: nat, a: Request) returns (address: int)
      requires Valid() && i < |Lists(kind)| && block == Lists(kind)[i]
      requires n == FirstSuiting(block.Cells, a.size, a.align, block.Kind.VeryLarge?) < |block.Chain| && curr == block.Chain[n]
      requires n < |block.Cells| && (block.Cells[n].len == a.size || block.Kind.VeryLarge?)
      modifies `View, Owned, Nodes
      ensures Valid() && Lists == old(Lists)
      ensures CellCount(View) == CellCount(old(View)) && BlockCount(View) == BlockCount(old(View))
      ensures i < |List(old(View), kind)|
      ensures var b := List(old(View), kind)[i];
        && PlaceIn(b, a).Placed? && address == PlaceIn(b, a).addr
        && View == WithList(old(View), kind, List(old(View), kind)[i := Serve(b, a)])
    {
      hide CellCount;
      hide BlockCount;
      assert Chained(kind) && Shown(kind, i);
      ServedExact(List(View, kind)[i], a, n);
      CellsServed(View, kind, i, a);
      address := TakeAmongBlocks(block, curr, n, a);
      forall k, j: nat | k != kind || j != i ensures Shown(k, j) {
        assert old(Shown(k, j));
      }
      ShowChanged(kind, i);
    }

    /** The split path of HeapAllocateSizeInBlock, seen on the whole heap. */
    method SplitInBlock(block: Block, ghost kind: Kind, ghost i: nat, prev: Node?, curr: Node, ghost n: nat, hNode: Node, a: Request)
      returns (address: int)
      requires Valid() && i < |Lists(kind)| && block == Lists(kind)[i] && Spare(hNode)
      requires n == FirstSuiting(block.Cells, a.size, a.align, block.Kind.VeryLarge?) < |block.Chain|
      requires curr == block.Chain[n] && prev == NodeAt(block.Chain, n - 1)
      requires n < |block.Cells| && block.Cells[n].len != a.size && !block.Kind.VeryLarge?
      modifies `View, `Nodes, Owned, Nodes, hNode
      ensures Valid() && Nodes == old(Nodes) + {hNode}
      ensures CellCount(View) == CellCount(old(View)) + 1 && BlockCount(View) == BlockCount(old(View))
      ensures i < |List(old(View), kind)|
      ensures var b := List(old(View), kind)[i];
        && PlaceIn(b, a).Placed? && address == PlaceIn(b, a).addr
        && View == WithList(old(View), kind, List(old(View), kind)[i := Serve(b, a)])
    {
      hide CellCount;
      hide BlockCount;
      assert Chained(kind) && Shown(kind, i);
      ServedSplit(List(View, kind)[i], a, n);
      CellsServed(View, kind, i, a);
      address := SplitAndAdopt(block, prev, curr, n, hNode, a);
      forall k, j: nat | k != kind || j != i ensures Shown(k, j) {
        assert old(Shown(k, j));
      }
      ShowChanged(kind, i);
    }

    // ---------- HeapCreateBlock ----------

    /** The new block and its one node, filled in; the heap's top moves past it. */
    method AddBlock(header: int, size: int, mask: int, kind: Kind, node: Node) returns (block: Block)
      requires Valid() && Spare(node)
      modifies `MemStartData, `View, `Owned, `Nodes, node
      ensures Valid() && fresh(block) && Owned == old(Owned) + {block} && Nodes == old(Nodes) + {node}
      ensures block.Header == header
      ensures CellCount(View) == CellCount(old(View)) && BlockCount(View) == BlockCount(old(View))
      ensures Lists == old(Lists) && Unlisted(block) && block.Link == null && block.Kind == kind
      ensures block.View() == BlockV(old(View).top, size, kind, mask, size, [Cell(old(View).top, size, None)])
      ensures View == old(View).(top := old(View).top + size)
    {
      hide Heap.NodesValid;
      hide Block.Valid;
      block := MakeBlock(header, MemStartData, size, mask, kind, node);
      MemStartData := MemStartData + size;
      View := View.(top := View.top + size);
      forall k ensures Chained(k) && block !in Lists(k) {
        assert old(Chained(k));
      }
      forall k, j: nat ensures Shown(k, j) {
        assert old(Shown(k, j));
      }
    }

    /** A block over one spare node, not linked anywhere yet. */
    method MakeBlock(header: int, start: int, size: int, mask: int, kind: Kind, node: Node) returns (block: Block)
      requires NodesValid() && Spare(node)
      modifies `Owned, `Nodes, node
      ensures NodesValid() && fresh(block) && Owned == old(Owned) + {block} && Nodes == old(Nodes) + {node}
      ensures block.Header == header && block.Link == null
      ensures block.View() == BlockV(start, size, kind, mask, size, [Cell(start, size, None)])
    {
      block := new Block(header, start, size, mask, kind, node);
      forall c, j | c in Owned && 0 <= j < |c.Chain| ensures c.Chain[j] != node {
        assert old(c.Chain[j].Home) == c;
      }
      AdmitBlock(block, node);
    }

    /** A block that is linked nowhere yet joins the heap's blocks. */
    ghost method AdmitBlock(block: Block, node: Node)
      requires NodesValid() && block.Valid() && block.Chain == [node] && block !in Owned
      modifies `Owned, `Nodes
      ensures NodesValid() && Owned == old(Owned) + {block} && Nodes == old(Nodes) + {node}
    {
      Owned := Owned + {block};
      Nodes := Nodes + {node};
    }

    // ---------- HeapAppendBlockToList ----------

    /** The walk to the last block of a list. */
    method LastOf(head: Block, ghost kind: Kind) returns (last: Block)
      requires ListsValid() && head == HeadOf(kind)
      ensures |Lists(kind)| > 0 && last == Lists(kind)[|Lists(kind)| - 1]
    {
      last := head;
      ghost var i := 0;
      assert Chained(kind);
      while last.Link != null
        invariant 0 <= i < |Lists(kind)| && last == Lists(kind)[i]
        decreases |Lists(kind)| - i
      {
        last := last.Link;
        i := i + 1;
      }
    }

    ghost predicate Unlisted(block: Block)
      reads `Lists
    {
      forall k :: block !in Lists(k)
    }

    /** A block has one place among the lists. */
    lemma OnePlace(kind: Kind, i: nat)
      requires ListsValid() && i < |Lists(kind)|
      ensures forall k, j: nat :: j < |Lists(k)| && Lists(k)[j] == Lists(kind)[i] ==> k == kind && j == i
    {
      assert Chained(kind) && Shown(kind, i);
      forall k, j: nat | j < |Lists(k)| && Lists(k)[j] == Lists(kind)[i] ensures k == kind && j == i {
        assert Chained(k) && Shown(k, j);
      }
    }

    method HeapAppendBlockToList(block: Block)
      requires Valid() && block in Owned && Unlisted(block) && block.Link == null
      requires block.Kind.VeryLarge? || |Lists(block.Kind)| > 0
      modifies `CustomBlocks, `View, `Lists, block`Position, Owned`Link
      ensures Valid()
      ensures View == WithList(old(View), block.Kind, List(old(View), block.Kind) + [old(block.View())])
      ensures CellCount(View) == CellCount(old(View)) + |old(block.View()).cells| && BlockCount(View) == BlockCount(old(View)) + 1
    {
      hide CellCount;
      hide BlockCount;
      CellsAppended(View, block.Kind, block.View());
      hide Heap.NodesValid;
      ghost var kind := block.Kind;
      assert Chained(kind);
      var currBlock;
      if block.Kind.VeryLarge? {
        if CustomBlocks == null {
          CustomBlocks := block;
          forall k | k != kind ensures Chained(k) {
            assert old(Chained(k));
          }
          Enlist(kind, block);
          return;
        }
        currBlock := CustomBlocks;
      } else if block.Kind.Aligned? {
        currBlock := PageBlocks;
      } else {
        currBlock := Blocks;
      }
      var last := LastOf(currBlock, kind);
      LinkLast(last, block, kind);
    }

    /** A block becomes the head of its empty list. */
    method Head(block: Block, kind: Kind)
      requires Valid() && block in Owned && block.Kind == kind && !kind.VeryLarge?
      requires block.Link == null && |Lists(kind)| == 0 && Unlisted(block)
      modifies `Blocks, `PageBlocks, `View, `Lists, block`Position
      ensures Valid()
      ensures View == WithList(old(View), kind, List(old(View), kind) + [old(block.View())])
      ensures CellCount(View) == CellCount(old(View)) + |old(block.View()).cells| && BlockCount(View) == BlockCount(old(View)) + 1
    {
      hide CellCount;
      hide BlockCount;
      CellsAppended(View, kind, block.View());
      assert Chained(kind);
      if kind.Normal? {
        Blocks := block;
      } else {
        PageBlocks := block;
      }
      forall k | k != kind ensures Chained(k) {
        assert old(Chained(k));
      }
      Enlist(kind, block);
    }

    /** The last block of a list gets a successor. */
    method LinkLast(last: Block, block: Block, ghost kind: Kind)
      requires Valid() && block in Owned && Unlisted(block) && block.Link == null && block.Kind == kind
      requires |Lists(kind)| > 0 && last == Lists(kind)[|Lists(kind)| - 1]
      modifies `View, `Lists, block`Position, Owned`Link
      ensures Valid()
      ensures View == WithList(old(View), kind, List(old(View), kind) + [block.View()])
    {
      hide Heap.NodesValid;
      assert Chained(kind);
      OnePlace(kind, |Lists(kind)| - 1);
      last.Link := block;
      block.Link := null;
      forall k | k != kind ensures Chained(k) {
        assert old(Chained(k));
      }
      assert forall k, j: nat :: old(Shown(k, j)) ==> Shown(k, j);
      Enlist(kind, block);
    }

    /** A block linked behind the last of its list joins the list and the view. */
    ghost method Enlist(kind: Kind, block: Block)
      requires NodesValid() && block in Owned && Unlisted(block) && block.Kind == kind
      requires LinkedBlocks(HeadOf(kind), Lists(kind) + [block])
      requires forall k :: k != kind ==> Chained(k)
      requires forall i :: 0 <= i < |Lists(kind)| ==> Lists(kind)[i] in Owned
      requires |Lists(kind)| == |List(View, kind)| && View.top == MemStartData
      requires forall k, j: nat :: Shown(k, j)
      modifies `View, `Lists, block`Position
      ensures Valid()
      ensures View == WithList(old(View), kind, List(old(View), kind) + [block.View()])
    {
      hide Heap.NodesValid;
      ghost var lists, view := Lists, View;
      block.Position := |lists(kind)|;
      ListWith(View, kind, List(View, kind) + [block.View()]);
      View := WithList(View, kind, List(View, kind) + [block.View()]);
      Lists := k => if k == kind then lists(k) + [block] else lists(k);
      forall k, j: nat ensures Shown(k, j) {
        assert old(Shown(k, j));
      }
      forall k ensures Chained(k) {
        assert k != kind ==> old(Chained(k));
      }
    }

    // ---------- HeapFreeAddressInNode ----------

    /** The freed node's length goes to its predecessor. */
    method MergeWithPrevious(block: Block, prev: Node, curr: Node, ghost i: nat)
      requires block.Valid() && RecyclerOk()
      requires 0 < i < |block.Chain| && curr == block.Chain[i] && prev == block.Chain[i - 1]
      modifies `NodeRecycler, `Recycled, block`Nodes, block`Chain, block`Cells, prev, curr
      ensures block.Valid() && RecyclerOk()
      ensures block.Chain == Removed(old(block.Chain), i) && Recycled == [curr] + old(Recycled)
      ensures var cs := old(block.Cells);
        block.Cells == Removed(cs[i - 1 := cs[i - 1].(len := cs[i - 1].len + cs[i].len)], i)
    {
      assert Shows(curr, block.Cells[i]);
      block.Grow(prev, i - 1, curr.Length);
      block.Unlink(prev, curr, i);
      Recycle(curr);
    }

    /** The freed node's range goes to its successor. */
    method MoveToNext(block: Block, prev: Node?, curr: Node, ghost i: nat)
      requires block.Valid() && RecyclerOk()
      requires i + 1 < |block.Chain| && curr == block.Chain[i] && prev == NodeAt(block.Chain, i - 1)
      modifies `NodeRecycler, `Recycled, block`Nodes, block`Chain, block`Cells, curr, block.Chain[i + 1]
      modifies if prev != null then {prev} else {}
      ensures block.Valid() && RecyclerOk()
      ensures block.Chain == Removed(old(block.Chain), i) && Recycled == [curr] + old(Recycled)
      ensures var cs := old(block.Cells);
        block.Cells == Removed(cs[i + 1 := cs[i + 1].(addr := cs[i].addr, len := cs[i + 1].len + cs[i].len)], i)
    {
      assert Shows(curr, block.Cells[i]);
      assert curr.Link == block.Chain[i + 1];
      block.TakeOver(curr.Link, i + 1, curr.Address, curr.Length);
      block.Unlink(prev, curr, i);
      Recycle(curr);
    }

    /** The merging half of HeapFreeAddressInNode. */
    method MergeFreed(block: Block, prev: Node?, curr: Node, ghost i: nat)
      requires block.Valid() && RecyclerOk()
      requires i < |block.Chain| && curr == block.Chain[i] && prev == NodeAt(block.Chain, i - 1)
      requires block.Cells[i].owner.None?
      modifies `NodeRecycler, `Recycled, block`Nodes, block`Chain, block`Cells, block.Chain
      ensures block.Valid() && RecyclerOk()
      ensures block.Cells == Merge(old(block.Cells), i)
      ensures if |block.Cells| == |old(block.Cells)| then block.Chain == old(block.Chain) && Recycled == old(Recycled)
              else block.Chain == Removed(old(block.Chain), i) && Recycled == [curr] + old(Recycled)
    {
      assert Shows(curr, block.Cells[i]);
      assert prev != null ==> Shows(prev, block.Cells[i - 1]);
      assert curr.Link == NodeAt(block.Chain, i + 1);
      MergedAs(block.Cells, i);
      if prev == null && curr.Link == null {
        return;
      }
      if prev != null && !prev.Allocated {
        MergeWithPrevious(block, prev, curr, i);
      } else if curr.Link != null && !curr.Allocated {
        MoveToNext(block, prev, curr, i);
      }
    }

    method HeapFreeAddressInNode(block: Block, address: int) returns (ghost i: nat)
      requires block.Valid() && RecyclerOk()
      modifies `NodeRecycler, `Recycled, block`Nodes, block`Chain, block`Cells, block`BytesFree, block.Chain
      ensures block.Valid() && RecyclerOk()
      ensures block.View() == FreeIn(old(block.View()), address)
      ensures (block.Chain == old(block.Chain) && Recycled == old(Recycled)) ||
        (i < |old(block.Chain)| && block.Chain == Removed(old(block.Chain), i) && Recycled == [old(block.Chain)[i]] + old(Recycled))
    {
      var prev, curr;
      prev, curr, i := block.FindHolding(address);
      if curr != null {
        MergeFreesFirst(block.Cells, i);
        block.Release(curr, i);
        MergeFreed(block, prev, curr, i);
      }
    }
  }

  // ---------- How many nodes there are ----------

  function ListCells(list: seq<BlockV>): nat {
    if list == [] then 0 else |list[0].cells| + ListCells(list[1..])
  }

  /** The nodes of all blocks. */
  function CellCount(h: HeapV): nat {
    ListCells(h.normal) + ListCells(h.aligned) + ListCells(h.veryLarge)
  }

  lemma {:induction false} ListCellsReplaced(list: seq<BlockV>, i: nat, b: BlockV)
    requires i < |list|
    ensures ListCells(list[i := b]) == ListCells(list) - |list[i].cells| + |b.cells|
  {
    if i == 0 {
      assert list[0 := b][1..] == list[1..];
    } else {
      assert list[i := b][1..] == list[1..][i - 1 := b];
      ListCellsReplaced(list[1..], i - 1, b);
    }
  }

  lemma {:induction false} ListCellsAppended(list: seq<BlockV>, b: BlockV)
    ensures ListCells(list + [b]) == ListCells(list) + |b.cells|
  {
    if list == [] {
      assert [b][1..] == [] && list + [b] == [b];
    } else {
      assert (list + [b])[1..] == list[1..] + [b];
      ListCellsAppended(list[1..], b);
    }
  }

  lemma CellsReplaced(h: HeapV, k: Kind, i: nat, b: BlockV)
    requires i < |List(h, k)|
    ensures CellCount(WithList(h, k, List(h, k)[i := b])) == CellCount(h) - |List(h, k)[i].cells| + |b.cells|
  {
    ListCellsReplaced(List(h, k), i, b);
  }

  /** Serving a request takes no new node on an exact fit, and one otherwise. */
  lemma CellsServed(h: HeapV, k: Kind, i: nat, a: Request)
    requires i < |List(h, k)| && PlaceIn(List(h, k)[i], a).Placed?
    ensures var b := List(h, k)[i];
      && CellCount(WithList(h, k, List(h, k)[i := Serve(b, a)])) == CellCount(h) + (if PlaceIn(b, a).exact then 0 else 1)
      && BlockCount(WithList(h, k, List(h, k)[i := Serve(b, a)])) == BlockCount(h)
  {
    var b := List(h, k)[i];
    CellsReplaced(h, k, i, Serve(b, a));
  }

  lemma CellsAppended(h: HeapV, k: Kind, b: BlockV)
    ensures CellCount(WithList(h, k, List(h, k) + [b])) == CellCount(h) + |b.cells|
    ensures BlockCount(WithList(h, k, List(h, k) + [b])) == BlockCount(h) + 1
  {
    ListCellsAppended(List(h, k), b);
  }

  lemma MergeFreesFirst(cs: seq<Cell>, i: nat)
    requires i < |cs|
    ensures Merge(cs[i := cs[i].(owner := None)], i) == Merge(cs, i)
  {
  }

  lemma MergedAs(cs: seq<Cell>, i: nat)
    requires i < |cs| && cs[i].owner.None?
    ensures Merge(cs, i) ==
      if i > 0 && cs[i - 1].owner.None? then
        Removed(cs[i - 1 := cs[i - 1].(len := cs[i - 1].len + cs[i].len)], i)
      else if i + 1 < |cs| then
        Removed(cs[i + 1 := cs[i + 1].(addr := cs[i].addr, len := cs[i + 1].len + cs[i].len)], i)
      else cs
  {
    assert cs[i].(owner := None) == cs[i];
  }

  lemma ListWith(h: HeapV, k: Kind, list: seq<BlockV>)
    ensures forall l :: List(WithList(h, k, list), l) == if l == k then list else List(h, l)
    ensures WithList(h, k, list).top == h.top
  {
  }

  lemma ServedExact(b: BlockV, a: Request, n: nat)
    requires n == FirstSuiting(b.cells, a.size, a.align, b.kind.VeryLarge?) < |b.cells|
    requires b.cells[n].len == a.size || b.kind.VeryLarge?
    ensures PlaceIn(b, a).Placed? && PlaceIn(b, a).exact && PlaceIn(b, a).addr == b.cells[n].addr
    ensures Serve(b, a) == b.(cells := b.cells[n := b.cells[n].(owner := Some(Payload(b.cells[n].addr, a.size)))],
                              bytesFree := b.bytesFree - a.size)
  {
    var c := b.cells[n].(owner := Some(Payload(b.cells[n].addr, a.size)));
    assert b.cells[..n] + [c] + b.cells[n + 1..] == b.cells[n := c];
  }

  lemma ServedSplit(b: BlockV, a: Request, n: nat)
    requires n == FirstSuiting(b.cells, a.size, a.align, b.kind.VeryLarge?) < |b.cells|
    requires b.cells[n].len != a.size && !b.kind.VeryLarge?
    ensures PlaceIn(b, a).Placed? && !PlaceIn(b, a).exact && PlaceIn(b, a).addr == b.cells[n].addr + Pad(b.cells[n].addr, a.align)
    ensures Serve(b, a) == b.(cells := b.cells[..n] + Place(b.cells[n], a.size, a.align, false) + b.cells[n + 1..])
  {
  }

  lemma PlacedAsInserted(cells: seq<Cell>, i: nat, size: int, align: nat)
    requires i < |cells| && cells[i].len != size
    ensures var cs := Place(cells[i], size, align, false);
      |cs| == 2 && cells[..i] + cs + cells[i + 1..] == Inserted(cells[i := cs[1]], i, cs[0])
  {
  }
}

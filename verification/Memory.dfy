/**
 How the heap, the page tables and the frame allocator call one another
 (kernel/system/heap.c, kernel/arch/x86/components/address_space.c,
 kernel/arch/x86/x32/memory/virtual_memory.c).

 The heap maps the pages it hands out and the pages of its own headers; mapping may need
 a page table, and page tables come from the heap.  The recursion ends because the
 directory entries of the heap's window are present from the start and stay so: mapping
 a heap address never asks the heap for anything.
 */
module Memory {
  import opened Common
  import opened BlockSpec
  import opened HeapSpec
  import opened HeapObjects
  import opened HeapRuns
  import opened Frames
  import opened Paging

  const NODE_SIZE: int := 24
  const BLOCK_SIZE: int := 28

  function DivUp(a: int, b: int): int
    requires b > 0
  {
    a / b + (if a % b > 0 then 1 else 0)
  }

  lemma PagesOf(size: int)
    requires 0 < size
    ensures DivUp(size, PAGE_SIZE) >= 1 && (size <= PAGE_SIZE <==> DivUp(size, PAGE_SIZE) == 1)
  {
  }

  /** Flags of AddressSpaceMap. */
  datatype MapFlags = MapFlags(application: bool, noCache: bool, virtual: bool, contiguous: bool) {
    function Attributes(): set<Attribute> {
      (if application then {User} else {}) + (if noCache then {CacheDisable} else {}) +
      (if virtual then {Attribute.Virtual} else {})
    }
  }

  /** Each flag asks for its attribute, and for no other. */
  lemma AttributesExactly(flags: MapFlags, a: Attribute)
    ensures a in flags.Attributes() <==>
      (a.User? && flags.application) || (a.CacheDisable? && flags.noCache) || (a.Virtual? && flags.virtual)
  {
  }

  /** The page number of the address that a failed frame request seems to give. */
  const NO_FRAME: int := 0xF_FFFF

  const PLAIN: MapFlags := MapFlags(false, false, false, false)

  /**
   What is mapped stays mapped, and to the same frame unless that was frame 0, which the
   code cannot tell from no mapping.  Outside the heap's window nothing changes at all.
   */
  ghost predicate Keeps(before: map<int, Entry>, after: map<int, Entry>) {
    forall page ::
      && (page in before ==> page in after && (before[page].page != 0 || !InWindow(page) ==> after[page] == before[page]))
      && (page in after && !InWindow(page) ==> page in before)
  }

  lemma KeepsTransitive(a: map<int, Entry>, b: map<int, Entry>, c: map<int, Entry>)
    requires Keeps(a, b) && Keeps(b, c)
    ensures Keeps(a, c)
  {
  }

  lemma KeepsItself(a: map<int, Entry>)
    ensures Keeps(a, a)
  {
  }

  /** The same, but for n pages from lo; and when only those were asked for, no other changes. */
  ghost predicate KeepsBut(before: map<int, Entry>, after: map<int, Entry>, lo: int, n: int, only: bool) {
    forall page :: page < lo || lo + n <= page ==>
      && (page in before ==> page in after && (only || before[page].page != 0 || !InWindow(page) ==> after[page] == before[page]))
      && (page in after && (only || !InWindow(page)) ==> page in before)
  }

  /** The n pages from lo have come to lie in consecutive frames from the first address on. */
  ghost predicate MappedRun(after: map<int, Entry>, lo: int, n: int, first: int, attrs: set<Attribute>) {
    forall page :: lo <= page < lo + n ==>
      && page in after && after[page].attrs == {Present, Write} + attrs
      && (first != 0 ==> after[page].page == PageOf((first + (page - lo) * PAGE_SIZE) % WORD_LIMIT))
  }

  lemma RunGrows(before: map<int, Entry>, mid: map<int, Entry>, after: map<int, Entry>, lo: int, n: nat, first: int,
                 physical: int, attrs: set<Attribute>, only: bool)
    requires MappedRun(mid, lo, n, first, attrs) && KeepsBut(before, mid, lo, n, only)
    requires lo + n in after && after[lo + n] == Entry(PageOf(physical), {Present, Write} + attrs)
    requires first != 0 ==> physical == (first + n * PAGE_SIZE) % WORD_LIMIT
    requires KeepsBut(mid, after, lo + n, 1, only)
    requires InWindow(lo + n) ==> after == mid[lo + n := Entry(PageOf(physical), {Present, Write} + attrs)]
    requires !InWindow(lo + n) ==> lo + n < HEAP_BASE / PAGE_SIZE || HEAP_END / PAGE_SIZE <= lo
    ensures MappedRun(after, lo, n + 1, first, attrs) && KeepsBut(before, after, lo, n + 1, only)
  {
  }

  lemma NothingMapped(trans: map<int, Entry>, lo: int, first: int, attrs: set<Attribute>, only: bool)
    ensures MappedRun(trans, lo, 0, first, attrs) && KeepsBut(trans, trans, lo, 0, only)
  {
  }

  // ---------- What a call maps in the window ----------

  /** The frames for a mask: below 16 MB, but not the first 32, for one up to 0xFFFFFF, and
      above 16 MB for a larger one; NO_FRAME when the search finds none. */
  predicate FrameFor(mask: int, frame: int) {
    frame == NO_FRAME || if mask <= 0xFF_FFFF then 32 <= frame < 4096 else 4096 <= frame
  }

  /** A page of the window that has a new entry. */
  ghost predicate Renewed(before: map<int, Entry>, after: map<int, Entry>, page: int) {
    InWindow(page) && page in after && (page !in before || after[page] != before[page])
  }

  /** Below the data are the pages of headers, which any frame above 16 MB will do for. */
  function MaskOf(page: int, mask: int): int {
    if page < DATA_START / PAGE_SIZE then 0xFFFF_FFFF else mask
  }

  /**
   What a call does to the window that may map header pages, and of the data pages only the n
   from lo: every new entry is a plain one, in a frame of its mask's range, and every frame
   that was taken lies behind one of them.  (Above 16 MB, as long as frames are left.)
   */
  ghost predicate Grown(before: map<int, Entry>, words: seq<Word>, after: map<int, Entry>, words': seq<Word>, blocks: nat,
                        lo: int, n: int, mask: int) {
    && UsedSet(words) <= UsedSet(words')
    && (forall page :: Renewed(before, after, page) ==>
          after[page].attrs == {Present, Write} && (page < DATA_START / PAGE_SIZE || lo <= page < lo + n))
    && (forall page :: Renewed(before, after, page) && (MaskOf(page, mask) <= 0xFF_FFFF || FramesLeft(words', blocks)) ==>
          FrameFor(MaskOf(page, mask), after[page].page))
    && (FramesLeft(words', blocks) ==> FramesLieBehind(before, words, after, words'))
  }

  ghost predicate FramesLieBehind(before: map<int, Entry>, words: seq<Word>, after: map<int, Entry>, words': seq<Word>) {
    forall f :: f in UsedSet(words') && f !in UsedSet(words) ==> f != 0 && exists page :: LiesBehind(before, after, page, f)
  }

  ghost predicate LiesBehind(before: map<int, Entry>, after: map<int, Entry>, page: int, frame: int) {
    Renewed(before, after, page) && after[page].page == frame
  }

  lemma GrownItself(trans: map<int, Entry>, words: seq<Word>, blocks: nat, lo: int, n: int, mask: int)
    ensures Grown(trans, words, trans, words, blocks, lo, n, mask)
  {
    hide UsedSet;
  }

  /** Header pages alone are no reason for a larger range. */
  lemma GrownWiden(before: map<int, Entry>, words: seq<Word>, after: map<int, Entry>, words': seq<Word>, blocks: nat,
                   lo: int, n: int, mask: int, lo': int, n': int, mask': int)
    requires Grown(before, words, after, words', blocks, lo, n, mask)
    requires n == 0 || (mask == mask' && lo' <= lo && lo + n <= lo' + n')
    ensures Grown(before, words, after, words', blocks, lo', n', mask')
  {
    hide UsedSet;
    hide FramesLeft;
    hide FramesLieBehind;
  }

  lemma GrownTransitive(a: map<int, Entry>, wa: seq<Word>, b: map<int, Entry>, wb: seq<Word>, c: map<int, Entry>, wc: seq<Word>,
                        blocks: nat, lo: int, n: int, mask: int)
    requires Grown(a, wa, b, wb, blocks, lo, n, mask) && Grown(b, wb, c, wc, blocks, lo, n, mask)
    requires Keeps(a, b) && Keeps(b, c)
    ensures Grown(a, wa, c, wc, blocks, lo, n, mask) && Keeps(a, c)
  {
    hide UsedSet;
    FramesWereLeft(wb, wc, blocks);
    hide FramesLeft;
    hide FrameFor;
    assert forall page :: Renewed(a, c, page) ==> Renewed(b, c, page) || (Renewed(a, b, page) && b[page] == c[page]);
    if FramesLeft(wc, blocks) {
      LieTransitive(a, wa, b, wb, c, wc);
    }
  }

  lemma LieTransitive(a: map<int, Entry>, wa: seq<Word>, b: map<int, Entry>, wb: seq<Word>, c: map<int, Entry>, wc: seq<Word>)
    requires FramesLieBehind(a, wa, b, wb) && FramesLieBehind(b, wb, c, wc) && Keeps(a, b) && Keeps(b, c)
    ensures FramesLieBehind(a, wa, c, wc)
  {
    hide UsedSet;
    forall f | f in UsedSet(wc) && f !in UsedSet(wa) ensures f != 0 && exists page :: LiesBehind(a, c, page, f) {
      if f in UsedSet(wb) {
        var page :| LiesBehind(a, b, page, f);
        assert LiesBehind(a, c, page, f);
      } else {
        var page :| LiesBehind(b, c, page, f);
        assert LiesBehind(a, c, page, f);
      }
    }
  }

  /** The address of a request's frame is one of that frame, and in the mask's range. */
  lemma FrameOfRequest(words: seq<Word>, blocks: nat, mask: int)
    requires LOW_WORDS < |words| && blocks < |words|
    ensures var f, words' := FindFrame(words, blocks, mask, 1), Taken(words, blocks, mask, 1);
      && UsedSet(words) <= UsedSet(words')
      && (mask <= 0xFF_FFFF || FramesLeft(words', blocks) ==>
            FrameAddress(f) != 0 && FrameFor(mask, PageOf(FrameAddress(f))))
      && (FramesLeft(words', blocks) ==>
            forall g :: g in UsedSet(words') && g !in UsedSet(words) ==> g == PageOf(FrameAddress(f)) != 0)
  {
    var f, words' := FindFrame(words, blocks, mask, 1), Taken(words, blocks, mask, 1);
    TakenIsNew(words, blocks, mask);
    FoundInRange(words, blocks, mask, 1);
    FramesWereLeft(words, words', blocks);
    hide UsedSet;
    hide Taken;
    hide FindFrame;
    hide FramesLeft;
  }

  /** One page of the window mapped with one frame request. */
  lemma MappedGrows(before: map<int, Entry>, words: seq<Word>, after: map<int, Entry>, blocks: nat, page: int, mask: int)
    requires LOW_WORDS < |words| && blocks < |words|
    requires InWindow(page) && (page in before ==> before[page].page == 0) && MaskOf(page, mask) == mask
    requires KeepsBut(before, after, page, 1, true)
    requires MappedRun(after, page, 1, FrameAddress(FindFrame(words, blocks, mask, 1)), {})
    ensures Keeps(before, after)
    ensures Grown(before, words, after, Taken(words, blocks, mask, 1), blocks, page, 1, mask)
    ensures page < DATA_START / PAGE_SIZE ==> Grown(before, words, after, Taken(words, blocks, mask, 1), blocks, 0, 0, 0)
  {
    var words' := Taken(words, blocks, mask, 1);
    FrameOfRequest(words, blocks, mask);
    var physical := FrameAddress(FindFrame(words, blocks, mask, 1));
    hide UsedSet;
    hide Taken;
    hide FindFrame;
    hide FramesLeft;
    hide FrameFor;
    assert physical != 0 ==> after[page].page == PageOf(physical);
    hide FrameAddress;
    hide PageOf;
    assert forall p :: Renewed(before, after, p) ==> p == page;
    if FramesLeft(words', blocks) {
      forall f | f in UsedSet(words') && f !in UsedSet(words) ensures f != 0 && exists p :: LiesBehind(before, after, p, f) {
        assert LiesBehind(before, after, page, f);
      }
    }
  }

  // ---------- Where headers are ----------

  predicate Beside(a: int, n: int, b: int, m: int) { a + n <= b || b + m <= a }

  /** The headers of blocks and nodes fill the header space below the pointer, without overlap. */
  ghost predicate HeadersFit(blocks: set<Block>, nodes: set<Node>, current: int) {
    && current == HEAP_BASE + BLOCK_SIZE * |blocks| + NODE_SIZE * |nodes|
    && (forall b :: b in blocks ==> HEAP_BASE <= b.Header && b.Header + BLOCK_SIZE <= current)
    && (forall n :: n in nodes ==> HEAP_BASE <= n.Header && n.Header + NODE_SIZE <= current)
    && (forall b, c :: b in blocks && c in blocks && b != c ==> Beside(b.Header, BLOCK_SIZE, c.Header, BLOCK_SIZE))
    && (forall m, n :: m in nodes && n in nodes && m != n ==> Beside(m.Header, NODE_SIZE, n.Header, NODE_SIZE))
    && (forall b, n :: b in blocks && n in nodes ==> Beside(b.Header, BLOCK_SIZE, n.Header, NODE_SIZE))
  }

  /** Header space is handed out to one more block. */
  lemma BlockFits(blocks: set<Block>, nodes: set<Node>, block: Block, current: int)
    requires HeadersFit(blocks, nodes, current) && block !in blocks && block.Header == current
    ensures HeadersFit(blocks + {block}, nodes, current + BLOCK_SIZE) && |blocks + {block}| == |blocks| + 1
  {
    assert |blocks + {block}| == |blocks| + 1;
  }

  /** A node that was recycled, or got a header of its own. */
  lemma NodeFits(blocks: set<Block>, nodes: set<Node>, node: Node, before: int, current: int)
    requires HeadersFit(blocks, nodes, before)
    requires if node in nodes then current == before else node.Header == before && current == before + NODE_SIZE
    ensures HeadersFit(blocks, nodes + {node}, current)
    ensures |nodes + {node}| == |nodes| + if node in nodes then 0 else 1
  {
    if node in nodes {
      assert nodes + {node} == nodes;
    } else {
      assert |nodes + {node}| == |nodes| + 1;
    }
  }

  lemma BlockAndNodeFit(blocks: set<Block>, nodes: set<Node>, block: Block, node: Node, header: int, current: int)
    requires HeadersFit(blocks, nodes, header) && block !in blocks && block.Header == header
    requires if node in nodes then current == header + BLOCK_SIZE
             else node.Header == header + BLOCK_SIZE && current == header + BLOCK_SIZE + NODE_SIZE
    ensures HeadersFit(blocks + {block}, nodes + {node}, current) && |blocks + {block}| == |blocks| + 1
    ensures |nodes + {node}| == |nodes| + if node in nodes then 0 else 1
  {
    hide HeadersFit;
    BlockFits(blocks, nodes, block, header);
    NodeFits(blocks + {block}, nodes, node, header + BLOCK_SIZE, current);
  }

  /** Page tables are at boot addresses or in live pages of the heap. */
  ghost predicate TablesLive(tables: set<int>, live: set<Payload>) {
    forall a :: a in tables ==> a < HEAP_BASE || Payload(a, PAGE_SIZE) in live
  }

  /**
   A directory entry shows the processor the frame behind the table's virtual address: the
   address itself for a boot table, the frame it is mapped to for one from the heap, which
   always lies in a mapped page.  (Of a table in frame 0 the mapping may change, for the code
   takes that for no mapping.)
   */
  ghost predicate Backed(frame: int, address: int, trans: map<int, Entry>, boot: set<int>) {
    && address % PAGE_SIZE == 0
    && if address < HEAP_BASE then address == frame * PAGE_SIZE && frame in boot
       else InWindow(PageOf(address)) && PageOf(address) in trans && (frame == 0 || trans[PageOf(address)].page == frame)
  }

  ghost predicate AllBacked(entries: seq<Entry>, addresses: seq<int>, trans: map<int, Entry>, boot: set<int>) {
    && |entries| == |addresses|
    && forall d :: 0 <= d < |entries| && Present in entries[d].attrs ==> Backed(entries[d].page, addresses[d], trans, boot)
  }

  lemma AllBackedStays(entries: seq<Entry>, addresses: seq<int>, before: map<int, Entry>, after: map<int, Entry>, boot: set<int>)
    requires AllBacked(entries, addresses, before, boot) && Keeps(before, after)
    ensures AllBacked(entries, addresses, after, boot)
  {
  }

  lemma AllBackedBeside(entries: seq<Entry>, addresses: seq<int>, trans: map<int, Entry>, page: int, e: Entry, boot: set<int>)
    requires AllBacked(entries, addresses, trans, boot) && !InWindow(page)
    ensures AllBacked(entries, addresses, trans[page := e], boot)
  {
  }

  /** A frame that the high search looks at is free, and below the address that a failed
      request seems to give.  Any existing free frame above 16 MB is one. */
  ghost predicate FramesLeft(words: seq<Word>, blocks: nat) {
    exists g :: BITS * LOW_WORDS <= g < BITS * blocks && g < NO_FRAME && g !in UsedSet(words)
  }

  /**
   The frames of the boot tables are reserved.  As long as frames are left, every page mapped
   in the window has a reserved frame that is no boot table's and that no other page of the
   window has.  (A low request that finds none gives its page the frame that a failed request
   seems to give.)
   */
  ghost predicate OwnFrames(trans: map<int, Entry>, words: seq<Word>, blocks: nat, boot: set<int>) {
    && boot <= UsedSet(words) && (forall f :: f in boot ==> 0 < f < BITS * LOW_WORDS)
    && (FramesLeft(words, blocks) ==>
          && (forall page :: page in trans && InWindow(page) ==> OwnFrame(trans[page].page, words, boot))
          && (forall p, q :: p in trans && q in trans && InWindow(p) && InWindow(q) && p != q ==>
                trans[p].page != trans[q].page || trans[p].page == NO_FRAME))
  }

  ghost predicate OwnFrame(frame: int, words: seq<Word>, boot: set<int>) {
    frame != 0 && frame !in boot && (frame == NO_FRAME || frame in UsedSet(words))
  }

  /** A request leaves the used frames used and takes one that was not. */
  lemma TakenIsNew(words: seq<Word>, blocks: nat, mask: int)
    requires LOW_WORDS < |words| && blocks < |words|
    ensures var f := FindFrame(words, blocks, mask, 1);
      && UsedSet(Taken(words, blocks, mask, 1)) == (if f == -1 then UsedSet(words) else UsedSet(words) + {f})
      && f !in UsedSet(words)
      && (FramesLeft(words, blocks) ==>
            f < NO_FRAME && PageOf(FrameAddress(f)) == (if f == -1 then NO_FRAME else f) && FrameAddress(f) != 0)
  {
    var f := FindFrame(words, blocks, mask, 1);
    if f != -1 {
      FitsIsFree(words, f);
      MarkRunUpdatesSet(words, f, 1, true);
    }
    if FramesLeft(words, blocks) {
      var g :| BITS * LOW_WORDS <= g < BITS * blocks && g < NO_FRAME && g !in UsedSet(words);
      FitsIsFree(words, g);
      assert FitsAt(words, g, 1);
    }
  }

  /** One page more, in the frame of one request. */
  lemma OwnFramesGrow(before: map<int, Entry>, after: map<int, Entry>, words: seq<Word>, blocks: nat, mask: int,
                      page: int, attrs: set<Attribute>, boot: set<int>)
    requires LOW_WORDS < |words| && blocks < |words| && OwnFrames(before, words, blocks, boot)
    requires KeepsBut(before, after, page, 1, true)
    requires MappedRun(after, page, 1, FrameAddress(FindFrame(words, blocks, mask, 1)), attrs)
    ensures OwnFrames(after, Taken(words, blocks, mask, 1), blocks, boot)
  {
    var f, words' := FindFrame(words, blocks, mask, 1), Taken(words, blocks, mask, 1);
    TakenIsNew(words, blocks, mask);
    hide UsedSet;
    hide Taken;
    hide FindFrame;
    if FramesLeft(words', blocks) {
      FramesWereLeft(words, words', blocks);
      assert after[page].page == PageOf(FrameAddress(f));
      hide FrameAddress;
      hide PageOf;
      hide FramesLeft;
      forall p | p in after && InWindow(p) && p != page ensures p in before && after[p] == before[p] {
        assert OwnFrame(before[p].page, words, boot);
      }
    }
  }

  lemma FramesWereLeft(words: seq<Word>, words': seq<Word>, blocks: nat)
    requires UsedSet(words) <= UsedSet(words')
    ensures FramesLeft(words', blocks) ==> FramesLeft(words, blocks)
  {
    hide UsedSet;
  }

  /** More reserved frames, or pages mapped outside the window, change nothing. */
  lemma OwnFramesStay(before: map<int, Entry>, after: map<int, Entry>, words: seq<Word>, words': seq<Word>, blocks: nat, boot: set<int>)
    requires OwnFrames(before, words, blocks, boot) && UsedSet(words) <= UsedSet(words')
    requires forall p :: InWindow(p) ==> EntryAt(after, p) == EntryAt(before, p)
    ensures OwnFrames(after, words', blocks, boot)
  {
    FramesWereLeft(words, words', blocks);
    hide UsedSet;
    hide FramesLeft;
    forall p | p in after && InWindow(p) ensures p in before && after[p] == before[p] {
      assert EntryAt(after, p) == EntryAt(before, p);
    }
  }

  /** The pages from lo are in frames that were free before and are reserved now. */
  ghost predicate RunReserved(words: seq<Word>, words': seq<Word>, trans: map<int, Entry>, lo: int, n: int) {
    forall page :: lo <= page < lo + n ==>
      page in trans && trans[page].page !in UsedSet(words) && trans[page].page in UsedSet(words')
  }

  lemma NextFrameIsAnother(f: int)
    requires 0 < f < PAGES
    ensures FrameAddress(f) == f * PAGE_SIZE != 0 && PageOf(FrameAddress(f) % WORD_LIMIT) == f
    ensures PageOf((FrameAddress(f) + PAGE_SIZE) % WORD_LIMIT) != f
  {
  }

  /**
   A mapping of n pages that is not asked to be contiguous requests one frame and then uses
   the n frames from there on.  They were free and are now reserved exactly when n is 1.
   */
  lemma MappedFramesAreTakenExactly(words: seq<Word>, blocks: nat, mask: int, trans: map<int, Entry>, lo: int, n: int, attrs: set<Attribute>)
    requires LOW_WORDS < |words| && blocks < |words| && 1 <= n && 0 <= FindFrame(words, blocks, mask, 1) < PAGES
    requires MappedRun(trans, lo, n, FrameAddress(FindFrame(words, blocks, mask, 1)), attrs)
    ensures RunReserved(words, Taken(words, blocks, mask, 1), trans, lo, n) <==> n == 1
  {
    var f := FindFrame(words, blocks, mask, 1);
    TakenIsNew(words, blocks, mask);
    hide UsedSet;
    hide Taken;
    hide FindFrame;
    NextFrameIsAnother(f);
    hide PageOf;
    assert trans[lo].page == PageOf((FrameAddress(f) + (lo - lo) * PAGE_SIZE) % WORD_LIMIT) == f;
    if n > 1 {
      assert trans[lo + 1].page == PageOf((FrameAddress(f) + (lo + 1 - lo) * PAGE_SIZE) % WORD_LIMIT) != f;
    }
  }

  predicate InWindow(page: int) {
    HEAP_BASE / PAGE_SIZE <= page < HEAP_END / PAGE_SIZE
  }

  lemma NewTableIsApart(tables: set<int>, live: set<Payload>, address: int)
    requires TablesLive(tables, live) && HEAP_BASE <= address
    requires forall q :: q in live ==> !Overlap(q, Payload(address, PAGE_SIZE))
    ensures address !in tables && TablesLive(tables + {address}, live + {Payload(address, PAGE_SIZE)})
  {
  }

  lemma TablesLiveOn(tables: set<int>, live: set<Payload>, live': set<Payload>)
    requires TablesLive(tables, live) && live <= live'
    ensures TablesLive(tables, live')
  {
  }

  /** An allocation that holds no table can go. */
  lemma TablesOutlive(tables: set<int>, live: set<Payload>, p: Payload)
    requires TablesLive(tables, live) && p.addr !in tables
    ensures TablesLive(tables, live - {p})
  {
  }

  /** The request that kmalloc_ap makes. */
  function PagesRequest(size: int): Request {
    Request(size, true, false, 0, 0xFFFF_FFFF)
  }

  /** One page costs at most one new page block. */
  lemma PageFits(h: HeapV)
    requires HeapInv(h)
    ensures var r := PagesRequest(PAGE_SIZE);
      && Admissible(r) && Adjust(r) == r && Ends(h, r) && Expansions(h, r) <= 1
      && Allocate(h, r).0.top <= h.top + LARGE_BLOCK
  {
    var r := PagesRequest(PAGE_SIZE);
    ServableEnds(h, r);
    if !Ready(h, r) {
      ExpandServes(h, r);
      ExpandDescends(h, r);
      hide Ready;
    }
  }

  /** The heap after it has given out n page tables. */
  function AfterTables(h: HeapV, n: nat): HeapV
    requires HeapInv(h)
    decreases n
  {
    if n == 0 then h
    else
      PageFits(h);
      AllocateKeeps(h, PagesRequest(PAGE_SIZE));
      AfterTables(Allocate(h, PagesRequest(PAGE_SIZE)).0, n - 1)
  }

  /** One table is one new live page. */
  lemma OneTable(h: HeapV)
    requires HeapInv(h)
    ensures var g := AfterTables(h, 1);
      && Ends(h, PagesRequest(PAGE_SIZE)) && g == Allocate(h, PagesRequest(PAGE_SIZE)).0 && HeapInv(g) && h.top <= g.top <= h.top + LARGE_BLOCK
    ensures exists p :: NewPage(p, h, AfterTables(h, 1))
  {
    PageFits(h);
    AllocateKeeps(h, PagesRequest(PAGE_SIZE));
    var r := Allocate(h, PagesRequest(PAGE_SIZE));
    var p := Payload(r.1, PAGE_SIZE);
    assert Overlap(p, p);
    assert NewPage(p, h, r.0) && AfterTables(r.0, 0) == r.0;
  }

  ghost predicate NewPage(p: Payload, h: HeapV, g: HeapV) {
    p !in HeapLive(h) && HeapLive(g) == HeapLive(h) + {p} && p.size == PAGE_SIZE && p.addr % PAGE_SIZE == 0
  }

  /** n tables are n new live pages, and everything that was live still is. */
  lemma {:induction false} AfterTablesKeeps(h: HeapV, n: nat)
    requires HeapInv(h)
    ensures HeapInv(AfterTables(h, n)) && h.top <= AfterTables(h, n).top <= h.top + n * LARGE_BLOCK
    ensures HeapLive(h) <= HeapLive(AfterTables(h, n)) && |HeapLive(AfterTables(h, n))| == |HeapLive(h)| + n
    ensures forall p :: p in HeapLive(AfterTables(h, n)) && p !in HeapLive(h) ==>
      p.size == PAGE_SIZE && p.addr % PAGE_SIZE == 0
    decreases n
  {
    hide HeapInv;
    hide Allocate;
    hide HeapLive;
    if n > 0 {
      OneTable(h);
      var g := AfterTables(h, 1);
      AfterTablesKeeps(g, n - 1);
      assert AfterTables(h, n) == AfterTables(g, n - 1);
    }
  }

  /** What is left to take after one more table, or none. */
  lemma AfterTablesNext(h: HeapV, k: nat, m: nat)
    requires HeapInv(h) && k <= 1
    ensures HeapInv(AfterTables(h, k)) && AfterTables(AfterTables(h, k), m) == AfterTables(h, k + m)
    ensures AfterTables(h, k).top <= h.top + k * LARGE_BLOCK
  {
    hide HeapInv;
    hide Allocate;
    if k == 1 {
      OneTable(h);
    }
  }

  /** How many entries of a directory from lo to hi have no table. */
  function Absent(entries: seq<Entry>, lo: int, hi: int): nat
    decreases hi - lo
  {
    if lo > hi then 0
    else (if 0 <= lo < |entries| && Present !in entries[lo].attrs then 1 else 0) + Absent(entries, lo + 1, hi)
  }

  lemma {:induction false} AbsentSame(a: seq<Entry>, b: seq<Entry>, lo: int, hi: int)
    requires |a| == |b| && forall c :: lo <= c < |a| && 0 <= c ==> (Present in a[c].attrs <==> Present in b[c].attrs)
    ensures Absent(a, lo, hi) == Absent(b, lo, hi)
    decreases hi - lo
  {
    if lo <= hi {
      AbsentSame(a, b, lo + 1, hi);
    }
  }

  lemma AbsentHere(a: seq<Entry>, d: int, hi: int)
    requires 0 <= d < |a| && d <= hi
    ensures Present !in a[d].attrs ==> Absent(a, d, hi) >= 1
  {
  }

  /** Once entry d has its table, at most the others are still missing. */
  lemma AbsentNext(a: seq<Entry>, b: seq<Entry>, d: int, d': int, hi: int)
    requires |a| == |b| && 0 <= d < |a| && d <= hi && d <= d' <= d + 1
    requires Present in b[d].attrs
    requires forall c :: 0 <= c < |a| && c != d ==> b[c] == a[c]
    ensures Absent(b, d', hi) + (if Present in a[d].attrs then 0 else 1) == Absent(a, d, hi)
    ensures d == hi ==> Absent(b, d', hi) == 0
  {
    AbsentSame(a, b, d + 1, hi);
    assert Absent(b, d, hi) == Absent(b, d + 1, hi);
  }

  /** How many tables the pages [page, limit) lack. */
  function MissingIn(entries: seq<Entry>, page: int, limit: int): nat {
    if page >= limit then 0 else Absent(entries, page / ENTRIES, (limit - 1) / ENTRIES)
  }

  /** One page on: its table is there now. */
  lemma MissingNext(a: seq<Entry>, b: seq<Entry>, page: int, limit: int)
    requires |a| == |b| == ENTRIES && 0 <= page < limit <= PAGES
    requires Present in b[page / ENTRIES].attrs
    requires forall c :: 0 <= c < |a| && c != page / ENTRIES ==> b[c] == a[c]
    ensures MissingIn(b, page + 1, limit) + (if Present in a[page / ENTRIES].attrs then 0 else 1) == MissingIn(a, page, limit)
  {
    AbsentNext(a, b, page / ENTRIES, (page + 1) / ENTRIES, (limit - 1) / ENTRIES);
  }

  lemma MissingHere(a: seq<Entry>, page: int, limit: int)
    requires |a| == ENTRIES && 0 <= page < limit <= PAGES
    ensures Present !in a[page / ENTRIES].attrs ==> MissingIn(a, page, limit) >= 1
  {
    AbsentHere(a, page / ENTRIES, (limit - 1) / ENTRIES);
  }

  /** There is room for k tables, and with them taken the heap will be as given and the header
      space end by the limit. */
  ghost predicate Plan(view: HeapV, headerMax: int, k: nat, goal: HeapV, headerEnd: int) {
    && HeapInv(view) && AfterTables(view, k) == goal && headerMax + 3 * k * PAGE_SIZE <= headerEnd
    && view.top + k * LARGE_BLOCK < HEAP_END && headerMax + 3 * k * PAGE_SIZE < HEAP_BASE + STATIC_OFFSET
  }

  lemma PlanNext(view: HeapV, headerMax: int, view': HeapV, headerMax': int, x: nat, k: nat, goal: HeapV, headerEnd: int)
    requires Plan(view, headerMax, x + k, goal, headerEnd) && x <= 1
    requires view' == AfterTables(view, x) && headerMax' <= headerMax + 3 * x * PAGE_SIZE
    ensures Plan(view', headerMax', k, goal, headerEnd)
  {
    AfterTablesNext(view, x, k);
  }

  lemma NextPage(address: int, itr: nat)
    requires IsWord(address) && PageOf(address) + itr < PAGES
    ensures IsWord(address + itr * PAGE_SIZE)
    ensures PageOf(address + itr * PAGE_SIZE) == PageOf(address) + itr && 0 <= PageOf(address)
    ensures DirIndex(address + itr * PAGE_SIZE) == (PageOf(address) + itr) / ENTRIES
  {
    IndexesOfAddress(address + itr * PAGE_SIZE);
  }

  /** How many pages HeapCommitPages looks at. */
  function CommitCount(address: int, size: int): int {
    DivUp(size, PAGE_SIZE) + (if PageOf(address) != PageOf(address + size - 1) then 1 else 0)
  }

  /** They are all that the range meets, for every alignment of the address, and at most one more. */
  lemma CommitCovers(address: int, size: int)
    requires 0 <= address && 0 < size
    ensures var last := PageOf(address + size - 1);
      last < PageOf(address) + CommitCount(address, size) <= last + 2
  {
    assert address == PageOf(address) * PAGE_SIZE + address % PAGE_SIZE;
  }

  /** The page too many: in a range of several pages, exactly when the last byte lies no
      further in its page than the first can be moved. */
  lemma CommitExtraExactly(address: int, size: int)
    requires 0 <= address && 0 < size
    ensures var first, last := PageOf(address), PageOf(address + size - 1);
      CommitCount(address, size) == last - first + 1 +
        (if first != last && address % PAGE_SIZE + (size - 1) % PAGE_SIZE < PAGE_SIZE then 1 else 0)
  {
    assert address == PageOf(address) * PAGE_SIZE + address % PAGE_SIZE;
    assert size - 1 == (size - 1) / PAGE_SIZE * PAGE_SIZE + (size - 1) % PAGE_SIZE;
  }

  /** A block places a request exactly when a node suits. */
  lemma PlacedWhenSuiting(b: BlockV, a: Request)
    ensures PlaceIn(b, a).Placed? <==> FirstSuiting(b.cells, a.size, a.align, b.kind.VeryLarge?) < |b.cells|
  {
  }

  /** An address that a block hands out is not 0, the code's sign of failure. */
  lemma AcceptedAddress(h: HeapV, k: Kind, i: nat, a: Request)
    requires HeapInv(h) && i < |List(h, k)| && Fitting(a, k)
    ensures Accepts(List(h, k)[i], a) ==> PlaceIn(List(h, k)[i], a).addr != 0
  {
    if Accepts(List(h, k)[i], a) {
      ServeKeeps(List(h, k)[i], k, h.top, a);
    }
  }

  /** The first block that accepts is the one that is taken. */
  lemma FoundAt(h: HeapV, a: Request, i: nat)
    requires i < |List(h, KindOf(a))| && Accepts(List(h, KindOf(a))[i], a)
    requires forall j :: 0 <= j < i ==> !Accepts(List(h, KindOf(a))[j], a)
    ensures Found(h, a)
    ensures var k := KindOf(a);
      TakeFound(h, a) == (WithList(h, k, List(h, k)[i := Serve(List(h, k)[i], a)]), PlaceIn(List(h, k)[i], a).addr)
  {
    hide Accepts;
    assert FirstAccepting(List(h, KindOf(a)), a) == i;
  }

  lemma NotFound(h: HeapV, a: Request)
    requires forall j :: 0 <= j < |List(h, KindOf(a))| ==> !Accepts(List(h, KindOf(a))[j], a)
    ensures !Found(h, a)
  {
    hide Accepts;
  }

  lemma FittingRequest(a: Request)
    requires Admissible(a) && (KindOf(a).Aligned? ==> a.size % PAGE_SIZE == 0)
    ensures Fitting(a, KindOf(a))
  {
  }

  /** Taking the space first and linking the block second is what an expansion does. */
  lemma GrowThenAppend(h: HeapV, a: Request)
    ensures var k, size := KindOf(a), if a.big then a.size else if a.page then LARGE_BLOCK else NORMAL_BLOCK;
      && k == (if a.big then VeryLarge else if a.page then Aligned else Normal)
      && var g := h.(top := h.top + size);
         WithList(g, k, List(g, k) + [BlockV(h.top, size, k, a.mask, size, [Cell(h.top, size, None)])]) == Expand(h, a)
  {
  }

  lemma OnTop(h: HeapV, k: Kind, top: int)
    ensures List(h.(top := top), k) == List(h, k)
    ensures forall list :: WithList(h.(top := top), k, list) == WithList(h, k, list).(top := top)
    ensures forall b: BlockV :: [] + [b] == [b]
  {
  }

  /** What one attempt of HeapAllocate rests on. */
  lemma OneAttempt(h: HeapV, r: Request)
    requires HeapInv(h) && Admissible(r) && Ends(h, r)
    ensures var a := Adjust(r);
      && Admissible(a) && a.size > 0 && a.mask == r.mask && Adjust(a).size == a.size && (KindOf(a).Aligned? ==> a.size % PAGE_SIZE == 0)
      && |List(h, Normal)| > 0 && |List(h, Aligned)| > 0
      && (if Found(h, a) then
            && Allocate(h, r) == TakeFound(h, a) && Expansions(h, r) == 0
            && DATA_START <= Allocate(h, r).1 && Allocate(h, r).1 + a.size <= Allocate(h, r).0.top
          else
            && HeapInv(Expand(h, a)) && HeapLive(Expand(h, a)) == HeapLive(h) && Ends(Expand(h, a), a)
            && Expansions(Expand(h, a), a) + 1 == Expansions(h, r)
            && Allocate(h, r) == Allocate(Expand(h, a), a) && Expand(h, a).top <= Allocate(h, r).0.top)
      && Allocated(h, r, Allocate(h, r).0, Allocate(h, r).1)
      && HeapInv(Allocate(h, r).0) && Allocate(h, r).0.top % PAGE_SIZE == 0
      && HeapLive(h) <= HeapLive(Allocate(h, r).0)
  {
    AdjustProperties(r);
    AdjustAdmissible(r);
    AllocateKeeps(h, r);
    if !Found(h, Adjust(r)) {
      ExpandKeeps(h, r);
      ExpandDescends(h, r);
      AllocateKeeps(Expand(h, Adjust(r)), Adjust(r));
    }
  }

  lemma LiveInWindow(h: HeapV, p: Payload)
    requires HeapInv(h) && p in HeapLive(h)
    ensures DATA_START <= p.addr && p.addr + p.size <= h.top
  {
    var (k, i) := Whereabouts(h, p);
    LiveInBlock(List(h, k)[i], k, h.top, p);
  }

  /** What does not lie in the page that starts at v lies in another page. */
  lemma OtherPage(a: int, v: int)
    requires v % PAGE_SIZE == 0
    ensures a < v || v + PAGE_SIZE <= a ==> PageOf(a) != PageOf(v)
  {
  }

  /** Addresses are given by their page and their place in it. */
  lemma SamePlace(a: int, b: int)
    ensures PageOf(a) == PageOf(b) && a % PAGE_SIZE == b % PAGE_SIZE ==> a == b
    ensures forall f, g :: f * PAGE_SIZE + a % PAGE_SIZE == g * PAGE_SIZE + b % PAGE_SIZE ==> f == g && a % PAGE_SIZE == b % PAGE_SIZE
    ensures forall f :: PageOf(f * PAGE_SIZE + a % PAGE_SIZE) == f
  {
  }

  class Kernel {
    const heap: Heap
    const dir: PageDirectory
    const frames: FrameMap
    /** The frames that hold the tables made at boot. */
    ghost const BootFrames: set<int>

    constructor (heap: Heap, dir: PageDirectory, frames: FrameMap, ghost boot: set<int>)
      ensures this.heap == heap && this.dir == dir && this.frames == frames && BootFrames == boot
    {
      this.heap, this.dir, this.frames, this.BootFrames := heap, dir, frames, boot;
    }

    /** The page tables are sound and those of the heap window exist. */
    ghost predicate PagingOk()
      reads dir, dir.pTables, dir.vTables
    {
      && dir.pTables.Length == ENTRIES && dir.Valid() && frames.Valid()
      && forall d :: DirIndex(HEAP_BASE) <= d < DirIndex(HEAP_END) ==> dir.HasTable(d)
    }

    lemma AllEntries()
      requires PagingOk()
      ensures dir.pTables.Length == ENTRIES
    {
    }

    /** The header pages up to the limit are mapped, those above are not, and the pages of the
        window have frames of their own. */
    ghost predicate WindowOk()
      reads heap`HeapBase, heap`MemHeaderCurrent, heap`MemHeaderMax, dir`Trans, frames.MemoryBitmap
    {
      && OwnFrames(dir.Trans, frames.MemoryBitmap[..], frames.MemoryBlocks, BootFrames)
      && heap.HeapBase == HEAP_BASE
      && HEAP_BASE <= heap.MemHeaderCurrent <= heap.MemHeaderMax <= DATA_START
      && heap.MemHeaderMax % PAGE_SIZE == 0
      && forall page :: HEAP_BASE / PAGE_SIZE <= page < DATA_START / PAGE_SIZE ==>
           (page in dir.Trans <==> page < heap.MemHeaderMax / PAGE_SIZE)
    }

    /** Room for k more header pages. */
    predicate HeaderRoom(k: nat)
      reads heap`MemHeaderMax
    {
      heap.MemHeaderMax + k * PAGE_SIZE < HEAP_BASE + STATIC_OFFSET
    }

    /** Every header lies in header space, and every node header is in a block or recycled:
        none is ever lost. */
    ghost predicate HeadersOk()
      reads heap`Owned, heap`Nodes, heap`MemHeaderCurrent, heap`Recycled, heap`View
    {
      && HeadersFit(heap.Owned, heap.Nodes, heap.MemHeaderCurrent)
      && |heap.Nodes| == |heap.Recycled| + CellCount(heap.View) && |heap.Owned| == BlockCount(heap.View)
    }

    lemma HeadersHeld()
      requires HeadersOk()
      ensures HeadersFit(heap.Owned, heap.Nodes, heap.MemHeaderCurrent)
      ensures |heap.Nodes| == |heap.Recycled| + CellCount(heap.View) && |heap.Owned| == BlockCount(heap.View)
    {
    }

    lemma HeadersHold()
      requires HeadersFit(heap.Owned, heap.Nodes, heap.MemHeaderCurrent)
      requires |heap.Nodes| == |heap.Recycled| + CellCount(heap.View) && |heap.Owned| == BlockCount(heap.View)
      ensures HeadersOk()
    {
    }

    /** What a call has mapped in the window, and that it has unmapped nothing. */
    ghost predicate Grew(before: map<int, Entry>, words: seq<Word>, lo: int, n: int, mask: int)
      reads dir`Trans, frames.MemoryBitmap
    {
      && Keeps(before, dir.Trans)
      && Grown(before, words, dir.Trans, frames.MemoryBitmap[..], frames.MemoryBlocks, lo, n, mask)
    }

    lemma GrewItself(lo: int, n: int, mask: int)
      ensures Grew(dir.Trans, frames.MemoryBitmap[..], lo, n, mask)
    {
      KeepsItself(dir.Trans);
      GrownItself(dir.Trans, frames.MemoryBitmap[..], frames.MemoryBlocks, lo, n, mask);
    }

    /** Headers first, then data. */
    lemma GrewOn(before: map<int, Entry>, words: seq<Word>, mid: map<int, Entry>, words': seq<Word>, lo: int, n: int, mask: int)
      requires Keeps(before, mid) && Grown(before, words, mid, words', frames.MemoryBlocks, 0, 0, 0)
      requires Grew(mid, words', lo, n, mask)
      ensures Grew(before, words, lo, n, mask)
    {
      GrownWiden(before, words, mid, words', frames.MemoryBlocks, 0, 0, 0, lo, n, mask);
      GrownTransitive(before, words, mid, words', dir.Trans, frames.MemoryBitmap[..], frames.MemoryBlocks, lo, n, mask);
    }

    /** Everything the kernel's memory manager keeps between calls. */
    ghost predicate Ok()
      reads dir, dir.pTables, dir.vTables, frames.MemoryBitmap
      reads heap, heap.Owned, heap.Nodes
    {
      && PagingOk() && WindowOk()
      && heap.Valid() && HeapInv(heap.View) && heap.View.top < HEAP_END && HeadersOk()
      && TablesLive(dir.Tables, HeapLive(heap.View))
      && AllBacked(dir.pTables[..], dir.vTables[..], dir.Trans, BootFrames)
    }

    /** Room for k page tables, in the worst case a new page block each. */
    ghost predicate RoomForTables(k: nat)
      reads heap
    {
      heap.View.top + k * LARGE_BLOCK < HEAP_END && HeaderRoom(3 * k)
    }

    /** Room for the tables that the pages [page, limit) still lack. */
    ghost predicate RoomForRange(page: int, limit: int)
      reads heap, dir.pTables
    {
      RoomForTables(Missing(page, limit))
    }

    /** How many tables they lack. */
    ghost function Missing(page: int, limit: int): nat
      reads dir.pTables
    {
      MissingIn(dir.pTables[..], page, limit)
    }

    /** The heap has given out n tables since it was as given. */
    ghost predicate TablesTaken(view: HeapV, headerMax: int, n: nat)
      reads heap`View, heap`MemHeaderMax
    {
      HeapInv(view) && heap.View == AfterTables(view, n) && heap.MemHeaderMax <= headerMax + 3 * n * PAGE_SIZE
    }

    /** A mapping outside the window, with the pages [page, limit) still to do. */
    ghost predicate Underway(page: int, limit: int, goal: HeapV, headerEnd: int)
      reads dir, dir.pTables, dir.vTables, frames.MemoryBitmap
      reads heap, heap.Owned, heap.Nodes
    {
      Ok() && Plan(heap.View, heap.MemHeaderMax, Missing(page, limit), goal, headerEnd)
    }

    lemma Target(page: int, limit: int) returns (goal: HeapV, headerEnd: int)
      requires Ok() && RoomForRange(page, limit)
      ensures HeapInv(heap.View) && Underway(page, limit, goal, headerEnd)
      ensures goal == AfterTables(heap.View, Missing(page, limit))
      ensures headerEnd == heap.MemHeaderMax + 3 * Missing(page, limit) * PAGE_SIZE
    {
      goal := AfterTables(heap.View, Missing(page, limit));
      headerEnd := heap.MemHeaderMax + 3 * Missing(page, limit) * PAGE_SIZE;
    }

    lemma EnoughForOne(page: int, limit: int, goal: HeapV, headerEnd: int)
      requires Underway(page, limit, goal, headerEnd)
      ensures Missing(page, limit) >= 1 ==> RoomForTables(1)
    {
    }

    lemma Arrived(limit: int, goal: HeapV, headerEnd: int)
      requires Underway(limit, limit, goal, headerEnd)
      ensures Ok() && heap.View == goal && heap.MemHeaderMax <= headerEnd
    {
    }

    /** What a call on an address outside the window may change besides translations. */
    ghost function Outside(): set<object>
      reads heap`Owned, heap`Nodes
    {
      {dir, dir.pTables, dir.vTables, heap} + heap.Owned + heap.Nodes
    }

    // ---------- Mapping ----------

    /**
     MmVirtualMap.  For a heap address only one entry of an existing table changes; for
     another address whose table is missing, the table comes from the heap.
     */
    method MmVirtualMap(physical: int, address: int, flags: set<Attribute>)
      requires PagingOk() && IsWord(address)
      requires !InWindow(PageOf(address)) ==> Ok() && (dir.HasTable(DirIndex(address)) || RoomForTables(1))
      modifies dir`Trans, dir`tables, frames`MemoryBlocksUsed, frames.MemoryBitmap
      modifies if InWindow(PageOf(address)) then {} else Outside()
      ensures PagingOk()
      ensures PageOf(address) in dir.Trans && dir.Trans[PageOf(address)] == Entry(PageOf(physical), {Present, Write} + flags)
      ensures forall a :: IsWord(a) && PageOf(a) == PageOf(address) ==>
        dir.MmVirtualGetMapping(a) == physical / PAGE_SIZE * PAGE_SIZE + a % PAGE_SIZE
      ensures KeepsBut(old(dir.Trans), dir.Trans, PageOf(address), 1, InWindow(PageOf(address)))
      ensures InWindow(PageOf(address)) ==>
        dir.Trans == old(dir.Trans)[PageOf(address) := Entry(PageOf(physical), {Present, Write} + flags)] &&
        frames.MemoryBitmap[..] == old(frames.MemoryBitmap[..])
      ensures !InWindow(PageOf(address)) ==>
        Ok() && MappedOutside(old(dir.pTables[..]), DirIndex(address), old(heap.View), old(heap.MemHeaderMax), flags)
      ensures fresh(heap.Owned - old(heap.Owned)) && fresh(heap.Nodes - old(heap.Nodes))
      decreases if InWindow(PageOf(address)) then 0 else 7, 0
    {
      hide Kernel.HeadersOk;
      hide Grown;
      hide FrameFor;
      hide FramesLeft;
      hide Allocate;
      hide Allocated;
      hide Expand;
      hide Found;
      hide HeapLive;
      hide TablesLive;
      hide HeapInv;
      hide Heap.Valid;
      IndexesOfAddress(address);
      var d := DirIndex(address);
      if !dir.HasTable(d) {
        assert !InWindow(PageOf(address));
        AddTable(d, flags);
      }
      hide Kernel.Ok;
      WritePage(physical, address, flags);
    }

    /** The entry is written; outside the window the memory manager stays sound. */
    method WritePage(physical: int, address: int, flags: set<Attribute>)
      requires PagingOk() && IsWord(address) && dir.HasTable(DirIndex(address))
      modifies dir`Trans, dir`tables
      ensures PagingOk()
      ensures dir.Trans == old(dir.Trans)[PageOf(address) := Entry(PageOf(physical), {Present, Write} + flags)]
      ensures old(Ok()) && !InWindow(PageOf(address)) ==> Ok()
    {
      hide PageDirectory.Valid;
      hide Kernel.HeadersOk;
      hide HeapLive;
      hide TablesLive;
      hide HeapInv;
      hide Heap.Valid;
      ghost var entries, addresses, trans := dir.pTables[..], dir.vTables[..], dir.Trans;
      dir.SetPage(address, physical, flags);
      if old(Ok()) && !InWindow(PageOf(address)) {
        AllBackedBeside(entries, addresses, trans, PageOf(address), dir.Trans[PageOf(address)], BootFrames);
        OwnFramesStay(trans, dir.Trans, frames.MemoryBitmap[..], frames.MemoryBitmap[..], frames.MemoryBlocks, BootFrames);
        hide AllBacked;
        hide OwnFrames;
      }
    }

    /** Entry d shows the frame that its table, which came from the heap, lies in. */
    ghost predicate TableShown(d: int)
      requires 0 <= d < dir.pTables.Length && d < dir.vTables.Length
      reads dir.pTables, dir.vTables, dir`Trans
    {
      var page := PageOf(dir.vTables[d]);
      && DATA_START / PAGE_SIZE <= page && InWindow(page) && page in dir.Trans && dir.vTables[d] % PAGE_SIZE == 0
      && dir.pTables[d].page == dir.Trans[page].page
    }

    /** As long as frames are left it is not frame 0. */
    lemma ShownFrame(d: int)
      requires WindowOk() && 0 <= d < dir.pTables.Length && d < dir.vTables.Length && TableShown(d)
      ensures FramesLeft(frames.MemoryBitmap[..], frames.MemoryBlocks) ==> dir.pTables[d].page != 0
    {
      hide FramesLeft;
    }

    /** Entry d has its table now, and what that took from the heap. */
    ghost predicate MappedOutside(entries: seq<Entry>, d: int, view: HeapV, headerMax: int, flags: set<Attribute>)
      reads dir.pTables, dir.vTables, dir`Trans, heap`View, heap`MemHeaderMax
    {
      && dir.vTables.Length == dir.pTables.Length
      && 0 <= d < |entries| == dir.pTables.Length
      && (if Present in entries[d].attrs then dir.pTables[d] == entries[d]
          else dir.pTables[d].attrs == {Present, Write} + flags && TableShown(d))
      && (forall c :: 0 <= c < |entries| && c != d ==> dir.pTables[c] == entries[c])
      && TablesTaken(view, headerMax, if Present in entries[d].attrs then 0 else 1)
    }

    /** The part of MmVirtualMap that gets a missing table from the heap. */
    method AddTable(d: int, flags: set<Attribute>)
      requires Ok() && 0 <= d < ENTRIES && !dir.HasTable(d) && RoomForTables(1)
      modifies dir, dir.pTables, dir.vTables, frames`MemoryBlocksUsed, frames.MemoryBitmap, Outside()
      ensures Ok() && dir.HasTable(d)
      ensures MappedOutside(old(dir.pTables[..]), d, old(heap.View), old(heap.MemHeaderMax), flags)
      ensures Grew(old(dir.Trans), old(frames.MemoryBitmap[..]), PageOf(dir.vTables[d]), 1, 0xFFFF_FFFF)
      ensures FramesLeft(frames.MemoryBitmap[..], frames.MemoryBlocks) ==> dir.pTables[d].page != 0
      ensures fresh(heap.Owned - old(heap.Owned)) && fresh(heap.Nodes - old(heap.Nodes))
      decreases 6, 1
    {
      hide Kernel.HeadersOk;
      hide Grown;
      hide FrameFor;
      hide FramesLeft;
      hide Keeps;
      hide Kernel.WindowOk;
      hide PageDirectory.Valid;
      hide Allocate;
      hide Expand;
      hide Found;
      hide HeapLive;
      hide TablesLive;
      hide HeapInv;
      hide Heap.Valid;
      PageFits(heap.View);
      var address, physical := KmallocAp(PAGE_SIZE);
      EmptyTable(d, address, physical, flags, old(HeapLive(heap.View)));
      ShownFrame(d);
    }

    /** The zeroed page becomes the table of entry d.  It is none of the tables in use, since
        those are other live allocations of the heap. */
    method EmptyTable(d: int, address: int, physical: int, flags: set<Attribute>, ghost live: set<Payload>)
      requires PagingOk() && 0 <= d < ENTRIES && !dir.HasTable(d)
      requires TablesLive(dir.Tables, live) && HEAP_BASE <= address && AllBacked(dir.pTables[..], dir.vTables[..], dir.Trans, BootFrames)
      requires InWindow(PageOf(address)) && address % PAGE_SIZE == 0
      requires PageOf(address) in dir.Trans && physical == dir.Trans[PageOf(address)].page * PAGE_SIZE
      requires forall q :: q in live ==> !Overlap(q, Payload(address, PAGE_SIZE))
      modifies dir, dir.pTables, dir.vTables
      ensures PagingOk() && dir.HasTable(d) && dir.Trans == old(dir.Trans)
      ensures AllBacked(dir.pTables[..], dir.vTables[..], dir.Trans, BootFrames)
      ensures TablesLive(dir.Tables, live + {Payload(address, PAGE_SIZE)})
      ensures dir.pTables[d] == Entry(physical / PAGE_SIZE, {Present, Write} + flags) && dir.vTables[d] == address
      ensures forall c :: 0 <= c < ENTRIES && c != d ==> dir.pTables[c] == old(dir.pTables[c])
    {
      NewTableIsApart(dir.Tables, live, address);
      forall c | 0 <= c < ENTRIES && dir.HasTable(c) ensures dir.vTables[c] in dir.Tables {
        assert dir.TableOk(c);
      }
      dir.InstallEmptyTable(d, Entry(physical / PAGE_SIZE, {Present, Write} + flags), address);
      forall c | DirIndex(HEAP_BASE) <= c < DirIndex(HEAP_END) ensures dir.HasTable(c) {
        assert c == d || old(dir.HasTable(c));
      }
    }

    /** kmalloc_ap: page-aligned kernel memory and the physical address behind it. */
    method KmallocAp(size: int) returns (address: int, physical: int)
      requires Ok() && Admissible(PagesRequest(size)) && Fits(PagesRequest(size))
      modifies dir`Trans, dir`tables, frames`MemoryBlocksUsed, frames.MemoryBitmap, heap, heap.Owned, heap.Nodes
      ensures Ok() && Grew(old(dir.Trans), old(frames.MemoryBitmap[..]), PageOf(address), Committed(PagesRequest(size), address, true), 0xFFFF_FFFF)
      ensures (heap.View, address) == Allocate(old(heap.View), PagesRequest(size))
      ensures forall page :: PageOf(address) <= page <= PageOf(address + Adjust(PagesRequest(size)).size - 1) ==> page in dir.Trans
      ensures PageOf(address) in dir.Trans && address % PAGE_SIZE == 0 && physical == dir.Trans[PageOf(address)].page * PAGE_SIZE
      ensures Allocated(old(heap.View), PagesRequest(size), heap.View, address)
      ensures heap.MemHeaderMax <= old(heap.MemHeaderMax + (1 + 2 * Expansions(heap.View, PagesRequest(size))) * PAGE_SIZE)
      ensures IsWord(address)
      ensures fresh(heap.Owned - old(heap.Owned)) && fresh(heap.Nodes - old(heap.Nodes))
      decreases 6, 0
    {
      hide Kernel.HeadersOk;
      hide Grown;
      hide Kernel.WindowOk;
      hide HeapInv;
      hide Heap.Valid;
      AllocateKeeps(heap.View, PagesRequest(size));
      address := HeapAllocate(PagesRequest(size), true);
      physical := dir.MmVirtualGetMapping(address);
    }

    /** All of the n pages lie in the heap's window, or all of them outside. */
    static predicate Inside(page: int, n: int) { InWindow(page) && InWindow(page + n - 1) }

    static predicate Clear(page: int, n: int) {
      page + n <= HEAP_BASE / PAGE_SIZE || HEAP_END / PAGE_SIZE <= page
    }

    static lemma OnItsSide(page: int, n: int, i: nat)
      requires i < n
      ensures Inside(page, n) ==> InWindow(page + i)
      ensures Clear(page, n) ==> !InWindow(page + i) && (page + i < HEAP_BASE / PAGE_SIZE || HEAP_END / PAGE_SIZE <= page)
    {
    }

    /** The physical address that the first page of a mapping gets. */
    ghost function FirstFrame(mask: int, flags: MapFlags, n: nat): int
      requires frames.Valid()
      reads frames.MemoryBitmap
    {
      FrameAddress(FindFrame(frames.MemoryBitmap[..], frames.MemoryBlocks, mask, if flags.contiguous then n else 1))
    }

    /**
     AddressSpaceMap.  Whether asked for or not, the pages after the first get the frames
     that follow the first one's.
     */
    method AddressSpaceMap(address: int, size: int, mask: int, flags: MapFlags) returns (physicalBase: int)
      requires PagingOk() && IsWord(address) && 0 < size
      requires PageOf(address) + DivUp(size, PAGE_SIZE) <= PAGES
      requires flags.contiguous ==> RoomFor(frames.MemoryBitmap.Length, frames.MemoryBlocks, DivUp(size, PAGE_SIZE))
      requires Inside(PageOf(address), DivUp(size, PAGE_SIZE)) || (Clear(PageOf(address), DivUp(size, PAGE_SIZE)) && Ok() &&
        RoomForRange(PageOf(address), PageOf(address) + DivUp(size, PAGE_SIZE)))
      modifies dir`Trans, dir`tables, frames`MemoryBlocksUsed, frames.MemoryBitmap
      modifies if Inside(PageOf(address), DivUp(size, PAGE_SIZE)) then {} else Outside()
      ensures PagingOk()
      ensures old(FirstFrame(mask, flags, DivUp(size, PAGE_SIZE))) != 0 ==>
        physicalBase == old(FirstFrame(mask, flags, DivUp(size, PAGE_SIZE)))
      ensures MappedRun(dir.Trans, PageOf(address), DivUp(size, PAGE_SIZE),
                        old(FirstFrame(mask, flags, DivUp(size, PAGE_SIZE))), flags.Attributes())
      ensures KeepsBut(old(dir.Trans), dir.Trans, PageOf(address), DivUp(size, PAGE_SIZE),
                       Inside(PageOf(address), DivUp(size, PAGE_SIZE)))
      ensures !Inside(PageOf(address), DivUp(size, PAGE_SIZE)) ==>
        Ok() && TablesTaken(old(heap.View), old(heap.MemHeaderMax),
                            old(Missing(PageOf(address), PageOf(address) + DivUp(size, PAGE_SIZE))))
      ensures Inside(PageOf(address), DivUp(size, PAGE_SIZE)) &&
              (old(FirstFrame(mask, flags, DivUp(size, PAGE_SIZE))) != 0 || (size <= PAGE_SIZE && !flags.contiguous)) ==>
        frames.MemoryBitmap[..] == Taken(old(frames.MemoryBitmap[..]), frames.MemoryBlocks, mask,
                                         if flags.contiguous then DivUp(size, PAGE_SIZE) else 1)
      ensures Inside(PageOf(address), DivUp(size, PAGE_SIZE)) && !flags.contiguous &&
              0 <= old(FindFrame(frames.MemoryBitmap[..], frames.MemoryBlocks, mask, 1)) < PAGES ==>
        (size <= PAGE_SIZE <==>
         RunReserved(old(frames.MemoryBitmap[..]), frames.MemoryBitmap[..], dir.Trans, PageOf(address), DivUp(size, PAGE_SIZE)))
      ensures fresh(heap.Owned - old(heap.Owned)) && fresh(heap.Nodes - old(heap.Nodes))
      decreases if Inside(PageOf(address), DivUp(size, PAGE_SIZE)) then 1 else 8, 0
    {
      hide AfterTables;
      hide OwnFrames;
      hide RunReserved;
      hide FramesLeft;
      hide Taken;
      hide FindFrame;
      hide Kernel.Missing;
      hide HeapInv;
      hide Heap.Valid;
      hide PageDirectory.Valid;
      hide Kernel.Ok;
      hide Kernel.RoomForRange;
      hide Kernel.Underway;
      hide Kernel.Inside;
      hide KeepsBut;
      hide MappedRun;
      hide RoomFor;
      hide MapFlags.Attributes;
      PagesOf(size);
      hide DivUp;
      ghost var lo, first := PageOf(address), FirstFrame(mask, flags, DivUp(size, PAGE_SIZE));
      var pageCount := DivUp(size, PAGE_SIZE);
      ghost var frame := FindFrame(frames.MemoryBitmap[..], frames.MemoryBlocks, mask, 1);
      physicalBase := 0;
      if flags.contiguous {
        physicalBase := Reserve(mask, pageCount);
      }
      ghost var goal, headerEnd := heap.View, 0;
      if !Inside(lo, pageCount) {
        goal, headerEnd := Target(lo, lo + pageCount);
      }
      physicalBase := MapPages(physicalBase, address, pageCount, mask, flags, first, goal, headerEnd);
      if !Inside(lo, pageCount) {
        Arrived(lo + pageCount, goal, headerEnd);
      } else if !flags.contiguous && 0 <= frame < PAGES {
        MappedFramesAreTakenExactly(old(frames.MemoryBitmap[..]), frames.MemoryBlocks, mask, dir.Trans, lo, pageCount, flags.Attributes());
      }
    }

    /** The loop of AddressSpaceMap. */
    method MapPages(physicalBase: int, address: int, pageCount: nat, mask: int, flags: MapFlags,
                    ghost first: int, ghost goal: HeapV, ghost headerEnd: int) returns (base: int)
      requires PagingOk() && IsWord(address) && 0 < pageCount && PageOf(address) + pageCount <= PAGES
      requires !flags.contiguous ==> physicalBase == 0 && first == FirstFrame(mask, flags, pageCount)
      requires flags.contiguous && first != 0 ==> physicalBase == first
      requires Inside(PageOf(address), pageCount) || (Clear(PageOf(address), pageCount) &&
        Underway(PageOf(address), PageOf(address) + pageCount, goal, headerEnd))
      modifies dir`Trans, dir`tables, frames`MemoryBlocksUsed, frames.MemoryBitmap
      modifies if Inside(PageOf(address), pageCount) then {} else Outside()
      ensures PagingOk() && (first != 0 ==> base == first)
      ensures MappedRun(dir.Trans, PageOf(address), pageCount, first, flags.Attributes())
      ensures KeepsBut(old(dir.Trans), dir.Trans, PageOf(address), pageCount, Inside(PageOf(address), pageCount))
      ensures Inside(PageOf(address), pageCount) && (first != 0 || (pageCount == 1 && !flags.contiguous)) ==>
        frames.MemoryBitmap[..] ==
        (if flags.contiguous then old(frames.MemoryBitmap[..]) else Taken(old(frames.MemoryBitmap[..]), frames.MemoryBlocks, mask, 1))
      ensures fresh(heap.Owned - old(heap.Owned)) && fresh(heap.Nodes - old(heap.Nodes))
      ensures !Inside(PageOf(address), pageCount) ==> Underway(PageOf(address) + pageCount, PageOf(address) + pageCount, goal, headerEnd)
      decreases if Inside(PageOf(address), pageCount) then 0 else 7, 3
    {
      hide Taken;
      hide FindFrame;
      hide PageDirectory.Valid;
      hide Kernel.Underway;
      hide Kernel.Inside;
      hide KeepsBut;
      hide MappedRun;
      ghost var lo := PageOf(address);
      NothingMapped(dir.Trans, lo, first, flags.Attributes(), Inside(lo, pageCount));
      base := physicalBase;
      var itr := 0;
      while itr < pageCount
        invariant 0 <= itr <= pageCount && PagingOk()
        invariant itr == 0 && !flags.contiguous ==> base == 0 && first == FirstFrame(mask, flags, pageCount)
        invariant (itr > 0 || flags.contiguous) && first != 0 ==> base == first
        invariant MappedRun(dir.Trans, lo, itr, first, flags.Attributes())
        invariant KeepsBut(old(dir.Trans), dir.Trans, lo, itr, Inside(lo, pageCount))
        invariant Inside(lo, pageCount) && (first != 0 || (pageCount == 1 && !flags.contiguous)) ==>
          frames.MemoryBitmap[..] ==
          (if itr == 0 || flags.contiguous then old(frames.MemoryBitmap[..])
           else Taken(old(frames.MemoryBitmap[..]), frames.MemoryBlocks, mask, 1))
        invariant fresh(heap.Owned - old(heap.Owned)) && fresh(heap.Nodes - old(heap.Nodes))
        invariant !Inside(lo, pageCount) ==> Underway(lo + itr, lo + pageCount, goal, headerEnd)
      {
        base := MapPage(base, address, itr, pageCount, mask, flags, old(dir.Trans), first, goal, headerEnd);
        itr := itr + 1;
      }
    }

    /** A request to the frame allocator; the memory manager stays sound. */
    method Reserve(mask: int, count: int) returns (address: int)
      requires frames.Valid() && 0 <= count && RoomFor(frames.MemoryBitmap.Length, frames.MemoryBlocks, count)
      modifies frames`MemoryBlocksUsed, frames.MemoryBitmap
      ensures address == FrameAddress(FindFrame(old(frames.MemoryBitmap[..]), frames.MemoryBlocks, mask, count))
      ensures frames.MemoryBitmap[..] == Taken(old(frames.MemoryBitmap[..]), frames.MemoryBlocks, mask, count)
      ensures old(Ok()) ==> Ok()
    {
      hide PageDirectory.Valid;
      hide Heap.Valid;
      hide HeapInv;
      hide TablesLive;
      hide AllBacked;
      hide OwnFrames;
      ghost var words := frames.MemoryBitmap[..];
      ghost var frame := FindFrame(words, frames.MemoryBlocks, mask, count);
      address := frames.MmPhysicalAllocateBlock(mask, count);
      if frame != -1 {
        MarkRunUpdatesSet(words, frame, count, true);
      }
      if old(Ok()) {
        OwnFramesStay(dir.Trans, dir.Trans, words, frames.MemoryBitmap[..], frames.MemoryBlocks, BootFrames);
      }
    }

    /** The frame for page itr, and the base as it is kept from there on. */
    method NextFrame(physicalBase: int, itr: nat, mask: int) returns (physBlock: int, base: int)
      requires frames.Valid()
      modifies frames`MemoryBlocksUsed, frames.MemoryBitmap
      ensures physicalBase != 0 ==> physBlock == (physicalBase + itr * PAGE_SIZE) % WORD_LIMIT && base == physicalBase
      ensures physicalBase != 0 ==> frames.MemoryBitmap[..] == old(frames.MemoryBitmap[..])
      ensures physicalBase == 0 ==> physBlock == base == old(FirstFrame(mask, PLAIN, 1))
      ensures physicalBase == 0 ==> frames.MemoryBitmap[..] == Taken(old(frames.MemoryBitmap[..]), frames.MemoryBlocks, mask, 1)
      ensures old(Ok()) ==> Ok()
    {
      hide Kernel.Ok;
      base := physicalBase;
      if physicalBase != 0 {
        physBlock := (physicalBase + itr * PAGE_SIZE) % WORD_LIMIT;
      } else {
        physBlock := Reserve(mask, 1);
      }
      if physicalBase == 0 {
        base := physBlock;
      }
    }

    /** One round of the loop. */
    method MapPage(physicalBase: int, address: int, itr: nat, pageCount: nat, mask: int, flags: MapFlags,
                   ghost before: map<int, Entry>, ghost first: int, ghost goal: HeapV, ghost headerEnd: int) returns (base: int)
      requires PagingOk() && IsWord(address) && itr < pageCount && PageOf(address) + pageCount <= PAGES
      requires itr == 0 && !flags.contiguous ==> physicalBase == 0 && first == FirstFrame(mask, flags, pageCount)
      requires (itr > 0 || flags.contiguous) && first != 0 ==> physicalBase == first
      requires MappedRun(dir.Trans, PageOf(address), itr, first, flags.Attributes())
      requires KeepsBut(before, dir.Trans, PageOf(address), itr, Inside(PageOf(address), pageCount))
      requires Inside(PageOf(address), pageCount) || (Clear(PageOf(address), pageCount) &&
        Underway(PageOf(address) + itr, PageOf(address) + pageCount, goal, headerEnd))
      modifies dir`Trans, dir`tables, frames`MemoryBlocksUsed, frames.MemoryBitmap
      modifies if Inside(PageOf(address), pageCount) then {} else Outside()
      ensures PagingOk() && (first != 0 ==> base == first)
      ensures Inside(PageOf(address), pageCount) ==>
        frames.MemoryBitmap[..] ==
        (if physicalBase != 0 then old(frames.MemoryBitmap[..]) else Taken(old(frames.MemoryBitmap[..]), frames.MemoryBlocks, mask, 1))
      ensures MappedRun(dir.Trans, PageOf(address), itr + 1, first, flags.Attributes())
      ensures KeepsBut(before, dir.Trans, PageOf(address), itr + 1, Inside(PageOf(address), pageCount))
      ensures fresh(heap.Owned - old(heap.Owned)) && fresh(heap.Nodes - old(heap.Nodes))
      ensures !Inside(PageOf(address), pageCount) ==>
        Underway(PageOf(address) + itr + 1, PageOf(address) + pageCount, goal, headerEnd)
      decreases if Inside(PageOf(address), pageCount) then 0 else 7, 2
    {
      hide Plan;
      hide Kernel.Missing;
      hide Heap.Valid;
      hide PageDirectory.Valid;
      hide Kernel.Ok;
      hide Kernel.RoomForRange;
      hide MappedRun;
      hide KeepsBut;
      var physBlock;
      physBlock, base := NextFrame(physicalBase, itr, mask);
      MapNext(physBlock, address, itr, pageCount, flags.Attributes(), before, first, goal, headerEnd);
    }

    /** One round of the loop, after the frame has been chosen. */
    method MapNext(physBlock: int, address: int, itr: nat, pageCount: nat, flags: set<Attribute>,
                   ghost before: map<int, Entry>, ghost first: int, ghost goal: HeapV, ghost headerEnd: int)
      requires PagingOk() && IsWord(address) && itr < pageCount && PageOf(address) + pageCount <= PAGES
      requires first != 0 ==> physBlock == (first + itr * PAGE_SIZE) % WORD_LIMIT
      requires MappedRun(dir.Trans, PageOf(address), itr, first, flags)
      requires KeepsBut(before, dir.Trans, PageOf(address), itr, Inside(PageOf(address), pageCount))
      requires Inside(PageOf(address), pageCount) || (Clear(PageOf(address), pageCount) &&
        Underway(PageOf(address) + itr, PageOf(address) + pageCount, goal, headerEnd))
      modifies dir`Trans, dir`tables, frames`MemoryBlocksUsed, frames.MemoryBitmap
      modifies if Inside(PageOf(address), pageCount) then {} else Outside()
      ensures PagingOk()
      ensures Inside(PageOf(address), pageCount) ==> frames.MemoryBitmap[..] == old(frames.MemoryBitmap[..])
      ensures MappedRun(dir.Trans, PageOf(address), itr + 1, first, flags)
      ensures KeepsBut(before, dir.Trans, PageOf(address), itr + 1, Inside(PageOf(address), pageCount))
      ensures fresh(heap.Owned - old(heap.Owned)) && fresh(heap.Nodes - old(heap.Nodes))
      ensures !Inside(PageOf(address), pageCount) ==>
        Underway(PageOf(address) + itr + 1, PageOf(address) + pageCount, goal, headerEnd)
      decreases if Inside(PageOf(address), pageCount) then 0 else 7, 1
    {
      hide Kernel.HeadersOk;
      hide PageOf;
      hide DirIndex;
      hide InWindow;
      hide Kernel.Inside;
      hide Kernel.Clear;
      hide AfterTables;
      hide Plan;
      hide MissingIn;
      hide AllBacked;
      hide OwnFrames;
      hide Kernel.WindowOk;
      hide MappedRun;
      hide KeepsBut;
      hide Kernel.WindowOk;
      hide Allocate;
      hide Allocated;
      hide Expand;
      hide Found;
      hide HeapLive;
      hide TablesLive;
      hide PageDirectory.Valid;
      hide Heap.NodesValid;
      hide HeapInv;
      hide Heap.Valid;
      hide Kernel.PagingOk;
      ghost var mid, entries := dir.Trans, dir.pTables[..];
      NextPage(address, itr);
      AllEntries();
      MissingHere(entries, PageOf(address) + itr, PageOf(address) + pageCount);
      OnItsSide(PageOf(address), pageCount, itr);
      if !Inside(PageOf(address), pageCount) {
        EnoughForOne(PageOf(address) + itr, PageOf(address) + pageCount, goal, headerEnd);
      }
      MmVirtualMap(physBlock, address + itr * PAGE_SIZE, flags);
      RunGrows(before, mid, dir.Trans, PageOf(address), itr, first, physBlock, flags, Inside(PageOf(address), pageCount));
      if !Inside(PageOf(address), pageCount) {
        MissingNext(entries, dir.pTables[..], PageOf(address) + itr, PageOf(address) + pageCount);
        PlanNext(old(heap.View), old(heap.MemHeaderMax), heap.View, heap.MemHeaderMax,
                 if Present in entries[(PageOf(address) + itr) / ENTRIES].attrs then 0 else 1,
                 Missing(PageOf(address) + itr + 1, PageOf(address) + pageCount), goal, headerEnd);
      }
    }

    /** The request ends, and the heap has address space and header space for it. */
    ghost predicate Fits(r: Request)
      requires HeapInv(heap.View) && Admissible(r)
      reads heap
    {
      Ends(heap.View, r) && Allocate(heap.View, r).0.top < HEAP_END && HeaderRoom(1 + 2 * Expansions(heap.View, r))
    }

    // ---------- The heap ----------

    /**
     HeapSAllocator: bump allocation of header space, which maps one more page when it
     runs low, and returns 0 when the space is used up.
     */
    method HeapSAllocator(size: int) returns (address: int)
      requires PagingOk() && WindowOk() && 0 < size <= PAGE_SIZE
      modifies heap`MemHeaderCurrent, heap`MemHeaderMax, dir`Trans, dir`tables, frames`MemoryBlocksUsed, frames.MemoryBitmap
      ensures PagingOk() && WindowOk() && Grew(old(dir.Trans), old(frames.MemoryBitmap[..]), 0, 0, 0)
      ensures if old(heap.MemHeaderCurrent + size < heap.MemHeaderMax || HeaderRoom(1)) then
                address == old(heap.MemHeaderCurrent) && heap.MemHeaderCurrent == address + size <= heap.MemHeaderMax
              else
                address == 0 && heap.MemHeaderCurrent == old(heap.MemHeaderCurrent)
      ensures heap.MemHeaderMax <= old(heap.MemHeaderMax) + PAGE_SIZE
      decreases 2, 0
    {
      hide PageDirectory.Valid;
      hide OwnFrames;
      hide Grown;
      address := 0;
      GrewItself(0, 0, 0);
      if heap.MemHeaderCurrent + size >= heap.MemHeaderMax {
        if heap.MemHeaderMax + PAGE_SIZE >= heap.HeapBase + STATIC_OFFSET {
          return;
        }
        MapInWindow(heap.MemHeaderMax, 0xFFFF_FFFF);
        heap.MemHeaderMax := heap.MemHeaderMax + PAGE_SIZE;
      }
      address := heap.MemHeaderCurrent;
      heap.MemHeaderCurrent := heap.MemHeaderCurrent + size;
    }

    /** One page of the window, in a frame of its own. */
    method MapInWindow(address: int, mask: int)
      requires PagingOk() && OwnFrames(dir.Trans, frames.MemoryBitmap[..], frames.MemoryBlocks, BootFrames) && IsWord(address) && InWindow(PageOf(address))
      modifies dir`Trans, dir`tables, frames`MemoryBlocksUsed, frames.MemoryBitmap
      ensures PagingOk() && OwnFrames(dir.Trans, frames.MemoryBitmap[..], frames.MemoryBlocks, BootFrames)
      ensures KeepsBut(old(dir.Trans), dir.Trans, PageOf(address), 1, true)
      ensures MappedRun(dir.Trans, PageOf(address), 1, FrameAddress(FindFrame(old(frames.MemoryBitmap[..]), frames.MemoryBlocks, mask, 1)), {})
      ensures frames.MemoryBitmap[..] == Taken(old(frames.MemoryBitmap[..]), frames.MemoryBlocks, mask, 1)
      ensures (old(PageOf(address) in dir.Trans ==> dir.Trans[PageOf(address)].page == 0)) && MaskOf(PageOf(address), mask) == mask ==>
        Grew(old(dir.Trans), old(frames.MemoryBitmap[..]), PageOf(address), 1, mask) &&
        (PageOf(address) < DATA_START / PAGE_SIZE ==> Grew(old(dir.Trans), old(frames.MemoryBitmap[..]), 0, 0, 0))
      decreases 1, 1
    {
      hide PageDirectory.Valid;
      hide OwnFrames;
      hide KeepsBut;
      ghost var before, words := dir.Trans, frames.MemoryBitmap[..];
      TakenIsNew(words, frames.MemoryBlocks, mask);
      assert DivUp(PAGE_SIZE, PAGE_SIZE) == 1;
      var _ := AddressSpaceMap(address, PAGE_SIZE, mask, PLAIN);
      OwnFramesGrow(before, dir.Trans, words, frames.MemoryBlocks, mask, PageOf(address), PLAIN.Attributes(), BootFrames);
      if (PageOf(address) in before ==> before[PageOf(address)].page == 0) && MaskOf(PageOf(address), mask) == mask {
        MappedGrows(before, words, dir.Trans, frames.MemoryBlocks, PageOf(address), mask);
      }
    }

    /** HeapCommitPages: afterwards every page that the range meets is mapped. */
    method HeapCommitPages(address: int, size: int, mask: int)
      requires PagingOk() && WindowOk() && 0 < size && DATA_START <= address && address + size <= HEAP_END - PAGE_SIZE
      modifies dir`Trans, dir`tables, frames`MemoryBlocksUsed, frames.MemoryBitmap
      ensures PagingOk() && WindowOk()
      ensures Grew(old(dir.Trans), old(frames.MemoryBitmap[..]), PageOf(address), CommitCount(address, size), mask)
      ensures forall page :: PageOf(address) <= page <= PageOf(address + size - 1) ==> page in dir.Trans
      decreases 2, 0
    {
      hide PageDirectory.Valid;
      hide Kernel.WindowOk;
      hide Grown;
      GrewItself(PageOf(address), CommitCount(address, size), mask);
      var pages := CommitCount(address, size);
      CommitCovers(address, size);
      var i := 0;
      while i < pages
        invariant 0 <= i <= pages
        invariant PagingOk() && WindowOk() && Grew(old(dir.Trans), old(frames.MemoryBitmap[..]), PageOf(address), pages, mask)
        invariant forall page :: PageOf(address) <= page < PageOf(address) + i ==> page in dir.Trans
      {
        ghost var mid, words := dir.Trans, frames.MemoryBitmap[..];
        NextPage(address, i);
        CommitPage(address + i * PAGE_SIZE, mask);
        GrownWiden(mid, words, dir.Trans, frames.MemoryBitmap[..], frames.MemoryBlocks,
                   PageOf(address) + i, 1, mask, PageOf(address), pages, mask);
        GrownTransitive(old(dir.Trans), old(frames.MemoryBitmap[..]), mid, words, dir.Trans, frames.MemoryBitmap[..],
                        frames.MemoryBlocks, PageOf(address), pages, mask);
        i := i + 1;
      }
    }

    /** One page: mapped unless it already is. */
    method CommitPage(address: int, mask: int)
      requires PagingOk() && WindowOk() && IsWord(address)
      requires DATA_START / PAGE_SIZE <= PageOf(address) < HEAP_END / PAGE_SIZE
      modifies dir`Trans, dir`tables, frames`MemoryBlocksUsed, frames.MemoryBitmap
      ensures PagingOk() && WindowOk() && Grew(old(dir.Trans), old(frames.MemoryBitmap[..]), PageOf(address), 1, mask)
      ensures PageOf(address) in dir.Trans
      decreases 1, 2
    {
      hide Grown;
      GrewItself(PageOf(address), 1, mask);
      if dir.MmVirtualGetMapping(address) == 0 {
        hide PageDirectory.Valid;
        hide OwnFrames;
        MapInWindow(address, mask);
      }
    }

    /** A node header: a recycled one, or new header space. */
    method NewNode() returns (node: Node)
      requires PagingOk() && WindowOk() && heap.Valid() && HeaderRoom(1)
      modifies heap`NodeRecycler, heap`Recycled
      modifies heap`MemHeaderCurrent, heap`MemHeaderMax, dir`Trans, dir`tables, frames`MemoryBlocksUsed, frames.MemoryBitmap
      ensures PagingOk() && WindowOk() && heap.Valid() && Grew(old(dir.Trans), old(frames.MemoryBitmap[..]), 0, 0, 0)
      ensures heap.Spare(node)
      ensures if old(heap.NodeRecycler) != null then
                node in heap.Nodes && |heap.Recycled| == |old(heap.Recycled)| - 1 && heap.MemHeaderCurrent == old(heap.MemHeaderCurrent)
              else
                fresh(node) && node.Header == old(heap.MemHeaderCurrent) && heap.Recycled == old(heap.Recycled) &&
                heap.MemHeaderCurrent == old(heap.MemHeaderCurrent) + NODE_SIZE
      ensures heap.MemHeaderMax <= old(heap.MemHeaderMax) + PAGE_SIZE
      decreases 2, 1
    {
      hide PageDirectory.Valid;
      hide OwnFrames;
      hide Grown;
      if heap.NodeRecycler != null {
        GrewItself(0, 0, 0);
        node := heap.TakeRecycled();
      } else {
        var header := HeapSAllocator(NODE_SIZE);
        node := new Node(header);
      }
    }

    /** The same, when every header is where it should be. */
    method SpareNode() returns (node: Node)
      requires PagingOk() && WindowOk() && heap.Valid() && HeaderRoom(1)
      requires HeadersFit(heap.Owned, heap.Nodes, heap.MemHeaderCurrent)
      modifies heap`NodeRecycler, heap`Recycled
      modifies heap`MemHeaderCurrent, heap`MemHeaderMax, dir`Trans, dir`tables, frames`MemoryBlocksUsed, frames.MemoryBitmap
      ensures PagingOk() && WindowOk() && heap.Valid() && Grew(old(dir.Trans), old(frames.MemoryBitmap[..]), 0, 0, 0)
      ensures heap.Spare(node) && (node in heap.Nodes || fresh(node))
      ensures HeadersFit(heap.Owned, heap.Nodes + {node}, heap.MemHeaderCurrent)
      ensures |heap.Nodes + {node}| - |heap.Recycled| == |heap.Nodes| - |old(heap.Recycled)| + 1
      ensures heap.MemHeaderMax <= old(heap.MemHeaderMax) + PAGE_SIZE
      decreases 2, 2
    {
      hide Kernel.PagingOk;
      hide Kernel.WindowOk;
      hide Kernel.Grew;
      hide Heap.Spare;
      hide Heap.Valid;
      hide HeadersFit;
      node := NewNode();
      NodeFits(heap.Owned, heap.Nodes, node, old(heap.MemHeaderCurrent), heap.MemHeaderCurrent);
    }

    method HeapAllocateSizeInBlock(block: Block, ghost kind: Kind, ghost i: nat, a: Request) returns (address: int)
      requires PagingOk() && WindowOk() && heap.Valid() && HeadersOk() && HeaderRoom(1)
      requires i < |heap.Lists(kind)| && block == heap.Lists(kind)[i]
      modifies dir`Trans, dir`tables, frames`MemoryBlocksUsed, frames.MemoryBitmap, heap, heap.Owned, heap.Nodes
      ensures PagingOk() && WindowOk() && heap.Valid() && HeadersOk()
      ensures Grew(old(dir.Trans), old(frames.MemoryBitmap[..]), 0, 0, 0)
      ensures heap.MemHeaderMax <= old(heap.MemHeaderMax) + PAGE_SIZE
      ensures fresh(heap.Nodes - old(heap.Nodes)) && heap.Owned == old(heap.Owned)
      ensures i < |List(old(heap.View), kind)|
      ensures var l := List(old(heap.View), kind);
        if PlaceIn(l[i], a).Placed? then
          address == PlaceIn(l[i], a).addr && heap.View == WithList(old(heap.View), kind, l[i := Serve(l[i], a)])
        else
          address == 0 && heap.View == old(heap.View) && heap.Lists == old(heap.Lists) && heap.MemHeaderMax == old(heap.MemHeaderMax)
      decreases 3, 0
    {
      hide Heap.Valid;
      hide Kernel.PagingOk;
      hide Kernel.WindowOk;
      hide Keeps;
      hide Grown;
      hide HeadersFit;
      hide CellCount;
      hide BlockCount;
      hide PlaceIn;
      hide FirstSuiting;
      hide AllocCells;
      hide Serve;
      GrewItself(0, 0, 0);
      heap.ListLengths(kind);
      heap.Listed(kind, i);
      PlacedWhenSuiting(List(heap.View, kind)[i], a);
      var prev, curr;
      ghost var n;
      prev, curr, n := block.FindSuiting(a.size, a.align);
      address := 0;
      if curr != null {
        assert Shows(curr, block.Cells[n]);
        if curr.Length == a.size || block.Kind.VeryLarge? {
          address := heap.TakeInBlock(block, kind, i, curr, n, a);
        } else {
          address := SplitForRequest(block, kind, i, prev, curr, n, a);
        }
      }
    }

    /** One round of the search: the quick tests on the block, then the attempt. */
    method TryBlock(block: Block, ghost kind: Kind, ghost i: nat, a: Request, ghost before: map<int, Entry>, ghost words: seq<Word>)
      returns (address: int)
      requires PagingOk() && WindowOk() && heap.Valid() && HeadersOk() && HeaderRoom(1)
      requires i < |heap.Lists(kind)| && block == heap.Lists(kind)[i]
      requires HeapInv(heap.View) && Fitting(a, kind) && Grew(before, words, 0, 0, 0)
      modifies dir`Trans, dir`tables, frames`MemoryBlocksUsed, frames.MemoryBitmap, heap, heap.Owned, heap.Nodes
      ensures PagingOk() && WindowOk() && heap.Valid() && HeadersOk()
      ensures Grew(before, words, 0, 0, 0)
      ensures heap.MemHeaderMax <= old(heap.MemHeaderMax) + PAGE_SIZE
      ensures fresh(heap.Nodes - old(heap.Nodes)) && heap.Owned == old(heap.Owned)
      ensures i < |List(old(heap.View), kind)|
      ensures var l := List(old(heap.View), kind);
        if Accepts(l[i], a) then
          address == PlaceIn(l[i], a).addr != 0 && heap.View == WithList(old(heap.View), kind, l[i := Serve(l[i], a)])
        else
          address == 0 && heap.View == old(heap.View) && heap.Lists == old(heap.Lists) && heap.MemHeaderMax == old(heap.MemHeaderMax)
      decreases 3, 1
    {
      hide Kernel.PagingOk;
      hide Kernel.WindowOk;
      hide Kernel.HeadersOk;
      hide Heap.Valid;
      hide PlaceIn;
      hide Serve;
      hide Keeps;
      hide Grown;
      hide HeapInv;
      hide Fitting;
      hide WithList;
      heap.ListLengths(kind);
      heap.Listed(kind, i);
      address := 0;
      if !(block.BytesFree < a.size || block.Mask < a.mask) {
        AcceptedAddress(heap.View, kind, i, a);
        ghost var mid, words' := dir.Trans, frames.MemoryBitmap[..];
        address := HeapAllocateSizeInBlock(block, kind, i, a);
        GrewOn(before, words, mid, words', 0, 0, 0);
      }
    }

    /** The split path, from the new node header on. */
    method SplitForRequest(block: Block, ghost kind: Kind, ghost i: nat, prev: Node?, curr: Node, ghost n: nat, a: Request)
      returns (address: int)
      requires PagingOk() && WindowOk() && heap.Valid() && HeadersOk() && HeaderRoom(1)
      requires i < |heap.Lists(kind)| && block == heap.Lists(kind)[i]
      requires n == FirstSuiting(block.Cells, a.size, a.align, block.Kind.VeryLarge?) < |block.Chain|
      requires curr == block.Chain[n] && prev == NodeAt(block.Chain, n - 1)
      requires n < |block.Cells| && block.Cells[n].len != a.size && !block.Kind.VeryLarge?
      modifies dir`Trans, dir`tables, frames`MemoryBlocksUsed, frames.MemoryBitmap, heap, heap.Owned, heap.Nodes
      ensures PagingOk() && WindowOk() && heap.Valid() && HeadersOk()
      ensures Grew(old(dir.Trans), old(frames.MemoryBitmap[..]), 0, 0, 0)
      ensures heap.MemHeaderMax <= old(heap.MemHeaderMax) + PAGE_SIZE
      ensures fresh(heap.Nodes - old(heap.Nodes)) && heap.Owned == old(heap.Owned)
      ensures i < |List(old(heap.View), kind)|
      ensures var l := List(old(heap.View), kind);
        && PlaceIn(l[i], a).Placed? && address == PlaceIn(l[i], a).addr
        && heap.View == WithList(old(heap.View), kind, l[i := Serve(l[i], a)])
      decreases 2, 3
    {
      hide Kernel.HeadersOk;
      hide FirstSuiting;
      hide Place;
      hide PlaceIn;
      hide Serve;
      hide Heap.NodesValid;
      hide Kernel.PagingOk;
      hide Kernel.WindowOk;
      hide Keeps;
      hide Heap.Valid;
      hide HeadersFit;
      hide Grown;
      hide CellCount;
      hide BlockCount;
      hide Heap.Spare;
      HeadersHeld();
      var hNode := SpareNode();
      address := heap.SplitInBlock(block, kind, i, prev, curr, n, hNode, a);
      HeadersHold();
    }

    /** The headers of a block and its first node. */
    method NewHeaders() returns (header: int, node: Node)
      requires PagingOk() && WindowOk() && heap.Valid() && HeaderRoom(2)
      modifies heap`NodeRecycler, heap`Recycled
      modifies heap`MemHeaderCurrent, heap`MemHeaderMax, dir`Trans, dir`tables, frames`MemoryBlocksUsed, frames.MemoryBitmap
      ensures PagingOk() && WindowOk() && heap.Valid() && Grew(old(dir.Trans), old(frames.MemoryBitmap[..]), 0, 0, 0)
      ensures header == old(heap.MemHeaderCurrent) && heap.Spare(node)
      ensures if old(heap.NodeRecycler) != null then
                node in heap.Nodes && |heap.Recycled| == |old(heap.Recycled)| - 1 && heap.MemHeaderCurrent == header + BLOCK_SIZE
              else
                fresh(node) && node.Header == header + BLOCK_SIZE && heap.Recycled == old(heap.Recycled) &&
                heap.MemHeaderCurrent == header + BLOCK_SIZE + NODE_SIZE
      ensures heap.MemHeaderMax <= old(heap.MemHeaderMax) + 2 * PAGE_SIZE
      decreases 2, 2
    {
      hide Heap.Spare;
      hide Kernel.PagingOk;
      hide Kernel.WindowOk;
      hide Keeps;
      hide Heap.Valid;
      hide Grown;
      header := HeapSAllocator(BLOCK_SIZE);
      ghost var mid, words := dir.Trans, frames.MemoryBitmap[..];
      node := NewNode();
      GrewOn(old(dir.Trans), old(frames.MemoryBitmap[..]), mid, words, 0, 0, 0);
    }

    /** The block over its first node; both headers are counted. */
    method FillBlock(header: int, size: int, mask: int, kind: Kind, node: Node) returns (block: Block)
      requires heap.Valid() && heap.Spare(node) && HeadersFit(heap.Owned, heap.Nodes, header)
      requires if node in heap.Nodes then heap.MemHeaderCurrent == header + BLOCK_SIZE
               else node.Header == header + BLOCK_SIZE && heap.MemHeaderCurrent == header + BLOCK_SIZE + NODE_SIZE
      requires |heap.Nodes| + (if node in heap.Nodes then 0 else 1) == |heap.Recycled| + CellCount(heap.View) + 1
      requires |heap.Owned| == BlockCount(heap.View)
      modifies heap`MemStartData, heap`View, heap`Owned, heap`Nodes, node
      ensures heap.Valid() && fresh(block) && heap.Owned == old(heap.Owned) + {block} && heap.Nodes == old(heap.Nodes) + {node}
      ensures block.Header == header && HeadersFit(heap.Owned, heap.Nodes, heap.MemHeaderCurrent)
      ensures |heap.Nodes| == |heap.Recycled| + CellCount(heap.View) + 1 && |heap.Owned| == BlockCount(heap.View) + 1
      ensures heap.Unlisted(block) && block.Link == null && block.Kind == kind
      ensures block.View() == BlockV(old(heap.View.top), size, kind, mask, size, [Cell(old(heap.View.top), size, None)])
      ensures heap.View == old(heap.View).(top := old(heap.View.top) + size)
    {
      hide HeadersFit;
      hide CellCount;
      hide BlockCount;
      hide Heap.Unlisted;
      hide Heap.Spare;
      hide Heap.Valid;
      hide Block.View;
      block := heap.AddBlock(header, size, mask, kind, node);
      BlockAndNodeFit(old(heap.Owned), old(heap.Nodes), block, node, header, heap.MemHeaderCurrent);
    }

    /** HeapCreateBlock. */
    method HeapCreateBlock(size: int, mask: int, kind: Kind) returns (block: Block)
      requires PagingOk() && WindowOk() && heap.Valid() && HeadersOk() && HeaderRoom(2)
      modifies dir`Trans, dir`tables, frames`MemoryBlocksUsed, frames.MemoryBitmap, heap, heap.Nodes
      ensures PagingOk() && WindowOk() && heap.Valid() && Grew(old(dir.Trans), old(frames.MemoryBitmap[..]), 0, 0, 0)
      ensures block.Header == old(heap.MemHeaderCurrent)
      ensures heap.MemHeaderCurrent == old(heap.MemHeaderCurrent) + BLOCK_SIZE + (if old(heap.NodeRecycler) == null then NODE_SIZE else 0)
      ensures |heap.Recycled| == |old(heap.Recycled)| - (if old(heap.NodeRecycler) == null then 0 else 1)
      ensures HeadersFit(heap.Owned, heap.Nodes, heap.MemHeaderCurrent)
      ensures |heap.Nodes| == |heap.Recycled| + CellCount(heap.View) + 1 && |heap.Owned| == BlockCount(heap.View) + 1
      ensures heap.MemHeaderMax <= old(heap.MemHeaderMax) + 2 * PAGE_SIZE
      ensures fresh(block) && heap.Owned == old(heap.Owned) + {block} && fresh(heap.Nodes - old(heap.Nodes))
      ensures heap.Lists == old(heap.Lists) && heap.Unlisted(block) && block.Link == null && block.Kind == kind
      ensures heap.Blocks == old(heap.Blocks) && heap.PageBlocks == old(heap.PageBlocks) && heap.CustomBlocks == old(heap.CustomBlocks)
      ensures block.View() == BlockV(old(heap.View.top), size, kind, mask, size, [Cell(old(heap.View.top), size, None)])
      ensures heap.View == old(heap.View).(top := old(heap.View.top) + size)
      decreases 3, 0
    {
      hide Heap.ListsValid;
      hide Kernel.HeadersOk;
      hide HeadersFit;
      hide CellCount;
      hide BlockCount;
      hide Heap.Unlisted;
      hide Block.View;
      hide Heap.Spare;
      hide Kernel.PagingOk;
      hide Kernel.WindowOk;
      hide Keeps;
      hide Heap.Valid;
      hide Grown;
      hide Kernel.Grew;
      HeadersHeld();
      var header, node := NewHeaders();
      assert node in heap.Nodes || fresh(node);
      block := FillBlock(header, size, mask, kind, node);
    }

    /** HeapExpand. */
    method HeapExpand(a: Request)
      requires PagingOk() && WindowOk() && heap.Valid() && HeadersOk() && HeaderRoom(2)
      requires KindOf(a).VeryLarge? || |List(heap.View, KindOf(a))| > 0
      modifies dir`Trans, dir`tables, frames`MemoryBlocksUsed, frames.MemoryBitmap, heap, heap.Owned, heap.Nodes
      ensures PagingOk() && WindowOk() && heap.Valid() && HeadersOk()
      ensures Grew(old(dir.Trans), old(frames.MemoryBitmap[..]), 0, 0, 0)
      ensures heap.MemHeaderMax <= old(heap.MemHeaderMax) + 2 * PAGE_SIZE
      ensures fresh(heap.Owned - old(heap.Owned)) && fresh(heap.Nodes - old(heap.Nodes))
      ensures heap.View == Expand(old(heap.View), a)
      decreases 4, 0
    {
      hide Adjust;
      hide Heap.ListsValid;
      hide Kernel.HeadersOk;
      hide Kernel.Grew;
      hide HeadersFit;
      hide CellCount;
      hide BlockCount;
      hide Grown;
      hide Block.View;
      hide NewBlock;
      hide ExpansionSize;
      hide Heap.Unlisted;
      hide Kernel.PagingOk;
      hide Kernel.WindowOk;
      hide Keeps;
      hide Expand;
      hide WithList;
      hide List;
      hide Heap.Valid;
      GrowThenAppend(heap.View, a);
      if a.big {
        CreateAndAppend(a.size, a.mask, VeryLarge);
      } else if a.page {
        CreateAndAppend(LARGE_BLOCK, a.mask, Aligned);
      } else {
        CreateAndAppend(NORMAL_BLOCK, a.mask, Normal);
      }
    }

    /** A new block joins the list of its kind. */
    method CreateAndAppend(size: int, mask: int, kind: Kind)
      requires PagingOk() && WindowOk() && heap.Valid() && HeadersOk() && HeaderRoom(2)
      requires kind.VeryLarge? || |List(heap.View, kind)| > 0
      modifies dir`Trans, dir`tables, frames`MemoryBlocksUsed, frames.MemoryBitmap, heap, heap.Owned, heap.Nodes
      ensures PagingOk() && WindowOk() && heap.Valid() && HeadersOk()
      ensures Grew(old(dir.Trans), old(frames.MemoryBitmap[..]), 0, 0, 0)
      ensures heap.MemHeaderMax <= old(heap.MemHeaderMax) + 2 * PAGE_SIZE
      ensures fresh(heap.Owned - old(heap.Owned)) && fresh(heap.Nodes - old(heap.Nodes))
      ensures var g := old(heap.View).(top := old(heap.View.top) + size);
        heap.View == WithList(g, kind, List(g, kind) + [BlockV(old(heap.View.top), size, kind, mask, size, [Cell(old(heap.View.top), size, None)])])
      decreases 3, 1
    {
      hide Kernel.HeadersOk;
      hide HeadersFit;
      hide CellCount;
      hide BlockCount;
      hide Kernel.Grew;
      hide Kernel.PagingOk;
      hide Kernel.WindowOk;
      hide Block.View;
      hide Heap.Unlisted;
      hide Heap.Valid;
      hide WithList;
      hide List;
      heap.ListLengths(kind);
      var block := HeapCreateBlock(size, mask, kind);
      heap.HeapAppendBlockToList(block);
      HeadersHold();
    }

    /** The list that the flags select. */
    method SelectList(a: Request) returns (block: Block?)
      requires heap.Valid()
      ensures block == BlockAt(heap.Lists(KindOf(a)), 0)
    {
      hide Heap.Valid;
      heap.NextListed(KindOf(a), 0);
      if a.big {
        block := heap.CustomBlocks;
      } else if a.page {
        block := heap.PageBlocks;
      } else {
        block := heap.Blocks;
      }
    }

    /** The search of HeapAllocate through the list that the flags select. */
    method SearchBlocks(a: Request) returns (address: int)
      requires PagingOk() && WindowOk() && heap.Valid() && HeadersOk() && HeaderRoom(1)
      requires HeapInv(heap.View) && Admissible(a) && (KindOf(a).Aligned? ==> a.size % PAGE_SIZE == 0)
      modifies dir`Trans, dir`tables, frames`MemoryBlocksUsed, frames.MemoryBitmap, heap, heap.Owned, heap.Nodes
      ensures PagingOk() && WindowOk() && heap.Valid() && HeadersOk()
      ensures Grew(old(dir.Trans), old(frames.MemoryBitmap[..]), 0, 0, 0)
      ensures heap.MemHeaderMax <= old(heap.MemHeaderMax) + PAGE_SIZE
      ensures fresh(heap.Nodes - old(heap.Nodes)) && heap.Owned == old(heap.Owned)
      ensures if Found(old(heap.View), a) then
          address != 0 && (heap.View, address) == TakeFound(old(heap.View), a)
        else
          address == 0 && heap.View == old(heap.View) && heap.MemHeaderMax == old(heap.MemHeaderMax)
      decreases 4, 1
    {
      hide Kernel.Grew;
      hide Kernel.PagingOk;
      hide Kernel.WindowOk;
      hide Kernel.HeadersOk;
      hide Heap.Valid;
      hide HeapInv;
      hide PlaceIn;
      hide Serve;
      hide Accepts;
      hide Found;
      hide TakeFound;
      hide Adjust;
      hide KindOf;
      hide WithList;
      ghost var kind, i := KindOf(a), 0;
      heap.ListLengths(kind);
      var currentBlock := SelectList(a);
      address := 0;
      FittingRequest(a);
      GrewItself(0, 0, 0);
      while currentBlock != null
        invariant address == 0 && 0 <= i <= |heap.Lists(kind)| && currentBlock == BlockAt(heap.Lists(kind), i)
        invariant PagingOk() && WindowOk() && heap.Valid() && HeadersOk() && Grew(old(dir.Trans), old(frames.MemoryBitmap[..]), 0, 0, 0)
        invariant heap.View == old(heap.View) && heap.Lists == old(heap.Lists) && heap.MemHeaderMax == old(heap.MemHeaderMax)
        invariant fresh(heap.Nodes - old(heap.Nodes)) && heap.Owned == old(heap.Owned)
        invariant forall j :: 0 <= j < i ==> !Accepts(List(heap.View, kind)[j], a)
        decreases |heap.Lists(kind)| - i
      {
        address := TryBlock(currentBlock, kind, i, a, old(dir.Trans), old(frames.MemoryBitmap[..]));
        if address != 0 {
          FoundAt(old(heap.View), a, i);
          return;
        }
        heap.NextListed(kind, i);
        currentBlock := currentBlock.Link;
        i := i + 1;
      }
      NotFound(old(heap.View), a);
    }

    /** What HeapAllocate leaves behind: the state and address of the specification, and the
        pages mapped when they were to be committed. */
    ghost predicate Served(view: HeapV, r: Request, address: int, commit: bool, headerMax: int)
      requires HeapInv(view) && Admissible(r) && Ends(view, r)
      reads heap`View, heap`MemHeaderMax, dir`Trans
    {
      && heap.View == Allocate(view, r).0 && address == Allocate(view, r).1 != 0
      && (commit ==> forall page :: PageOf(address) <= page <= PageOf(address + Adjust(r).size - 1) ==> page in dir.Trans)
      && heap.MemHeaderMax <= headerMax + (1 + 2 * Expansions(view, r)) * PAGE_SIZE
    }

    /** How many pages a call looks at for the request. */
    static function Committed(r: Request, address: int, commit: bool): int {
      if commit then CommitCount(address, Adjust(r).size) else 0
    }

    /** HeapAllocate; page and big in the request are its flag bits, commit the third. */
    method HeapAllocate(r: Request, commit: bool) returns (address: int)
      requires Ok() && Admissible(r) && Fits(r)
      modifies dir`Trans, dir`tables, frames`MemoryBlocksUsed, frames.MemoryBitmap, heap, heap.Owned, heap.Nodes
      ensures Ok() && Grew(old(dir.Trans), old(frames.MemoryBitmap[..]), PageOf(address), Committed(r, address, commit), r.mask)
      ensures Served(old(heap.View), r, address, commit, old(heap.MemHeaderMax))
      ensures fresh(heap.Owned - old(heap.Owned)) && fresh(heap.Nodes - old(heap.Nodes))
      decreases 5, Expansions(heap.View, r), 1
    {
      hide TakeFound;
      hide Adjust;
      hide KindOf;
      hide Expansions;
      hide AllBacked;
      hide Grown;
      hide Kernel.HeadersOk;
      hide Kernel.PagingOk;
      hide Kernel.WindowOk;
      hide Keeps;
      hide Allocate;
      hide Allocated;
      hide Expand;
      hide Found;
      hide TablesLive;
      hide HeapLive;
      hide PageDirectory.Valid;
      hide HeapInv;
      hide Heap.Valid;
      OneAttempt(heap.View, r);
      address := SearchBlocks(Adjust(r));
      if address != 0 {
        ghost var mid, words := dir.Trans, frames.MemoryBitmap[..];
        AllBackedStays(dir.pTables[..], dir.vTables[..], old(dir.Trans), mid, BootFrames);
        Commit(address, r, commit, old(heap.View), old(heap.MemHeaderMax));
        GrewOn(old(dir.Trans), old(frames.MemoryBitmap[..]), mid, words, PageOf(address), Committed(r, address, commit), r.mask);
      } else {
        ghost var mid, words := dir.Trans, frames.MemoryBitmap[..];
        AllBackedStays(dir.pTables[..], dir.vTables[..], old(dir.Trans), mid, BootFrames);
        address := Retry(r, commit);
        GrewOn(old(dir.Trans), old(frames.MemoryBitmap[..]), mid, words, PageOf(address), Committed(r, address, commit), r.mask);
      }
    }

    /** The end of a successful attempt. */
    method Commit(address: int, r: Request, commit: bool, ghost view: HeapV, ghost headerMax: int)
      requires PagingOk() && WindowOk() && heap.Valid() && HeadersOk() && HeapInv(view) && Admissible(r) && Ends(view, r)
      requires Found(view, Adjust(r)) && (heap.View, address) == TakeFound(view, Adjust(r)) && address != 0
      requires heap.View.top < HEAP_END && TablesLive(dir.Tables, HeapLive(view))
      requires AllBacked(dir.pTables[..], dir.vTables[..], dir.Trans, BootFrames)
      requires heap.MemHeaderMax <= headerMax + PAGE_SIZE
      modifies dir`Trans, dir`tables, frames`MemoryBlocksUsed, frames.MemoryBitmap
      ensures Ok() && Grew(old(dir.Trans), old(frames.MemoryBitmap[..]), PageOf(address), Committed(r, address, commit), r.mask)
      ensures Served(view, r, address, commit, headerMax)
      decreases 4, 2
    {
      hide Found;
      hide TakeFound;
      hide Adjust;
      hide KindOf;
      hide Expansions;
      hide Expand;
      hide TablesLive;
      hide Kernel.PagingOk;
      hide Kernel.WindowOk;
      hide HeapLive;
      hide AllBacked;
      hide Keeps;
      hide Grown;
      hide Kernel.HeadersOk;
      hide Allocate;
      hide Allocated;
      GrewItself(PageOf(address), Committed(r, address, commit), r.mask);
      hide HeapInv;
      hide Heap.Valid;
      OneAttempt(view, r);
      TablesLiveOn(dir.Tables, HeapLive(view), HeapLive(heap.View));
      ghost var entries, addresses := dir.pTables[..], dir.vTables[..];
      if commit {
        HeapCommitPages(address, Adjust(r).size, r.mask);
        AllBackedStays(entries, addresses, old(dir.Trans), dir.Trans, BootFrames);
      }
    }

    /** The end of a failed one: expand and start over with the adjusted arguments. */
    method Retry(r: Request, commit: bool) returns (address: int)
      requires Ok() && Admissible(r) && Fits(r) && !Found(heap.View, Adjust(r))
      modifies dir`Trans, dir`tables, frames`MemoryBlocksUsed, frames.MemoryBitmap, heap, heap.Owned, heap.Nodes
      ensures Ok() && Grew(old(dir.Trans), old(frames.MemoryBitmap[..]), PageOf(address), Committed(r, address, commit), r.mask)
      ensures Served(old(heap.View), r, address, commit, old(heap.MemHeaderMax))
      ensures fresh(heap.Owned - old(heap.Owned)) && fresh(heap.Nodes - old(heap.Nodes))
      decreases 5, Expansions(heap.View, r), 0
    {
      hide TakeFound;
      hide Adjust;
      hide Expansions;
      hide PageDirectory.Valid;
      hide HeapInv;
      hide Heap.Valid;
      hide AllBacked;
      hide Grown;
      hide Kernel.HeadersOk;
      hide Kernel.PagingOk;
      hide Kernel.WindowOk;
      hide Keeps;
      hide Allocate;
      hide Allocated;
      hide Expand;
      hide Found;
      hide TablesLive;
      hide HeapLive;
      OneAttempt(heap.View, r);
      HeapExpand(Adjust(r));
      ghost var mid, words := dir.Trans, frames.MemoryBitmap[..];
      AllBackedStays(dir.pTables[..], dir.vTables[..], old(dir.Trans), mid, BootFrames);
      address := HeapAllocate(Adjust(r), commit);
      GrewOn(old(dir.Trans), old(frames.MemoryBitmap[..]), mid, words, PageOf(address), Committed(r, address, commit), r.mask);
    }

    /**
     No two live allocations share a byte of physical memory: bytes of different allocations
     are at different physical addresses, wherever both are mapped, as long as the frames
     have not run out.
     */
    lemma LiveBytesNeverAlias(p: Payload, q: Payload, a: int, b: int)
      requires Ok() && p in HeapLive(heap.View) && q in HeapLive(heap.View) && p != q
      requires IsWord(a) && IsWord(b) && p.addr <= a < p.addr + p.size && q.addr <= b < q.addr + q.size
      ensures var x, y := dir.MmVirtualGetMapping(a), dir.MmVirtualGetMapping(b);
        x == y ==> x == 0 || PageOf(x) == NO_FRAME || !FramesLeft(frames.MemoryBitmap[..], frames.MemoryBlocks)
    {
      LiveNeverOverlap(heap.View, p, q);
      LiveInWindow(heap.View, p);
      LiveInWindow(heap.View, q);
      hide HeapInv;
      hide HeapLive;
      hide Heap.Valid;
      hide PageDirectory.Valid;
      hide UsedSet;
      assert InWindow(PageOf(a)) && InWindow(PageOf(b));
      SamePlace(a, b);
    }

    /**
     No live byte lies in the frame of a page table in use, neither one made at boot nor one
     that the heap gave out, except those of the table itself; again as long as frames are left.
     */
    lemma LiveBytesMissTables(p: Payload, a: int, d: int)
      requires Ok() && p in HeapLive(heap.View) && p.addr !in dir.Tables
      requires IsWord(a) && p.addr <= a < p.addr + p.size
      requires 0 <= d < ENTRIES && dir.HasTable(d)
      ensures var x := dir.MmVirtualGetMapping(a);
        PageOf(x) == dir.pTables[d].page ==>
          x == 0 || PageOf(x) == NO_FRAME || !FramesLeft(frames.MemoryBitmap[..], frames.MemoryBlocks)
    {
      var v := dir.vTables[d];
      var t := Payload(v, PAGE_SIZE);
      assert v in dir.Tables by {
        assert dir.TableOk(d);
      }
      LiveInWindow(heap.View, p);
      if v >= HEAP_BASE {
        assert t in HeapLive(heap.View);
        LiveNeverOverlap(heap.View, p, t);
      }
      hide HeapInv;
      hide HeapLive;
      hide Heap.Valid;
      hide PageDirectory.Valid;
      hide UsedSet;
      hide FramesLeft;
      assert Backed(dir.pTables[..][d].page, dir.vTables[..][d], dir.Trans, BootFrames);
      assert InWindow(PageOf(a));
      SamePlace(a, a);
      assert v >= HEAP_BASE ==> PageOf(a) != PageOf(v) by {
        OtherPage(a, v);
      }
    }

    /**
     No live byte lies in a frame that holds block or node headers; again as long as frames
     are left.
     */
    lemma LiveBytesMissHeaders(p: Payload, a: int, v: int)
      requires Ok() && p in HeapLive(heap.View) && IsWord(a) && p.addr <= a < p.addr + p.size
      requires HEAP_BASE <= v < heap.MemHeaderMax
      ensures PageOf(v) in dir.Trans
      ensures var x := dir.MmVirtualGetMapping(a);
        PageOf(x) == dir.Trans[PageOf(v)].page ==>
          x == 0 || PageOf(x) == NO_FRAME || !FramesLeft(frames.MemoryBitmap[..], frames.MemoryBlocks)
    {
      hide Kernel.HeadersOk;
      hide AllBacked;
      hide TablesLive;
      LiveInWindow(heap.View, p);
      hide HeapInv;
      hide HeapLive;
      hide Heap.Valid;
      hide PageDirectory.Valid;
      hide UsedSet;
      hide FramesLeft;
      assert InWindow(PageOf(a)) && InWindow(PageOf(v)) && PageOf(v) < DATA_START / PAGE_SIZE <= PageOf(a);
      SamePlace(a, a);
    }

    /** The byte belongs to the header of a block or a node. */
    ghost predicate InHeader(v: int)
      reads heap`Owned, heap`Nodes
    {
      || (exists b :: b in heap.Owned && b.Header <= v < b.Header + BLOCK_SIZE)
      || (exists n :: n in heap.Nodes && n.Header <= v < n.Header + NODE_SIZE)
    }

    /** Every header lies in mapped header space. */
    lemma HeadersAreMapped(v: int)
      requires Ok() && InHeader(v)
      ensures HEAP_BASE <= v < heap.MemHeaderCurrent <= heap.MemHeaderMax <= DATA_START && PageOf(v) in dir.Trans
    {
      hide Heap.Valid;
      hide HeapInv;
      hide PageDirectory.Valid;
      hide OwnFrames;
    }

    // ---------- Freeing and starting up ----------

    /** kfree of an address that is live, found in its node, and does not hold a page table. */
    method Kfree(address: int)
      requires Ok() && address !in dir.Tables
      requires exists p :: p in HeapLive(heap.View) && p.addr == address && Releasable(heap.View, p)
      modifies heap, heap.Owned, heap.Nodes
      ensures Ok() && heap.View == Free(old(heap.View), address)
      ensures heap.MemHeaderMax == old(heap.MemHeaderMax) && dir.Trans == old(dir.Trans)
    {
      hide HeadersFit;
      hide CellCount;
      hide TablesLive;
      hide HeapLive;
      hide AllBacked;
      hide OwnFrames;
      hide Kernel.PagingOk;
      hide Kernel.WindowOk;
      hide Free;
      hide Releasable;
      hide PageDirectory.Valid;
      hide HeapInv;
      hide Heap.Valid;
      ghost var p :| p in HeapLive(heap.View) && p.addr == address && Releasable(heap.View, p);
      LocateFinds(heap.View, p);
      FreeKeeps(heap.View, p);
      TablesOutlive(dir.Tables, HeapLive(heap.View), p);
      heap.HeapFree(address);
    }

    /** HeapInit, after the fields are reset: the first normal and the first page block. */
    method HeapInit()
      requires PagingOk() && WindowOk() && heap.MemHeaderMax == HEAP_BASE
      requires heap.Valid() && heap.View == HeapV([], [], [], DATA_START) && heap.Owned == {} && heap.Nodes == {} && heap.Recycled == []
      requires forall a :: a in dir.Tables ==> a < HEAP_BASE
      requires AllBacked(dir.pTables[..], dir.vTables[..], dir.Trans, BootFrames)
      modifies dir`Trans, dir`tables, frames`MemoryBlocksUsed, frames.MemoryBitmap, heap
      ensures Ok() && heap.View == INITIAL && Grew(old(dir.Trans), old(frames.MemoryBitmap[..]), 0, 0, 0)
      ensures heap.MemHeaderCurrent == HEAP_BASE + 2 * (BLOCK_SIZE + NODE_SIZE)
    {
      hide PageDirectory.Valid;
      assert HeadersOk();
      hide Kernel.HeadersOk;
      hide HeadersFit;
      hide Heap.Valid;
      hide Grown;
      FirstBlocks();
      AllBackedStays(dir.pTables[..], dir.vTables[..], old(dir.Trans), dir.Trans, BootFrames);
      InitialIsSound();
    }

    method FirstBlocks()
      requires PagingOk() && WindowOk() && HeaderRoom(4) && heap.Valid() && HeadersOk() && heap.Recycled == []
      requires heap.View == HeapV([], [], [], DATA_START)
      modifies dir`Trans, dir`tables, frames`MemoryBlocksUsed, frames.MemoryBitmap, heap, heap.Owned, heap.Nodes
      ensures PagingOk() && WindowOk() && heap.Valid() && HeadersOk()
      ensures Grew(old(dir.Trans), old(frames.MemoryBitmap[..]), 0, 0, 0)
      ensures heap.View == INITIAL && heap.MemHeaderCurrent == old(heap.MemHeaderCurrent) + 2 * (BLOCK_SIZE + NODE_SIZE)
    {
      hide Heap.Unlisted;
      hide Kernel.PagingOk;
      hide Kernel.WindowOk;
      hide Kernel.HeadersOk;
      hide Heap.Valid;
      hide Keeps;
      hide Grown;
      FirstBlock(NORMAL_BLOCK, Normal);
      ghost var mid, words := dir.Trans, frames.MemoryBitmap[..];
      FirstBlock(LARGE_BLOCK, Aligned);
      GrewOn(old(dir.Trans), old(frames.MemoryBitmap[..]), mid, words, 0, 0, 0);
    }

    /** A block that heads its list. */
    method FirstBlock(size: int, kind: Kind)
      requires PagingOk() && WindowOk() && HeaderRoom(2) && heap.Valid() && HeadersOk()
      requires heap.Recycled == [] && !kind.VeryLarge? && List(heap.View, kind) == []
      modifies dir`Trans, dir`tables, frames`MemoryBlocksUsed, frames.MemoryBitmap, heap, heap.Owned, heap.Nodes
      ensures PagingOk() && WindowOk() && heap.Valid() && HeadersOk()
      ensures Grew(old(dir.Trans), old(frames.MemoryBitmap[..]), 0, 0, 0)
      ensures heap.Recycled == [] && heap.MemHeaderCurrent == old(heap.MemHeaderCurrent) + BLOCK_SIZE + NODE_SIZE
      ensures heap.MemHeaderMax <= old(heap.MemHeaderMax) + 2 * PAGE_SIZE
      ensures fresh(heap.Owned - old(heap.Owned)) && fresh(heap.Nodes - old(heap.Nodes))
      ensures var top := old(heap.View.top);
        heap.View == WithList(old(heap.View), kind, [BlockV(top, size, kind, 0xFFFF_FFFF, size, [Cell(top, size, None)])]).(top := top + size)
    {
      hide Kernel.HeadersOk;
      hide Kernel.Grew;
      hide Heap.Unlisted;
      hide HeadersFit;
      hide CellCount;
      hide BlockCount;
      hide Grown;
      hide Kernel.PagingOk;
      hide Kernel.WindowOk;
      hide Keeps;
      hide Heap.Valid;
      hide PageDirectory.Valid;
      hide Block.View;
      hide List;
      hide WithList;
      heap.RecyclerEmpty();
      heap.ListLengths(kind);
      OnTop(heap.View, kind, heap.View.top + size);
      var block := HeapCreateBlock(size, 0xFFFF_FFFF, kind);
      heap.Head(block, kind);
      HeadersHold();
    }
  }

  /** The tables that exist after the start are boot tables, in frames of their own. */
  lemma BootTables(dir: PageDirectory, frames: FrameMap, boot: set<int>)
    requires dir.Valid() && dir.TablesInUsedFrames(frames) && forall a :: a in dir.Tables ==> a < LOW_MEMORY
    requires boot == set d | 0 <= d < ENTRIES && dir.HasTable(d) :: dir.pTables[d].page
    requires dir.Trans == map[]
    ensures AllBacked(dir.pTables[..], dir.vTables[..], dir.Trans, boot)
    ensures OwnFrames(dir.Trans, frames.MemoryBitmap[..], frames.MemoryBlocks, boot)
  {
    forall d | 0 <= d < ENTRIES && dir.HasTable(d)
      ensures Backed(dir.pTables[d].page, dir.vTables[d], dir.Trans, boot)
      ensures 0 < dir.pTables[d].page < BITS * LOW_WORDS && dir.pTables[d].page in UsedSet(frames.MemoryBitmap[..])
    {
      assert dir.TableOk(d);
    }
    hide PageDirectory.Valid;
    hide UsedSet;
    hide FramesLeft;
  }

  /** The start: the heap's window gets its tables before anything is mapped in it. */
  method Boot(frames: FrameMap) returns (kernel: Kernel)
    requires frames.Valid() && 12 <= |FreeLow(frames.MemoryBitmap[..])|
    modifies frames`MemoryBlocksUsed, frames.MemoryBitmap
    ensures kernel.Ok() && kernel.heap.View == INITIAL
    ensures fresh(kernel) && fresh(kernel.heap) && fresh(kernel.dir) && kernel.frames == frames
  {
    var dir := new PageDirectory();
    dir.MmVirtualIdentityMapMemoryRange(frames, 0, HEAP_BASE, HEAP_END - HEAP_BASE, false, {});
    var heap := new Heap(HEAP_BASE, HEAP_END);
    ghost var boot := set d | 0 <= d < ENTRIES && dir.HasTable(d) :: dir.pTables[d].page;
    kernel := new Kernel(heap, dir, frames, boot);
    SameTranslations(dir.Trans, map[]);
    BootTables(dir, frames, boot);
    kernel.HeapInit();
  }
}

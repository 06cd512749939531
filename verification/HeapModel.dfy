/** The storage heap as a value: headers in memory, the tiling of the file into segments, the free
    page list, the chains of free blocks and the page bitmap.

    Addresses are offsets from the start of the file, so 0 is the null pointer.  Segments are named
    by their first page; those in `limbo` are being built or not yet swept, and nothing but their
    place is known. */
module HeapModel {
  import opened Blocks
  import opened Tiling

  const FREE_CID: nat := 0
  const MAP_CID: nat := 2

  datatype Header = Header(cid: nat, mark: bool, size: nat, next: nat)

  type Memory = map<nat, Header>

  /** Memory that was never written reads as zero. */
  function At(mem: Memory, a: nat): Header {
    if a in mem then mem[a] else Header(FREE_CID, false, 0, 0)
  }

  datatype Heap = Heap(
    mem: Memory,
    end: nat,               // pages in the file
    seg: Tiles,
    limbo: set<nat>,
    head: nat,              // free_page_chain
    free: seq<nat>,         // the pages of the list it starts
    heads: seq<nat>,        // free_block_chain
    chains: seq<seq<nat>>,  // the blocks of the lists they start
    bits: seq<bool>)        // the bitmap of the page map

  // ---------- What a header says ----------

  /** Header of the segment at page `s`. */
  function Top(h: Heap, s: nat): Header { At(h.mem, Adr(s)) }

  /** A segment that starts with header `x` has `n` pages, as the sweep computes them. */
  predicate HasLength(x: Header, n: nat) {
    if IsSmall(x.size) then n == 1 else Adr(n) - PAGE < x.size + HEADER <= Adr(n)
  }

  predicate Settled(h: Heap, s: nat) { s in h.seg && s !in h.limbo }

  predicate SmallPage(h: Heap, s: nat) { Settled(h, s) && IsSmall(Top(h, s).size) }

  predicate FreeSeg(h: Heap, s: nat) {
    Settled(h, s) && !IsSmall(Top(h, s).size) && Top(h, s).cid == FREE_CID
  }

  predicate LargeObject(h: Heap, s: nat) {
    Settled(h, s) && !IsSmall(Top(h, s).size) && Top(h, s).cid != FREE_CID
  }

  function PageClass(h: Heap, s: nat): (c: nat)
    ensures c < CLASSES
  {
    if IsSmall(Top(h, s).size) then ClassOf(Top(h, s).size) else 0
  }

  predicate Block(h: Heap, b: nat) {
    SmallPage(h, PageOf(b)) && IsBlock(b, Adr(PageOf(b)), ClassSize(PageClass(h, PageOf(b))))
  }

  predicate FreeBlock(h: Heap, b: nat, c: nat) {
    Block(h, b) && PageClass(h, PageOf(b)) == c && At(h.mem, b).cid == FREE_CID
  }

  predicate SmallObject(h: Heap, b: nat) { Block(h, b) && At(h.mem, b).cid != FREE_CID }

  /** `a` is the header of an allocated object. */
  predicate Object(h: Heap, a: nat) {
    SmallObject(h, a) || (a == Adr(PageOf(a)) && LargeObject(h, PageOf(a)))
  }

  function Bit(bits: seq<bool>, p: nat): bool { p < |bits| && bits[p] }

  // ---------- The invariant, in parts ----------

  /** The length of a settled segment is the one its header gives; a free one fills its pages. */
  ghost predicate Sized(h: Heap) {
    && h.limbo <= h.seg.Keys
    && (forall s :: Settled(h, s) ==> HasLength(Top(h, s), h.seg[s]))
    && (forall s :: FreeSeg(h, s) ==> Adr(h.seg[s]) == Top(h, s).size + HEADER)
  }

  /** Pointer to element `i` of a list of pages, null past its end. */
  function PagePtr(list: seq<nat>, i: nat): nat { if i < |list| then Adr(list[i]) else 0 }

  ghost predicate PageLink(mem: Memory, list: seq<nat>, i: nat) {
    i < |list| ==> At(mem, Adr(list[i])).next == PagePtr(list, i + 1)
  }

  /** Following `next` from `head` gives exactly the pages in `list`. */
  ghost predicate PagesLinked(mem: Memory, head: nat, list: seq<nat>) {
    head == PagePtr(list, 0) && forall i: nat {:trigger PageLink(mem, list, i)} :: PageLink(mem, list, i)
  }

  ghost predicate Ascending(list: seq<nat>) { forall i, j :: 0 <= i < j < |list| ==> list[i] < list[j] }

  /** The free page list holds the free segments, in the order of their addresses. */
  ghost predicate FreeListed(h: Heap) {
    && PagesLinked(h.mem, h.head, h.free)
    && Ascending(h.free)
    && (forall s {:trigger FreeSeg(h, s)} :: FreeSeg(h, s) <==> s in h.free)
  }

  /** List entry `i` does not touch the one that follows it. */
  ghost predicate GapAfter(seg: Tiles, free: seq<nat>, i: nat)
    requires i < |free|
  {
    free[i] in seg && (i + 1 < |free| ==> free[i] + seg[free[i]] != free[i + 1])
  }

  ghost predicate Coalesced(h: Heap) { forall i :: 0 <= i < |h.free| ==> GapAfter(h.seg, h.free, i) }

  /** Pointer to element `i` of a list of blocks. */
  function BlockPtr(list: seq<nat>, i: nat): nat { if i < |list| then list[i] else 0 }

  ghost predicate BlockLink(mem: Memory, list: seq<nat>, i: nat) {
    i < |list| ==> At(mem, list[i]).next == BlockPtr(list, i + 1)
  }

  ghost predicate Linked(mem: Memory, head: nat, list: seq<nat>) {
    head == BlockPtr(list, 0) && forall i: nat {:trigger BlockLink(mem, list, i)} :: BlockLink(mem, list, i)
  }

  ghost predicate Distinct(list: seq<nat>) { forall i, j :: 0 <= i < j < |list| ==> list[i] != list[j] }

  /** A chain lists each free block of its class once. */
  ghost predicate ChainOk(h: Heap, c: nat)
    requires c < |h.heads| == |h.chains|
  {
    && Linked(h.mem, h.heads[c], h.chains[c])
    && Distinct(h.chains[c])
    && (forall b {:trigger FreeBlock(h, b, c)} :: FreeBlock(h, b, c) <==> b in h.chains[c])
  }

  ghost predicate Chained(h: Heap) {
    && |h.heads| == |h.chains| == CLASSES
    && (forall c :: 0 <= c < CLASSES ==> ChainOk(h, c))
  }

  /** An object in a block has the class of its page. */
  ghost predicate Typed(h: Heap) {
    forall b :: SmallObject(h, b) ==>
      IsSmall(At(h.mem, b).size) && ClassOf(At(h.mem, b).size) == PageClass(h, PageOf(b))
  }

  /** In a settled segment the bitmap marks the pages after the first of a large object, unless that
      is the page map itself. */
  ghost predicate BitsOf(h: Heap, s: nat) {
    s in h.seg ==> forall p :: s <= p < s + h.seg[s] ==>
                     Bit(h.bits, p) == (p != s && LargeObject(h, s) && Top(h, s).cid != MAP_CID)
  }

  /** No bit is set for the `n` pages at `s`. */
  ghost predicate BitsClear(bits: seq<bool>, s: nat, n: nat) { forall p :: s <= p < s + n ==> !Bit(bits, p) }

  ghost predicate BitsOk(h: Heap) {
    && (forall s :: Settled(h, s) ==> BitsOf(h, s))
    && (forall p :: h.end <= p ==> !Bit(h.bits, p))
  }

  ghost predicate Core(h: Heap) {
    Tiled(h.seg, h.end) && Sized(h) && FreeListed(h) && Chained(h) && Typed(h) && BitsOk(h)
  }

  // ---------- What does not change ----------

  ghost predicate SameObjects(h: Heap, k: Heap) {
    && (forall a :: Object(h, a) <==> Object(k, a))
    && (forall a :: Object(h, a) ==> At(h.mem, a) == At(k.mem, a))
  }

  /** The small pages and all that is in them are the same. */
  ghost predicate SameSmall(h: Heap, k: Heap) {
    && (forall s :: SmallPage(h, s) <==> SmallPage(k, s))
    && (forall a {:trigger At(k.mem, a)} :: SmallPage(h, PageOf(a)) ==> At(h.mem, a) == At(k.mem, a))
  }

  ghost predicate SameLarge(h: Heap, k: Heap) {
    && (forall s :: LargeObject(h, s) <==> LargeObject(k, s))
    && (forall s :: LargeObject(h, s) ==> Top(h, s) == Top(k, s))
  }

  lemma SameBlock(h: Heap, k: Heap, b: nat)
    requires SameSmall(h, k)
    ensures Block(h, b) <==> Block(k, b)
    ensures Block(h, b) ==> At(h.mem, b) == At(k.mem, b) && PageClass(h, PageOf(b)) == PageClass(k, PageOf(b))
  {
    PageOfAdr(PageOf(b));
  }

  lemma SmallKeepsChains(h: Heap, k: Heap)
    requires Chained(h) && Typed(h) && SameSmall(h, k)
    requires k.heads == h.heads && k.chains == h.chains
    ensures Chained(k) && Typed(k)
  {
    forall c | 0 <= c < CLASSES ensures ChainOk(k, c) { SmallKeepsChain(h, k, c); }
    forall b | SmallObject(k, b)
      ensures IsSmall(At(k.mem, b).size) && ClassOf(At(k.mem, b).size) == PageClass(k, PageOf(b))
    {
      SameBlock(h, k, b);
      assert SmallObject(h, b);
    }
  }

  lemma SmallKeepsChain(h: Heap, k: Heap, c: nat)
    requires Chained(h) && SameSmall(h, k) && c < CLASSES
    requires k.heads == h.heads && k.chains == h.chains
    ensures ChainOk(k, c)
  {
    assert ChainOk(h, c);
    var list := h.chains[c];
    forall b ensures FreeBlock(k, b, c) <==> b in list {
      SameBlock(h, k, b);
      assert FreeBlock(h, b, c) <==> b in list;
    }
    forall i: nat ensures BlockLink(k.mem, list, i) {
      assert BlockLink(h.mem, list, i);
      if i < |list| {
        SameBlock(h, k, list[i]);
        assert FreeBlock(h, list[i], c) <==> list[i] in list;
      }
    }
  }

  lemma SameIsSameObjects(h: Heap, k: Heap)
    requires SameSmall(h, k) && SameLarge(h, k)
    ensures SameObjects(h, k)
  {
    forall a ensures Object(h, a) <==> Object(k, a) { SameBlock(h, k, a); }
    forall a | Object(h, a) ensures At(h.mem, a) == At(k.mem, a) { SameBlock(h, k, a); }
  }

  /** Whatever changed lies in pages `w`, none of which is a small page before or after. */
  ghost predicate OnlyPages(h: Heap, k: Heap, w: set<nat>) {
    && (forall a {:trigger At(k.mem, a)} :: PageOf(a) !in w ==> At(h.mem, a) == At(k.mem, a))
    && (forall s :: s !in w ==> (Settled(h, s) <==> Settled(k, s)))
    && (forall s :: s in w ==> !SmallPage(h, s) && !SmallPage(k, s))
  }

  lemma OnlyPagesSameSmall(h: Heap, k: Heap, w: set<nat>)
    requires OnlyPages(h, k, w)
    ensures SameSmall(h, k)
    ensures forall s :: s !in w ==> Top(h, s) == Top(k, s)
  {
    forall s ensures s !in w ==> Top(h, s) == Top(k, s) { PageOfAdr(s); }
    forall s ensures SmallPage(h, s) <==> SmallPage(k, s) { PageOfAdr(s); }
    forall a | SmallPage(h, PageOf(a)) ensures At(h.mem, a) == At(k.mem, a) { assert PageOf(a) !in w; }
  }

  /** ... nor is any of them, before or after, the first page of a large object. */
  ghost predicate OnlyPlain(h: Heap, k: Heap, w: set<nat>) {
    OnlyPages(h, k, w) && forall s :: s in w ==> !LargeObject(h, s) && !LargeObject(k, s)
  }

  lemma OnlyPlainSame(h: Heap, k: Heap, w: set<nat>)
    requires OnlyPlain(h, k, w)
    ensures SameSmall(h, k) && SameLarge(h, k)
  {
    OnlyPagesSameSmall(h, k, w);
  }

  // ---------- The page map ----------

  /** The page map is the only object of its class, and has a bit for every page of the file; as long
      as there is none, no bit is set. */
  ghost predicate MapSound(h: Heap, pageMap: nat) {
    && (forall a {:trigger Object(h, a)} ::
          Object(h, a) && At(h.mem, a).cid == MAP_CID ==> a == pageMap && pageMap != 0)
    && (pageMap == 0 ==> h.bits == [])
    && (pageMap != 0 ==> MapAt(h, pageMap) && h.end <= |h.bits|)
  }

  /** The page map at `a` is a large object whose payload is the bitmap. */
  ghost predicate MapAt(h: Heap, a: nat) {
    && a == Adr(PageOf(a)) && LargeObject(h, PageOf(a))
    && At(h.mem, a).cid == MAP_CID && |h.bits| == 8 * At(h.mem, a).size
  }

  /** An object of the application or a class descriptor: any but the page map. */
  predicate User(h: Heap, a: nat) { Object(h, a) && At(h.mem, a).cid != MAP_CID }

  ghost predicate SameUsers(h: Heap, k: Heap) {
    && (forall a :: User(h, a) <==> User(k, a))
    && (forall a :: User(h, a) ==> At(h.mem, a) == At(k.mem, a))
  }

  ghost predicate AddsUser(h: Heap, k: Heap, a: nat) {
    && (forall x :: User(k, x) <==> User(h, x) || x == a)
    && (forall x :: User(h, x) ==> At(h.mem, x) == At(k.mem, x))
  }

  // ---------- Finding the header of an interior pointer ----------

  /** `addr` + HEADER points into the payload of the object at `a`, or is where that starts. */
  predicate Inside(h: Heap, a: nat, addr: nat) {
    a <= addr && (addr == a || addr < a + At(h.mem, a).size)
  }

  lemma BlockSizePositive(size: nat)
    requires IsSmall(size)
    ensures 0 < BlockSize(SizeIndex(size))
  {
    BlockFits(size);
  }

  /** The header found from the page of `addr` alone. */
  function HeaderInPage(mem: Memory, addr: nat): nat {
    var top := At(mem, Adr(PageOf(addr)));
    if IsSmall(top.size) then
      BlockSizePositive(top.size); StartOf(addr, BlockSize(SizeIndex(top.size)))
    else
      Adr(PageOf(addr))
  }

  /** Inside a block, the page has no bit, and the block is found from the page's first header. */
  lemma SmallLookup(h: Heap, a: nat, addr: nat)
    requires Core(h) && SmallObject(h, a) && Inside(h, a, addr)
    ensures !Bit(h.bits, PageOf(addr)) && HeaderInPage(h.mem, addr) == a
  {
    var s := PageOf(a);
    BlockSizes(PageClass(h, s));
    BlockFits(At(h.mem, a).size);
    BlockFits(Top(h, s).size);
    PageOffset(s, addr);
    assert Place(h.seg, h.end, s) && BitsOf(h, s);
    StartOfBlock(a, s, ClassSize(PageClass(h, s)), addr);
  }

  /** Inside a large object, the bits lead back to its first page. */
  lemma LargeLookup(h: Heap, a: nat, addr: nat)
    requires Core(h) && a == Adr(PageOf(a)) && LargeObject(h, PageOf(a)) && At(h.mem, a).cid != MAP_CID
    requires Inside(h, a, addr)
    ensures PageOf(a) <= PageOf(addr)
    ensures PageOf(a) == PageOf(addr) ==> HeaderInPage(h.mem, addr) == a
    ensures forall p :: PageOf(a) <= p <= PageOf(addr) ==> Bit(h.bits, p) == (p != PageOf(a))
  {
    var s := PageOf(a);
    assert Place(h.seg, h.end, s) && BitsOf(h, s);
  }

  /** No bit, or no map: the page decides.  Otherwise the object starts at the last page before whose
      bit is not set. */
  lemma Lookup(h: Heap, pageMap: nat, a: nat, addr: nat)
    requires Core(h) && MapSound(h, pageMap) && User(h, a) && Inside(h, a, addr)
    ensures pageMap == 0 || !Bit(h.bits, PageOf(addr)) ==> HeaderInPage(h.mem, addr) == a
    ensures pageMap != 0 && Bit(h.bits, PageOf(addr)) ==>
              a == Adr(PageOf(a)) && PageOf(a) <= PageOf(addr)
              && forall p :: PageOf(a) <= p <= PageOf(addr) ==> Bit(h.bits, p) == (p != PageOf(a))
  {
    if SmallObject(h, a) {
      SmallLookup(h, a, addr);
    } else {
      LargeLookup(h, a, addr);
    }
  }

  // ---------- What the invariant means for the objects ----------

  /** A heap of no pages. */
  lemma EmptyHeap(h: Heap)
    requires h == Heap(map[], 1, map[], {}, 0, [], seq(CLASSES, i => 0), seq(CLASSES, i => []), [])
    ensures Core(h) && Coalesced(h) && MapSound(h, 0)
    ensures forall a: nat :: !Object(h, a)
  {
    forall c | 0 <= c < CLASSES ensures ChainOk(h, c) { }
  }

  /** First address after the object at `a`. */
  function ObjectEnd(h: Heap, a: nat): nat { a + HEADER + At(h.mem, a).size }

  /** An object lies within the segment that its page starts. */
  lemma ObjectInSegment(h: Heap, a: nat)
    requires Core(h) && Object(h, a)
    ensures PageOf(a) in h.seg && ObjectEnd(h, a) <= Adr(PageOf(a) + h.seg[PageOf(a)]) <= Adr(h.end)
  {
    var s := PageOf(a);
    assert Place(h.seg, h.end, s);
    if SmallObject(h, a) {
      BlockFits(At(h.mem, a).size);
      BlockSizes(PageClass(h, s));
    }
  }

  /** Objects never overlap. */
  lemma ObjectsApart(h: Heap, a: nat, b: nat)
    requires Core(h) && Object(h, a) && Object(h, b) && a < b
    ensures ObjectEnd(h, a) <= b
  {
    var s, t := PageOf(a), PageOf(b);
    ObjectInSegment(h, a);
    ObjectInSegment(h, b);
    if s < t {
      SegmentsApart(h.seg, h.end, s, t);
    } else {
      assert SmallObject(h, b);
      assert SmallPage(h, s);
      BlockSizes(PageClass(h, s));
      BlockFits(At(h.mem, a).size);
      BlocksApart(a, b, Adr(s), ClassSize(PageClass(h, s)));
    }
  }

  /** Nor does an object share an address with free space. */
  lemma ObjectNotFree(h: Heap, a: nat, f: nat)
    requires Core(h) && Object(h, a) && f in h.free
    ensures f in h.seg && (ObjectEnd(h, a) <= Adr(f) || Adr(f + h.seg[f]) <= a)
  {
    ObjectInSegment(h, a);
    assert FreeSeg(h, f) <==> f in h.free;
    var s := PageOf(a);
    if s < f {
      SegmentsApart(h.seg, h.end, s, f);
    } else if f < s {
      SegmentsApart(h.seg, h.end, f, s);
    }
  }
}

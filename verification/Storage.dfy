/** The storage: page and block allocation, release, and the header lookup for interior pointers. */
module Storages {
  import opened Blocks
  import opened Tiling
  import opened HeapModel
  import opened PageSteps
  import opened BlockSteps
  import opened Marking
  import opened Sweeping
  import opened Collection

  /** The roving pointer is a member of the free list, or null when that is empty. */
  ghost predicate Roving(curr: nat, free: seq<nat>) {
    if free == [] then curr == 0 else curr == Adr(PageOf(curr)) && PageOf(curr) in free
  }

  /** Entry `i` is the first with room for `size` bytes after entry `k` or, if there is none, the first. */
  ghost predicate NextFit(mem: Memory, list: seq<nat>, k: nat, i: nat, size: nat)
    requires k < |list|
  {
    && (k < i ==> forall j :: k < j < i && j < |list| ==> At(mem, Adr(list[j])).size < size)
    && (i <= k ==> forall j :: 0 <= j < |list| && (j < i || k < j) ==> At(mem, Adr(list[j])).size < size)
  }

  lemma IsNextFit(mem: Memory, list: seq<nat>, k: nat, i: nat, size: nat)
    requires k < |list|
    requires forall j :: k < j < i && j < |list| ==> At(mem, Adr(list[j])).size < size
    requires i <= k ==> forall j :: 0 <= j < |list| && (j < i || k < j) ==> At(mem, Adr(list[j])).size < size
    ensures NextFit(mem, list, k, i, size)
  {
  }

  /** Page `f` lies in the segment at `t`. */
  ghost predicate Joined(seg: Tiles, t: nat, f: nat) { t in seg && t <= f < t + seg[t] }

  /** `n` pages at `t` are taken from the end of the free segment that next fit, from `curr` on, finds for `size`. */
  ghost predicate Fitting(mem: Memory, free: seq<nat>, seg: Tiles, curr: nat, size: nat, t: nat) {
    exists k: nat, i: nat :: k < |free| && curr == Adr(free[k]) && i < |free| && size <= At(mem, Adr(free[i])).size
      && NextFit(mem, free, k, i, size) && free[i] in seg && t == free[i] + seg[free[i]] - Pages(size + HEADER)
  }

  class Storage {
    var mem: Memory
    var end: nat                   // file_size, in pages
    var freePageChain: nat
    var freeBlockChain: seq<nat>
    var currFreePage: nat
    var pageMap: nat
    var bits: seq<bool>            // the contents of the page map
    var base: int                  // address at which the file is mapped
    var slots: Slots               // the pointers in roots and objects
    var segCount: map<nat, nat>    // how many segments the class of each object reports

    ghost var seg: Tiles
    ghost var limbo: set<nat>
    ghost var free: seq<nat>
    ghost var chains: seq<seq<nat>>

    ghost function H(): Heap
      reads `mem, `end, `seg, `limbo, `freePageChain, `free, `freeBlockChain, `chains, `bits
    {
      Heap(mem, end, seg, limbo, freePageChain, free, freeBlockChain, chains, bits)
    }

    ghost predicate Sound()
      reads `mem, `end, `seg, `limbo, `freePageChain, `free, `freeBlockChain, `chains, `bits, `currFreePage
    {
      Core(H()) && Coalesced(H()) && Roving(currFreePage, free)
    }

    /** A new storage: the header page, and nothing else. */
    constructor (base: int)
      ensures Valid() && end == 1 && pageMap == 0 && RootsIn(slots)
      ensures forall a: nat :: !Object(H(), a)
      ensures Closed(Before(0), {}) && WellFormed(Before(0), {})
    {
      mem, end, freePageChain, currFreePage, pageMap := map[], 1, 0, 0, 0;
      freeBlockChain := seq(CLASSES, i => 0);
      bits := [];
      this.base := base;
      slots, segCount := map[RootObject := [0], ClassDictionary := [0], StaticData := []], map[];
      seg, limbo, free := map[], {}, [];
      chains := seq(CLASSES, i => []);
      new;
      EmptyHeap(H());
    }

    // ---------- free_page ----------

    /** Finds the neighbours of `fp` in the free list, from the roving pointer if that is lower. */
    method Locate(fp: nat, ghost f: nat) returns (prev: nat, bp: nat, ghost i: nat)
      requires Sound() && fp == Adr(f) && f !in free
      ensures FitsAt(free, f, i)
      ensures bp == PagePtr(free, i) && prev == (if i == 0 then 0 else Adr(free[i - 1]))
    {
      if currFreePage != 0 && currFreePage < fp {
        i :| 0 <= i < |free| && free[i] == PageOf(currFreePage);
        i := i + 1;
        prev := currFreePage;
        assert PageLink(mem, free, i - 1);
        bp := At(mem, prev).next;
      } else {
        i := 0;
        prev := 0;
        bp := freePageChain;
      }
      while bp != 0 && bp < fp
        invariant i <= |free| && bp == PagePtr(free, i)
        invariant prev == (if i == 0 then 0 else Adr(free[i - 1]))
        invariant i > 0 ==> free[i - 1] < f
        decreases |free| - i
      {
        assert PageLink(mem, free, i);
        prev := bp;
        bp := At(mem, bp).next;
        i := i + 1;
      }
      if i < |free| {
        InFree(H(), i);
        assert Place(seg, end, free[i]);
      }
    }

    /** Clears the bits of the pages after the first. */
    method ClearBits(f: nat, n: nat)
      requires 1 < n && f + n <= |bits|
      modifies `bits
      ensures |bits| == |old(bits)|
      ensures MarksOnly(old(bits), bits, f, n, false)
    {
      var p := f;
      var left := n - 1;
      while left != 0
        invariant p + left == f + n - 1 && left <= n - 1
        invariant |bits| == |old(bits)|
        invariant MarksOnly(old(bits), bits, f, p + 1 - f, false)
      {
        p := p + 1;
        ghost var before := bits;
        bits := bits[p := false];
        assert forall q: nat :: Bit(bits, q) == (q != p && Bit(before, q));
        left := left - 1;
      }
    }

    /** Writes the free header of `fp` and links it after `prev`, or joins it to `prev`. */
    method LinkBefore(fp: nat, prev: nat, bp: nat, n: nat, ghost f: nat, ghost i: nat) returns (p: nat)
      requires f in seg && seg[f] == n && 1 <= n && fp == Adr(f) && FitsAt(free, f, i)
      requires bp == PagePtr(free, i) && prev == (if i == 0 then 0 else Adr(free[i - 1]))
      requires i > 0 ==> free[i - 1] != 0
      requires FreeListed(InsertFree(H(), f, i)) && Sized(InsertFree(H(), f, i))
      requires PagesLinked(mem, freePageChain, free)
      modifies `mem, `freePageChain, `seg, `limbo, `free
      ensures H() == JoinedBefore(InsertFree(old(H()), f, i), i)
      ensures p == if i > 0 && Touches(InsertFree(old(H()), f, i), i - 1) then prev else fp
    {
      hide Touches;
      ghost var h := H();
      ghost var k := InsertFree(h, f, i);
      p := fp;
      mem := mem[fp := Header(FREE_CID, false, Adr(n) - HEADER, bp)];
      assert mem == FreeHeader(h, f, i);
      if prev == 0 {
        freePageChain := fp;
        seg, limbo, free := k.seg, k.limbo, k.free;
        assert H() == k;
      } else {
        BeforeBySize(h, f, i);
        if prev + At(mem, prev).size + HEADER == fp {
          JoinBeforeMem(h, f, i);
          mem := mem[prev := At(mem, prev).(size := At(mem, prev).size + At(mem, fp).size + HEADER)];
          p := prev;
        } else {
          mem := mem[prev := At(mem, prev).(next := fp)];
        }
        seg, limbo, free := JoinedBefore(k, i).seg, k.limbo, JoinedBefore(k, i).free;
      }
    }

    /** Joins the listed segment `p` with the one after it if they touch. */
    method JoinAfter(p: nat, bp: nat, ghost i: nat)
      requires FreeListed(H()) && Sized(H()) && i < |free| && p == Adr(free[i])
      requires bp == PagePtr(free, i + 1) && (i + 1 < |free| ==> free[i + 1] != 0)
      modifies `mem, `seg, `free
      ensures H() == JoinedAfter(old(H()), i)
    {
      ghost var h := H();
      if i + 1 < |free| { TouchesBySize(h, i); }
      if p + At(mem, p).size + HEADER == bp {
        mem := mem[p := At(mem, p).(size := At(mem, p).size + At(mem, bp).size + HEADER, next := At(mem, bp).next)];
        seg, free := JoinedAfter(h, i).seg, JoinedAfter(h, i).free;
      }
    }

    /** The list surgery of a release, `i` being where `f` belongs. */
    method LinkIn(fp: nat, prev: nat, bp: nat, n: nat, ghost f: nat, ghost i: nat)
      requires Core(H()) && f in limbo && f in seg && seg[f] == n && fp == Adr(f) && FitsAt(free, f, i)
      requires bp == PagePtr(free, i) && prev == (if i == 0 then 0 else Adr(free[i - 1]))
      requires BitsClear(bits, f, n)
      modifies `mem, `freePageChain, `currFreePage, `seg, `limbo, `free
      ensures 1 <= n && H() == Released(old(H()), f, i)
      ensures Roving(currFreePage, free) && Joined(seg, PageOf(currFreePage), f)
    {
      hide Chained, Typed, BitsOk, Tiled, Sized, Touches, JoinedBefore, JoinedAfter;
      ghost var h := H();
      ReleasedListed(h, f, i);
      ReleasedNeighbours(h, f, i);
      ghost var j := ReleasedAt(h, f, i);
      var p := LinkBefore(fp, prev, bp, n, f, i);
      assert p == Adr(free[j]);
      JoinAfter(p, bp, j);
      currFreePage := p;
      RovingAt(p, free, j);
      ReleasedHas(h, f, i);
      PageOfAdr(free[j]);
    }

    /** Before pages are given back, the bits of those after the first are cleared if they are set. */
    method ForgetBits(cid: nat, n: nat, f: nat)
      requires Core(H()) && Coalesced(H()) && f in limbo && f in seg && seg[f] == n
      requires ToClear(cid, n) ==> !Bit(bits, f) && f + n <= |bits|
      requires !ToClear(cid, n) ==> BitsClear(bits, f, n)
      modifies `bits
      ensures Core(H()) && Coalesced(H()) && SameObjects(old(H()), H()) && |bits| == |old(bits)|
      ensures BitsClear(bits, f, n) && MarksOnly(old(bits), bits, f, if ToClear(cid, n) then n else 1, false)
    {
      hide Chained, Typed, Sized, FreeListed, Tiled;
      if ToClear(cid, n) {
        ClearBits(f, n);
        LimboBits(old(H()), H(), f);
      }
    }

    /** Pages `f`.. of a segment in limbo go back to the free list, joined with their neighbours. */
    method FreePage(fp: nat, ghost f: nat)
      requires Sound() && f in limbo && f in seg && fp == Adr(f)
      requires Adr(seg[f]) - PAGE < At(mem, fp).size + HEADER <= Adr(seg[f])
      requires ToClear(At(mem, fp).cid, seg[f]) ==> !Bit(bits, f) && f + seg[f] <= |bits|
      requires !ToClear(At(mem, fp).cid, seg[f]) ==> BitsClear(bits, f, seg[f])
      modifies `mem, `freePageChain, `currFreePage, `seg, `limbo, `free, `bits
      ensures Sound() && SameObjects(old(H()), H())
      ensures limbo == old(limbo) - {f} && Aside(old(H()).(bits := bits), H(), f)
      ensures |bits| == |old(bits)|
      ensures MarksOnly(old(bits), bits, f,
                        if ToClear(old(At(mem, fp)).cid, old(seg)[f]) then old(seg)[f] else 1, false)
      ensures Joined(seg, PageOf(currFreePage), f)
    {
      hide Core, Coalesced, MarksOnly, BitsClear, Roving, Joined;
      NotFree(H(), f);
      ghost var i;
      var prev, bp;
      prev, bp, i := Locate(fp, f);
      var n := Pages(At(mem, fp).size + HEADER);
      ForgetBits(At(mem, fp).cid, n, PageOf(fp));
      ghost var h := H();
      ReleasedSound(h, f, i);
      LinkIn(fp, prev, bp, n, f, i);
      SameObjectsTrans(old(H()), h, H());
    }

    // ---------- alloc_page ----------

    /** First entry of `list`, from entry `from` on, that has room for `size` bytes. */
    method Scan(start: nat, before: nat, size: nat, ghost head: nat, ghost list: seq<nat>, ghost from: nat)
      returns (bp: nat, prev: nat, ghost i: nat)
      requires PagesLinked(mem, head, list) && from <= |list| && 0 !in list
      requires start == PagePtr(list, from) && before == (if from == 0 then 0 else Adr(list[from - 1]))
      ensures from <= i <= |list| && bp == PagePtr(list, i) && prev == (if i == 0 then 0 else Adr(list[i - 1]))
      ensures forall j :: from <= j < i ==> At(mem, Adr(list[j])).size < size
      ensures i < |list| ==> size <= At(mem, bp).size
    {
      bp, prev, i := start, before, from;
      while bp != 0 && At(mem, bp).size < size
        invariant from <= i <= |list| && bp == PagePtr(list, i)
        invariant prev == (if i == 0 then 0 else Adr(list[i - 1]))
        invariant forall j :: from <= j < i ==> At(mem, Adr(list[j])).size < size
        decreases |list| - i
      {
        assert PageLink(mem, list, i);
        assert list[i] in list;
        prev := bp;
        bp := At(mem, bp).next;
        i := i + 1;
      }
      if i < |list| { assert list[i] in list; }
    }

    /** The second search: from the start of the list to the roving pointer, whose link is cut for
        the time of the search. */
    method ScanAround(size: nat, ghost k: nat) returns (bp: nat, prev: nat, ghost i: nat)
      requires Sound() && k < |free| && currFreePage == Adr(free[k]) && currFreePage in mem
      modifies `mem
      ensures mem == old(mem)
      ensures i <= k + 1 && bp == PagePtr(free[..k + 1], i) && prev == (if i == 0 then 0 else Adr(free[i - 1]))
      ensures forall j :: 0 <= j < i ==> At(mem, Adr(free[j])).size < size
      ensures i <= k ==> size <= At(mem, bp).size
    {
      FreeNonNull(H());
      CutLinked(mem, freePageChain, free, k);
      var saveNext := At(mem, currFreePage).next;
      mem := mem[currFreePage := At(mem, currFreePage).(next := 0)];
      bp, prev, i := Scan(freePageChain, 0, size, freePageChain, free[..k + 1], 0);
      mem := mem[currFreePage := At(mem, currFreePage).(next := saveNext)];
      assert mem == old(mem);
      forall j | 0 <= j < i ensures At(mem, Adr(free[j])).size < size { assert free[j] == free[..k + 1][j]; }
    }

    /** A free segment with room, looked for after the roving pointer and then from the start. */
    method FindFit(size: nat) returns (bp: nat, prev: nat, ghost i: nat)
      requires Sound() && free != []
      modifies `mem
      ensures mem == old(mem)
      ensures bp != 0 ==> exists k :: 0 <= k < |free| && currFreePage == Adr(free[k]) && NextFit(mem, free, k, i, size)
      ensures bp == 0 ==> forall j :: 0 <= j < |free| ==> At(mem, Adr(free[j])).size < size
      ensures bp != 0 ==> i < |free| && bp == Adr(free[i]) && size <= At(mem, bp).size
      ensures bp != 0 ==> prev == (if i == 0 then 0 else Adr(free[i - 1]))
    {
      hide NextFit, Chained, Typed, BitsOk, Sized, Coalesced, Tiled, FreeSeg;
      FreeNonNull(H());
      ghost var k :| 0 <= k < |free| && free[k] == PageOf(currFreePage);
      assert PageLink(mem, free, k);
      FreeRoom(H(), k, size);
      bp, prev, i := Scan(At(mem, currFreePage).next, currFreePage, size, freePageChain, free, k + 1);
      if bp == 0 {
        bp, prev, i := ScanAround(size, k);
      }
      IsNextFit(mem, free, k, i, size);
    }

    /** Pages for `size` bytes out of the free segment `bp`, which has room for them. */
    method TakeFrom(bp: nat, prev: nat, size: nat, ghost i: nat) returns (a: nat, ghost t: nat)
      requires Sound() && i < |free| && bp == Adr(free[i]) && size <= At(mem, bp).size
      requires prev == (if i == 0 then 0 else Adr(free[i - 1]))
      modifies `mem, `freePageChain, `currFreePage, `seg, `limbo, `free
      ensures Sound() && a == Adr(t) && Taken(old(H()), H(), t, Pages(size + HEADER))
      ensures currFreePage == if old(At(mem, bp)).size > Adr(Pages(size + HEADER)) then bp
                              else if old(At(mem, bp)).next != 0 then old(At(mem, bp)).next else freePageChain
      ensures old(free[i]) in old(seg) && t == old(free[i]) + old(seg)[old(free[i])] - Pages(size + HEADER)
    {
      hide Chained, Typed, BitsOk, FreeListed, Sized, Coalesced;
      FreeRoom(H(), i, size);
      var n := Pages(size + HEADER);
      if At(mem, bp).size > Adr(n) {
        SplitTailTaken(H(), i, n);
        t := free[i] + seg[free[i]] - n;
        a := TakeTail(bp, n, free[i]);
        RovingAt(bp, free, i);
      } else {
        UnlinkTaken(H(), i, n);
        t, a := free[i], bp;
        TakeWhole(bp, prev, i);
      }
    }

    method TakeTail(bp: nat, n: nat, ghost f: nat) returns (a: nat)
      requires f in seg && bp == Adr(f) && n < seg[f] && Adr(n) <= At(mem, bp).size
      modifies `mem, `currFreePage, `seg, `limbo
      ensures H() == SplitTail(old(H()), f, n) && currFreePage == bp
      ensures a == bp + old(At(mem, bp)).size - Adr(n) + HEADER
    {
      currFreePage := bp;
      mem := mem[bp := At(mem, bp).(size := At(mem, bp).size - Adr(n))];
      a := bp + At(mem, bp).size + HEADER;
      limbo := limbo + {f + seg[f] - n};
      seg := SplitSeg(seg, f, n);
    }

    method TakeWhole(bp: nat, prev: nat, ghost i: nat)
      requires Sound() && i < |free| && bp == Adr(free[i])
      requires prev == (if i == 0 then 0 else Adr(free[i - 1]))
      modifies `mem, `freePageChain, `currFreePage, `limbo, `free
      ensures H() == Unlink(old(H()), i) && Roving(currFreePage, free)
      ensures currFreePage == if old(At(mem, bp)).next != 0 then old(At(mem, bp)).next else freePageChain
    {
      hide Typed;
      ghost var h := H();
      FreeNonNull(h);
      assert PageLink(mem, free, i);
      var next := At(mem, bp).next;
      if prev == 0 {
        freePageChain := next;
      } else {
        mem := mem[prev := At(mem, prev).(next := next)];
      }
      limbo, free := limbo + {free[i]}, Without(free, i);
      currFreePage := if next != 0 then next else freePageChain;
      if next != 0 {
        RovingAt(next, free, i);
      } else if free != [] {
        RovingAt(freePageChain, free, 0);
      }
    }

    /** Cuts page `t`, whose first block was just given a header, into blocks of class `c`. */
    method Carve(a: nat, z: nat, c: nat, ghost t: nat) returns (ghost list: seq<nat>)
      requires a == Adr(t) && c < CLASSES && z == ClassSize(c) && |freeBlockChain| == |chains| == CLASSES
      requires t in limbo && t in seg && seg[t] == 1 && freeBlockChain[c] == BlockPtr(chains[c], 0)
      requires IsSmall(At(mem, a).size) && ClassOf(At(mem, a).size) == c && At(mem, a).cid != FREE_CID
      modifies `mem, `freeBlockChain, `limbo, `chains
      ensures SmallSettled(old(H()), H(), t, c, list)
      ensures forall b: nat :: BlockIn(b, t, z) && At(mem, b).cid != FREE_CID ==> b == a
      ensures At(mem, a) == old(At(mem, a))
    {
      ghost var h := H();
      var cp;
      list, cp := CarveBlocks(a, z, t);
      CutEnd(h.mem, mem, t, z, list, cp + z, chains[c]);
      mem := mem[cp := At(mem, cp).(next := freeBlockChain[c])];
      freeBlockChain := freeBlockChain[c := a + z];
      limbo, chains := limbo - {t}, chains[c := list + chains[c]];
      CutSettles(h, H(), t, c, list, cp + z);
    }

    /** The loop of the cut: marks the blocks after `a` free, each pointing to the next address. */
    method CarveBlocks(a: nat, z: nat, ghost t: nat) returns (ghost list: seq<nat>, cp: nat)
      requires a == Adr(t) && 16 <= z <= 256 && At(mem, a).cid != FREE_CID
      modifies `mem
      ensures Cutting(old(mem), mem, t, z, list, cp + z) && list != [] && a + PAGE < cp + 2 * z
      ensures IsBlock(cp, a, z)
    {
      var endOfPage := a + PAGE - z + 1;
      cp := a + z;
      list := [];
      CutFirst(mem, t, z);
      NextBlock(a, a, z);
      while cp < endOfPage
        invariant a + z <= cp && IsBlock(cp - z, a, z) && (cp < endOfPage ==> IsBlock(cp, a, z))
        invariant Cutting(old(mem), mem, t, z, list, cp)
        decreases endOfPage - cp
      {
        CutNext(old(mem), mem, t, z, list, cp);
        NextBlock(cp, a, z);
        mem := CutHeader(mem, cp, z);
        list := list + [cp];
        cp := cp + z;
      }
      cp := cp - z;
    }

    /** The segment at `t` gets its header and leaves limbo: as a page of blocks whose first is the
        object, or as a large object, whose pages after the first are marked. */
    method Settle(a: nat, cid: nat, size: nat, ghost t: nat)
      requires Sound() && t in limbo && a == Adr(t) && cid != FREE_CID
      requires t in seg && seg[t] == Pages(size + HEADER) && BitsClear(bits, t, seg[t])
      requires ToClear(cid, seg[t]) ==> end <= |bits|
      modifies `mem, `freeBlockChain, `limbo, `chains, `bits
      ensures Sound() && Adds(old(H()), H(), a) && !Object(old(H()), a)
      ensures limbo == old(limbo) - {t} && |bits| == |old(bits)|
      ensures At(mem, a).cid == cid && At(mem, a).size == size && !At(mem, a).mark
      ensures !ToClear(cid, Pages(size + HEADER)) ==> bits == old(bits)
    {
      StampKeeps(H(), t, cid, size);
      ghost var h := H();
      mem := mem[a := At(mem, a).(cid := cid, mark := false, size := size)];
      assert H() == Stamp(h, t, cid, size);
      LimboIsNoObject(H(), t);
      if IsSmall(size) {
        SettleAsBlocks(a, t);
      } else {
        SettleAsLarge(a, t);
      }
      AddsAfter(h, Stamp(h, t, cid, size), H(), a);
    }

    method SettleAsBlocks(a: nat, ghost t: nat)
      requires Sound() && t in limbo && a == Adr(t) && IsSmall(At(mem, a).size) && At(mem, a).cid != FREE_CID
      requires t in seg && seg[t] == 1 && BitsClear(bits, t, 1)
      modifies `mem, `freeBlockChain, `limbo, `chains
      ensures Sound() && Adds(old(H()), H(), a) && limbo == old(limbo) - {t}
      ensures At(mem, a) == old(At(mem, a))
    {
      ghost var h := H();
      var c := ClassOf(At(mem, a).size);
      assert ChainOk(h, c);
      BlockSizes(c);
      ghost var list := Carve(a, ClassSize(c), c, t);
      SettleSmall(h, H(), t, c, list);
      FirstBlock(t, ClassSize(c));
    }

    method SettleAsLarge(a: nat, ghost t: nat)
      requires Sound() && t in limbo && a == Adr(t) && !IsSmall(At(mem, a).size) && At(mem, a).cid != FREE_CID
      requires t in seg && HasLength(At(mem, a), seg[t]) && BitsClear(bits, t, seg[t])
      requires ToClear(At(mem, a).cid, seg[t]) ==> end <= |bits|
      modifies `limbo, `bits
      ensures Sound() && Adds(old(H()), H(), a) && limbo == old(limbo) - {t} && |bits| == |old(bits)|
      ensures !ToClear(At(mem, a).cid, old(seg)[t]) ==> bits == old(bits)
    {
      ghost var h := H();
      assert Place(seg, end, t);
      var n := Pages(At(mem, a).size + HEADER);
      if ToClear(At(mem, a).cid, n) {
        SetBits(PageOf(a), n);
      }
      limbo := limbo - {t};
      SettleLarge(h, H(), t);
    }

    /** Marks the pages after the first. */
    method SetBits(t: nat, n: nat)
      requires 1 < n && t + n <= |bits|
      modifies `bits
      ensures |bits| == |old(bits)|
      ensures MarksOnly(old(bits), bits, t, n, true)
    {
      var p := t;
      var left := n - 1;
      while left != 0
        invariant p + left == t + n - 1 && left <= n - 1
        invariant |bits| == |old(bits)|
        invariant MarksOnly(old(bits), bits, t, p + 1 - t, true)
      {
        p := p + 1;
        ghost var before := bits;
        bits := bits[p := true];
        assert forall q: nat :: Bit(bits, q) == (q == p || Bit(before, q));
        left := left - 1;
      }
    }

    /** Some free segment has room for `size` bytes. */
    ghost predicate Fits(size: nat)
      reads this
    {
      exists j :: 0 <= j < |free| && size <= At(mem, Adr(free[j])).size
    }

    /** The pages by which the file grows for `size` bytes. */
    ghost function OwnPages(size: nat): nat
      reads this
    {
      if Fits(size) then 0 else Pages(size + HEADER)
    }

    /** Pages for `size` bytes, from the free list if any segment there fits, else from new file
        space. */
    method TakePages(size: nat) returns (a: nat, grew: bool, ghost t: nat)
      requires Sound()
      modifies `mem, `end, `freePageChain, `currFreePage, `seg, `limbo, `free
      ensures Sound() && a == Adr(t) && Taken(old(H()), H(), t, Pages(size + HEADER))
      ensures grew <==> !old(Fits(size))
      ensures if grew then a == Adr(old(end)) && end == old(end) + Pages(size + HEADER)
              else end == old(end) && t < end && old(Fitting(mem, free, seg, currFreePage, size, t))
    {
      hide Chained, Typed, BitsOk, Sized, Coalesced;
      ghost var h := H();
      a, grew := 0, false;
      FreeNonNull(h);
      if freePageChain != 0 {
        var bp, prev;
        ghost var i;
        bp, prev, i := FindFit(size);
        if bp != 0 {
          a, t := TakeFrom(bp, prev, size, i);
          assert Place(seg, end, t);
          return;
        }
      }
      assert !Fits(size);
      t, grew := end, true;
      ExtendTaken(h, Pages(size + HEADER));
      a := Adr(end);
      end := end + Pages(size + HEADER);
      seg, limbo := seg[t := Pages(size + HEADER)], limbo + {t};
    }

    /** Allocates a page map; nothing but free space, the file size and the new object changes. */
    method AllocMap(size: nat) returns (a: nat)
      requires Sound() && !IsSmall(size)
      modifies this
      ensures Sound() && limbo == old(limbo) && bits == old(bits) && pageMap == old(pageMap)
      ensures Adds(old(H()), H(), a) && !Object(old(H()), a) && a != 0 && a == Adr(PageOf(a))
      ensures At(mem, a).cid == MAP_CID && At(mem, a).size == size
      ensures end == old(end) + old(OwnPages(size))
      ensures forall x :: x in limbo ==> x in seg && x in old(seg) && seg[x] == old(seg)[x]
    {
      hide Chained, Typed, BitsOk, FreeListed, Sized;
      ghost var h := H();
      ghost var t;
      var grew;
      a, grew, t := TakePages(size);
      ghost var k := H();
      assert Place(seg, end, t);
      LimboIsNoObject(k, t);
      PageOfAdr(t);
      Settle(a, MAP_CID, size, t);
      AddsAfter(h, k, H(), a);
    }

    /** A segment of `n` pages at `t` is being built; no bit is set for it. */
    ghost predicate Pending(t: nat, n: nat)
      reads this
    {
      limbo == {t} && t in seg && seg[t] == n && BitsClear(bits, t, n)
    }

    /** The file has grown from `before` pages by those of the page map, a byte for eight bits, or the map
        went into free space. */
    ghost predicate Grown(before: nat)
      reads `end, `bits
    {
      end == before || end == before + Pages(|bits| / 8 + HEADER)
    }

    /** The first multi-page object makes the page map. */
    method CreateMap(ghost t: nat, ghost n: nat)
      requires Sound() && Pending(t, n) && pageMap == 0 && MapSound(H(), 0)
      modifies this
      ensures Sound() && Pending(t, n) && pageMap != 0
      ensures SameUsers(old(H()), H()) && MapSound(H(), pageMap) && Grown(old(end))
      ensures MapFor(|bits| / 8, old(end), 8)
    {
      MapForIs(end, 8);
      var size := MapSize(MapBytes(Adr(end)), 8);
      MapCovers(end, 8);
      ghost var h := H();
      var newMap := AllocMap(size);
      ghost var k := H();
      bits := seq(8 * size, i => false);
      pageMap := newMap;
      LongerBits(k, H());
      AddsBefore(h, k, H(), newMap);
      FirstMap(h, H(), newMap);
      BigObjectIsLarge(H(), newMap);
    }

    /** Allocates the larger map and copies the old bits. */
    method CopyMap(ghost t: nat, ghost n: nat) returns (newMap: nat)
      requires Sound() && Pending(t, n) && MapAt(H(), pageMap)
      requires Adr(end) > At(mem, pageMap).size * PAGE * 8
      modifies this
      ensures Sound() && Pending(t, n) && pageMap == old(pageMap)
      ensures Adds(old(H()), H(), newMap) && !Object(old(H()), newMap) && newMap != 0
      ensures newMap == Adr(PageOf(newMap)) && LargeObject(H(), PageOf(newMap))
      ensures At(mem, newMap).cid == MAP_CID && |bits| == 8 * At(mem, newMap).size && end <= |bits|
      ensures Grown(old(end)) && MapFor(|bits| / 8, old(end), 2)
    {
      hide Core, Roving, FreeListed, Tiled, MapFor;
      MapForIs(end, 2);
      var oldSize := At(mem, pageMap).size;
      var size := MapSize(MapBytes(Adr(end)), 2);
      MapCovers(end, 2);
      MapGrows(end, oldSize);
      ghost var h := H();
      newMap := AllocMap(size);
      ghost var k := H();
      bits := bits + seq(8 * size - |bits|, i => false);
      LongerBits(k, H());
      AddsBefore(h, k, H(), newMap);
      BigObjectIsLarge(H(), newMap);
    }

    /** Gives the pages of an object that has left the heap, or of the old map, back. */
    method Retire(a: nat, ghost s: nat)
      requires Sound() && LargeObject(H(), s) && a == Adr(s)
      requires ToClear(At(mem, a).cid, seg[s]) ==> s + seg[s] <= |bits|
      modifies `mem, `freePageChain, `currFreePage, `seg, `limbo, `free, `bits
      ensures Sound() && Drops(old(H()), H(), a) && limbo == old(limbo) - {s}
      ensures |bits| == |old(bits)| && end == old(end)
      ensures forall p: nat {:trigger Bit(bits, p)} :: Bit(bits, p) ==> Bit(old(bits), p)
      ensures forall x :: x in limbo && x in old(seg) ==> x in seg && seg[x] == old(seg)[x]
    {
      ghost var h := H();
      assert BitsOf(h, s);
      assert Place(seg, end, s);
      limbo := limbo + {s};
      UnsettleLarge(h, H(), s);
      ghost var k := H();
      forall x | x in limbo ensures x !in free { assert FreeSeg(k, x) <==> x in free; }
      FreePage(a, s);
      DropsAfter(h, k, H(), a);
    }

    /** A map that has become too small is replaced by a larger copy and given back. */
    method ReplaceMap(ghost t: nat, ghost n: nat)
      requires Sound() && Pending(t, n) && pageMap != 0 && MapAt(H(), pageMap) && Object(H(), pageMap)
      requires forall a {:trigger Object(H(), a)} :: Object(H(), a) && At(mem, a).cid == MAP_CID ==> a == pageMap
      requires Adr(end) > At(mem, pageMap).size * PAGE * 8
      modifies this
      ensures Sound() && Pending(t, n) && pageMap != 0
      ensures SameUsers(old(H()), H()) && MapSound(H(), pageMap) && Grown(old(end)) && pageMap != old(pageMap)
      ensures MapFor(|bits| / 8, old(end), 2)
    {
      hide Core, MapFor;
      ghost var h := H();
      var newMap := CopyMap(t, n);
      ghost var k := H();
      assert Object(k, pageMap);
      BigObjectIsLarge(k, pageMap);
      Retire(pageMap, PageOf(pageMap));
      MapReplaced(h, k, H(), pageMap, newMap);
      BigObjectIsLarge(H(), newMap);
      pageMap := newMap;
    }

    /** The heap while no call is changing its layout. */
    ghost predicate Steady()
      reads `mem, `end, `seg, `limbo, `freePageChain, `free, `freeBlockChain, `chains, `bits, `currFreePage, `pageMap
    {
      Sound() && limbo == {} && MapSound(H(), pageMap)
    }

    /** The heap between two calls: no object is marked. */
    ghost predicate Valid()
      reads `mem, `end, `seg, `limbo, `freePageChain, `free, `freeBlockChain, `chains, `bits, `currFreePage, `pageMap
    {
      Steady() && forall a :: User(H(), a) ==> !At(mem, a).mark
    }

    /** An object of `size` bytes makes a page map necessary, or a larger one: it is the first to need one, or
        the file grows past the last bit. */
    ghost predicate MapDue(cid: nat, size: nat)
      reads this
    {
      if pageMap == 0 then ToClear(cid, Pages(size + HEADER)) else |bits| < end + OwnPages(size)
    }

    /** Pages for `size` bytes, with a page map that has a bit for each page of the file, and one at
        all if the object is going to need it. */
    method ReadyPages(cid: nat, size: nat) returns (a: nat, ghost t: nat)
      requires Steady()
      modifies this
      ensures Sound() && a == Adr(t) && Pending(t, Pages(size + HEADER))
      ensures SameUsers(old(H()), H()) && MapSound(H(), pageMap)
      ensures ToClear(cid, Pages(size + HEADER)) ==> pageMap != 0
      ensures if old(Fits(size)) then a < Adr(old(end)) && old(Fitting(mem, free, seg, currFreePage, size, PageOf(a)))
              else a == Adr(old(end))
      ensures pageMap != old(pageMap) <==> old(MapDue(cid, size))
      ensures if pageMap == old(pageMap) then end == old(end) + old(OwnPages(size))
              else Grown(old(end) + old(OwnPages(size)))
                   && MapFor(|bits| / 8, old(end) + old(OwnPages(size)), if old(pageMap) == 0 then 8 else 2)
    {
      hide MapFor, Fitting, Grown, Core, MarksOnly;
      ghost var h := H();
      var grew;
      a, grew, t := TakePages(size);
      ghost var k := H();
      SameKeepsMap(h, k, pageMap);
      if grew && pageMap != 0 && Adr(end) > At(mem, pageMap).size * PAGE * 8 {
        ReplaceMap(t, Pages(size + HEADER));
        SameUsersTrans(h, k, H());
      } else if ToClear(cid, Pages(size + HEADER)) && pageMap == 0 {
        CreateMap(t, Pages(size + HEADER));
        SameUsersTrans(h, k, H());
      }
    }

    /** alloc_page for any class but that of the page map. */
    method AllocPage(cid: nat, size: nat) returns (a: nat)
      requires Valid() && cid != FREE_CID && cid != MAP_CID
      modifies this
      ensures Valid() && AddsUser(old(H()), H(), a) && !User(old(H()), a)
      ensures At(mem, a).cid == cid && At(mem, a).size == size
      ensures if old(Fits(size)) then a < Adr(old(end)) && old(Fitting(mem, free, seg, currFreePage, size, PageOf(a)))
              else a == Adr(old(end))
      ensures pageMap != old(pageMap) <==> old(MapDue(cid, size))
      ensures if pageMap == old(pageMap) then end == old(end) + old(OwnPages(size))
              else Grown(old(end) + old(OwnPages(size)))
                   && MapFor(|bits| / 8, old(end) + old(OwnPages(size)), if old(pageMap) == 0 then 8 else 2)
    {
      hide Core, Adds;
      ghost var h := H();
      ghost var t;
      a, t := ReadyPages(cid, size);
      ghost var k := H();
      Settle(a, cid, size, t);
      SettledUser(h, k, H(), a, pageMap);
    }

    /** The first free block of class `c` becomes an object. */
    method TakeBlock(bp: nat, c: nat, cid: nat, size: nat)
      requires Valid() && cid != FREE_CID && cid != MAP_CID && IsSmall(size) && ClassOf(size) == c
      requires chains[c] != [] && bp == chains[c][0]
      modifies `mem, `freeBlockChain, `chains
      ensures Valid() && AddsUser(old(H()), H(), bp) && !User(old(H()), bp)
      ensures At(mem, bp).cid == cid && At(mem, bp).size == size
    {
      ghost var h := H();
      PopKeeps(h, c, cid, size);
      freeBlockChain := freeBlockChain[c := At(mem, bp).next];
      mem := mem[bp := At(mem, bp).(cid := cid, mark := false, size := size)];
      chains := chains[c := chains[c][1..]];
      assert H() == PopBlock(h, c, cid, size);
      SettledUser(h, h, H(), bp, pageMap);
    }

    /** There is a free block of the class of `size`. */
    ghost predicate HasBlock(size: nat)
      reads `chains
    {
      |chains| == CLASSES && IsSmall(size) && chains[ClassOf(size)] != []
    }

    /** Allocation: a block of the class of `size` if its chain has one, else from a new page.  The file grows by
        the pages of the object when no free segment fits, and by those of a page map when one is due. */
    method Allocate(cid: nat, size: nat) returns (a: nat)
      requires Valid() && cid != FREE_CID && cid != MAP_CID
      modifies this
      ensures Valid() && AddsUser(old(H()), H(), a) && !User(old(H()), a)
      ensures At(mem, a).cid == cid && At(mem, a).size == size
      ensures old(HasBlock(size)) ==> (
                a == old(chains)[ClassOf(size)][0] && end == old(end) && pageMap == old(pageMap))
      ensures !old(HasBlock(size)) ==> (
                && (if old(Fits(size))
                    then a < Adr(old(end)) && old(Fitting(mem, free, seg, currFreePage, size, PageOf(a)))
                    else a == Adr(old(end)))
                && (pageMap != old(pageMap) <==> old(MapDue(cid, size)))
                && (if pageMap == old(pageMap) then end == old(end) + old(OwnPages(size))
                    else Grown(old(end) + old(OwnPages(size)))
                         && MapFor(|bits| / 8, old(end) + old(OwnPages(size)), if old(pageMap) == 0 then 8 else 2)))
    {
      hide MapFor, Fitting, Grown, AddsUser, User;
      if IsSmall(size) {
        var c := ClassOf(size);
        assert ChainOk(H(), c);
        var bp := freeBlockChain[c];
        if chains[c] != [] { ChainNonNull(H(), c); }
        if bp != 0 {
          TakeBlock(bp, c, cid, size);
          return bp;
        }
      }
      a := AllocPage(cid, size);
    }

    // ---------- get_header and free ----------

    /** From any pointer into the payload of an object to the object's header. */
    method GetHeader(obj: nat, ghost a: nat) returns (hp: nat)
      requires Steady() && User(H(), a)
      requires a + HEADER <= obj && (obj == a + HEADER || obj < a + HEADER + At(mem, a).size)
      ensures hp == a
    {
      var addr := obj - HEADER;
      var pageNo := PageOf(addr);
      Lookup(H(), pageMap, a, addr);
      if pageMap == 0 || !Bit(bits, pageNo) {
        hp := HeaderInPage(mem, addr);
      } else {
        hp := FirstPage(pageNo, PageOf(a));
      }
    }

    /** Goes back over the pages that have their bit set. */
    method FirstPage(from: nat, ghost s: nat) returns (hp: nat)
      requires s <= from && Bit(bits, from)
      requires forall p :: s <= p <= from ==> Bit(bits, p) == (p != s)
      ensures hp == Adr(s)
    {
      var pageNo := from - 1;
      while Bit(bits, pageNo)
        invariant s <= pageNo < from
        decreases pageNo
      {
        assert pageNo != s;
        pageNo := pageNo - 1;
      }
      hp := Adr(pageNo);
    }

    /** Deallocation: a block goes to its chain, pages to the free list. */
    method Free(obj: nat, ghost a: nat)
      requires Valid() && User(H(), a) && HEADER <= obj && Inside(H(), a, obj - HEADER)
      modifies this
      ensures Valid() && end == old(end) && pageMap == old(pageMap)
      ensures forall x :: User(H(), x) <==> old(User(H(), x)) && x != a
      ensures forall x :: User(H(), x) ==> At(mem, x) == old(At(mem, x))
    {
      var hp := GetHeader(obj, a);
      ghost var h := H();
      if IsSmall(At(mem, hp).size) {
        FreeBlockAt(hp);
      } else {
        LargeIsPages(h, hp);
        if seg[PageOf(hp)] > 1 { LargeIsMapped(h, PageOf(hp), pageMap); }
        Retire(hp, PageOf(hp));
      }
      DroppedUser(h, H(), hp, pageMap);
    }

    method FreeBlockAt(hp: nat)
      requires Sound() && Object(H(), hp) && IsSmall(At(mem, hp).size)
      modifies `mem, `freeBlockChain, `chains
      ensures Sound() && Drops(old(H()), H(), hp)
    {
      ghost var h := H();
      SmallIsBlock(h, hp);
      PushKeeps(h, hp);
      var n := ClassOf(At(mem, hp).size);
      mem := mem[hp := At(mem, hp).(cid := FREE_CID, mark := false, next := freeBlockChain[n])];
      freeBlockChain := freeBlockChain[n := hp];
      chains := chains[n := [hp] + chains[n]];
      assert H() == PushBlock(h, hp);
    }

    // ---------- garbage_collection: mark ----------

    /** The present heap is that of the collection `w` with exactly `marked` marked. */
    ghost predicate Marks(w: World, marked: set<nat>)
      reads `mem, `end, `seg, `limbo, `freePageChain, `free, `freeBlockChain, `chains, `bits, `base, `segCount
    {
      w.base == base && w.count == segCount && MarkedAre(w, H(), marked)
    }

    /** Marks the object at `hp` and puts its segments on the stack. */
    method MarkObjectAt(hp: nat, stack0: seq<SegId>, ghost w: World, ghost marked: set<nat>) returns (stack: seq<SegId>)
      requires Steady() && Core(w.h) && MapSound(w.h, pageMap) && Marks(w, marked) && User(w.h, hp)
      modifies `mem
      ensures Steady() && Marks(w, marked + {hp})
      ensures stack == stack0 + Segments(hp, Count(w, hp))
    {
      hide Core, MapSound, User;
      MarkOne(w, H(), H().(mem := mem[hp := At(mem, hp).(mark := true)]), marked, hp);
      mem := mem[hp := At(mem, hp).(mark := true)];
      MarksKeepCore(w.h, H(), pageMap);
      stack := stack0 + Segments(hp, if hp in segCount then segCount[hp] else 0);
    }

    /** Everything but the slots that the mark phase relies on. */
    ghost predicate Collecting(w: World, marked: set<nat>, live: set<nat>)
      reads `mem, `end, `seg, `limbo, `freePageChain, `free, `freeBlockChain, `chains, `bits, `currFreePage,
            `pageMap, `base, `segCount
    {
      && Steady() && Core(w.h) && MapSound(w.h, pageMap)
      && Closed(w, live) && WellFormed(w, live) && Marks(w, marked)
    }

    /** Marks what pointer `j` of the busy segment leads to, now at `target`. */
    method Visit(target: int, id: SegId, j: nat, stack0: seq<SegId>, ghost w: World, ghost marked0: set<nat>,
                 ghost live: set<nat>)
      returns (stack: seq<SegId>, ghost marked: set<nat>)
      requires Collecting(w, marked0, live) && MarkInv(w, Progress(slots, marked0, stack0), {id})
      requires SegOf(w, marked0, id)
      requires j < |w.slots[id]| && w.slots[id][j] != 0 && target == w.slots[id][j] + w.shift
      modifies `mem
      ensures Collecting(w, marked, live) && MarkInv(w, Progress(slots, marked, stack), {id})
      ensures marked0 <= marked && (marked == marked0 ==> stack == stack0)
      ensures Hits(w, w.slots[id][j], marked)
    {
      hide Core, MapSound, Closed, MarkedAre, Storage.Steady, User, Inside;
      stack, marked := stack0, marked0;
      ghost var a := TargetIn(w, marked0, live, id, j);
      MarkedTarget(w, H(), marked0, a, target - base - HEADER);
      var hp := GetHeader(target - base, a);
      if !At(mem, hp).mark {
        MarkObject(w, pageMap, Progress(slots, marked0, stack0), id, j, a);
        stack := MarkObjectAt(hp, stack0, w, marked0);
        marked := marked + {a};
      }
    }

    /** The first `j` pointers of the busy segment are moved and lead to marked objects. */
    ghost predicate PartDone(w: World, id: SegId, j: nat, marked: set<nat>)
      reads this
    {
      && id in slots && id in w.slots && j <= |w.slots[id]|
      && slots[id] == MovedTo(w.slots[id], w.shift, j)
      && SegInto(w, w.slots[id][..j], marked)
    }

    /** Moves pointer `j` of the busy segment and marks what it leads to. */
    method MarkSlot(id: SegId, j: nat, shift: int, stack0: seq<SegId>, ghost w: World, ghost marked0: set<nat>,
                    ghost live: set<nat>)
      returns (stack: seq<SegId>, ghost marked: set<nat>)
      requires Collecting(w, marked0, live) && MarkInv(w, Progress(slots, marked0, stack0), {id})
      requires SegOf(w, marked0, id)
      requires w.shift == shift && PartDone(w, id, j, marked0) && j < |w.slots[id]|
      modifies `mem, `slots
      ensures Collecting(w, marked, live) && MarkInv(w, Progress(slots, marked, stack), {id})
      ensures PartDone(w, id, j + 1, marked)
      ensures marked0 <= marked && (marked == marked0 ==> stack == stack0)
    {
      hide Core, MapSound, Storage.Steady, Storage.Marks, Closed, WellFormed, SameButMarks;
      stack, marked := stack0, marked0;
      MovedOne(w.slots[id], shift, j);
      var p := slots[id][j];
      if p != 0 {
        MoveSlot(w, Progress(slots, marked0, stack0), id, slots[id][j := p + shift]);
        slots := slots[id := slots[id][j := p + shift]];
        stack, marked := Visit(p + shift, id, j, stack0, w, marked0, live);
      }
      SegIntoNext(w, w.slots[id], j, marked0, marked);
    }

    /** Goes through the busy segment: moves each pointer and marks what it leads to. */
    method GoThrough(id: SegId, shift: int, stack0: seq<SegId>, ghost w: World, ghost marked0: set<nat>,
                     ghost live: set<nat>)
      returns (stack: seq<SegId>, ghost marked: set<nat>)
      requires Collecting(w, marked0, live) && MarkInv(w, Progress(slots, marked0, stack0), {id})
      requires SegOf(w, marked0, id)
      requires w.shift == shift && slots[id] == w.slots[id] != []
      modifies `mem, `slots
      ensures Collecting(w, marked, live) && MarkInv(w, Progress(slots, marked, stack), {})
      ensures marked0 <= marked && (marked == marked0 ==> stack == stack0)
    {
      hide Core, MapSound, Storage.Steady, Storage.Marks, Closed, WellFormed, SameButMarks;
      stack, marked := stack0, marked0;
      var len := |slots[id]|;
      var j := 0;
      assert PartDone(w, id, 0, marked);
      while j < len
        invariant j <= len == |w.slots[id]|
        invariant Collecting(w, marked, live) && MarkInv(w, Progress(slots, marked, stack), {id})
        invariant SegOf(w, marked, id)
        invariant PartDone(w, id, j, marked)
        invariant marked0 <= marked && (marked == marked0 ==> stack == stack0)
      {
        stack, marked := MarkSlot(id, j, shift, stack, w, marked, live);
        j := j + 1;
      }
      assert w.slots[id][..len] == w.slots[id];
      FinishSeg(w, Progress(slots, marked, stack), id);
    }

    /** The mark phase once the roots are on the stack. */
    method DrainStack(shift: int, stack0: seq<SegId>, ghost w: World, ghost live: set<nat>)
        returns (ghost marked: set<nat>)
      requires Collecting(w, {}, live) && MarkInv(w, Progress(slots, {}, stack0), {}) && w.shift == shift
      modifies `mem, `slots
      ensures Collecting(w, marked, live) && MarkInv(w, Progress(slots, marked, []), {})
    {
      hide Core, MapSound, Storage.Steady, Storage.Marks, Closed, WellFormed, SameButMarks;
      var stack := stack0;
      marked := {};
      while stack != []
        invariant Collecting(w, marked, live) && MarkInv(w, Progress(slots, marked, stack), {})
        decreases live - marked, |stack|
      {
        var id := stack[|stack| - 1];
        ghost var m := Progress(slots, marked, stack);
        PopSeg(w, m);
        stack := stack[..|stack| - 1];
        assert marked <= live;
        assert id in m.stack;
        ghost var before := marked;
        stack, marked := GoThrough(id, shift, stack, w, marked, live);
        assert marked <= live;
      }
    }

    method UnmoveStatic(shift: int)
      requires StaticData in slots
      modifies `slots
      ensures slots == old(slots)[StaticData := UnmovedStatic(old(slots)[StaticData], shift)]
    {
      ghost var before := slots[StaticData];
      var i := |slots[StaticData]|;
      while i > 0
        invariant 0 <= i <= |before|
        invariant StaticData in slots && |slots[StaticData]| == |before|
        invariant slots == old(slots)[StaticData := slots[StaticData]]
        invariant forall j :: 0 <= j < |before| ==> slots[StaticData][j] == before[j] - (if i <= j then shift else 0)
      {
        i := i - 1;
        slots := slots[StaticData := slots[StaticData][i := slots[StaticData][i] - shift]];
      }
      assert slots[StaticData] == UnmovedStatic(before, shift);
    }

    /** Takes back the move that the roots had already made, and puts the non-empty ones on the stack. */
    method PushRoots(shift: int) returns (stack: seq<SegId>)
      requires RootsIn(slots)
      modifies `slots
      ensures slots == RootsBack(old(slots), shift)
      ensures forall i, j :: 0 <= i < j < |stack| ==> stack[i] != stack[j]
      ensures forall id :: id in stack ==> !id.Of? && id in slots && slots[id] != []
      ensures forall id :: id in slots && !id.Of? && id !in stack ==> slots[id] == [] || slots[id] == [0]
    {
      stack := [];
      ghost var slots0 := slots;
      if slots[RootObject][0] != 0 {
        stack := stack + [RootObject];
        slots := slots[RootObject := [slots[RootObject][0] - shift]];
      }
      ghost var slots1 := slots;
      assert slots1 == slots0[RootObject := UnmovedRoot(slots0[RootObject], shift)];
      if slots[ClassDictionary][0] != 0 {
        stack := stack + [ClassDictionary];
        slots := slots[ClassDictionary := [slots[ClassDictionary][0] - shift]];
      }
      ghost var slots2 := slots;
      assert slots2 == slots1[ClassDictionary := UnmovedRoot(slots1[ClassDictionary], shift)];
      if slots[StaticData] != [] {
        stack := stack + [StaticData];
        UnmoveStatic(shift);
      }
      assert slots2[StaticData] == [] ==> UnmovedStatic(slots2[StaticData], shift) == [];
    }

    /** The collection that starts now, the file having moved by `shift` since the slots were
        written. */
    ghost function Before(shift: int): World
      requires RootsIn(slots)
      reads `mem, `end, `seg, `limbo, `freePageChain, `free, `freeBlockChain, `chains, `bits, `base, `slots, `segCount
    {
      World(H(), base, shift, RootsBack(slots, shift), segCount)
    }

    /** The mark phase: marks exactly the objects that can be reached, and the page map. */
    method Mark(shift: int, ghost live: set<nat>) returns (ghost w: World, ghost marked: set<nat>)
      requires Valid() && RootsIn(slots) && Closed(Before(shift), live) && WellFormed(Before(shift), live)
      modifies `mem, `slots
      ensures w == old(Before(shift)) && Steady() && Marks(w, marked)
      ensures Closed(w, marked) && WellFormed(w, marked) && SlotsMoved(w, slots, marked)
      ensures forall a :: a in marked <==> Reachable(w, a)
    {
      hide Core, MapSound, Closed, MarkInv, SameButMarks, MarkedAre, User, RootsBack;
      w := Before(shift);
      var stack := PushRoots(shift);
      if pageMap != 0 {
        mem := mem[pageMap := At(mem, pageMap).(mark := true)];
      }
      OnlyMapMarked(w, H(), pageMap);
      MarkStart(w, stack);
      marked := DrainStack(shift, stack, w, live);
      MarkEnd(w, Progress(slots, marked, []), live);
      assert marked <= live;
    }

    // ---------- garbage_collection: sweep ----------

    /** The sweep of heap `h` has come to page `s`. */
    ghost predicate AtPage(h: Heap, s: nat)
      reads `mem, `end, `seg, `limbo, `freePageChain, `free, `freeBlockChain, `chains, `bits, `currFreePage
    {
      Sound() && Core(h) && h.limbo == {} && Swept(h, H(), s)
    }

    ghost predicate AtPageOf(h: Heap, k: Heap, s: nat) {
      Core(k) && Coalesced(k) && Core(h) && h.limbo == {} && Swept(h, k, s)
    }

    /** A large object, or a free segment. */
    method SweepLarge(bp: nat, ghost s: nat, ghost h: Heap) returns (dropped: nat)
      requires AtPage(h, s) && s in h.seg && bp == Adr(s) && !IsSmall(At(mem, bp).size)
      requires ToClear(Top(h, s).cid, h.seg[s]) ==> h.end <= |h.bits|
      modifies `mem, `freePageChain, `currFreePage, `seg, `limbo, `free, `bits
      ensures AtPage(h, s + h.seg[s])
      ensures |Dropped(h, Adr(s + h.seg[s]))| == |Dropped(h, bp)| + dropped
    {
      hide FreeListed, Chained, Typed, Sized, MapSound;
      ghost var k := H();
      SweepAt(h, k, s);
      NextSegment(h, s);
      LargeObjectAt(h, s);
      if IsMarked(At(mem, bp)) {
        mem := mem[bp := At(mem, bp).(mark := false)];
        limbo := limbo - {s};
        KeepLarge(h, k, H(), s);
        dropped := 0;
      } else {
        dropped := if At(mem, bp).cid != FREE_CID then 1 else 0;
        FreePage(bp, s);
        DropLarge(h, k, H(), s);
      }
      DroppedNext(h, bp, Adr(s + h.seg[s]), bp, dropped == 1);
    }

    /** One block of page `t`. */
    method SweepBlock(bp: nat, z: nat, first0: nat, last0: nat, ghost list0: seq<nat>, ghost t: nat, ghost h: Heap,
                      ghost m0: Memory)
      returns (first: nat, last: nat, used: nat, dropped: nat, ghost list: seq<nat>)
      requires Core(h) && SmallPage(h, t) && z == ClassSize(PageClass(h, t)) && 0 < z
      requires IsBlock(bp, Adr(t), z) && PageSwept(h, m0, mem, t, z, list0, bp) && At(mem, bp) == At(h.mem, bp)
      requires first0 == BlockPtr(list0, 0) && last0 == LastOf(list0)
      modifies `mem
      ensures PageSwept(h, m0, mem, t, z, list, bp + z) && first == BlockPtr(list, 0) && last == LastOf(list)
      ensures used == (if IsMarked(At(h.mem, bp)) then 1 else 0)
      ensures |Dropped(h, bp + z)| == |Dropped(h, bp)| + dropped
      ensures used == 0 ==> list == list0 + [bp]
    {
      hide Chained, Typed, Sized, FreeListed, BitsOk, Core;
      ObjectsInBlock(h, t, bp);
      first, last, used, dropped, list := first0, last0, 0, 0, list0;
      if IsMarked(At(mem, bp)) {
        KeepBlock(h, m0, mem, t, z, list, bp);
        mem := mem[bp := At(mem, bp).(mark := false)];
        used := 1;
      } else {
        DropBlock(h, m0, mem, t, z, list, bp);
        dropped := if At(mem, bp).cid != FREE_CID then 1 else 0;
        ListNonNull(h, m0, mem, t, z, list, bp);
        ghost var m := mem;
        mem := mem[bp := At(mem, bp).(cid := FREE_CID, mark := false)];
        if last == 0 {
          first := bp;
        } else {
          mem := mem[last := At(mem, last).(next := bp)];
        }
        assert mem == Dropping(m, list, bp);
        last, list := bp, list + [bp];
      }
      DroppedNext(h, bp, bp + z, bp, dropped == 1);
    }

    /** All blocks of page `t`: marked ones stay, the others are chained one to the next. */
    method SweepBlocks(bp: nat, z: nat, ghost t: nat, ghost h: Heap)
      returns (first: nat, last: nat, used: nat, dropped: nat, ghost list: seq<nat>, cp: nat)
      requires AtPage(h, t) && bp == Adr(t) && SmallPage(h, t) && z == ClassSize(PageClass(h, t))
      modifies `mem
      ensures PageDone(h, old(H()), mem, t, list, cp) && first == BlockPtr(list, 0) && last == LastOf(list)
      ensures (used == 0) == (forall b: nat :: PageOf(b) == t && Object(h, b) ==> !IsMarked(At(h.mem, b)))
      ensures used == 0 ==> first == bp
      ensures bp < cp <= bp + PAGE
      ensures |Dropped(h, Adr(t + 1))| == |Dropped(h, bp)| + dropped
    {
      hide Chained, Typed, FreeListed, BitsOk, Sized, PageSwept, NoneMarked, Storage.Sound;
      BlockSizes(PageClass(h, t));
      ghost var k := H();
      PageUntouched(h, k, t);
      var p := bp;
      var endOfPage := bp + PAGE - z + 1;
      first, last, used, dropped, list := 0, 0, 0, 0, [];
      PageSweepStart(h, mem, t, z);
      while p < endOfPage
        invariant bp <= p <= bp + PAGE && (p < endOfPage ==> IsBlock(p, bp, z)) && (p > bp ==> bp + z <= p)
        invariant p == bp ==> p < endOfPage
        invariant PageSwept(h, k.mem, mem, t, z, list, p) && first == BlockPtr(list, 0) && last == LastOf(list)
        invariant NoneMarked(h, t, z, p) == (used == 0)
        invariant used == 0 ==> if p == bp then list == [] else list != [] && list[0] == bp
        invariant |Dropped(h, p)| == |Dropped(h, bp)| + dropped
        decreases endOfPage - p
      {
        NextUntouched(h, k, mem, t, z, list, p);
        var u, d;
        NoneMarkedNext(h, t, z, p);
        first, last, u, d, list := SweepBlock(p, z, first, last, list, t, h, k.mem);
        used, dropped := used + u, dropped + d;
        NextBlock(p, bp, z);
        p := p + z;
      }
      cp := p;
      PageEnd(h, t, z, p);
    }

    /** A page without survivors goes back to the free list. */
    method GiveBack(fp: nat, ghost t: nat, ghost list: seq<nat>, ghost cp: nat, ghost h: Heap, ghost k: Heap)
      requires AtPageOf(h, k, t) && H() == k.(mem := mem) && PageDone(h, k, mem, t, list, cp)
      requires fp == Adr(t) && Roving(currFreePage, free)
      requires forall b: nat :: PageOf(b) == t && Object(h, b) ==> !IsMarked(At(h.mem, b))
      modifies `mem, `freePageChain, `currFreePage, `seg, `limbo, `free, `bits
      ensures AtPage(h, t + 1)
    {
      hide FreeListed, Chained, Typed, Sized, PageSwept, SurvivorsBelow;
      ghost var k1 := H();
      PageSweptFrom(h, k, k1, t, list, cp);
      FreshPage(h, k, mem, t, list, cp);
      FreePage(fp, t);
      DropPage(h, k1, H(), t);
    }

    /** The free blocks of a page with survivors go to the head of their chain. */
    method ChainBlocks(first0: nat, last: nat, c: nat, ghost t: nat, ghost list: seq<nat>, ghost cp: nat,
                       ghost h: Heap, ghost k: Heap)
      requires AtPageOf(h, k, t) && H() == k.(mem := mem) && PageDone(h, k, mem, t, list, cp)
      requires first0 == BlockPtr(list, 0) && last == LastOf(list) && c == PageClass(h, t)
      requires Roving(currFreePage, free)
      modifies `mem, `freeBlockChain, `limbo, `chains
      ensures AtPage(h, t + 1)
    {
      hide FreeListed, Typed, Sized, PageSwept, SurvivorsBelow;
      ghost var chain := chains[c];
      ghost var m := mem;
      CloseList(h, k.mem, mem, t, ClassSize(c), list, cp, chain);
      ListNonNull(h, k.mem, mem, t, ClassSize(c), list, cp);
      assert ChainOk(k, c);
      var first := first0;
      if last == 0 {
        first := freeBlockChain[c];
      } else {
        mem := mem[last := At(mem, last).(next := freeBlockChain[c])];
      }
      assert mem == Closing(m, list, BlockPtr(chain, 0));
      freeBlockChain := freeBlockChain[c := first];
      limbo, chains := limbo - {t}, chains[c := list + chain];
      KeepPageSettled(h, k, H(), t, list, cp);
      KeepPage(h, k, H(), t, list, cp);
    }

    /** A page of blocks. */
    method SweepPage(bp: nat, ghost t: nat, ghost h: Heap) returns (next: nat, dropped: nat)
      requires AtPage(h, t) && t in h.seg && bp == Adr(t) && IsSmall(At(mem, bp).size)
      modifies `mem, `freePageChain, `freeBlockChain, `currFreePage, `seg, `limbo, `free, `chains, `bits
      ensures AtPage(h, t + h.seg[t]) && next == Adr(t + h.seg[t])
      ensures |Dropped(h, Adr(t + h.seg[t]))| == |Dropped(h, bp)| + dropped
    {
      hide FreeListed, Chained, Typed, BitsOk, Sized, PageSwept, SurvivorsBelow, Tiled, SweptFrom;
      ghost var k := H();
      SweepAt(h, k, t);
      BlockFits(At(mem, bp).size);
      var n := SizeIndex(At(mem, bp).size);
      var first, last, used, cp;
      ghost var list;
      first, last, used, dropped, list, cp := SweepBlocks(bp, BlockSize(n), t, h);
      if used == 0 {
        GiveBack(first, t, list, cp, h, k);
      } else {
        ChainBlocks(first, last, BlockChain(n), t, list, cp, h, k);
      }
      next := Adr(Pages(cp));
    }

    /** All lists are forgotten; the sweep rebuilds them. */
    method Forget()
      requires Sound() && limbo == {}
      modifies `freePageChain, `freeBlockChain, `currFreePage, `limbo, `free, `chains
      ensures AtPage(old(H()), 1) && |Dropped(old(H()), Adr(1))| == 0
    {
      hide FreeListed, Chained, Typed, BitsOk, Sized, Tiled;
      ghost var h := H();
      SweepStart(h);
      currFreePage := 0;
      freePageChain := 0;
      freeBlockChain := seq(CLASSES, i => 0);
      limbo, free, chains := seg.Keys, [], seq(CLASSES, i => []);
      assert H() == Unswept(h);
    }

    /** One segment. */
    method SweepSegment(bp: nat, ghost s: nat, ghost h: Heap) returns (next: nat, dropped: nat)
      requires AtPage(h, s) && s in h.seg && bp == Adr(s) && MapSound(h, pageMap)
      modifies `mem, `freePageChain, `freeBlockChain, `currFreePage, `seg, `limbo, `free, `chains, `bits
      ensures AtPage(h, s + h.seg[s]) && next == Adr(s + h.seg[s])
      ensures |Dropped(h, next)| == |Dropped(h, bp)| + dropped
    {
      hide Core, Coalesced, MapSound, SweptFrom, Dropped;
      SweepAt(h, H(), s);
      var size := At(mem, bp).size;
      if IsSmall(size) {
        next, dropped := SweepPage(bp, s, h);
      } else {
        if ToClear(Top(h, s).cid, h.seg[s]) { LargeIsMapped(h, s, pageMap); }
        dropped := SweepLarge(bp, s, h);
        next := Adr(Pages(bp + size + HEADER));
      }
    }

    /** The sweep phase: goes through all segments in the order of their addresses, rebuilding the
        free page list and the block chains from nothing. */
    method Sweep() returns (dropped: nat)
      requires Sound() && limbo == {} && MapSound(H(), pageMap)
      modifies `mem, `freePageChain, `freeBlockChain, `currFreePage, `seg, `limbo, `free, `chains, `bits
      ensures Sound() && limbo == {} && SurvivorsBelow(old(H()), H(), Adr(end)) && |bits| == |old(bits)|
      ensures dropped == |Dropped(old(H()), Adr(end))|
    {
      hide Core, SweptFrom, MapSound;
      ghost var h := H();
      Forget();
      var bp := PAGE;
      ghost var s := 1;
      dropped := 0;
      StillTiled(h, H(), s);
      while bp < Adr(end)
        invariant AtPage(h, s) && bp == Adr(s) && dropped == |Dropped(h, bp)|
        invariant s <= h.end && (s == h.end || s in h.seg)
        decreases h.end - s
      {
        var d;
        bp, d := SweepSegment(bp, s, h);
        NextSegment(h, s);
        dropped := dropped + d;
        s := s + h.seg[s];
        StillTiled(h, H(), s);
      }
      SweepDone(h, H());
    }

    // ---------- garbage_collection ----------

    /** The objects that stay are exactly those that can be reached; their headers are as before, and
        their slots and those of the roots have moved once.  The result counts the others. */
    method GarbageCollection(shift: int, ghost live: set<nat>) returns (dropped: nat)
      requires Valid() && RootsIn(slots) && Closed(Before(shift), live) && WellFormed(Before(shift), live)
      modifies `mem, `slots, `freePageChain, `freeBlockChain, `currFreePage, `seg, `limbo, `free, `chains, `bits
      ensures Valid() && RootsIn(slots)
      ensures var w := old(Before(shift)); var kept := Users(H());
        && (forall a: nat :: User(H(), a) <==> Reachable(w, a))
        && (forall a: nat :: User(H(), a) ==> User(w.h, a) && At(mem, a) == At(w.h.mem, a))
        && SlotsMoved(w, slots, kept) && Closed(w, kept) && WellFormed(w, kept)
        && dropped == |Users(w.h)| - |kept|
      ensures RootsKept(old(slots), slots, shift) && OthersMoved(old(slots), slots, shift, segCount, Users(H()))
      ensures Led(H(), base, slots, segCount)
    {
      hide Core, MapSound, Closed, MarkInv, SameButMarks, MarkedAre, User, RootsBack, SurvivorsBelow, Dropped,
           Reachable, WellFormed, SlotsMoved, RootsKept, OthersMoved, Led;
      ghost var slots0 := slots;
      ghost var w, marked := Mark(shift, live);
      ghost var h := H();
      dropped := Sweep();
      SurvivorsAreMarked(w, h, H(), marked);
      DroppedAreGone(w, h, H(), marked);
      MapSurvives(w.h, H(), pageMap);
      KeptAreMarked(w, H(), marked);
      RootsStay(w, slots, marked);
      RootsAreKept(w, slots0, slots, marked);
      OthersAreMoved(w, slots0, slots, marked);
      AreLed(w, H(), slots, marked);
    }

    /** A collection while the file stays where it is moves no pointer. */
    method Collect(ghost live: set<nat>) returns (dropped: nat)
      requires Valid() && RootsIn(slots) && Closed(Before(0), live) && WellFormed(Before(0), live)
      modifies `mem, `slots, `freePageChain, `freeBlockChain, `currFreePage, `seg, `limbo, `free, `chains, `bits
      ensures Valid() && slots == old(slots)
      ensures forall a: nat :: User(H(), a) <==> Reachable(old(Before(0)), a)
      ensures forall a: nat :: User(H(), a) ==> old(User(H(), a)) && At(mem, a) == old(At(mem, a))
      ensures dropped == |old(Users(H()))| - |Users(H())|
    {
      hide Core, MapSound, Closed, User, Reachable, WellFormed, SlotsMoved;
      ghost var w := Before(0);
      NoMove(slots);
      dropped := GarbageCollection(0, live);
      NoMoveEnd(w, slots, Users(H()));
    }
  }

  /** The last block of a list, null if it is empty. */
  function LastOf(list: seq<nat>): nat { if list == [] then 0 else list[|list| - 1] }

  lemma RovingAt(p: nat, free: seq<nat>, j: nat)
    requires j < |free| && p == Adr(free[j])
    ensures Roving(p, free)
  {
    PageOfAdr(free[j]);
  }

  /** Whether a release of `n` pages of class `cid` has bits to clear. */
  predicate ToClear(cid: nat, n: nat) { n > 1 && cid != FREE_CID && cid != MAP_CID }
}

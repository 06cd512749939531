/** The changes page allocation and page release make to a heap, one at a time, and that each keeps
    the invariant and every object. */
module PageSteps {
  import opened Blocks
  import opened Tiling
  import opened HeapModel

  // ---------- Taking pages ----------

  /** The last `n` pages of the free segment at `f` become a segment of their own. */
  function SplitTail(h: Heap, f: nat, n: nat): Heap
    requires f in h.seg && n < h.seg[f] && Adr(n) <= Top(h, f).size
  {
    h.(mem := h.mem[Adr(f) := Top(h, f).(size := Top(h, f).size - Adr(n))],
       seg := SplitSeg(h.seg, f, n),
       limbo := h.limbo + {f + h.seg[f] - n})
  }

  lemma SplitTailRoom(h: Heap, f: nat, n: nat)
    requires Tiled(h.seg, h.end) && Sized(h) && FreeSeg(h, f) && 0 < n < h.seg[f]
    ensures Adr(n) <= Top(h, f).size && Top(h, f).size - Adr(n) + HEADER == Adr(h.seg[f] - n)
    ensures f + h.seg[f] - n !in h.seg
  {
    assert Place(h.seg, h.end, f);
  }

  lemma SplitTailPages(h: Heap, f: nat, n: nat)
    requires f in h.seg && f + h.seg[f] - n !in h.seg && n < h.seg[f]
    requires FreeSeg(h, f) && 0 < n && Adr(n) <= Top(h, f).size
    requires Top(h, f).size - Adr(n) + HEADER == Adr(h.seg[f] - n)
    ensures OnlyPages(h, SplitTail(h, f, n), {f, f + h.seg[f] - n})
    ensures FreeSeg(SplitTail(h, f, n), f)
  {
    PageOfAdr(f);
  }

  lemma SplitTailSized(h: Heap, f: nat, n: nat)
    requires Tiled(h.seg, h.end) && Sized(h) && FreeListed(h) && FreeSeg(h, f) && 0 < n < h.seg[f]
    ensures Adr(n) <= Top(h, f).size && Sized(SplitTail(h, f, n)) && FreeListed(SplitTail(h, f, n))
  {
    hide Tiled, SmallPage;
    SplitTailRoom(h, f, n);
    SplitTailPages(h, f, n);
    var k := SplitTail(h, f, n);
    OnlyPagesSameSmall(h, k, {f, f + h.seg[f] - n});
    forall s | Settled(k, s) ensures HasLength(Top(k, s), k.seg[s]) { assert Settled(h, s); }
    forall s ensures FreeSeg(k, s) <==> s in k.free { assert FreeSeg(h, s) <==> s in h.free; }
    forall s | FreeSeg(k, s) ensures Adr(k.seg[s]) == Top(k, s).size + HEADER { assert FreeSeg(h, s); }
    forall i: nat ensures PageLink(k.mem, k.free, i) { assert PageLink(h.mem, h.free, i); }
  }

  lemma SplitTailKeeps(h: Heap, f: nat, n: nat)
    requires Core(h) && Coalesced(h) && FreeSeg(h, f) && 0 < n < h.seg[f]
    ensures Adr(n) <= Top(h, f).size
    ensures Core(SplitTail(h, f, n)) && Coalesced(SplitTail(h, f, n))
    ensures SameObjects(h, SplitTail(h, f, n))
    ensures BitsClear(h.bits, f + h.seg[f] - n, n)
  {
    hide Tiled, Sized, Typed;
    SplitTailRoom(h, f, n);
    SplitTailPages(h, f, n);
    var k := SplitTail(h, f, n);
    OnlyPagesSameSmall(h, k, {f, f + h.seg[f] - n});
    SplitTiled(h.seg, h.end, f, n);
    SplitTailSized(h, f, n);
    SmallKeepsChains(h, k);
    SameIsSameObjects(h, k);
    assert BitsOf(h, f);
    forall s | Settled(k, s) ensures BitsOf(k, s) { assert BitsOf(h, s); }
    SplitTailCoalesced(h, f, n);
  }

  lemma SplitTailCoalesced(h: Heap, f: nat, n: nat)
    requires Tiled(h.seg, h.end) && Sized(h) && FreeListed(h) && Coalesced(h) && FreeSeg(h, f) && 0 < n < h.seg[f]
    ensures Adr(n) <= Top(h, f).size && Coalesced(SplitTail(h, f, n))
  {
    SplitTailRoom(h, f, n);
    SplitTailPages(h, f, n);
    var k := SplitTail(h, f, n);
    forall i | 0 <= i < |k.free| ensures GapAfter(k.seg, k.free, i) {
      assert GapAfter(h.seg, h.free, i);
      if i + 1 < |h.free| && h.free[i] == f {
        assert FreeSeg(h, h.free[i + 1]) <==> h.free[i + 1] in h.free;
      }
    }
  }

  // ---------- The free page list ----------

  function Without(list: seq<nat>, i: nat): seq<nat>
    requires i < |list|
  {
    list[..i] + list[i + 1..]
  }

  function With(list: seq<nat>, i: nat, f: nat): seq<nat>
    requires i <= |list|
  {
    list[..i] + [f] + list[i..]
  }

  /** `mem` after the pointer to list entry `i` has been made to point to `a`. */
  function Relink(mem: Memory, list: seq<nat>, i: nat, a: nat): Memory
    requires i <= |list|
  {
    if i == 0 then mem else mem[Adr(list[i - 1]) := At(mem, Adr(list[i - 1])).(next := a)]
  }

  lemma RelinkWithout(mem: Memory, head: nat, list: seq<nat>, i: nat)
    requires PagesLinked(mem, head, list) && Ascending(list) && i < |list|
    ensures PagesLinked(Relink(mem, list, i, PagePtr(list, i + 1)),
                        if i == 0 then PagePtr(list, 1) else head, Without(list, i))
  {
    var mem' := Relink(mem, list, i, PagePtr(list, i + 1));
    forall j: nat ensures PageLink(mem', Without(list, i), j) {
      assert PageLink(mem, list, if j < i then j else j + 1);
    }
  }

  lemma RelinkWith(mem: Memory, head: nat, list: seq<nat>, i: nat, f: nat)
    requires PagesLinked(mem, head, list) && Ascending(list) && i <= |list|
    requires f !in list && At(mem, Adr(f)).next == PagePtr(list, i)
    ensures PagesLinked(Relink(mem, list, i, Adr(f)), if i == 0 then Adr(f) else head, With(list, i, f))
  {
    var mem' := Relink(mem, list, i, Adr(f));
    forall j: nat ensures PageLink(mem', With(list, i, f), j) {
      assert PageLink(mem, list, if j < i then j else if j == i then |list| else j - 1);
    }
  }

  lemma WithoutMembers(list: seq<nat>, i: nat, s: nat)
    requires Ascending(list) && i < |list|
    ensures Ascending(Without(list, i))
    ensures s in Without(list, i) <==> s in list && s != list[i]
  {
    var w := Without(list, i);
    if s in list && s != list[i] {
      var j :| 0 <= j < |list| && list[j] == s;
      assert w[if j < i then j else j - 1] == s;
    }
  }

  lemma WithMembers(list: seq<nat>, i: nat, f: nat, s: nat)
    requires Ascending(list) && i <= |list|
    requires i > 0 ==> list[i - 1] < f
    requires i < |list| ==> f < list[i]
    ensures Ascending(With(list, i, f))
    ensures s in With(list, i, f) <==> s in list || s == f
  {
    var w := With(list, i, f);
    assert w[i] == f;
    if s in list {
      var j :| 0 <= j < |list| && list[j] == s;
      assert w[if j < i then j else j + 1] == s;
    }
  }

  // ---------- Taking a whole segment, or new pages ----------

  /** Free segment `free[i]` leaves the list. */
  function Unlink(h: Heap, i: nat): Heap
    requires i < |h.free|
  {
    h.(mem := Relink(h.mem, h.free, i, PagePtr(h.free, i + 1)),
       head := if i == 0 then PagePtr(h.free, 1) else h.head,
       free := Without(h.free, i),
       limbo := h.limbo + {h.free[i]})
  }

  /** The file grows by `n` pages. */
  function Extend(h: Heap, n: nat): Heap {
    h.(end := h.end + n, seg := h.seg[h.end := n], limbo := h.limbo + {h.end})
  }

  lemma InFree(h: Heap, i: nat)
    requires FreeListed(h) && i < |h.free|
    ensures FreeSeg(h, h.free[i])
  {
    assert FreeSeg(h, h.free[i]) <==> h.free[i] in h.free;
  }

  /** Relinking changes one free header, in its link only. */
  lemma RelinkFrame(h: Heap, i: nat, a: nat)
    requires FreeListed(h) && i <= |h.free|
    ensures forall x {:trigger At(Relink(h.mem, h.free, i, a), x)} ::
              At(Relink(h.mem, h.free, i, a), x) == At(h.mem, x).(next := At(Relink(h.mem, h.free, i, a), x).next)
    ensures forall x {:trigger At(Relink(h.mem, h.free, i, a), x)} ::
              i == 0 || x != Adr(h.free[i - 1]) ==> At(Relink(h.mem, h.free, i, a), x) == At(h.mem, x)
  {
  }

  lemma UnlinkPages(h: Heap, i: nat)
    requires Sized(h) && FreeListed(h) && i < |h.free|
    ensures OnlyPlain(h, Unlink(h, i), if i == 0 then {h.free[i]} else {h.free[i - 1], h.free[i]})
  {
    InFree(h, i);
    PageOfAdr(h.free[i]);
    if i > 0 { InFree(h, i - 1); PageOfAdr(h.free[i - 1]); }
  }

  lemma UnlinkListed(h: Heap, i: nat)
    requires Sized(h) && FreeListed(h) && i < |h.free|
    ensures FreeListed(Unlink(h, i)) && Sized(Unlink(h, i))
  {
    var k := Unlink(h, i);
    InFree(h, i);
    RelinkWithout(h.mem, h.head, h.free, i);
    RelinkFrame(h, i, PagePtr(h.free, i + 1));
    forall s {:trigger FreeSeg(k, s)} ensures FreeSeg(k, s) <==> s in k.free {
      WithoutMembers(h.free, i, s);
      assert FreeSeg(h, s) <==> s in h.free;
    }
    WithoutMembers(h.free, i, 0);
    forall s | Settled(k, s) ensures HasLength(Top(k, s), k.seg[s]) { assert Settled(h, s); }
    forall s | FreeSeg(k, s) ensures Adr(k.seg[s]) == Top(k, s).size + HEADER { assert FreeSeg(h, s); }
  }

  lemma UnlinkSame(h: Heap, i: nat)
    requires Sized(h) && FreeListed(h) && i < |h.free|
    ensures SameSmall(h, Unlink(h, i)) && SameLarge(h, Unlink(h, i))
  {
    UnlinkPages(h, i);
    OnlyPlainSame(h, Unlink(h, i), if i == 0 then {h.free[i]} else {h.free[i - 1], h.free[i]});
  }

  lemma UnlinkKeeps(h: Heap, i: nat)
    requires Core(h) && Coalesced(h) && i < |h.free|
    ensures Core(Unlink(h, i)) && Coalesced(Unlink(h, i))
    ensures SameObjects(h, Unlink(h, i))
    ensures h.free[i] in h.seg && BitsClear(h.bits, h.free[i], h.seg[h.free[i]])
  {
    UnlinkListed(h, i);
    UnlinkSame(h, i);
    SmallKeepsChains(h, Unlink(h, i));
    SameIsSameObjects(h, Unlink(h, i));
    UnlinkBits(h, i);
    UnlinkGaps(h, i);
  }

  lemma UnlinkBits(h: Heap, i: nat)
    requires FreeListed(h) && BitsOk(h) && i < |h.free| && SameLarge(h, Unlink(h, i))
    ensures BitsOk(Unlink(h, i))
    ensures h.free[i] in h.seg && BitsClear(h.bits, h.free[i], h.seg[h.free[i]])
  {
    var k := Unlink(h, i);
    InFree(h, i);
    assert BitsOf(h, h.free[i]);
    forall s | Settled(k, s) ensures BitsOf(k, s) { assert BitsOf(h, s); }
  }

  lemma UnlinkGaps(h: Heap, i: nat)
    requires Tiled(h.seg, h.end) && FreeListed(h) && Coalesced(h) && i < |h.free|
    ensures Coalesced(Unlink(h, i))
  {
    var k := Unlink(h, i);
    InFree(h, i);
    forall j | 0 <= j < |k.free| ensures GapAfter(k.seg, k.free, j) {
      assert GapAfter(h.seg, h.free, if j < i then j else j + 1);
      if j + 1 == i {
        SegmentsApart(h.seg, h.end, h.free[j], h.free[i]);
      }
    }
  }

  lemma ExtendKeeps(h: Heap, n: nat)
    requires Core(h) && Coalesced(h) && 0 < n
    ensures Core(Extend(h, n)) && Coalesced(Extend(h, n))
    ensures SameObjects(h, Extend(h, n))
    ensures BitsClear(h.bits, h.end, n) && h.end !in h.seg
  {
    var k := Extend(h, n);
    ExtendTiled(h.seg, h.end, n);
    assert forall s :: Settled(k, s) <==> Settled(h, s);
    assert OnlyPages(h, k, {});
    OnlyPagesSameSmall(h, k, {});
    SmallKeepsChains(h, k);
    SameIsSameObjects(h, k);
    ExtendListed(h, n);
    forall s | Settled(k, s) ensures BitsOf(k, s) { assert BitsOf(h, s); }
  }

  lemma ExtendListed(h: Heap, n: nat)
    requires Tiled(h.seg, h.end) && Sized(h) && FreeListed(h) && Coalesced(h) && h.end !in h.seg
    ensures Sized(Extend(h, n)) && FreeListed(Extend(h, n)) && Coalesced(Extend(h, n))
  {
    var k := Extend(h, n);
    forall s | Settled(k, s) ensures HasLength(Top(k, s), k.seg[s]) { assert Settled(h, s); }
    forall s {:trigger FreeSeg(k, s)} ensures FreeSeg(k, s) <==> s in k.free { assert FreeSeg(h, s) <==> s in h.free; }
    forall s | FreeSeg(k, s) ensures Adr(k.seg[s]) == Top(k, s).size + HEADER { assert FreeSeg(h, s); }
    forall i | 0 <= i < |k.free| ensures GapAfter(k.seg, k.free, i) { assert GapAfter(h.seg, h.free, i); InFree(h, i); }
  }

  // ---------- Giving pages back ----------

  /** The segment at `f` enters the free list before entry `i`. */
  function InsertFree(h: Heap, f: nat, i: nat): Heap
    requires f in h.seg && i <= |h.free| && HEADER <= Adr(h.seg[f])
  {
    var x := Header(FREE_CID, false, Adr(h.seg[f]) - HEADER, PagePtr(h.free, i));
    h.(mem := Relink(h.mem[Adr(f) := x], h.free, i, Adr(f)),
       head := if i == 0 then Adr(f) else h.head,
       free := With(h.free, i, f),
       limbo := h.limbo - {f})
  }

  /** Where `f` belongs in the free list. */
  predicate FitsAt(free: seq<nat>, f: nat, i: nat) {
    i <= |free| && (i > 0 ==> free[i - 1] < f) && (i < |free| ==> f < free[i])
  }

  lemma InsertPages(h: Heap, f: nat, i: nat)
    requires Tiled(h.seg, h.end) && Sized(h) && FreeListed(h) && f in h.limbo && FitsAt(h.free, f, i)
    ensures f in h.seg && 1 <= h.seg[f]
    ensures OnlyPlain(h, InsertFree(h, f, i), if i == 0 then {f} else {h.free[i - 1], f})
    ensures Top(InsertFree(h, f, i), f) == Header(FREE_CID, false, Adr(h.seg[f]) - HEADER, PagePtr(h.free, i))
    ensures FreeSeg(InsertFree(h, f, i), f)
  {
    assert Place(h.seg, h.end, f);
    PageOfAdr(f);
    if i > 0 { InFree(h, i - 1); PageOfAdr(h.free[i - 1]); }
  }

  /** The list with the new entry is linked. */
  lemma InsertLinked(h: Heap, f: nat, i: nat)
    requires FreeListed(h) && f !in h.free && FitsAt(h.free, f, i)
    requires f in h.seg && HEADER <= Adr(h.seg[f])
    ensures var k := InsertFree(h, f, i); PagesLinked(k.mem, k.head, k.free)
  {
    var m := h.mem[Adr(f) := Header(FREE_CID, false, Adr(h.seg[f]) - HEADER, PagePtr(h.free, i))];
    forall j: nat ensures PageLink(m, h.free, j) { assert PageLink(h.mem, h.free, j); }
    RelinkWith(m, h.head, h.free, i, f);
  }

  lemma InsertListed(h: Heap, f: nat, i: nat)
    requires Tiled(h.seg, h.end) && Sized(h) && FreeListed(h) && f in h.limbo && FitsAt(h.free, f, i)
    ensures f in h.seg && 1 <= h.seg[f]
    ensures FreeListed(InsertFree(h, f, i)) && Sized(InsertFree(h, f, i))
  {
    assert Place(h.seg, h.end, f);
    var k := InsertFree(h, f, i);
    assert FreeSeg(h, f) <==> f in h.free;
    InsertLinked(h, f, i);
    WithMembers(h.free, i, f, f);
    forall s {:trigger FreeSeg(k, s)} ensures FreeSeg(k, s) <==> s in k.free
      ensures Settled(k, s) ==> HasLength(Top(k, s), k.seg[s])
      ensures FreeSeg(k, s) ==> Adr(k.seg[s]) == Top(k, s).size + HEADER
    {
      WithMembers(h.free, i, f, s);
      InsertSized(h, f, i, s);
      assert FreeSeg(h, s) <==> s in h.free;
    }
  }

  /** The inserted segment is free, any other one if it was before, and all have their size. */
  lemma InsertSized(h: Heap, f: nat, i: nat, s: nat)
    requires Sized(h) && FreeListed(h) && FitsAt(h.free, f, i) && f in h.limbo
    requires f in h.seg && 1 <= h.seg[f]
    ensures FreeSeg(InsertFree(h, f, i), s) <==> FreeSeg(h, s) || s == f
    ensures Settled(InsertFree(h, f, i), s) ==> HasLength(Top(InsertFree(h, f, i), s), h.seg[s])
    ensures FreeSeg(InsertFree(h, f, i), s) ==> Adr(h.seg[s]) == Top(InsertFree(h, f, i), s).size + HEADER
  {
    if i > 0 { InFree(h, i - 1); }
  }

  lemma InsertKeeps(h: Heap, f: nat, i: nat)
    requires Core(h) && f in h.limbo && FitsAt(h.free, f, i)
    requires f in h.seg && BitsClear(h.bits, f, h.seg[f])
    ensures 1 <= h.seg[f]
    ensures Core(InsertFree(h, f, i)) && SameObjects(h, InsertFree(h, f, i))
  {
    InsertListed(h, f, i);
    InsertSame(h, f, i);
    var k := InsertFree(h, f, i);
    SmallKeepsChains(h, k);
    SameIsSameObjects(h, k);
    InsertBits(h, f, i);
  }

  lemma InsertSame(h: Heap, f: nat, i: nat)
    requires Tiled(h.seg, h.end) && Sized(h) && FreeListed(h) && f in h.limbo && FitsAt(h.free, f, i)
    ensures f in h.seg && 1 <= h.seg[f]
    ensures SameSmall(h, InsertFree(h, f, i)) && SameLarge(h, InsertFree(h, f, i))
  {
    InsertPages(h, f, i);
    OnlyPlainSame(h, InsertFree(h, f, i), if i == 0 then {f} else {h.free[i - 1], f});
  }

  lemma InsertBits(h: Heap, f: nat, i: nat)
    requires Tiled(h.seg, h.end) && Sized(h) && FreeListed(h) && f in h.limbo && FitsAt(h.free, f, i)
    requires BitsOk(h) && f in h.seg && BitsClear(h.bits, f, h.seg[f])
    requires 1 <= h.seg[f] && SameLarge(h, InsertFree(h, f, i))
    ensures BitsOk(InsertFree(h, f, i))
  {
    InsertPages(h, f, i);
    var k := InsertFree(h, f, i);
    forall s | Settled(k, s) ensures BitsOf(k, s) { assert s == f || BitsOf(h, s); }
  }

  /** Free segment `free[i]` swallows the one listed after it. */
  function Join(h: Heap, i: nat): Heap
    requires i + 1 < |h.free| && h.free[i] in h.seg && h.free[i + 1] in h.seg
  {
    var f, g := h.free[i], h.free[i + 1];
    h.(mem := h.mem[Adr(f) := Top(h, f).(size := Top(h, f).size + Top(h, g).size + HEADER, next := Top(h, g).next)],
       seg := JoinSeg(h.seg, f, g),
       free := Without(h.free, i + 1))
  }

  /** Entry `i` touches the next one. */
  predicate Touches(h: Heap, i: nat) {
    i + 1 < |h.free| && h.free[i] in h.seg && h.free[i + 1] in h.seg
    && h.free[i] + h.seg[h.free[i]] == h.free[i + 1]
  }

  lemma JoinLinked(mem: Memory, head: nat, list: seq<nat>, i: nat, x: Header)
    requires PagesLinked(mem, head, list) && Ascending(list) && i + 1 < |list|
    requires x.next == At(mem, Adr(list[i + 1])).next
    ensures PagesLinked(mem[Adr(list[i]) := x], head, Without(list, i + 1))
  {
    var mem' := mem[Adr(list[i]) := x];
    var w := Without(list, i + 1);
    forall j: nat ensures PageLink(mem', w, j) {
      assert PageLink(mem, list, if j < i then j else j + 1);
    }
  }

  lemma JoinListed(h: Heap, i: nat)
    requires Tiled(h.seg, h.end) && Sized(h) && FreeListed(h) && Touches(h, i)
    ensures FreeListed(Join(h, i)) && Sized(Join(h, i))
    ensures OnlyPages(h, Join(h, i), {h.free[i], h.free[i + 1]})
  {
    hide Tiled, Ascending;
    var f, g := h.free[i], h.free[i + 1];
    var k := Join(h, i);
    InFree(h, i);
    InFree(h, i + 1);
    PageOfAdr(f);
    JoinLinked(h.mem, h.head, h.free, i, Top(k, f));
    WithoutMembers(h.free, i + 1, f);
    JoinPages(h, i);
    OnlyPagesSameSmall(h, k, {f, g});
    forall s {:trigger FreeSeg(k, s)} ensures FreeSeg(k, s) <==> s in k.free {
      WithoutMembers(h.free, i + 1, s);
      assert FreeSeg(h, s) <==> s in h.free;
    }
    forall s | Settled(k, s) ensures HasLength(Top(k, s), k.seg[s]) { assert Settled(h, s); }
    forall s | FreeSeg(k, s) ensures Adr(k.seg[s]) == Top(k, s).size + HEADER { assert FreeSeg(h, s); }
  }

  lemma JoinPages(h: Heap, i: nat)
    requires Sized(h) && FreeListed(h) && Touches(h, i)
    ensures OnlyPages(h, Join(h, i), {h.free[i], h.free[i + 1]})
  {
    InFree(h, i);
    InFree(h, i + 1);
    PageOfAdr(h.free[i]);
  }

  lemma JoinKeeps(h: Heap, i: nat)
    requires Core(h) && Touches(h, i)
    ensures Core(Join(h, i)) && SameObjects(h, Join(h, i))
  {
    hide Sized, FreeListed;
    var f, g := h.free[i], h.free[i + 1];
    var k := Join(h, i);
    InFree(h, i);
    InFree(h, i + 1);
    JoinListed(h, i);
    JoinTiled(h.seg, h.end, f);
    OnlyPagesSameSmall(h, k, {f, g});
    SmallKeepsChains(h, k);
    SameIsSameObjects(h, k);
    assert BitsOf(h, f) && BitsOf(h, g);
    forall s | Settled(k, s) ensures BitsOf(k, s) { assert BitsOf(h, s); }
  }

  /** The free list without gaps closed: entries other than `a` and `b` do not touch their next. */
  ghost predicate GapsBut(h: Heap, a: int, b: int) {
    forall j :: 0 <= j < |h.free| && j != a && j != b ==> GapAfter(h.seg, h.free, j)
  }

  lemma InsertGaps(h: Heap, f: nat, i: nat)
    requires Coalesced(h) && FitsAt(h.free, f, i) && f in h.seg && HEADER <= Adr(h.seg[f])
    ensures GapsBut(InsertFree(h, f, i), i - 1, i)
  {
    var k := InsertFree(h, f, i);
    forall j | 0 <= j < |k.free| && j != i - 1 && j != i ensures GapAfter(k.seg, k.free, j) {
      assert GapAfter(h.seg, h.free, if j < i then j else j - 1);
    }
  }

  lemma JoinGaps(h: Heap, i: nat, other: int)
    requires Tiled(h.seg, h.end) && FreeListed(h) && Touches(h, i) && (other == i + 1 || other == -1)
    requires GapsBut(h, i, other)
    ensures GapsBut(Join(h, i), -1, if other == -1 then -1 else i)
  {
    var k := Join(h, i);
    InFree(h, i);
    InFree(h, i + 1);
    forall j | 0 <= j < |k.free| && (other == -1 || j != i) ensures GapAfter(k.seg, k.free, j) {
      if j != i {
        assert GapAfter(h.seg, h.free, if j < i then j else j + 1);
      } else {
        assert GapAfter(h.seg, h.free, i + 1);
      }
    }
  }

  /** The segment at `f` given back: put in the list before entry `i`, then joined with the
      entries it touches. */
  function JoinedBefore(h: Heap, i: nat): Heap {
    if i > 0 && Touches(h, i - 1) then Join(h, i - 1) else h
  }

  function JoinedAfter(h: Heap, i: nat): Heap {
    if Touches(h, i) then Join(h, i) else h
  }

  function Released(h: Heap, f: nat, i: nat): Heap
    requires f in h.seg && i <= |h.free| && HEADER <= Adr(h.seg[f])
  {
    var k := InsertFree(h, f, i);
    JoinedAfter(JoinedBefore(k, i), if i > 0 && Touches(k, i - 1) then i - 1 else i)
  }

  lemma JoinedKeeps(h: Heap, i: nat)
    requires Core(h)
    ensures Core(JoinedBefore(h, i)) && SameObjects(h, JoinedBefore(h, i))
    ensures Core(JoinedAfter(h, i)) && SameObjects(h, JoinedAfter(h, i))
  {
    if i > 0 && Touches(h, i - 1) { JoinKeeps(h, i - 1); }
    if Touches(h, i) { JoinKeeps(h, i); }
  }

  lemma SameObjectsTrans(h: Heap, k: Heap, l: Heap)
    requires SameObjects(h, k) && SameObjects(k, l)
    ensures SameObjects(h, l)
  {
    forall a ensures Object(h, a) <==> Object(l, a) { assert Object(h, a) <==> Object(k, a); }
  }

  lemma ReleasedKeeps(h: Heap, f: nat, i: nat)
    requires Core(h) && Coalesced(h) && f in h.limbo && FitsAt(h.free, f, i)
    requires f in h.seg && BitsClear(h.bits, f, h.seg[f])
    ensures 1 <= h.seg[f]
    ensures Core(Released(h, f, i)) && SameObjects(h, Released(h, f, i))
  {
    InsertKeeps(h, f, i);
    var k := InsertFree(h, f, i);
    JoinedKeeps(k, i);
    var l := JoinedBefore(k, i);
    SameObjectsTrans(h, k, l);
    var j := if i > 0 && Touches(k, i - 1) then i - 1 else i;
    JoinedKeeps(l, j);
    SameObjectsTrans(h, l, Released(h, f, i));
  }

  lemma ReleasedCoalesced(h: Heap, f: nat, i: nat)
    requires Core(h) && Coalesced(h) && f in h.limbo && FitsAt(h.free, f, i)
    requires f in h.seg && BitsClear(h.bits, f, h.seg[f])
    ensures 1 <= h.seg[f] && Coalesced(Released(h, f, i))
  {
    hide Chained, Typed, BitsOk, Sized, Tiled, Coalesced, GapAfter, Touches;
    InsertKeeps(h, f, i);
    InsertGaps(h, f, i);
    var k := InsertFree(h, f, i);
    JoinedKeeps(k, i);
    var l := JoinedBefore(k, i);
    if i > 0 && Touches(k, i - 1) {
      JoinGaps(k, i - 1, i);
      assert GapsBut(l, i - 1, -1);
      AfterGaps(l, i - 1);
    } else {
      BeforeGap(k, i);
      AfterGaps(l, i);
    }
  }

  lemma BeforeGap(k: Heap, i: nat)
    requires FreeListed(k) && GapsBut(k, i - 1, i) && !(i > 0 && Touches(k, i - 1))
    ensures GapsBut(k, i, -1)
  {
    if 0 < i < |k.free| { InFree(k, i - 1); InFree(k, i); }
    if i == |k.free| > 0 { InFree(k, i - 1); }
  }

  lemma AfterGaps(l: Heap, j: nat)
    requires Tiled(l.seg, l.end) && FreeListed(l) && GapsBut(l, j, -1)
    ensures Coalesced(JoinedAfter(l, j))
  {
    if Touches(l, j) {
      JoinGaps(l, j, -1);
    } else {
      if j < |l.free| { InFree(l, j); }
      if j + 1 < |l.free| { InFree(l, j + 1); }
    }
  }

  /** What a release leaves alone: memory away from the free segments and the segment itself, the
      other segments, the chains and the bitmap. */
  ghost predicate Aside(h: Heap, k: Heap, f: nat) {
    && k == h.(mem := k.mem, seg := k.seg, limbo := k.limbo, head := k.head, free := k.free)
    && (forall a {:trigger At(k.mem, a)} ::
          At(k.mem, a) == At(h.mem, a) || (a == Adr(PageOf(a)) && (PageOf(a) == f || PageOf(a) in h.free)))
    && (forall t :: t in h.seg && t != f && t !in h.free ==> t in k.seg && k.seg[t] == h.seg[t])
    && (forall t :: t in k.seg ==> t in h.seg)
  }

  lemma InsertAside(h: Heap, f: nat, i: nat)
    requires f in h.seg && i <= |h.free| && HEADER <= Adr(h.seg[f])
    ensures Aside(h, InsertFree(h, f, i), f)
    ensures forall s :: s in With(h.free, i, f) ==> s in h.free || s == f
  {
    PageOfAdr(f);
    if i > 0 { PageOfAdr(h.free[i - 1]); }
  }

  lemma JoinAside(h: Heap, k: Heap, f: nat, i: nat)
    requires Aside(h, k, f) && Touches(k, i) && (forall s :: s in k.free ==> s in h.free || s == f)
    ensures Aside(h, Join(k, i), f)
    ensures forall s :: s in Join(k, i).free ==> s in h.free || s == f
  {
    PageOfAdr(k.free[i]);
    assert k.free[i] in k.free && k.free[i + 1] in k.free;
    var l := Join(k, i);
    forall a ensures At(l.mem, a) == At(h.mem, a) || (a == Adr(PageOf(a)) && (PageOf(a) == f || PageOf(a) in h.free)) {
      assert a != Adr(k.free[i]) ==> At(l.mem, a) == At(k.mem, a);
    }
  }

  lemma ReleasedAside(h: Heap, f: nat, i: nat)
    requires f in h.seg && i <= |h.free| && HEADER <= Adr(h.seg[f])
    ensures Aside(h, Released(h, f, i), f) && Released(h, f, i).limbo == h.limbo - {f}
  {
    InsertAside(h, f, i);
    var k := InsertFree(h, f, i);
    if i > 0 && Touches(k, i - 1) { JoinAside(h, k, f, i - 1); }
    var l := JoinedBefore(k, i);
    var j := if i > 0 && Touches(k, i - 1) then i - 1 else i;
    if Touches(l, j) { JoinAside(h, l, f, j); }
  }

  // ---------- How the code gets there ----------

  /** `h.mem` with the free header of the segment at `f` written, not yet linked. */
  function FreeHeader(h: Heap, f: nat, i: nat): Memory
    requires f in h.seg && i <= |h.free| && HEADER <= Adr(h.seg[f])
  {
    h.mem[Adr(f) := Header(FREE_CID, false, Adr(h.seg[f]) - HEADER, PagePtr(h.free, i))]
  }

  /** Two listed segments touch exactly when the header of the first reaches the second. */
  lemma TouchesBySize(h: Heap, i: nat)
    requires Sized(h) && FreeListed(h) && i + 1 < |h.free|
    ensures Touches(h, i) <==> Adr(h.free[i]) + Top(h, h.free[i]).size + HEADER == Adr(h.free[i + 1])
    ensures h.free[i] in h.seg && h.free[i + 1] in h.seg
  {
    InFree(h, i);
    InFree(h, i + 1);
  }

  lemma BeforeBySize(h: Heap, f: nat, i: nat)
    requires f in h.seg && FitsAt(h.free, f, i) && HEADER <= Adr(h.seg[f]) && i > 0
    requires Sized(InsertFree(h, f, i)) && FreeListed(InsertFree(h, f, i))
    ensures Touches(InsertFree(h, f, i), i - 1)
            <==> Adr(h.free[i - 1]) + At(FreeHeader(h, f, i), Adr(h.free[i - 1])).size + HEADER == Adr(f)
  {
    TouchesBySize(InsertFree(h, f, i), i - 1);
  }

  /** Joining with the entry before needs no link: that entry already points past `f`. */
  lemma JoinBeforeMem(h: Heap, f: nat, i: nat)
    requires f in h.seg && FitsAt(h.free, f, i) && HEADER <= Adr(h.seg[f]) && i > 0
    requires PagesLinked(h.mem, h.head, h.free) && Touches(InsertFree(h, f, i), i - 1)
    ensures var m := FreeHeader(h, f, i); var prev := Adr(h.free[i - 1]);
            JoinedBefore(InsertFree(h, f, i), i).mem
            == m[prev := At(m, prev).(size := At(m, prev).size + At(m, Adr(f)).size + HEADER)]
  {
    assert PageLink(h.mem, h.free, i - 1);
    var k := InsertFree(h, f, i);
    assert k.free[i - 1] == h.free[i - 1] && k.free[i] == f;
  }

  /** All a release does to a sound heap. */
  lemma ReleasedSound(h: Heap, f: nat, i: nat)
    requires Core(h) && Coalesced(h) && f in h.limbo && FitsAt(h.free, f, i)
    requires f in h.seg && BitsClear(h.bits, f, h.seg[f])
    ensures 1 <= h.seg[f]
    ensures var k := Released(h, f, i);
            Core(k) && Coalesced(k) && SameObjects(h, k) && Aside(h, k, f) && k.limbo == h.limbo - {f}
  {
    ReleasedKeeps(h, f, i);
    ReleasedCoalesced(h, f, i);
    ReleasedAside(h, f, i);
  }

  /** Where the freed pages end up in the list. */
  function ReleasedAt(h: Heap, f: nat, i: nat): nat
    requires f in h.seg && i <= |h.free| && HEADER <= Adr(h.seg[f])
  {
    if i > 0 && Touches(InsertFree(h, f, i), i - 1) then i - 1 else i
  }

  lemma ReleasedListed(h: Heap, f: nat, i: nat)
    requires Core(h) && f in h.limbo && FitsAt(h.free, f, i)
    requires f in h.seg && BitsClear(h.bits, f, h.seg[f])
    ensures 1 <= h.seg[f]
    ensures FreeListed(InsertFree(h, f, i)) && Sized(InsertFree(h, f, i))
    ensures var k := JoinedBefore(InsertFree(h, f, i), i);
            && FreeListed(k) && Sized(k) && ReleasedAt(h, f, i) < |k.free|
            && forall j :: 0 <= j < |k.free| ==> k.free[j] != 0
    ensures forall j :: 0 <= j < |h.free| ==> h.free[j] != 0
  {
    InsertKeeps(h, f, i);
    JoinedKeeps(InsertFree(h, f, i), i);
    FreeNonNull(h);
    FreeNonNull(JoinedBefore(InsertFree(h, f, i), i));
  }

  /** The neighbours the code holds on to stay right while it joins. */
  lemma ReleasedNeighbours(h: Heap, f: nat, i: nat)
    requires f in h.seg && FitsAt(h.free, f, i) && HEADER <= Adr(h.seg[f])
    ensures var k := JoinedBefore(InsertFree(h, f, i), i); var j := ReleasedAt(h, f, i);
            && j < |k.free| && PagePtr(k.free, j + 1) == PagePtr(h.free, i)
            && k.free[j] == (if j < i then h.free[i - 1] else f)
            && (j < |JoinedAfter(k, j).free| && JoinedAfter(k, j).free[j] == k.free[j])
  {
  }

  /** Where they end up is a segment that has them. */
  lemma ReleasedHas(h: Heap, f: nat, i: nat)
    requires Core(h) && f in h.limbo && FitsAt(h.free, f, i) && f in h.seg && 1 <= h.seg[f]
    ensures var k, j := Released(h, f, i), ReleasedAt(h, f, i);
            j < |k.free| && k.free[j] in k.seg && k.free[j] <= f < k.free[j] + k.seg[k.free[j]]
  {
    hide Chained, Typed, BitsOk, Sized, Tiled;
    forall j: nat | j < |h.free| ensures h.free[j] in h.seg && h.free[j] !in h.limbo { InFree(h, j); }
    ReleasedNeighbours(h, f, i);
  }

  lemma FreeNonNull(h: Heap)
    requires Tiled(h.seg, h.end) && FreeListed(h)
    ensures forall j :: 0 <= j < |h.free| ==> h.free[j] != 0
  {
    forall j | 0 <= j < |h.free| ensures h.free[j] != 0 {
      InFree(h, j);
      assert Place(h.seg, h.end, h.free[j]);
    }
  }

  /** Cutting the list after entry `k` by a null link. */
  lemma CutLinked(mem: Memory, head: nat, list: seq<nat>, k: nat)
    requires PagesLinked(mem, head, list) && Ascending(list) && k < |list|
    ensures PagesLinked(mem[Adr(list[k]) := At(mem, Adr(list[k])).(next := 0)], head, list[..k + 1])
  {
    var m := mem[Adr(list[k]) := At(mem, Adr(list[k])).(next := 0)];
    var cut := list[..k + 1];
    forall j: nat ensures PageLink(m, cut, j) { assert PageLink(mem, list, j); }
  }

  /** A listed segment has a header in memory, and room that fills its pages. */
  lemma FreeRoom(h: Heap, i: nat, size: nat)
    requires Tiled(h.seg, h.end) && Sized(h) && FreeListed(h) && i < |h.free|
    ensures Adr(h.free[i]) in h.mem && FreeSeg(h, h.free[i])
    ensures size <= Top(h, h.free[i]).size ==> Pages(size + HEADER) <= h.seg[h.free[i]]
    ensures Top(h, h.free[i]).size > Adr(Pages(size + HEADER)) <==> h.seg[h.free[i]] > Pages(size + HEADER)
  {
    InFree(h, i);
  }

  /** What taking pages leaves alone. */
  ghost predicate Taken(h: Heap, k: Heap, t: nat, n: nat) {
    && Core(k) && Coalesced(k) && SameObjects(h, k)
    && t !in h.limbo && k.limbo == h.limbo + {t} && t in k.seg && k.seg[t] == n
    && k.bits == h.bits && BitsClear(k.bits, t, n)
    && (forall x :: x in h.limbo ==> x in h.seg && x in k.seg && k.seg[x] == h.seg[x])
  }

  lemma SplitTailTaken(h: Heap, i: nat, n: nat)
    requires Core(h) && Coalesced(h) && i < |h.free| && 0 < n
    requires h.free[i] in h.seg && n < h.seg[h.free[i]]
    ensures Adr(n) <= Top(h, h.free[i]).size
    ensures Taken(h, SplitTail(h, h.free[i], n), h.free[i] + h.seg[h.free[i]] - n, n)
    ensures Adr(h.free[i]) + Top(h, h.free[i]).size - Adr(n) + HEADER == Adr(h.free[i] + h.seg[h.free[i]] - n)
  {
    InFree(h, i);
    var f := h.free[i];
    SplitTailKeeps(h, f, n);
    SplitTailRoom(h, f, n);
  }

  lemma UnlinkTaken(h: Heap, i: nat, n: nat)
    requires Core(h) && Coalesced(h) && i < |h.free|
    requires h.free[i] in h.seg && n == h.seg[h.free[i]]
    ensures Taken(h, Unlink(h, i), h.free[i], n)
  {
    InFree(h, i);
    UnlinkKeeps(h, i);
  }

  lemma ExtendTaken(h: Heap, n: nat)
    requires Core(h) && Coalesced(h) && 0 < n
    ensures Taken(h, Extend(h, n), h.end, n) && h.end !in h.seg
  {
    ExtendKeeps(h, n);
  }

  lemma NotFree(h: Heap, f: nat)
    requires Core(h) && f in h.limbo
    ensures f !in h.free
  {
    assert FreeSeg(h, f) <==> f in h.free;
  }
}

/** The sweep phase of the collector: segment after segment leaves limbo, with its survivors only. */
module Sweeping {
  import opened Blocks
  import opened Tiling
  import opened HeapModel
  import opened PageSteps
  import opened BlockSteps

  /** The mark is part of the class field, so a free header has none. */
  predicate IsMarked(x: Header) { x.cid != FREE_CID && x.mark }

  /** What a sweep of heap `h` up to page `s` has made of it: the objects below that were marked are
      there, without their mark; from page `s` on nothing has changed. */
  ghost predicate Swept(h: Heap, k: Heap, s: nat) { SweptFrom(h, k, s, Adr(s)) }

  /** The same, where memory below `x` may be in the middle of a change. */
  ghost predicate SweptFrom(h: Heap, k: Heap, s: nat, x: nat) {
    && Core(k) && k.end == h.end && |k.bits| == |h.bits|
    && 1 <= s <= h.end && (s == h.end || s in h.seg)
    && (forall t :: t in k.limbo <==> t in h.seg && s <= t)
    && (forall t :: t in h.seg && s <= t ==> t in k.seg && k.seg[t] == h.seg[t])
    && (forall t :: t in k.seg && s <= t ==> t in h.seg)
    && (forall a {:trigger At(k.mem, a)} :: x <= a ==> At(k.mem, a) == At(h.mem, a))
    && (forall p: nat {:trigger Bit(k.bits, p)} :: s <= p ==> Bit(k.bits, p) == Bit(h.bits, p))
    && SurvivorsBelow(h, k, Adr(s))
  }

  ghost predicate SurvivorsBelow(h: Heap, k: Heap, x: nat) {
    && (forall a: nat {:trigger Object(k, a)} :: Object(k, a) <==> Object(h, a) && IsMarked(At(h.mem, a)) && a < x)
    && (forall a: nat {:trigger Object(k, a)} :: Object(k, a) ==> At(k.mem, a) == At(h.mem, a).(mark := false))
  }

  /** Objects below address `x` that were not marked. */
  ghost function Dropped(h: Heap, x: nat): set<nat> {
    set a | a in h.mem && Object(h, a) && !IsMarked(At(h.mem, a)) && a < x
  }

  lemma ObjectInMemory(h: Heap, a: nat)
    requires Object(h, a)
    ensures a in h.mem
  {
  }

  /** If the only object between `x` and `y` is `a`, or none is, it is counted or not. */
  lemma DroppedNext(h: Heap, x: nat, y: nat, a: nat, found: bool)
    requires x <= y
    requires forall b: nat :: Object(h, b) && x <= b < y ==> b == a
    requires found <==> Object(h, a) && x <= a < y && !IsMarked(At(h.mem, a))
    ensures |Dropped(h, y)| == |Dropped(h, x)| + if found then 1 else 0
  {
    if found {
      ObjectInMemory(h, a);
      assert Dropped(h, y) == Dropped(h, x) + {a};
    } else {
      assert Dropped(h, y) == Dropped(h, x);
    }
  }

  /** The heap as the sweep finds it: all lists forgotten, all segments still to come. */
  function Unswept(h: Heap): Heap {
    h.(limbo := h.seg.Keys, head := 0, free := [], heads := seq(CLASSES, i => 0), chains := seq(CLASSES, i => []))
  }

  lemma SweepStart(h: Heap)
    requires Core(h)
    ensures Swept(h, Unswept(h), 1) && Coalesced(Unswept(h)) && Dropped(h, Adr(1)) == {}
  {
    var k := Unswept(h);
    assert forall s :: !Settled(k, s);
    forall t | t in h.seg ensures 1 <= t { assert Place(h.seg, h.end, t); }
    forall c | 0 <= c < CLASSES ensures ChainOk(k, c) {
    }
    assert PagesLinked(k.mem, k.head, k.free);
    forall a ensures Object(h, a) ==> Adr(1) <= a {
      assert Place(h.seg, h.end, PageOf(a));
    }
  }

  // ---------- Large segments ----------

  /** In a segment that is not a page of blocks, only the first header can be an object. */
  lemma ObjectsInLarge(h: Heap, s: nat, a: nat)
    requires Tiled(h.seg, h.end) && Settled(h, s) && !IsSmall(Top(h, s).size)
    requires Object(h, a) && Adr(s) <= a < Adr(s + h.seg[s])
    ensures a == Adr(s)
  {
    assert Place(h.seg, h.end, s);
    assert PageOf(a) in h.seg;
  }

  lemma NextSegment(h: Heap, s: nat)
    requires Tiled(h.seg, h.end) && s in h.seg
    ensures var n := s + h.seg[s]; s < n <= h.end && (n == h.end || n in h.seg)
    ensures forall t :: t in h.seg && s <= t && t != s ==> s + h.seg[s] <= t
  {
    assert Place(h.seg, h.end, s);
  }

  /** The next segment's header is as it was, and all of it is still in limbo. */
  lemma SweepAt(h: Heap, k: Heap, s: nat)
    requires Core(h) && Swept(h, k, s) && s in h.seg && Settled(h, s)
    ensures s in k.limbo && s in k.seg && k.seg[s] == h.seg[s] && Top(k, s) == Top(h, s)
    ensures HasLength(Top(k, s), h.seg[s])
    ensures forall p: nat :: s <= p < s + h.seg[s] ==>
              Bit(k.bits, p) == (p != s && LargeObject(h, s) && Top(h, s).cid != MAP_CID)
  {
    assert BitsOf(h, s);
  }

  /** A marked large object stays. */
  lemma KeepLarge(h: Heap, k: Heap, l: Heap, s: nat)
    requires Core(h) && h.limbo == {} && Swept(h, k, s) && s in h.seg
    requires !IsSmall(Top(h, s).size) && IsMarked(Top(h, s))
    requires l == Stamp(k, s, Top(k, s).cid, Top(k, s).size).(limbo := k.limbo - {s})
    ensures Swept(h, l, s + h.seg[s])
    ensures Object(h, Adr(s))
  {
    hide Sized, SurvivorsBelow;
    SweepAt(h, k, s);
    NextSegment(h, s);
    KeepLargeCore(h, k, l, s);
    KeepLargeSurvivors(h, k, l, s);
    forall a | Adr(s + h.seg[s]) <= a ensures At(l.mem, a) == At(h.mem, a) { assert At(l.mem, a) == At(k.mem, a); }
  }

  lemma KeepLargeCore(h: Heap, k: Heap, l: Heap, s: nat)
    requires Core(k) && s in k.limbo && s in k.seg && Top(k, s) == Top(h, s) && HasLength(Top(k, s), k.seg[s])
    requires !IsSmall(Top(h, s).size) && IsMarked(Top(h, s))
    requires forall p: nat :: s <= p < s + k.seg[s] ==> Bit(k.bits, p) == (p != s && Top(h, s).cid != MAP_CID)
    requires l == Stamp(k, s, Top(k, s).cid, Top(k, s).size).(limbo := k.limbo - {s})
    ensures Core(l) && Adds(k, l, Adr(s)) && Top(l, s) == Top(h, s).(mark := false)
  {
    var k1 := Stamp(k, s, Top(k, s).cid, Top(k, s).size);
    StampKeeps(k, s, Top(k, s).cid, Top(k, s).size);
    SettleLarge(k1, l, s);
    AddsAfter(k, k1, l, Adr(s));
  }

  lemma KeepLargeSurvivors(h: Heap, k: Heap, l: Heap, s: nat)
    requires Core(h) && Settled(h, s) && SurvivorsBelow(h, k, Adr(s)) && Adds(k, l, Adr(s))
    requires !IsSmall(Top(h, s).size) && IsMarked(Top(h, s)) && Top(l, s) == Top(h, s).(mark := false)
    ensures SurvivorsBelow(h, l, Adr(s + h.seg[s]))
  {
    PageOfAdr(s);
    assert Place(h.seg, h.end, s);
    forall a: nat ensures Object(l, a) <==> Object(h, a) && IsMarked(At(h.mem, a)) && a < Adr(s + h.seg[s])
      ensures Object(l, a) ==> At(l.mem, a) == At(h.mem, a).(mark := false)
    {
      assert Object(l, a) <==> Object(k, a) || a == Adr(s);
      if Object(h, a) && Adr(s) <= a < Adr(s + h.seg[s]) { ObjectsInLarge(h, s, a); }
    }
  }

  /** An unmarked segment was given back: nothing of it stays. */
  lemma DropLarge(h: Heap, k: Heap, l: Heap, s: nat)
    requires Core(h) && h.limbo == {} && Swept(h, k, s) && s in h.seg
    requires !IsSmall(Top(h, s).size) && !IsMarked(Top(h, s))
    requires Released1(h, k, l, s)
    ensures Swept(h, l, s + h.seg[s])
  {
    hide Sized, Tiled;
    NextSegment(h, s);
    ReleasedRest(h, k, l, s);
    forall a: nat ensures Object(l, a) <==> Object(h, a) && IsMarked(At(h.mem, a)) && a < Adr(s + h.seg[s]) {
      assert Object(k, a) <==> Object(l, a);
      if Object(h, a) && Adr(s) <= a < Adr(s + h.seg[s]) { ObjectsInLarge(h, s, a); PageOfAdr(s); }
    }
  }

  /** `l` is `k` after the release of the segment at `s`. */
  ghost predicate Released1(h: Heap, k: Heap, l: Heap, s: nat) {
    && Core(l) && SameObjects(k, l) && l.limbo == k.limbo - {s} && Aside(k.(bits := l.bits), l, s)
    && |l.bits| == |k.bits|
    && (s in h.seg ==> (
          forall p: nat {:trigger Bit(l.bits, p)} :: s + h.seg[s] <= p ==> Bit(l.bits, p) == Bit(k.bits, p)))
  }

  lemma ReleasedRest(h: Heap, k: Heap, l: Heap, s: nat)
    requires Core(h) && s in h.seg && SweptFrom(h, k, s, Adr(s + h.seg[s])) && Released1(h, k, l, s)
    ensures var n := s + h.seg[s];
      && (forall t :: t in l.limbo <==> t in h.seg && n <= t)
      && (forall t :: t in h.seg && n <= t ==> t in l.seg && l.seg[t] == h.seg[t])
      && (forall t :: t in l.seg && n <= t ==> t in h.seg)
      && (forall a {:trigger At(l.mem, a)} :: Adr(n) <= a ==> At(l.mem, a) == At(h.mem, a))
  {
    NextSegment(h, s);
    var n := s + h.seg[s];
    forall t | t in k.free ensures t < s {
      assert FreeSeg(k, t) <==> t in k.free;
      FreeBelow(h, k, s, Adr(n), t);
    }
    forall a | Adr(n) <= a ensures At(l.mem, a) == At(h.mem, a) {
      assert PageOf(a) != s && PageOf(a) !in k.free;
    }
  }

  /** Only swept pages are in the free list. */
  lemma FreeBelow(h: Heap, k: Heap, s: nat, x: nat, t: nat)
    requires Core(h) && SweptFrom(h, k, s, x) && FreeSeg(k, t)
    ensures t < s
  {
  }

  // ---------- Pages of blocks ----------

  /** A sweep of page `t` up to `cp`, from memory `m0`: unmarked blocks are free and in `list`, each
      pointing to the next; marked ones have lost their mark; no size has changed. */
  ghost predicate PageSwept(h: Heap, m0: Memory, m: Memory, t: nat, z: nat, list: seq<nat>, cp: nat)
    requires 0 < z
  {
    && ListsFree(m, t, z, list, cp) && LinkedUp(m, list) && Distinct(list)
    && (forall b: nat {:trigger BlockIn(b, t, z)} :: BlockIn(b, t, z) && b < cp ==> BlockSwept(h, m, b))
    && (forall a {:trigger At(m, a)} :: PageOf(a) != t || cp <= a ==> At(m, a) == At(m0, a))
    && (forall a {:trigger At(m, a)} :: At(m, a).size == At(m0, a).size)
  }

  ghost predicate BlockSwept(h: Heap, m: Memory, b: nat) {
    if IsMarked(At(h.mem, b)) then At(m, b) == At(h.mem, b).(mark := false) else At(m, b).cid == FREE_CID
  }

  /** The page that is next in a sweep is still as it was. */
  lemma PageUntouched(h: Heap, k: Heap, t: nat)
    requires Core(h) && h.limbo == {} && Swept(h, k, t) && SmallPage(h, t)
    ensures t in k.limbo && t in k.seg && k.seg[t] == 1 == h.seg[t]
    ensures Untouched(h, k, Adr(t))
  {
    SweepAt(h, k, t);
  }

  ghost predicate Untouched(h: Heap, k: Heap, x: nat) {
    forall a {:trigger At(k.mem, a)} :: x <= a ==> At(k.mem, a) == At(h.mem, a)
  }

  lemma NextUntouched(h: Heap, k: Heap, m: Memory, t: nat, z: nat, list: seq<nat>, cp: nat)
    requires 0 < z && PageSwept(h, k.mem, m, t, z, list, cp) && Untouched(h, k, Adr(t)) && Adr(t) <= cp
    ensures At(m, cp) == At(h.mem, cp)
  {
    assert At(m, cp) == At(k.mem, cp);
  }

  /** Nothing is swept yet. */
  lemma PageSweepStart(h: Heap, m: Memory, t: nat, z: nat)
    requires 0 < z
    ensures PageSwept(h, m, m, t, z, [], Adr(t)) && NoneMarked(h, t, z, Adr(t))
  {
  }

  /** A marked block stays. */
  lemma KeepBlock(h: Heap, m0: Memory, m: Memory, t: nat, z: nat, list: seq<nat>, cp: nat)
    requires 0 < z && PageSwept(h, m0, m, t, z, list, cp) && IsBlock(cp, Adr(t), z)
    requires At(m, cp) == At(h.mem, cp) && IsMarked(At(m, cp))
    ensures PageSwept(h, m0, m[cp := At(m, cp).(mark := false)], t, z, list, cp + z)
  {
    var m' := m[cp := At(m, cp).(mark := false)];
    ListsFreeFrame(m, m', t, z, list, cp);
    NextListed(m', t, z, list, cp, list);
    forall i: nat ensures NextIn(m', list, i) {
      assert NextIn(m, list, i);
      if i < |list| { assert list[i] in list; }
    }
    forall b: nat | BlockIn(b, t, z) && b < cp + z ensures BlockSwept(h, m', b) {
      if cp < b { BlocksApart(cp, b, Adr(t), z); }
      assert b < cp ==> BlockSwept(h, m, b);
    }
    forall a ensures At(m', a).size == At(m0, a).size
      ensures PageOf(a) != t || cp + z <= a ==> At(m', a) == At(m0, a)
    {
      assert a != cp ==> At(m', a) == At(m, a);
      assert At(m, a).size == At(m0, a).size;
    }
  }

  /** Memory after the block at `cp` has been freed and linked to the last free one. */
  function Dropping(m: Memory, list: seq<nat>, cp: nat): Memory {
    var m1 := m[cp := At(m, cp).(cid := FREE_CID, mark := false)];
    if list == [] then m1 else m1[list[|list| - 1] := At(m1, list[|list| - 1]).(next := cp)]
  }

  /** An unmarked block joins the list. */
  lemma DropBlock(h: Heap, m0: Memory, m: Memory, t: nat, z: nat, list: seq<nat>, cp: nat)
    requires 0 < z && PageSwept(h, m0, m, t, z, list, cp) && IsBlock(cp, Adr(t), z)
    requires At(m, cp) == At(h.mem, cp) && !IsMarked(At(m, cp))
    ensures PageSwept(h, m0, Dropping(m, list, cp), t, z, list + [cp], cp + z)
  {
    var m' := Dropping(m, list, cp);
    assert cp !in list;
    ListsFreeFrame(m, m', t, z, list, cp);
    NextListed(m', t, z, list, cp, list + [cp]);
    assert list != [] ==> list[|list| - 1] in list;
    LinkedUpAppend(m, m', list, cp);
    forall b: nat | BlockIn(b, t, z) && b < cp + z ensures BlockSwept(h, m', b) {
      if cp < b { BlocksApart(cp, b, Adr(t), z); }
      assert b < cp ==> BlockSwept(h, m, b) && (b in list <==> At(m, b).cid == FREE_CID);
    }
    forall a ensures At(m', a).size == At(m0, a).size
      ensures PageOf(a) != t || cp + z <= a ==> At(m', a) == At(m0, a)
    {
      assert a != cp && a !in list ==> At(m', a) == At(m, a);
      assert At(m, a).size == At(m0, a).size;
    }
  }

  /** Memory once the last free block of the page points to the chain of its class. */
  function Closing(m: Memory, list: seq<nat>, head: nat): Memory {
    if list == [] then m else m[list[|list| - 1] := At(m, list[|list| - 1]).(next := head)]
  }

  lemma CloseList(h: Heap, m0: Memory, m: Memory, t: nat, z: nat, list: seq<nat>, cp: nat, chain: seq<nat>)
    requires 0 < z && PageSwept(h, m0, m, t, z, list, cp)
    ensures var m' := Closing(m, list, BlockPtr(chain, 0));
            PageSwept(h, m0, m', t, z, list, cp)
            && forall i: nat {:trigger BlockLink(m', list + chain, i)} :: i < |list| ==> BlockLink(m', list + chain, i)
  {
    var m' := Closing(m, list, BlockPtr(chain, 0));
    if list != [] {
      assert list[|list| - 1] in list;
      ListsFreeFrame(m, m', t, z, list, cp);
      LinkedUpEnd(m, m', list);
      LinkedUpJoin(m', list, chain);
      forall b: nat | BlockIn(b, t, z) && b < cp ensures BlockSwept(h, m', b) {
        assert BlockSwept(h, m, b) && (b in list <==> At(m, b).cid == FREE_CID);
      }
      forall a ensures At(m', a).size == At(m0, a).size
        ensures PageOf(a) != t || cp <= a ==> At(m', a) == At(m0, a)
      {
        assert a !in list ==> At(m', a) == At(m, a);
        assert At(m, a).size == At(m0, a).size;
      }
    }
  }

  /** Below the end of the page's last block, every object of the page is a block. */
  lemma ObjectsInPage(h: Heap, t: nat, a: nat)
    requires Core(h) && SmallPage(h, t) && PageOf(a) == t
    ensures var z := ClassSize(PageClass(h, t));
            0 < z && (Object(h, a) <==> BlockIn(a, t, z) && At(h.mem, a).cid != FREE_CID)
    ensures Object(h, a) ==> IsSmall(At(h.mem, a).size) && ClassOf(At(h.mem, a).size) == PageClass(h, t)
  {
    BlockSizes(PageClass(h, t));
    assert SmallObject(h, a) ==> IsSmall(At(h.mem, a).size) && ClassOf(At(h.mem, a).size) == PageClass(h, PageOf(a));
  }

  /** The page is swept: all its blocks lie below `cp`. */
  ghost predicate PageDone(h: Heap, k: Heap, m: Memory, t: nat, list: seq<nat>, cp: nat) {
    && SmallPage(h, t) && t in k.limbo && t in k.seg && k.seg[t] == 1
    && 0 < ClassSize(PageClass(h, t)) && Adr(t) + PAGE < cp + ClassSize(PageClass(h, t))
    && Untouched(h, k, Adr(t))
    && PageSwept(h, k.mem, m, t, ClassSize(PageClass(h, t)), list, cp)
  }

  /** In a swept page, what is not free was marked, and an object. */
  lemma DoneBlock(h: Heap, k: Heap, m: Memory, t: nat, list: seq<nat>, cp: nat, b: nat)
    requires Core(h) && PageDone(h, k, m, t, list, cp) && PageOf(b) == t
    ensures BlockIn(b, t, ClassSize(PageClass(h, t))) ==> b < cp
    ensures BlockIn(b, t, ClassSize(PageClass(h, t))) && At(m, b).cid != FREE_CID
            <==> Object(h, b) && IsMarked(At(h.mem, b))
    ensures Object(h, b) && IsMarked(At(h.mem, b)) ==> At(m, b) == At(h.mem, b).(mark := false)
  {
    ObjectsInPage(h, t, b);
    var z := ClassSize(PageClass(h, t));
    if BlockIn(b, t, z) {
      assert b + z <= Adr(t) + PAGE;
      assert BlockSwept(h, m, b);
    }
  }

  lemma KeepPageSettled(h: Heap, k: Heap, l: Heap, t: nat, list: seq<nat>, cp: nat)
    requires Core(h) && PageDone(h, k, l.mem, t, list, cp) && |k.heads| == |k.chains| == CLASSES
    requires forall i: nat {:trigger BlockLink(l.mem, list + k.chains[PageClass(h, t)], i)} ::
               i < |list| ==> BlockLink(l.mem, list + k.chains[PageClass(h, t)], i)
    requires l == k.(mem := l.mem, limbo := k.limbo - {t},
                     heads := k.heads[PageClass(h, t) := BlockPtr(list + k.chains[PageClass(h, t)], 0)],
                     chains := k.chains[PageClass(h, t) := list + k.chains[PageClass(h, t)]])
    ensures SmallSettled(k, l, t, PageClass(h, t), list)
  {
    var c := PageClass(h, t);
    PageOfAdr(t);
    assert Top(k, t) == Top(h, t) && At(l.mem, Adr(t)).size == At(k.mem, Adr(t)).size;
    forall b | BlockIn(b, t, ClassSize(c)) && At(l.mem, b).cid != FREE_CID
      ensures IsSmall(At(l.mem, b).size) && ClassOf(At(l.mem, b).size) == c
    {
      DoneBlock(h, k, l.mem, t, list, cp, b);
      ObjectsInPage(h, t, b);
    }
    forall b ensures b in list <==> BlockIn(b, t, ClassSize(c)) && At(l.mem, b).cid == FREE_CID {
      if BlockIn(b, t, ClassSize(c)) { DoneBlock(h, k, l.mem, t, list, cp, b); }
    }
  }

  /** A page with survivors stays, its free blocks in their chain. */
  lemma KeepPage(h: Heap, k: Heap, l: Heap, t: nat, list: seq<nat>, cp: nat)
    requires Core(h) && Swept(h, k, t) && PageDone(h, k, l.mem, t, list, cp)
    requires SmallSettled(k, l, t, PageClass(h, t), list)
    ensures Swept(h, l, t + 1)
  {
    hide FreeListed, Chained, Typed, Sized, PageSwept;
    var c := PageClass(h, t);
    NextSegment(h, t);
    assert BitsOf(h, t);
    assert Bit(k.bits, t) == Bit(h.bits, t);
    SettleSmall(k, l, t, c, list);
    forall a: nat ensures Object(l, a) <==> Object(h, a) && IsMarked(At(h.mem, a)) && a < Adr(t + 1)
      ensures Object(l, a) ==> At(l.mem, a) == At(h.mem, a).(mark := false)
    {
      assert Object(l, a) <==> Object(k, a) || (BlockIn(a, t, ClassSize(c)) && At(l.mem, a).cid != FREE_CID);
      if PageOf(a) == t { DoneBlock(h, k, l.mem, t, list, cp, a); }
    }
  }

  /** Sweeping the blocks of a page touches nothing else. */
  lemma PageSweptFrom(h: Heap, k: Heap, k1: Heap, t: nat, list: seq<nat>, cp: nat)
    requires Core(h) && Swept(h, k, t) && PageDone(h, k, k1.mem, t, list, cp) && k1 == k.(mem := k1.mem)
    ensures SweptFrom(h, k1, t, Adr(t + 1)) && SameObjects(k, k1)
  {
    hide FreeListed, Chained, Typed, BitsOk, Sized;
    forall a | PageOf(a) != t ensures At(k1.mem, a) == At(k.mem, a) { }
    LimboMemory(k, k1, t);
    forall a | Adr(t + 1) <= a ensures At(k1.mem, a) == At(h.mem, a) { assert PageOf(a) != t; }
  }

  /** What the release of a page without survivors finds there. */
  lemma FreshPage(h: Heap, k: Heap, m: Memory, t: nat, list: seq<nat>, cp: nat)
    requires Core(h) && h.limbo == {} && Swept(h, k, t) && PageDone(h, k, m, t, list, cp)
    requires forall b: nat :: PageOf(b) == t && Object(h, b) ==> !IsMarked(At(h.mem, b))
    ensures At(m, Adr(t)).cid == FREE_CID && IsSmall(At(m, Adr(t)).size)
    ensures BitsClear(k.bits, t, 1) && h.seg[t] == 1
  {
    BlockSizes(PageClass(h, t));
    SweepAt(h, k, t);
    FirstBlock(t, ClassSize(PageClass(h, t)));
    DoneBlock(h, k, m, t, list, cp, Adr(t));
    assert At(m, Adr(t)).size == At(k.mem, Adr(t)).size;
  }

  /** A page without survivors was given back. */
  lemma DropPage(h: Heap, k: Heap, l: Heap, t: nat)
    requires Core(h) && SmallPage(h, t) && h.seg[t] == 1 && SweptFrom(h, k, t, Adr(t + 1))
    requires forall b: nat :: PageOf(b) == t && Object(h, b) ==> !IsMarked(At(h.mem, b))
    requires Released1(h, k, l, t)
    ensures Swept(h, l, t + 1)
  {
    hide FreeListed, Chained, Typed, BitsOk, Sized;
    NextSegment(h, t);
    ReleasedRest(h, k, l, t);
    forall a: nat ensures Object(l, a) <==> Object(h, a) && IsMarked(At(h.mem, a)) && a < Adr(t + 1) {
      assert Object(k, a) <==> Object(l, a);
      assert Object(k, a) <==> Object(h, a) && IsMarked(At(h.mem, a)) && a < Adr(t);
    }
  }

  lemma LargeObjectAt(h: Heap, s: nat)
    requires Core(h) && Settled(h, s) && !IsSmall(Top(h, s).size)
    ensures Object(h, Adr(s)) <==> Top(h, s).cid != FREE_CID
    ensures forall b: nat :: Object(h, b) && Adr(s) <= b < Adr(s + h.seg[s]) ==> b == Adr(s)
  {
    PageOfAdr(s);
    forall b: nat | Object(h, b) && Adr(s) <= b < Adr(s + h.seg[s]) ensures b == Adr(s) { ObjectsInLarge(h, s, b); }
  }

  lemma ObjectsInBlock(h: Heap, t: nat, cp: nat)
    requires Core(h) && SmallPage(h, t) && 0 < ClassSize(PageClass(h, t))
    requires IsBlock(cp, Adr(t), ClassSize(PageClass(h, t)))
    ensures Object(h, cp) <==> At(h.mem, cp).cid != FREE_CID
    ensures forall b: nat :: Object(h, b) && cp <= b < cp + ClassSize(PageClass(h, t)) ==> b == cp
  {
    var z := ClassSize(PageClass(h, t));
    ObjectsInPage(h, t, cp);
    forall b: nat | Object(h, b) && cp <= b < cp + z ensures b == cp {
      ObjectsInPage(h, t, b);
      if cp < b { BlocksApart(cp, b, Adr(t), z); }
    }
  }

  lemma ListNonNull(h: Heap, m0: Memory, m: Memory, t: nat, z: nat, list: seq<nat>, cp: nat)
    requires Core(h) && t in h.seg && 0 < z && PageSwept(h, m0, m, t, z, list, cp)
    ensures 0 !in list && (list != [] ==> list[|list| - 1] != 0)
  {
    assert Place(h.seg, h.end, t);
  }

  /** No block of page `t` below `x` is marked. */
  ghost predicate NoneMarked(h: Heap, t: nat, z: nat, x: nat)
    requires 0 < z
  {
    forall b: nat {:trigger BlockIn(b, t, z)} :: BlockIn(b, t, z) && b < x ==> !IsMarked(At(h.mem, b))
  }

  lemma NoneMarkedNext(h: Heap, t: nat, z: nat, cp: nat)
    requires 0 < z && IsBlock(cp, Adr(t), z)
    ensures NoneMarked(h, t, z, cp + z) <==> NoneMarked(h, t, z, cp) && !IsMarked(At(h.mem, cp))
  {
    assert BlockIn(cp, t, z);
    if NoneMarked(h, t, z, cp) && !IsMarked(At(h.mem, cp)) {
      forall b: nat | BlockIn(b, t, z) && b < cp + z ensures !IsMarked(At(h.mem, b)) {
        if cp < b { BlocksApart(cp, b, Adr(t), z); }
      }
    }
  }

  /** After the last block there is no object in the page. */
  lemma PageEnd(h: Heap, t: nat, z: nat, cp: nat)
    requires Core(h) && SmallPage(h, t) && z == ClassSize(PageClass(h, t)) && 0 < z
    requires cp <= Adr(t) + PAGE < cp + z
    ensures |Dropped(h, Adr(t + 1))| == |Dropped(h, cp)|
    ensures NoneMarked(h, t, z, cp) <==> forall b: nat :: PageOf(b) == t && Object(h, b) ==> !IsMarked(At(h.mem, b))
  {
    forall b: nat | PageOf(b) == t && Object(h, b) ensures BlockIn(b, t, z) && b < cp { ObjectsInPage(h, t, b); }
    forall b: nat | BlockIn(b, t, z) && IsMarked(At(h.mem, b)) ensures Object(h, b) { ObjectsInPage(h, t, b); }
    DroppedNext(h, cp, Adr(t + 1), cp, false);
  }

  lemma StillTiled(h: Heap, k: Heap, s: nat)
    requires Core(h) && Swept(h, k, s)
    ensures Tiled(h.seg, h.end) && s <= h.end && (s == h.end || s in h.seg)
  {
  }

  lemma SweepDone(h: Heap, k: Heap)
    requires Core(h) && Swept(h, k, h.end)
    ensures k.limbo == {} && k.end == h.end && |k.bits| == |h.bits| && SurvivorsBelow(h, k, Adr(h.end))
  {
    forall t | t in h.seg ensures t < h.end { assert Place(h.seg, h.end, t); }
  }
}

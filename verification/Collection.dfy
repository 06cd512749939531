/** A whole collection: from the marks to the heap the sweep leaves. */
module Collection {
  import opened Blocks
  import opened Tiling
  import opened HeapModel
  import opened BlockSteps
  import opened Marking
  import opened Sweeping

  /** The heap is that of the collection `w` with exactly the objects in `marked`, and the page map,
      marked. */
  ghost predicate MarkedAre(w: World, h: Heap, marked: set<nat>) {
    && SameButMarks(w.h, h)
    && forall a :: Object(w.h, a) ==> (At(h.mem, a).mark <==> a in marked || At(w.h.mem, a).cid == MAP_CID)
  }

  lemma MarkOne(w: World, h: Heap, k: Heap, marked: set<nat>, hp: nat)
    requires MarkedAre(w, h, marked) && User(w.h, hp)
    requires k == h.(mem := h.mem[hp := At(h.mem, hp).(mark := true)])
    ensures MarkedAre(w, k, marked + {hp})
  {
    forall a ensures At(k.mem, a) == At(w.h.mem, a).(mark := At(k.mem, a).mark) {
      assert At(h.mem, a) == At(w.h.mem, a).(mark := At(h.mem, a).mark);
    }
  }

  /** An object of the collection, as the mark phase finds it. */
  lemma MarkedTarget(w: World, h: Heap, marked: set<nat>, a: nat, addr: nat)
    requires MarkedAre(w, h, marked) && User(w.h, a) && Inside(w.h, a, addr)
    ensures User(h, a) && Inside(h, a, addr) && (At(h.mem, a).mark <==> a in marked)
  {
    MarksKeepBlocks(w.h, h);
    assert At(h.mem, a) == At(w.h.mem, a).(mark := At(h.mem, a).mark);
  }

  /** Before anything but the page map is marked. */
  lemma OnlyMapMarked(w: World, k: Heap, pageMap: nat)
    requires Core(w.h) && MapSound(w.h, pageMap) && forall a :: User(w.h, a) ==> !At(w.h.mem, a).mark
    requires k == if pageMap == 0 then w.h else w.h.(mem := w.h.mem[pageMap := At(w.h.mem, pageMap).(mark := true)])
    ensures MarkedAre(w, k, {}) && Core(k) && MapSound(k, pageMap)
  {
    forall a | Object(w.h, a) && At(w.h.mem, a).cid == MAP_CID ensures a == pageMap && pageMap != 0 { }
    MarksKeepCore(w.h, k, pageMap);
  }

  ghost function Users(h: Heap): set<nat> { set a | a in h.mem && User(h, a) }

  lemma InUsers(h: Heap, a: nat)
    ensures a in Users(h) <==> User(h, a)
  {
  }

  lemma ObjectsBelowEnd(h: Heap, a: nat)
    requires Core(h) && Object(h, a)
    ensures a < Adr(h.end)
  {
    assert Place(h.seg, h.end, PageOf(a));
  }

  /** What survives the sweep is what was marked, and the page map. */
  lemma SurvivorsAreMarked(w: World, h: Heap, k: Heap, marked: set<nat>)
    requires Core(h) && MarkedAre(w, h, marked) && SurvivorsBelow(h, k, Adr(h.end))
    requires forall a :: User(w.h, a) ==> !At(w.h.mem, a).mark
    ensures forall a: nat :: User(k, a) <==> User(w.h, a) && a in marked
    ensures forall a: nat :: User(k, a) ==> At(k.mem, a) == At(w.h.mem, a)
    ensures forall a: nat {:trigger Object(k, a)} :: Object(k, a) && !User(k, a) <==> Object(w.h, a) && !User(w.h, a)
    ensures forall a: nat :: Object(k, a) ==> At(k.mem, a) == At(w.h.mem, a).(mark := false)
  {
    MarksKeepBlocks(w.h, h);
    forall a: nat
      ensures User(k, a) <==> User(w.h, a) && a in marked
      ensures User(k, a) ==> At(k.mem, a) == At(w.h.mem, a)
      ensures Object(k, a) && !User(k, a) <==> Object(w.h, a) && !User(w.h, a)
      ensures Object(k, a) ==> At(k.mem, a) == At(w.h.mem, a).(mark := false)
    {
      assert At(h.mem, a) == At(w.h.mem, a).(mark := At(h.mem, a).mark);
      assert Object(k, a) <==> Object(h, a) && IsMarked(At(h.mem, a)) && a < Adr(h.end);
      assert Object(h, a) <==> Object(w.h, a);
      if Object(h, a) { ObjectsBelowEnd(h, a); }
      assert Object(w.h, a) ==> At(w.h.mem, a).cid != FREE_CID;
    }
  }

  /** The number of objects the sweep counted is the number that have gone. */
  lemma DroppedAreGone(w: World, h: Heap, k: Heap, marked: set<nat>)
    requires Core(h) && MarkedAre(w, h, marked)
    requires forall a: nat :: User(k, a) <==> User(w.h, a) && a in marked
    ensures |Dropped(h, Adr(h.end))| == |Users(w.h)| - |Users(k)|
  {
    MarksKeepBlocks(w.h, h);
    var d := Dropped(h, Adr(h.end));
    forall a: nat ensures a in d <==> a in Users(w.h) && a !in Users(k) {
      assert At(h.mem, a) == At(w.h.mem, a).(mark := At(h.mem, a).mark);
      assert Object(h, a) <==> Object(w.h, a);
      InUsers(k, a);
      if Object(h, a) { ObjectsBelowEnd(h, a); ObjectInMemory(h, a); }
    }
    forall a | a in Users(k) ensures a in Users(w.h) { InUsers(k, a); InUsers(w.h, a); }
    assert Users(w.h) == d + Users(k);
  }

  /** The page map is still there. */
  lemma MapSurvives(h: Heap, k: Heap, pageMap: nat)
    requires MapSound(h, pageMap) && |k.bits| == |h.bits| && k.end == h.end
    requires forall a: nat {:trigger Object(k, a)} :: Object(k, a) && !User(k, a) <==> Object(h, a) && !User(h, a)
    requires forall a: nat :: Object(k, a) ==> At(k.mem, a) == At(h.mem, a).(mark := false)
    ensures MapSound(k, pageMap)
  {
    if pageMap != 0 {
      assert Object(h, pageMap) && !User(h, pageMap);
      assert Object(k, pageMap) && !User(k, pageMap);
      BigObjectIsLarge(k, pageMap);
    }
    forall a | Object(k, a) && At(k.mem, a).cid == MAP_CID ensures a == pageMap && pageMap != 0 {
      assert Object(k, a) && !User(k, a);
      assert Object(h, a) && !User(h, a);
    }
  }

  /** The slots after the collection `w` that kept the objects in `kept`: those of the roots and of
      kept objects have moved once, the others not at all. */
  ghost predicate SlotsMoved(w: World, slots: Slots, kept: set<nat>) {
    && slots.Keys == w.slots.Keys
    && forall id :: id in w.slots ==>
         slots[id] == if SegOf(w, kept, id) then MovedTo(w.slots[id], w.shift, |w.slots[id]|) else w.slots[id]
  }

  lemma RootsStay(w: World, slots: Slots, kept: set<nat>)
    requires WellFormed(w, kept) && SlotsMoved(w, slots, kept)
    ensures RootsIn(slots)
  {
  }

  /** The pointers in the header of the storage were moved before the collection; afterwards they are what
      they were at the call, but for one that stood for null. */
  ghost predicate RootsKept(before: Slots, after: Slots, shift: int)
    requires RootsIn(before)
  {
    forall id: SegId :: id == RootObject || id == ClassDictionary || id == StaticData ==>
      && id in after && |after[id]| == |before[id]|
      && forall j: nat :: j < |before[id]| ==>
           after[id][j] == if before[id][j] == shift then 0 else before[id][j]
  }

  /** Every pointer of an object that stays, and no other, is moved by the shift, unless it is null. */
  ghost predicate OthersMoved(before: Slots, after: Slots, shift: int, count: map<nat, nat>, kept: set<nat>) {
    forall a: nat, i: nat :: Of(a, i) in before ==>
      && Of(a, i) in after && |after[Of(a, i)]| == |before[Of(a, i)]|
      && forall j: nat :: j < |before[Of(a, i)]| ==>
           var p := before[Of(a, i)][j];
           after[Of(a, i)][j] == if a in kept && a in count && i < count[a] && p != 0 then p + shift else p
  }

  /** Every pointer of the roots and of the objects that stay is null or leads into an object that stays: to its
      first byte or to another one. */
  ghost predicate Led(h: Heap, base: int, slots: Slots, count: map<nat, nat>) {
    forall id: SegId :: id in slots && (id.Of? ==> User(h, id.obj) && id.obj in count && id.i < count[id.obj]) ==>
      forall j: nat :: j < |slots[id]| && slots[id][j] != 0 ==> IntoUser(h, slots[id][j] - base)
  }

  ghost predicate IntoUser(h: Heap, addr: int) {
    exists a: nat {:trigger User(h, a)} :: User(h, a) && a + HEADER <= addr
      && (addr == a + HEADER || addr < a + HEADER + At(h.mem, a).size)
  }

  lemma RootsAreKept(w: World, before: Slots, after: Slots, kept: set<nat>)
    requires RootsIn(before) && w.slots == RootsBack(before, w.shift) && SlotsMoved(w, after, kept)
    ensures RootsKept(before, after, w.shift)
  {
    forall id: SegId | id == RootObject || id == ClassDictionary || id == StaticData
      ensures id in after && after[id] == MovedTo(w.slots[id], w.shift, |w.slots[id]|)
    {
      assert SegOf(w, kept, id);
    }
  }

  lemma OthersAreMoved(w: World, before: Slots, after: Slots, kept: set<nat>)
    requires RootsIn(before) && w.slots == RootsBack(before, w.shift) && SlotsMoved(w, after, kept)
    ensures OthersMoved(before, after, w.shift, w.count, kept)
  {
  }

  lemma AreLed(w: World, h: Heap, slots: Slots, kept: set<nat>)
    requires Closed(w, kept) && SlotsMoved(w, slots, kept)
    requires forall a: nat :: User(h, a) <==> a in kept
    requires forall a: nat :: User(h, a) ==> At(h.mem, a) == At(w.h.mem, a)
    ensures Led(h, w.base, slots, w.count)
  {
    var v := World(h, w.base, 0, slots, w.count);
    StillClosed(w, v, kept);
    hide User;
    forall id: SegId, j: nat
      | id in slots && (id.Of? ==> User(h, id.obj) && id.obj in w.count && id.i < w.count[id.obj])
        && j < |slots[id]| && slots[id][j] != 0
      ensures IntoUser(h, slots[id][j] - w.base)
    {
      assert SegOf(v, kept, id);
      assert Hits(v, slots[id][j], kept);
      var a :| a in kept && PointsTo(h, w.base, slots[id][j], a);
      assert User(h, a);
    }
  }

  lemma NoMoveEnd(w: World, slots: Slots, kept: set<nat>)
    requires SlotsMoved(w, slots, kept) && w.shift == 0
    ensures slots == w.slots
  {
    forall id | id in w.slots ensures slots[id] == w.slots[id] {
      assert w.slots[id] == MovedTo(w.slots[id], 0, |w.slots[id]|);
    }
  }

  /** What the next collection, with no move of the file, starts from. */
  ghost predicate Follows(w: World, v: World, kept: set<nat>) {
    && v.base == w.base && v.shift == 0 && v.count == w.count
    && SlotsMoved(w, v.slots, kept) && Closed(w, kept)
    && (forall a: nat :: User(v.h, a) <==> a in kept)
    && (forall a: nat :: User(v.h, a) ==> At(v.h.mem, a) == At(w.h.mem, a))
  }

  lemma SegOfSame(w: World, v: World, x: set<nat>, id: SegId)
    requires v.slots.Keys == w.slots.Keys && v.count == w.count
    ensures SegOf(v, x, id) <==> SegOf(w, x, id)
  {
  }

  /** After a collection every pointer of a root or of a survivor leads to a survivor. */
  lemma StillClosed(w: World, v: World, kept: set<nat>)
    requires Follows(w, v, kept)
    ensures Closed(v, kept)
  {
    hide User;
    forall id | SegOf(v, kept, id) ensures SegInto(v, v.slots[id], kept) {
      SegOfSame(w, v, kept, id);
      forall j | 0 <= j < |v.slots[id]| && v.slots[id][j] != 0 ensures Hits(v, v.slots[id][j], kept) {
        assert Hits(w, w.slots[id][j], kept);
        var a :| a in kept && PointsTo(w.h, w.base, w.slots[id][j] + w.shift, a);
        assert PointsTo(v.h, v.base, v.slots[id][j], a);
      }
    }
  }

  /** All survivors can be reached, so a second collection would drop nothing. */
  lemma NothingLeftToDrop(w: World, v: World, kept: set<nat>, a: nat)
    requires Follows(w, v, kept) && 0 <= w.base && (forall b :: b in kept <==> Reachable(w, b))
    ensures Reachable(v, a) <==> User(v.h, a)
  {
    StillClosed(w, v, kept);
    forall x | Closed(v, x) && a in kept ensures a in x {
      ClosedBefore(w, v, kept, x);
      assert Reachable(w, a);
      assert a in x * kept;
    }
  }

  lemma ClosedBefore(w: World, v: World, kept: set<nat>, x: set<nat>)
    requires Follows(w, v, kept) && 0 <= w.base && Closed(v, x)
    ensures Closed(w, x * kept)
  {
    var y := x * kept;
    forall id | SegOf(w, y, id) ensures SegInto(w, w.slots[id], y) {
      assert SegOf(w, kept, id) && SegOf(v, x, id);
      forall j | 0 <= j < |w.slots[id]| && w.slots[id][j] != 0 ensures Hits(w, w.slots[id][j], y) {
        assert Hits(w, w.slots[id][j], kept);
        assert v.slots[id][j] == w.slots[id][j] + w.shift;
        HitBefore(w, v, kept, x, w.slots[id][j]);
      }
    }
  }

  lemma HitBefore(w: World, v: World, kept: set<nat>, x: set<nat>, p: int)
    requires Follows(w, v, kept) && 0 <= w.base && Hits(w, p, kept)
    requires p + w.shift != 0 ==> Hits(v, p + w.shift, x)
    ensures Hits(w, p, x * kept)
  {
    hide User;
    var b :| b in x && PointsTo(v.h, v.base, p + w.shift + v.shift, b);
    assert b in x * kept && PointsTo(w.h, w.base, p + w.shift, b);
  }

  lemma KeptAreMarked(w: World, k: Heap, marked: set<nat>)
    requires Closed(w, marked) && forall a: nat :: User(k, a) <==> User(w.h, a) && a in marked
    ensures Users(k) == marked
  {
    forall a: nat ensures a in Users(k) <==> a in marked { InUsers(k, a); }
  }
}

/** The mark phase of the collector: which objects must survive, and what holds while the stack of
    pointer segments is worked off. */
module Marking {
  import opened Blocks
  import opened HeapModel

  // ---------- Mark bits ----------

  /** The heaps differ in mark bits only. */
  ghost predicate SameButMarks(h: Heap, k: Heap) {
    && k == h.(mem := k.mem)
    && forall a {:trigger At(k.mem, a)} :: At(k.mem, a) == At(h.mem, a).(mark := At(k.mem, a).mark)
  }

  lemma MarksKeepBlocks(h: Heap, k: Heap)
    requires SameButMarks(h, k)
    ensures forall s :: PageClass(k, s) == PageClass(h, s)
    ensures forall b :: Block(k, b) <==> Block(h, b)
    ensures forall b :: Object(k, b) <==> Object(h, b)
    ensures forall b :: User(k, b) <==> User(h, b)
  {
    forall s ensures PageClass(k, s) == PageClass(h, s) && (SmallPage(k, s) <==> SmallPage(h, s)) {
      assert Top(k, s) == Top(h, s).(mark := Top(k, s).mark);
    }
    forall b
      ensures (Block(k, b) <==> Block(h, b)) && (Object(k, b) <==> Object(h, b)) && (User(k, b) <==> User(h, b))
    {
      assert At(k.mem, b) == At(h.mem, b).(mark := At(k.mem, b).mark);
      assert Top(k, PageOf(b)) == Top(h, PageOf(b)).(mark := Top(k, PageOf(b)).mark);
    }
  }

  lemma MarksKeepLists(h: Heap, k: Heap)
    requires Core(h) && SameButMarks(h, k)
    ensures Sized(k) && FreeListed(k) && Chained(k) && Typed(k)
  {
    MarksKeepBlocks(h, k);
    forall t {:trigger FreeSeg(k, t)} ensures FreeSeg(k, t) <==> t in k.free {
      assert FreeSeg(h, t) <==> t in h.free;
      assert Top(k, t) == Top(h, t).(mark := Top(k, t).mark);
    }
    forall t | Settled(k, t) ensures HasLength(Top(k, t), k.seg[t]) {
      assert Settled(h, t) && Top(k, t) == Top(h, t).(mark := Top(k, t).mark);
    }
    forall t | FreeSeg(k, t) ensures Adr(k.seg[t]) == Top(k, t).size + HEADER {
      assert Top(k, t) == Top(h, t).(mark := Top(k, t).mark);
      assert FreeSeg(h, t);
    }
    forall i: nat ensures PageLink(k.mem, k.free, i) { assert PageLink(h.mem, h.free, i); }
    forall c | 0 <= c < CLASSES ensures ChainOk(k, c) { MarksKeepChain(h, k, c); }
    forall b | SmallObject(k, b)
      ensures IsSmall(At(k.mem, b).size) && ClassOf(At(k.mem, b).size) == PageClass(k, PageOf(b))
    {
      assert SmallObject(h, b);
    }
  }

  lemma MarksKeepChain(h: Heap, k: Heap, c: nat)
    requires Chained(h) && SameButMarks(h, k) && c < CLASSES
    ensures ChainOk(k, c)
  {
    MarksKeepBlocks(h, k);
    assert ChainOk(h, c);
    var l := h.chains[c];
    forall b {:trigger FreeBlock(k, b, c)} ensures FreeBlock(k, b, c) <==> b in l {
      assert FreeBlock(h, b, c) <==> b in l;
    }
    forall i: nat ensures BlockLink(k.mem, l, i) { assert BlockLink(h.mem, l, i); }
  }

  lemma MarksKeepCore(h: Heap, k: Heap, pageMap: nat)
    requires Core(h) && SameButMarks(h, k)
    ensures Core(k)
    ensures MapSound(h, pageMap) ==> MapSound(k, pageMap)
  {
    MarksKeepLists(h, k);
    MarksKeepBlocks(h, k);
    forall s ensures LargeObject(k, s) <==> LargeObject(h, s) {
      assert Top(k, s) == Top(h, s).(mark := Top(k, s).mark);
    }
    forall s | Settled(k, s) ensures BitsOf(k, s) {
      assert BitsOf(h, s);
      assert Top(k, s) == Top(h, s).(mark := Top(k, s).mark);
    }
  }

  // ---------- The object graph ----------

  /** A run of pointer slots: a root of the storage, or one an object's class reports. */
  datatype SegId = RootObject | ClassDictionary | StaticData | Of(obj: nat, i: nat)

  type Slots = map<SegId, seq<int>>

  /** A collection: the heap before it, where the file is mapped now, how far it moved, the slots with
      the addresses of the earlier mapping, and how many segments each object has. */
  datatype World = World(h: Heap, base: int, shift: int, slots: Slots, count: map<nat, nat>)

  /** `p`, an address in the present mapping, points into the object at `a`. */
  predicate PointsTo(h: Heap, base: int, p: int, a: nat) {
    User(h, a) && base + HEADER <= p && Inside(h, a, p - base - HEADER)
  }

  /** Such a pointer is to the first byte of the object or to any other one. */
  lemma PointsToIs(h: Heap, base: int, p: int, a: nat)
    ensures PointsTo(h, base, p, a) <==>
            && User(h, a) && base + a + HEADER <= p
            && (p == base + a + HEADER || p < base + a + HEADER + At(h.mem, a).size)
  {
  }

  ghost predicate Hits(w: World, p: int, x: set<nat>) {
    exists a :: a in x && PointsTo(w.h, w.base, p + w.shift, a)
  }

  /** Every pointer in `seg` is null or leads, once moved, into an object of `x`. */
  ghost predicate SegInto(w: World, seg: seq<int>, x: set<nat>) {
    forall j :: 0 <= j < |seg| && seg[j] != 0 ==> Hits(w, seg[j], x)
  }

  function Count(w: World, a: nat): nat { if a in w.count then w.count[a] else 0 }

  /** A root segment, or a segment of an object in `x`. */
  predicate SegOf(w: World, x: set<nat>, id: SegId) {
    id in w.slots && (id.Of? ==> id.obj in x && id.i < Count(w, id.obj))
  }

  /** `x` has all that the roots point to and all that its members point to. */
  ghost predicate Closed(w: World, x: set<nat>) {
    && (forall a :: a in x ==> User(w.h, a))
    && (forall id {:trigger SegOf(w, x, id)} :: SegOf(w, x, id) ==> SegInto(w, w.slots[id], x))
  }

  /** Objects that can be reached from the roots: those that every closed set has. */
  ghost predicate Reachable(w: World, a: nat) { forall x :: Closed(w, x) ==> a in x }

  /** The root pointers are there. */
  predicate RootsIn(slots: Slots) {
    && RootObject in slots && |slots[RootObject]| == 1
    && ClassDictionary in slots && |slots[ClassDictionary]| == 1 && StaticData in slots
  }

  /** Each object has the segments its count says, and no segment is empty but perhaps the static data. */
  ghost predicate WellFormed(w: World, live: set<nat>) {
    && RootsIn(w.slots)
    && (forall a: nat, i: nat :: a in live && i < Count(w, a) ==> Of(a, i) in w.slots && w.slots[Of(a, i)] != [])
  }

  function Moved(p: int, shift: int): int { if p == 0 then 0 else p + shift }

  /** `seg` with the first `j` pointers moved. */
  function MovedTo(seg: seq<int>, shift: int, j: nat): seq<int> {
    seq(|seg|, i requires 0 <= i < |seg| => if i < j then Moved(seg[i], shift) else seg[i])
  }

  lemma SegIntoMono(w: World, seg: seq<int>, x: set<nat>, y: set<nat>)
    requires SegInto(w, seg, x) && x <= y
    ensures SegInto(w, seg, y)
  {
    forall j | 0 <= j < |seg| && seg[j] != 0 ensures Hits(w, seg[j], y) {
      var a :| a in x && PointsTo(w.h, w.base, seg[j] + w.shift, a);
      assert a in y;
    }
  }

  // ---------- While marking ----------

  /** `cur` are the slots now, `marked` the objects marked, `stack` the segments still to be gone
      through. */
  datatype Progress = Progress(cur: Slots, marked: set<nat>, stack: seq<SegId>)

  ghost predicate DoneSeg(w: World, m: Progress, id: SegId)
    requires id in w.slots && id in m.cur
  {
    m.cur[id] == MovedTo(w.slots[id], w.shift, |w.slots[id]|) && SegInto(w, w.slots[id], m.marked)
  }

  /** A segment of a marked object is on the stack and untouched, or done; any other is untouched. */
  ghost predicate SegState(w: World, m: Progress, id: SegId)
    requires id in w.slots && id in m.cur
  {
    if SegOf(w, m.marked, id) && id !in m.stack then DoneSeg(w, m, id) else m.cur[id] == w.slots[id]
  }

  ghost predicate LeastSoFar(w: World, marked: set<nat>) {
    forall x {:trigger Closed(w, x)} :: Closed(w, x) ==> marked <= x
  }

  /** The invariant of the mark phase, for all segments but those in `busy`. */
  ghost predicate MarkInv(w: World, m: Progress, busy: set<SegId>) {
    && m.cur.Keys == w.slots.Keys
    && (forall i, j :: 0 <= i < j < |m.stack| ==> m.stack[i] != m.stack[j])
    && (forall id :: id in m.stack ==> SegOf(w, m.marked, id) && id !in busy && w.slots[id] != [])
    && (forall id {:trigger SegState(w, m, id)} :: id in w.slots && id !in busy ==> SegState(w, m, id))
    && LeastSoFar(w, m.marked)
  }

  /** The segment on top of the stack is taken off to be gone through. */
  lemma PopSeg(w: World, m: Progress)
    requires MarkInv(w, m, {}) && m.stack != []
    ensures var id := m.stack[|m.stack| - 1];
            && MarkInv(w, m.(stack := m.stack[..|m.stack| - 1]), {id})
            && SegOf(w, m.marked, id) && m.cur[id] == w.slots[id] != []
  {
    var top := |m.stack| - 1;
    var id := m.stack[top];
    var k := m.(stack := m.stack[..top]);
    assert id in m.stack;
    assert SegState(w, m, id);
    forall x | x in w.slots && x != id ensures SegState(w, k, x) {
      assert SegState(w, m, x);
      assert x in k.stack <==> x in m.stack;
    }
  }

  /** A segment whose pointers all lead to marked objects is done. */
  lemma FinishSeg(w: World, m: Progress, id: SegId)
    requires MarkInv(w, m, {id}) && SegOf(w, m.marked, id) && DoneSeg(w, m, id)
    ensures MarkInv(w, m, {})
  {
    assert SegState(w, m, id);
  }

  /** A pointer of the busy segment is moved; its target was marked already. */
  lemma MoveSlot(w: World, m: Progress, id: SegId, seg: seq<int>)
    requires MarkInv(w, m, {id}) && id in w.slots
    ensures MarkInv(w, m.(cur := m.cur[id := seg]), {id})
  {
    var k := m.(cur := m.cur[id := seg]);
    forall x | x in w.slots && x != id ensures SegState(w, k, x) { assert SegState(w, m, x); }
  }

  lemma TargetUnique(w: World, pageMap: nat, p: int, a: nat, b: nat)
    requires Core(w.h) && MapSound(w.h, pageMap)
    requires PointsTo(w.h, w.base, p, a) && PointsTo(w.h, w.base, p, b)
    ensures a == b
  {
    var addr := p - w.base - HEADER;
    Lookup(w.h, pageMap, a, addr);
    Lookup(w.h, pageMap, b, addr);
    if pageMap != 0 && Bit(w.h.bits, PageOf(addr)) {
      FirstUnset(w.h.bits, PageOf(a), PageOf(b), PageOf(addr));
    }
  }

  lemma FirstUnset(bits: seq<bool>, s: nat, t: nat, p: nat)
    requires s <= p && t <= p
    requires forall q :: s <= q <= p ==> Bit(bits, q) == (q != s)
    requires forall q :: t <= q <= p ==> Bit(bits, q) == (q != t)
    ensures s == t
  {
    assert Bit(bits, s) == false || s < t;
    assert Bit(bits, t) == false;
  }

  /** The segments of the object at `a`, as its class reports them. */
  function Segments(a: nat, n: nat): seq<SegId> { seq(n, i requires 0 <= i < n => Of(a, i)) }

  /** An object found through the busy segment is marked and its segments go on the stack. */
  lemma MarkObject(w: World, pageMap: nat, m: Progress, id: SegId, j: nat, a: nat)
    requires Core(w.h) && MapSound(w.h, pageMap) && MarkInv(w, m, {id}) && SegOf(w, m.marked, id)
    requires j < |w.slots[id]| && w.slots[id][j] != 0
    requires PointsTo(w.h, w.base, w.slots[id][j] + w.shift, a) && a !in m.marked
    requires forall i: nat :: i < Count(w, a) ==> Of(a, i) in w.slots && w.slots[Of(a, i)] != []
    ensures MarkInv(w, Progress(m.cur, m.marked + {a}, m.stack + Segments(a, Count(w, a))), {id})
  {
    hide Core, MapSound, PointsTo;
    var k := Progress(m.cur, m.marked + {a}, m.stack + Segments(a, Count(w, a)));
    MarkObjectStack(w, m, k, id, a);
    forall x | x in w.slots && x != id ensures SegState(w, k, x) {
      assert SegState(w, m, x);
      if SegOf(w, m.marked, x) && x !in m.stack {
        SegIntoMono(w, w.slots[x], m.marked, k.marked);
        assert x !in Segments(a, Count(w, a));
      } else if SegOf(w, k.marked, x) && x !in m.stack {
        assert Segments(a, Count(w, a))[x.i] == x;
        assert k.stack[|m.stack| + x.i] == x;
      }
    }
    MarkObjectLeast(w, pageMap, m.marked, id, j, a);
  }

  /** Every closed set has the object too, for it has what the pointer leads to. */
  lemma MarkObjectLeast(w: World, pageMap: nat, marked: set<nat>, id: SegId, j: nat, a: nat)
    requires Core(w.h) && MapSound(w.h, pageMap) && LeastSoFar(w, marked) && SegOf(w, marked, id)
    requires j < |w.slots[id]| && w.slots[id][j] != 0
    requires PointsTo(w.h, w.base, w.slots[id][j] + w.shift, a)
    ensures LeastSoFar(w, marked + {a})
  {
    hide Core, MapSound, PointsTo;
    forall x | Closed(w, x) ensures marked + {a} <= x {
      assert marked <= x;
      assert SegOf(w, x, id);
      assert Hits(w, w.slots[id][j], x);
      var b :| b in x && PointsTo(w.h, w.base, w.slots[id][j] + w.shift, b);
      TargetUnique(w, pageMap, w.slots[id][j] + w.shift, a, b);
    }
  }

  lemma MarkObjectStack(w: World, m: Progress, k: Progress, id: SegId, a: nat)
    requires MarkInv(w, m, {id}) && SegOf(w, m.marked, id) && a !in m.marked
    requires k == Progress(m.cur, m.marked + {a}, m.stack + Segments(a, Count(w, a)))
    requires forall i: nat :: i < Count(w, a) ==> Of(a, i) in w.slots && w.slots[Of(a, i)] != []
    ensures forall i, j :: 0 <= i < j < |k.stack| ==> k.stack[i] != k.stack[j]
    ensures forall x :: x in k.stack ==> SegOf(w, k.marked, x) && x != id && w.slots[x] != []
  {
    forall i, j | 0 <= i < j < |k.stack| ensures k.stack[i] != k.stack[j] {
      if i < |m.stack| { assert k.stack[i] in m.stack; }
    }
    forall x | x in k.stack ensures SegOf(w, k.marked, x) && x != id && w.slots[x] != [] {
      if x !in m.stack {
        var i :| 0 <= i < |k.stack| && k.stack[i] == x;
        assert x == Of(a, i - |m.stack|);
      }
    }
  }

  /** When the stack is empty the marked objects are exactly the reachable ones, and exactly the slots
      of roots and marked objects have been moved. */
  lemma MarkEnd(w: World, m: Progress, live: set<nat>)
    requires MarkInv(w, m, {}) && m.stack == [] && Closed(w, live)
    ensures Closed(w, m.marked) && forall a :: a in m.marked <==> Reachable(w, a)
    ensures m.cur.Keys == w.slots.Keys
    ensures forall id :: id in w.slots ==>
              m.cur[id] == if SegOf(w, m.marked, id) then MovedTo(w.slots[id], w.shift, |w.slots[id]|) else w.slots[id]
  {
    assert m.marked <= live;
    forall id | SegOf(w, m.marked, id) ensures SegInto(w, w.slots[id], m.marked) { assert SegState(w, m, id); }
    assert Closed(w, m.marked);
    forall a | a in m.marked ensures Reachable(w, a) {
      forall x | Closed(w, x) ensures a in x { assert m.marked <= x; }
    }
    forall id | id in w.slots
      ensures m.cur[id] == if SegOf(w, m.marked, id) then MovedTo(w.slots[id], w.shift, |w.slots[id]|) else w.slots[id]
    {
      assert SegState(w, m, id);
    }
  }

  /** Before anything is marked: the non-empty root segments are on the stack. */
  lemma MarkStart(w: World, stack: seq<SegId>)
    requires RootObject in w.slots && ClassDictionary in w.slots && StaticData in w.slots
    requires forall i, j :: 0 <= i < j < |stack| ==> stack[i] != stack[j]
    requires forall id :: id in stack ==> !id.Of? && id in w.slots && w.slots[id] != []
    requires forall id :: id in w.slots && !id.Of? && id !in stack ==> w.slots[id] == [] || w.slots[id] == [0]
    ensures MarkInv(w, Progress(w.slots, {}, stack), {})
  {
    var m := Progress(w.slots, {}, stack);
    forall id | id in w.slots ensures SegState(w, m, id) {
      if SegOf(w, {}, id) && id !in stack {
        var seg := w.slots[id];
        assert seg == MovedTo(seg, w.shift, |seg|);
      }
    }
  }

  lemma MovedOne(seg: seq<int>, shift: int, j: nat)
    requires j < |seg|
    ensures MovedTo(seg, shift, j)[j] == seg[j]
    ensures MovedTo(seg, shift, j + 1) == MovedTo(seg, shift, j)[j := Moved(seg[j], shift)]
  {
  }

  /** What a pointer of a marked object leads to. */
  lemma TargetIn(w: World, marked: set<nat>, live: set<nat>, id: SegId, j: nat) returns (a: nat)
    requires Closed(w, live) && LeastSoFar(w, marked) && SegOf(w, marked, id)
    requires j < |w.slots[id]| && w.slots[id][j] != 0
    ensures a in live && PointsTo(w.h, w.base, w.slots[id][j] + w.shift, a)
  {
    assert marked <= live;
    assert SegOf(w, live, id);
    assert Hits(w, w.slots[id][j], live);
    a :| a in live && PointsTo(w.h, w.base, w.slots[id][j] + w.shift, a);
  }

  lemma SegIntoNext(w: World, seg: seq<int>, j: nat, x: set<nat>, y: set<nat>)
    requires j < |seg| && x <= y && SegInto(w, seg[..j], x)
    requires seg[j] != 0 ==> Hits(w, seg[j], y)
    ensures SegInto(w, seg[..j + 1], y)
  {
    SegIntoMono(w, seg[..j], x, y);
    var part := seg[..j + 1];
    forall i | 0 <= i < |part| && part[i] != 0 ensures Hits(w, part[i], y) {
      if i < j { assert part[i] == seg[..j][i]; }
    }
  }

  // ---------- The roots ----------

  function UnmovedRoot(seg: seq<int>, shift: int): seq<int> {
    if |seg| == 1 && seg[0] != 0 then [seg[0] - shift] else seg
  }

  function UnmovedStatic(seg: seq<int>, shift: int): seq<int> {
    seq(|seg|, i requires 0 <= i < |seg| => seg[i] - shift)
  }

  /** The slots with the addresses of the earlier mapping: the storage header, roots included, was
      moved before the collection. */
  function RootsBack(slots: Slots, shift: int): Slots
    requires RootObject in slots && ClassDictionary in slots && StaticData in slots
  {
    slots[RootObject := UnmovedRoot(slots[RootObject], shift)]
         [ClassDictionary := UnmovedRoot(slots[ClassDictionary], shift)]
         [StaticData := UnmovedStatic(slots[StaticData], shift)]
  }

  lemma NoMove(slots: Slots)
    requires RootsIn(slots)
    ensures RootsBack(slots, 0) == slots
  {
    assert UnmovedStatic(slots[StaticData], 0) == slots[StaticData];
    assert UnmovedRoot(slots[RootObject], 0) == slots[RootObject];
    assert UnmovedRoot(slots[ClassDictionary], 0) == slots[ClassDictionary];
  }
}

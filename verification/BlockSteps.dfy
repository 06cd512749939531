/** Objects appearing in and disappearing from a heap: a large object settles on its pages, a page is
    cut into blocks, a block is taken from or returned to its chain. */
module BlockSteps {
  import opened Blocks
  import opened Tiling
  import opened HeapModel

  /** `k` has the objects of `h` and one more, at `a`. */
  ghost predicate Adds(h: Heap, k: Heap, a: nat) {
    && (forall x :: Object(k, x) <==> Object(h, x) || x == a)
    && (forall x :: Object(h, x) ==> At(h.mem, x) == At(k.mem, x))
  }

  ghost predicate Drops(h: Heap, k: Heap, a: nat) {
    && (forall x :: Object(k, x) <==> Object(h, x) && x != a)
    && (forall x :: Object(k, x) ==> At(h.mem, x) == At(k.mem, x))
  }

  // ---------- Large objects ----------

  /** The header of the segment at `s` now says `cid` and `size`. */
  function Stamp(h: Heap, s: nat, cid: nat, size: nat): Heap {
    h.(mem := h.mem[Adr(s) := Top(h, s).(cid := cid, mark := false, size := size)])
  }

  /** Memory inside a segment in limbo is free to change. */
  lemma LimboMemory(h: Heap, k: Heap, s: nat)
    requires Core(h) && s in h.limbo && k == h.(mem := k.mem)
    requires forall a {:trigger At(k.mem, a)} :: PageOf(a) != s ==> At(k.mem, a) == At(h.mem, a)
    ensures Core(k) && SameObjects(h, k)
  {
    assert OnlyPages(h, k, {s});
    OnlyPagesSameSmall(h, k, {s});
    SmallKeepsChains(h, k);
    SameIsSameObjects(h, k);
    LimboMemoryListed(h, k, s);
    forall t | Settled(k, t) ensures BitsOf(k, t) { assert BitsOf(h, t); }
  }

  lemma LimboMemoryListed(h: Heap, k: Heap, s: nat)
    requires Sized(h) && FreeListed(h) && s in h.limbo && k == h.(mem := k.mem)
    requires forall t :: t != s ==> Top(k, t) == Top(h, t)
    ensures Sized(k) && FreeListed(k)
  {
    assert FreeSeg(h, s) <==> s in h.free;
    forall t {:trigger FreeSeg(k, t)} ensures FreeSeg(k, t) <==> t in k.free { assert FreeSeg(h, t) <==> t in h.free; }
    forall i: nat ensures PageLink(k.mem, k.free, i) {
      assert PageLink(h.mem, h.free, i);
      if i < |h.free| { assert h.free[i] != s && Top(k, h.free[i]) == Top(h, h.free[i]); }
    }
    forall t | Settled(k, t) ensures HasLength(Top(k, t), k.seg[t]) { assert Settled(h, t); }
    forall t | FreeSeg(k, t) ensures Adr(k.seg[t]) == Top(k, t).size + HEADER { assert FreeSeg(h, t); }
  }

  lemma StampKeeps(h: Heap, s: nat, cid: nat, size: nat)
    requires Core(h) && s in h.limbo
    ensures Core(Stamp(h, s, cid, size)) && SameObjects(h, Stamp(h, s, cid, size))
  {
    PageOfAdr(s);
    LimboMemory(h, Stamp(h, s, cid, size), s);
  }

  /** Of the bits of the `n` pages at `s`, those after the first are `marked`; the others are as before. */
  ghost predicate MarksOnly(bits: seq<bool>, bits': seq<bool>, s: nat, n: nat, marked: bool) {
    forall p: nat {:trigger Bit(bits', p)} ::
      Bit(bits', p) == if s < p < s + n then marked else Bit(bits, p)
  }

  /** The bits of the segment at `s` are those of a large object with header `x`. */
  ghost predicate MarkedAs(bits: seq<bool>, s: nat, n: nat, x: Header) {
    forall p: nat {:trigger Bit(bits, p)} :: s <= p < s + n ==> Bit(bits, p) == (p != s && x.cid != MAP_CID)
  }

  ghost predicate SameBitsBut(bits: seq<bool>, bits': seq<bool>, s: nat, n: nat) {
    forall p: nat {:trigger Bit(bits', p)} :: s <= p < s + n || Bit(bits', p) == Bit(bits, p)
  }

  /** The segment at `s` leaves limbo as a large object or as the page map. */
  lemma SettleLarge(h: Heap, k: Heap, s: nat)
    requires Core(h) && s in h.limbo && s in h.seg
    requires !IsSmall(Top(h, s).size) && Top(h, s).cid != FREE_CID && HasLength(Top(h, s), h.seg[s])
    requires k == h.(limbo := h.limbo - {s}, bits := k.bits)
    requires SameBitsBut(h.bits, k.bits, s, h.seg[s]) && MarkedAs(k.bits, s, h.seg[s], Top(h, s))
    ensures Core(k)
    ensures Adds(h, k, Adr(s))
  {
    PageOfAdr(s);
    assert OnlyPages(h, k, {s});
    OnlyPagesSameSmall(h, k, {s});
    SmallKeepsChains(h, k);
    SettleLargeObjects(h, k, s);
    SettleLargeListed(h, k, s);
    SettleLargeBits(h, k, s);
  }

  lemma SettleLargeObjects(h: Heap, k: Heap, s: nat)
    requires SameSmall(h, k) && s in h.limbo && s in h.seg && k == h.(limbo := h.limbo - {s}, bits := k.bits)
    requires !IsSmall(Top(h, s).size) && Top(h, s).cid != FREE_CID
    ensures Adds(h, k, Adr(s))
  {
    PageOfAdr(s);
    forall x ensures Object(k, x) <==> Object(h, x) || x == Adr(s) {
      SameBlock(h, k, x);
    }
  }

  lemma SettleLargeListed(h: Heap, k: Heap, s: nat)
    requires Sized(h) && FreeListed(h) && s in h.limbo && s in h.seg && k == h.(limbo := h.limbo - {s}, bits := k.bits)
    requires !IsSmall(Top(h, s).size) && Top(h, s).cid != FREE_CID && HasLength(Top(h, s), h.seg[s])
    ensures Sized(k) && FreeListed(k)
  {
    forall t {:trigger FreeSeg(k, t)} ensures FreeSeg(k, t) <==> t in k.free { assert FreeSeg(h, t) <==> t in h.free; }
    forall t | Settled(k, t) ensures HasLength(Top(k, t), k.seg[t]) { assert t == s || Settled(h, t); }
    forall t | FreeSeg(k, t) ensures Adr(k.seg[t]) == Top(k, t).size + HEADER { assert FreeSeg(h, t); }
  }

  lemma SettleLargeBits(h: Heap, k: Heap, s: nat)
    requires Tiled(h.seg, h.end) && BitsOk(h) && s in h.limbo && s in h.seg
    requires k == h.(limbo := h.limbo - {s}, bits := k.bits)
    requires !IsSmall(Top(h, s).size) && Top(h, s).cid != FREE_CID
    requires SameBitsBut(h.bits, k.bits, s, h.seg[s]) && MarkedAs(k.bits, s, h.seg[s], Top(h, s))
    ensures BitsOk(k)
  {
    assert Place(h.seg, h.end, s);
    forall t | Settled(k, t) ensures BitsOf(k, t) {
      assert Place(h.seg, h.end, t);
      assert t == s || BitsOf(h, t);
    }
  }

  /** A large object, or the page map, becomes a segment under construction again. */
  lemma UnsettleLarge(h: Heap, k: Heap, s: nat)
    requires Core(h) && Settled(h, s) && !IsSmall(Top(h, s).size) && Top(h, s).cid != FREE_CID
    requires k == h.(limbo := h.limbo + {s})
    ensures Core(k)
    ensures Drops(h, k, Adr(s))
  {
    PageOfAdr(s);
    assert OnlyPages(h, k, {s});
    OnlyPagesSameSmall(h, k, {s});
    SmallKeepsChains(h, k);
    forall x ensures Object(k, x) <==> Object(h, x) && x != Adr(s) {
      SameBlock(h, k, x);
    }
    forall t {:trigger FreeSeg(k, t)} ensures FreeSeg(k, t) <==> t in k.free { assert FreeSeg(h, t) <==> t in h.free; }
    forall t | Settled(k, t) ensures HasLength(Top(k, t), k.seg[t]) { assert Settled(h, t); }
    forall t | Settled(k, t) ensures BitsOf(k, t) { assert BitsOf(h, t); }
  }

  /** Bits inside segments in limbo are free to change. */
  lemma LimboBits(h: Heap, k: Heap, s: nat)
    requires Core(h) && s in h.limbo && s in h.seg && k == h.(bits := k.bits)
    requires forall p: nat {:trigger Bit(k.bits, p)} :: s <= p < s + h.seg[s] || Bit(k.bits, p) == Bit(h.bits, p)
    ensures Core(k) && SameObjects(h, k)
  {
    assert Place(h.seg, h.end, s);
    assert OnlyPages(h, k, {});
    OnlyPagesSameSmall(h, k, {});
    SmallKeepsChains(h, k);
    SameIsSameObjects(h, k);
    forall t {:trigger FreeSeg(k, t)} ensures FreeSeg(k, t) <==> t in k.free { assert FreeSeg(h, t) <==> t in h.free; }
    forall t | Settled(k, t) ensures BitsOf(k, t) {
      assert Place(h.seg, h.end, t);
      assert BitsOf(h, t);
    }
    forall t | Settled(k, t) ensures HasLength(Top(k, t), k.seg[t]) { assert Settled(h, t); }
  }

  // ---------- Pages of blocks ----------

  /** The blocks of page `s`, cut at `z` bytes. */
  predicate BlockIn(b: nat, s: nat, z: nat)
    requires 0 < z
  {
    PageOf(b) == s && IsBlock(b, Adr(s), z)
  }

  /** Page `s` leaves limbo as a page of class `c`; the free blocks in it are `list`, and they now
      head the chain of that class. */
  ghost predicate SmallSettled(h: Heap, k: Heap, s: nat, c: nat, list: seq<nat>) {
    && s in h.limbo && s in h.seg && h.seg[s] == 1
    && c < CLASSES && |h.heads| == |h.chains| == CLASSES
    && k == h.(mem := k.mem, limbo := h.limbo - {s}, heads := h.heads[c := BlockPtr(list + h.chains[c], 0)],
               chains := h.chains[c := list + h.chains[c]])
    && (forall a {:trigger At(k.mem, a)} :: PageOf(a) != s ==> At(k.mem, a) == At(h.mem, a))
    && IsSmall(Top(k, s).size) && ClassOf(Top(k, s).size) == c
    && Distinct(list)
    && (forall b :: b in list <==> BlockIn(b, s, ClassSize(c)) && At(k.mem, b).cid == FREE_CID)
    && (forall i: nat {:trigger BlockLink(k.mem, list + h.chains[c], i)} ::
          i < |list| ==> BlockLink(k.mem, list + h.chains[c], i))
    && (forall b :: BlockIn(b, s, ClassSize(c)) && At(k.mem, b).cid != FREE_CID ==>
          IsSmall(At(k.mem, b).size) && ClassOf(At(k.mem, b).size) == c)
  }

  lemma SettledBlock(h: Heap, k: Heap, s: nat, c: nat, list: seq<nat>, b: nat)
    requires SmallSettled(h, k, s, c, list)
    ensures PageOf(b) != s ==> (Block(k, b) <==> Block(h, b)) && PageClass(k, PageOf(b)) == PageClass(h, PageOf(b))
    ensures PageOf(b) == s ==> (
              && !Block(h, b) && (Block(k, b) <==> IsBlock(b, Adr(s), ClassSize(c))) && PageClass(k, s) == c)
  {
    PageOfAdr(PageOf(b));
  }

  lemma SettledChain(h: Heap, k: Heap, s: nat, c: nat, list: seq<nat>, d: nat)
    requires Chained(h) && SmallSettled(h, k, s, c, list) && d < CLASSES && d != c
    ensures ChainOk(k, d)
  {
    assert ChainOk(h, d);
    var l := h.chains[d];
    forall b {:trigger FreeBlock(k, b, d)} ensures FreeBlock(k, b, d) <==> b in l {
      SettledBlock(h, k, s, c, list, b);
      assert FreeBlock(h, b, d) <==> b in l;
    }
    forall i: nat ensures BlockLink(k.mem, l, i) {
      assert BlockLink(h.mem, l, i);
      if i < |l| {
        SettledBlock(h, k, s, c, list, l[i]);
        assert FreeBlock(h, l[i], d) <==> l[i] in l;
      }
    }
  }

  lemma SettledOwnMembers(h: Heap, k: Heap, s: nat, c: nat, list: seq<nat>, b: nat)
    requires Chained(h) && SmallSettled(h, k, s, c, list)
    ensures FreeBlock(k, b, c) <==> b in list + h.chains[c]
    ensures b in h.chains[c] ==> PageOf(b) != s
  {
    assert ChainOk(h, c);
    SettledBlock(h, k, s, c, list, b);
    assert FreeBlock(h, b, c) <==> b in h.chains[c];
  }

  lemma SettledOwnLinks(h: Heap, k: Heap, s: nat, c: nat, list: seq<nat>)
    requires Chained(h) && SmallSettled(h, k, s, c, list)
    ensures Linked(k.mem, k.heads[c], k.chains[c])
  {
    var rest, l := h.chains[c], list + h.chains[c];
    assert ChainOk(h, c);
    forall i: nat ensures BlockLink(k.mem, l, i) {
      if |list| <= i < |l| {
        assert BlockLink(h.mem, rest, i - |list|);
        assert l[i] == rest[i - |list|];
        SettledOwnMembers(h, k, s, c, list, l[i]);
      }
    }
  }

  lemma SettledOwnChain(h: Heap, k: Heap, s: nat, c: nat, list: seq<nat>)
    requires Chained(h) && SmallSettled(h, k, s, c, list)
    ensures ChainOk(k, c)
  {
    var l := list + h.chains[c];
    SettledOwnLinks(h, k, s, c, list);
    forall b {:trigger FreeBlock(k, b, c)} ensures FreeBlock(k, b, c) <==> b in l {
      SettledOwnMembers(h, k, s, c, list, b);
    }
    SettledDistinct(h, k, s, c, list);
  }

  lemma SettledDistinct(h: Heap, k: Heap, s: nat, c: nat, list: seq<nat>)
    requires Chained(h) && SmallSettled(h, k, s, c, list)
    ensures Distinct(list + h.chains[c])
  {
    assert ChainOk(h, c);
    var l := list + h.chains[c];
    forall i, j | 0 <= i < j < |l| ensures l[i] != l[j] {
      if i < |list| <= j {
        assert l[i] in list && l[j] in h.chains[c];
        SettledOwnMembers(h, k, s, c, list, l[j]);
      }
    }
  }

  lemma SettleSmall(h: Heap, k: Heap, s: nat, c: nat, list: seq<nat>)
    requires Core(h) && SmallSettled(h, k, s, c, list) && !Bit(h.bits, s)
    ensures Core(k)
    ensures forall a :: Object(k, a) <==>
              Object(h, a) || (BlockIn(a, s, ClassSize(c)) && At(k.mem, a).cid != FREE_CID)
    ensures forall a :: Object(h, a) ==> At(h.mem, a) == At(k.mem, a) && PageOf(a) != s
  {
    forall d | 0 <= d < CLASSES ensures ChainOk(k, d) {
      if d == c { SettledOwnChain(h, k, s, c, list); } else { SettledChain(h, k, s, c, list, d); }
    }
    SettledTyped(h, k, s, c, list);
    SettledListed(h, k, s, c, list);
    SettledObjects(h, k, s, c, list);
    forall t | Settled(k, t) ensures BitsOf(k, t) {
      PageOfAdr(t);
      assert t == s || BitsOf(h, t);
    }
  }

  lemma SettledTyped(h: Heap, k: Heap, s: nat, c: nat, list: seq<nat>)
    requires Typed(h) && SmallSettled(h, k, s, c, list)
    ensures Typed(k)
  {
    forall b | SmallObject(k, b)
      ensures IsSmall(At(k.mem, b).size) && ClassOf(At(k.mem, b).size) == PageClass(k, PageOf(b))
    {
      SettledBlock(h, k, s, c, list, b);
      if PageOf(b) == s { assert BlockIn(b, s, ClassSize(c)); } else { assert SmallObject(h, b); }
    }
  }

  lemma SettledListed(h: Heap, k: Heap, s: nat, c: nat, list: seq<nat>)
    requires Sized(h) && FreeListed(h) && SmallSettled(h, k, s, c, list)
    ensures Sized(k) && FreeListed(k)
  {
    forall t {:trigger FreeSeg(k, t)} ensures FreeSeg(k, t) <==> t in k.free {
      PageOfAdr(t);
      assert FreeSeg(h, t) <==> t in h.free;
    }
    forall t | Settled(k, t) ensures HasLength(Top(k, t), k.seg[t]) { PageOfAdr(t); assert t == s || Settled(h, t); }
    forall t | FreeSeg(k, t) ensures Adr(k.seg[t]) == Top(k, t).size + HEADER { PageOfAdr(t); assert FreeSeg(h, t); }
    forall i: nat ensures PageLink(k.mem, k.free, i) {
      assert PageLink(h.mem, h.free, i);
      if i < |h.free| {
        PageOfAdr(h.free[i]);
        assert FreeSeg(h, h.free[i]) <==> h.free[i] in h.free;
      }
    }
  }

  lemma SettledObjects(h: Heap, k: Heap, s: nat, c: nat, list: seq<nat>)
    requires SmallSettled(h, k, s, c, list)
    ensures forall a :: Object(k, a) <==>
              Object(h, a) || (BlockIn(a, s, ClassSize(c)) && At(k.mem, a).cid != FREE_CID)
    ensures forall a :: Object(h, a) ==> At(h.mem, a) == At(k.mem, a) && PageOf(a) != s
  {
    forall a ensures Object(k, a) <==>
              Object(h, a) || (BlockIn(a, s, ClassSize(c)) && At(k.mem, a).cid != FREE_CID)
      ensures Object(h, a) ==> PageOf(a) != s
    {
      SettledBlock(h, k, s, c, list, a);
      PageOfAdr(PageOf(a));
    }
  }

  // ---------- Single blocks ----------

  /** Only the header of block `b` changed, and not its class. */
  ghost predicate BlockEdit(h: Heap, k: Heap, b: nat) {
    && Block(h, b)
    && k == h.(mem := h.mem[b := At(k.mem, b)], heads := k.heads, chains := k.chains)
    && IsSmall(At(k.mem, b).size) && ClassOf(At(k.mem, b).size) == PageClass(h, PageOf(b))
  }

  lemma EditBlocks(h: Heap, k: Heap, b: nat)
    requires BlockEdit(h, k, b)
    ensures forall x :: Block(k, x) <==> Block(h, x)
    ensures forall s :: PageClass(k, s) == PageClass(h, s) || s !in h.seg
    ensures forall s :: s in h.seg ==> (SmallPage(k, s) <==> SmallPage(h, s))
    ensures forall s :: Settled(h, s) && !SmallPage(h, s) ==> Top(k, s) == Top(h, s)
  {
    forall s ensures s in h.seg ==> (SmallPage(k, s) <==> SmallPage(h, s)) && PageClass(k, s) == PageClass(h, s)
      ensures Settled(h, s) && !SmallPage(h, s) ==> Top(k, s) == Top(h, s)
    {
      PageOfAdr(s);
    }
    forall x ensures Block(k, x) <==> Block(h, x) {
      PageOfAdr(PageOf(x));
    }
  }

  lemma EditKeepsPages(h: Heap, k: Heap, b: nat)
    requires Core(h) && BlockEdit(h, k, b)
    ensures Tiled(k.seg, k.end) && Sized(k) && FreeListed(k) && BitsOk(k)
  {
    EditBlocks(h, k, b);
    forall t {:trigger FreeSeg(k, t)} ensures FreeSeg(k, t) <==> t in k.free { assert FreeSeg(h, t) <==> t in h.free; }
    forall t | Settled(k, t) ensures HasLength(Top(k, t), k.seg[t]) {
      assert Settled(h, t);
      assert SmallPage(k, t) <==> SmallPage(h, t);
    }
    forall t | FreeSeg(k, t) ensures Adr(k.seg[t]) == Top(k, t).size + HEADER { assert FreeSeg(h, t); }
    forall i: nat ensures PageLink(k.mem, k.free, i) {
      assert PageLink(h.mem, h.free, i);
      if i < |h.free| { assert FreeSeg(h, h.free[i]) <==> h.free[i] in h.free; }
    }
    forall t | Settled(k, t) ensures BitsOf(k, t) { assert BitsOf(h, t); }
  }

  lemma EditTyped(h: Heap, k: Heap, b: nat)
    requires Typed(h) && BlockEdit(h, k, b)
    ensures Typed(k)
  {
    EditBlocks(h, k, b);
    forall x | SmallObject(k, x)
      ensures IsSmall(At(k.mem, x).size) && ClassOf(At(k.mem, x).size) == PageClass(k, PageOf(x))
    {
      assert Block(h, x);
      assert x == b || SmallObject(h, x);
    }
  }

  lemma EditObjects(h: Heap, k: Heap, b: nat)
    requires BlockEdit(h, k, b)
    ensures forall x :: x != b ==> (Object(k, x) <==> Object(h, x))
    ensures Object(k, b) <==> At(k.mem, b).cid != FREE_CID
    ensures Object(h, b) <==> At(h.mem, b).cid != FREE_CID
  {
    EditBlocks(h, k, b);
    forall x ensures x != b ==> (Object(k, x) <==> Object(h, x)) {
      PageOfAdr(PageOf(x));
    }
  }

  /** The chains other than the one of `b` do not notice. */
  lemma EditChain(h: Heap, k: Heap, b: nat, d: nat)
    requires Chained(h) && BlockEdit(h, k, b) && d < CLASSES && d != PageClass(h, PageOf(b))
    requires |k.heads| == |k.chains| == CLASSES && k.heads[d] == h.heads[d] && k.chains[d] == h.chains[d]
    ensures ChainOk(k, d)
  {
    EditBlocks(h, k, b);
    assert ChainOk(h, d);
    var l := h.chains[d];
    assert FreeBlock(h, b, d) <==> b in l;
    forall x {:trigger FreeBlock(k, x, d)} ensures FreeBlock(k, x, d) <==> x in l {
      assert FreeBlock(h, x, d) <==> x in l;
      assert Block(k, x) <==> Block(h, x);
    }
    forall i: nat ensures BlockLink(k.mem, l, i) { assert BlockLink(h.mem, l, i); }
  }

  /** The first block of chain `c` becomes an object. */
  function PopBlock(h: Heap, c: nat, cid: nat, size: nat): Heap
    requires c < |h.heads| == |h.chains| && h.chains[c] != []
  {
    var b := h.chains[c][0];
    h.(mem := h.mem[b := At(h.mem, b).(cid := cid, mark := false, size := size)],
       heads := h.heads[c := At(h.mem, b).next],
       chains := h.chains[c := h.chains[c][1..]])
  }

  /** Block `b` is put at the head of its chain. */
  function PushBlock(h: Heap, b: nat): Heap
    requires |h.heads| == |h.chains| == CLASSES
  {
    var c := PageClass(h, PageOf(b));
    h.(mem := h.mem[b := At(h.mem, b).(cid := FREE_CID, mark := false, next := h.heads[c])],
       heads := h.heads[c := b],
       chains := h.chains[c := [b] + h.chains[c]])
  }

  lemma PopChain(h: Heap, c: nat, cid: nat, size: nat)
    requires Chained(h) && c < CLASSES && h.chains[c] != [] && cid != FREE_CID
    requires IsSmall(size) && ClassOf(size) == c
    ensures BlockEdit(h, PopBlock(h, c, cid, size), h.chains[c][0])
    ensures FreeBlock(h, h.chains[c][0], c)
    ensures ChainOk(PopBlock(h, c, cid, size), c)
  {
    var k := PopBlock(h, c, cid, size);
    assert ChainOk(h, c);
    var l, b := h.chains[c], h.chains[c][0];
    assert FreeBlock(h, b, c) <==> b in l;
    EditBlocks(h, k, b);
    assert BlockLink(h.mem, l, 0);
    forall x {:trigger FreeBlock(k, x, c)} ensures FreeBlock(k, x, c) <==> x in l[1..] {
      assert FreeBlock(h, x, c) <==> x in l;
      assert Block(k, x) <==> Block(h, x);
    }
    forall i: nat ensures BlockLink(k.mem, l[1..], i) { assert BlockLink(h.mem, l, i + 1); }
  }

  lemma PopKeeps(h: Heap, c: nat, cid: nat, size: nat)
    requires Core(h) && c < CLASSES && h.chains[c] != [] && cid != FREE_CID
    requires IsSmall(size) && ClassOf(size) == c
    ensures Core(PopBlock(h, c, cid, size))
    ensures Adds(h, PopBlock(h, c, cid, size), h.chains[c][0]) && !Object(h, h.chains[c][0])
  {
    var k := PopBlock(h, c, cid, size);
    var b := h.chains[c][0];
    PopChain(h, c, cid, size);
    EditKeepsPages(h, k, b);
    EditTyped(h, k, b);
    EditObjects(h, k, b);
    forall d | 0 <= d < CLASSES && d != c ensures ChainOk(k, d) { EditChain(h, k, b, d); }
  }

  lemma PushChain(h: Heap, b: nat)
    requires Chained(h) && BlockEdit(h, PushBlock(h, b), b) && SmallObject(h, b)
    ensures ChainOk(PushBlock(h, b), PageClass(h, PageOf(b)))
  {
    var k := PushBlock(h, b);
    var c := PageClass(h, PageOf(b));
    assert ChainOk(h, c);
    var l := h.chains[c];
    EditBlocks(h, k, b);
    assert FreeBlock(h, b, c) <==> b in l;
    forall x {:trigger FreeBlock(k, x, c)} ensures FreeBlock(k, x, c) <==> x in [b] + l {
      assert FreeBlock(h, x, c) <==> x in l;
      assert Block(k, x) <==> Block(h, x);
    }
    forall i: nat ensures BlockLink(k.mem, [b] + l, i) { if i > 0 { assert BlockLink(h.mem, l, i - 1); } }
  }

  lemma PushKeeps(h: Heap, b: nat)
    requires Core(h) && SmallObject(h, b)
    ensures Core(PushBlock(h, b)) && Drops(h, PushBlock(h, b), b)
  {
    var k := PushBlock(h, b);
    assert BlockEdit(h, k, b);
    PushChain(h, b);
    EditKeepsPages(h, k, b);
    EditTyped(h, k, b);
    EditObjects(h, k, b);
    forall d | 0 <= d < CLASSES && d != PageClass(h, PageOf(b)) ensures ChainOk(k, d) { EditChain(h, k, b, d); }
  }

  // ---------- Going through a page block by block ----------

  /** `list` has the free blocks of page `t` below `cp`. */
  ghost predicate ListsFree(mem: Memory, t: nat, z: nat, list: seq<nat>, cp: nat)
    requires 0 < z
  {
    forall b: nat {:trigger b in list} {:trigger BlockIn(b, t, z)} ::
      b in list <==> BlockIn(b, t, z) && b < cp && At(mem, b).cid == FREE_CID
  }

  ghost predicate NextIn(mem: Memory, list: seq<nat>, i: nat) {
    i + 1 < |list| ==> At(mem, list[i]).next == list[i + 1]
  }

  /** Each block in `list` but the last points to the next one. */
  ghost predicate LinkedUp(mem: Memory, list: seq<nat>) {
    forall i: nat {:trigger NextIn(mem, list, i)} :: NextIn(mem, list, i)
  }

  /** The block at `cp` is the next one to look at. */
  lemma NextListed(mem: Memory, t: nat, z: nat, list: seq<nat>, cp: nat, list': seq<nat>)
    requires 0 < z && ListsFree(mem, t, z, list, cp) && IsBlock(cp, Adr(t), z)
    requires list' == if At(mem, cp).cid == FREE_CID then list + [cp] else list
    ensures ListsFree(mem, t, z, list', cp + z)
    ensures PageOf(cp) == t && cp !in list
  {
    forall b: nat ensures b in list' <==> BlockIn(b, t, z) && b < cp + z && At(mem, b).cid == FREE_CID {
      assert b in list <==> BlockIn(b, t, z) && b < cp && At(mem, b).cid == FREE_CID;
      if BlockIn(b, t, z) && cp < b { BlocksApart(cp, b, Adr(t), z); }
      assert b in list' <==> b in list || (b == cp && At(mem, cp).cid == FREE_CID);
    }
  }

  lemma ListsFreeFrame(m: Memory, m': Memory, t: nat, z: nat, list: seq<nat>, cp: nat)
    requires 0 < z && ListsFree(m, t, z, list, cp)
    requires forall b: nat {:trigger At(m', b)} :: b < cp && PageOf(b) == t ==> At(m', b).cid == At(m, b).cid
    ensures ListsFree(m', t, z, list, cp)
  {
    forall b: nat ensures b in list <==> BlockIn(b, t, z) && b < cp && At(m', b).cid == FREE_CID {
      assert b in list <==> BlockIn(b, t, z) && b < cp && At(m, b).cid == FREE_CID;
    }
  }

  lemma LinkedUpAppend(m: Memory, m': Memory, list: seq<nat>, x: nat)
    requires LinkedUp(m, list)
    requires forall b: nat {:trigger At(m', b)} :: b in list && b != list[|list| - 1] ==> At(m', b) == At(m, b)
    requires Distinct(list)
    requires list != [] ==> At(m', list[|list| - 1]).next == x
    ensures LinkedUp(m', list + [x])
  {
    var l := list + [x];
    forall i: nat ensures NextIn(m', l, i) { assert NextIn(m, list, i); }
  }

  /** Once the last block of `list` points to the head of the old chain, the two are one chain. */
  lemma LinkedUpJoin(m: Memory, list: seq<nat>, chain: seq<nat>)
    requires LinkedUp(m, list) && list != [] && At(m, list[|list| - 1]).next == BlockPtr(chain, 0)
    ensures forall i: nat {:trigger BlockLink(m, list + chain, i)} :: i < |list| ==> BlockLink(m, list + chain, i)
  {
    var l := list + chain;
    forall i: nat ensures i < |list| ==> BlockLink(m, l, i) { assert NextIn(m, list, i); }
  }

  lemma LinkedUpEnd(m: Memory, m': Memory, list: seq<nat>)
    requires LinkedUp(m, list) && list != [] && Distinct(list)
    requires forall b: nat {:trigger At(m', b)} :: b != list[|list| - 1] ==> At(m', b) == At(m, b)
    ensures LinkedUp(m', list)
  {
    forall i: nat ensures NextIn(m', list, i) { assert NextIn(m, list, i); }
  }

  // ---------- Cutting a page into blocks ----------

  /** What holds while page `t` is cut: the blocks between the first and `cp` are free, in `list`, and
      each points to the next address; memory `m0` is otherwise unchanged. */
  ghost predicate Cutting(m0: Memory, m: Memory, t: nat, z: nat, list: seq<nat>, cp: nat)
    requires 0 < z
  {
    && ListsFree(m, t, z, list, cp) && LinkedUp(m, list) && Distinct(list)
    && (forall b: nat {:trigger BlockIn(b, t, z)} :: BlockIn(b, t, z) && Adr(t) < b < cp ==> b in list)
    && (list != [] ==> At(m, list[|list| - 1]).next == cp && list[|list| - 1] == cp - z && list[0] == Adr(t) + z)
    && (list == [] ==> cp == Adr(t) + z)
    && (forall x {:trigger At(m, x)} :: PageOf(x) != t || x == Adr(t) ==> At(m, x) == At(m0, x))
  }

  lemma CutFirst(m: Memory, t: nat, z: nat)
    requires 0 < z <= PAGE && At(m, Adr(t)).cid != FREE_CID
    ensures Cutting(m, m, t, z, [], Adr(t) + z)
  {
    forall b: nat | BlockIn(b, t, z) && b < Adr(t) + z ensures b == Adr(t) {
      if Adr(t) < b { BlocksApart(Adr(t), b, Adr(t), z); }
    }
  }

  function CutHeader(m: Memory, cp: nat, z: nat): Memory {
    m[cp := At(m, cp).(cid := FREE_CID, mark := false, next := cp + z)]
  }

  lemma CutNext(m0: Memory, m: Memory, t: nat, z: nat, list: seq<nat>, cp: nat)
    requires 0 < z && Cutting(m0, m, t, z, list, cp) && IsBlock(cp, Adr(t), z) && Adr(t) < cp
    ensures Cutting(m0, CutHeader(m, cp, z), t, z, list + [cp], cp + z)
  {
    var m' := CutHeader(m, cp, z);
    ListsFreeFrame(m, m', t, z, list, cp);
    NextListed(m', t, z, list, cp, list + [cp]);
    LinkedUpAppend(m, m', list, cp);
    forall b: nat | BlockIn(b, t, z) && Adr(t) < b < cp + z ensures b in list + [cp] {
      if cp < b { BlocksApart(cp, b, Adr(t), z); }
    }
    forall x ensures PageOf(x) != t || x == Adr(t) ==> At(m', x) == At(m0, x) {
      assert x != cp ==> At(m', x) == At(m, x);
    }
  }

  /** The page is cut: with the last block pointing to the old chain, all but the first are in it. */
  lemma CutEnd(m0: Memory, m: Memory, t: nat, z: nat, list: seq<nat>, cp: nat, chain: seq<nat>)
    requires 0 < z && Cutting(m0, m, t, z, list, cp) && list != [] && Adr(t) + PAGE < cp + z
    requires At(m0, Adr(t)).cid != FREE_CID
    ensures var last := list[|list| - 1]; var m' := m[last := At(m, last).(next := BlockPtr(chain, 0))];
            && ListsFree(m', t, z, list, cp) && LinkedUp(m', list)
            && (forall x {:trigger At(m', x)} :: PageOf(x) != t || x == Adr(t) ==> At(m', x) == At(m0, x))
    ensures forall b: nat :: BlockIn(b, t, z) ==> b < cp && (b in list || b == Adr(t))
  {
    var last := list[|list| - 1];
    assert last in list;
    var m' := m[last := At(m, last).(next := BlockPtr(chain, 0))];
    ListsFreeFrame(m, m', t, z, list, cp);
    LinkedUpEnd(m, m', list);
    forall x ensures PageOf(x) != t || x == Adr(t) ==> At(m', x) == At(m0, x) {
      assert x != last ==> At(m', x) == At(m, x);
    }
    forall b: nat | BlockIn(b, t, z) ensures b < cp && (b in list || b == Adr(t)) {
      assert b + z <= Adr(t) + PAGE;
    }
  }

  /** A page cut into blocks is a settled page of its class whose only object is the first block. */
  lemma CutSettles(h: Heap, k: Heap, t: nat, c: nat, list: seq<nat>, cp: nat)
    requires c < CLASSES && |h.heads| == |h.chains| == CLASSES && t in h.limbo && t in h.seg && h.seg[t] == 1
    requires IsSmall(Top(h, t).size) && ClassOf(Top(h, t).size) == c && Top(h, t).cid != FREE_CID
    requires list != [] && Distinct(list) && ListsFree(k.mem, t, ClassSize(c), list, cp) && LinkedUp(k.mem, list)
    requires At(k.mem, list[|list| - 1]).next == BlockPtr(h.chains[c], 0)
    requires forall b: nat :: BlockIn(b, t, ClassSize(c)) ==> b < cp && (b in list || b == Adr(t))
    requires forall x {:trigger At(k.mem, x)} :: PageOf(x) != t || x == Adr(t) ==> At(k.mem, x) == At(h.mem, x)
    requires k == h.(mem := k.mem, limbo := h.limbo - {t}, heads := h.heads[c := list[0]],
                     chains := h.chains[c := list + h.chains[c]])
    ensures SmallSettled(h, k, t, c, list)
    ensures forall b: nat :: BlockIn(b, t, ClassSize(c)) && At(k.mem, b).cid != FREE_CID ==> b == Adr(t)
  {
    LinkedUpJoin(k.mem, list, h.chains[c]);
    forall b: nat | BlockIn(b, t, ClassSize(c)) && At(k.mem, b).cid != FREE_CID ensures b == Adr(t) {
      assert b in list ==> At(k.mem, b).cid == FREE_CID;
    }
  }

  lemma FirstBlock(t: nat, z: nat)
    requires 0 < z <= PAGE
    ensures BlockIn(Adr(t), t, z)
  {
    PageOfAdr(t);
  }

  /** Nothing in a segment under construction is an object. */
  lemma LimboIsNoObject(h: Heap, t: nat)
    requires t in h.limbo
    ensures !Object(h, Adr(t))
  {
    PageOfAdr(t);
  }

  lemma AddsAfter(h: Heap, k: Heap, l: Heap, a: nat)
    requires SameObjects(h, k) && Adds(k, l, a)
    ensures Adds(h, l, a)
  {
    forall x ensures Object(l, x) <==> Object(h, x) || x == a { assert Object(h, x) <==> Object(k, x); }
  }

  /** Taking pages into limbo changes no object, so the map stays where it is. */
  lemma SameKeepsMap(h: Heap, k: Heap, pageMap: nat)
    requires SameObjects(h, k) && k.bits == h.bits && h.end <= k.end
    requires MapSound(h, pageMap)
    ensures forall a :: Object(k, a) && At(k.mem, a).cid == MAP_CID ==> a == pageMap && pageMap != 0
    ensures pageMap != 0 ==> Object(k, pageMap) && MapAt(k, pageMap)
    ensures SameUsers(h, k)
    ensures k.end <= |k.bits| ==> MapSound(k, pageMap)
  {
    if pageMap != 0 {
      assert Object(h, pageMap);
      assert Object(k, pageMap);
      MapIsLarge(h, k, pageMap);
    }
    forall a ensures User(h, a) <==> User(k, a) { assert Object(h, a) <==> Object(k, a); }
  }

  lemma MapIsLarge(h: Heap, k: Heap, a: nat)
    requires Object(k, a) && MapAt(h, a) && At(k.mem, a) == At(h.mem, a) && k.bits == h.bits
    ensures MapAt(k, a)
  {
  }

  /** The bitmap may be prolonged by clear bits. */
  lemma LongerBits(h: Heap, k: Heap)
    requires Core(h) && k == h.(bits := k.bits)
    requires forall p: nat {:trigger Bit(k.bits, p)} :: Bit(k.bits, p) == Bit(h.bits, p)
    ensures Core(k) && SameObjects(h, k)
  {
    assert OnlyPages(h, k, {});
    OnlyPagesSameSmall(h, k, {});
    SmallKeepsChains(h, k);
    SameIsSameObjects(h, k);
    forall t {:trigger FreeSeg(k, t)} ensures FreeSeg(k, t) <==> t in k.free { assert FreeSeg(h, t) <==> t in h.free; }
    forall t | Settled(k, t) ensures BitsOf(k, t) { assert BitsOf(h, t); }
    forall t | Settled(k, t) ensures HasLength(Top(k, t), k.seg[t]) { assert Settled(h, t); }
  }

  /** A new map takes the place of the old one: every other object is as before. */
  lemma MapReplaced(h: Heap, k: Heap, l: Heap, oldMap: nat, newMap: nat)
    requires Adds(h, k, newMap) && At(k.mem, newMap).cid == MAP_CID && !Object(h, newMap)
    requires Drops(k, l, oldMap) && oldMap != newMap
    requires Object(h, oldMap) && At(h.mem, oldMap).cid == MAP_CID
    requires forall a {:trigger Object(h, a)} :: Object(h, a) && At(h.mem, a).cid == MAP_CID ==> a == oldMap && a != 0
    ensures SameUsers(h, l)
    ensures forall a {:trigger Object(l, a)} :: Object(l, a) && At(l.mem, a).cid == MAP_CID ==> a == newMap
    ensures Object(l, newMap) && At(l.mem, newMap) == At(k.mem, newMap)
  {
    forall a ensures User(h, a) <==> User(l, a)
      ensures Object(l, a) && At(l.mem, a).cid == MAP_CID ==> a == newMap
    {
      assert Object(k, a) <==> Object(h, a) || a == newMap;
      assert Object(l, a) <==> Object(k, a) && a != oldMap;
    }
  }

  lemma FirstMap(h: Heap, l: Heap, newMap: nat)
    requires Adds(h, l, newMap) && At(l.mem, newMap).cid == MAP_CID && !Object(h, newMap)
    requires forall a {:trigger Object(h, a)} :: Object(h, a) ==> At(h.mem, a).cid != MAP_CID
    ensures SameUsers(h, l)
    ensures forall a {:trigger Object(l, a)} :: Object(l, a) && At(l.mem, a).cid == MAP_CID ==> a == newMap
  {
    forall a ensures User(h, a) <==> User(l, a)
      ensures Object(l, a) && At(l.mem, a).cid == MAP_CID ==> a == newMap
    {
      assert Object(l, a) <==> Object(h, a) || a == newMap;
    }
  }

  /** An object at the start of a page whose header has a large size is a large object. */
  lemma BigObjectIsLarge(h: Heap, a: nat)
    requires Object(h, a) && a == Adr(PageOf(a)) && !IsSmall(At(h.mem, a).size)
    ensures LargeObject(h, PageOf(a)) && PageOf(a) in h.seg
  {
  }

  lemma DropsAfter(h: Heap, k: Heap, l: Heap, a: nat)
    requires Drops(h, k, a) && SameObjects(k, l)
    ensures Drops(h, l, a)
  {
    forall x ensures Object(l, x) <==> Object(h, x) && x != a { assert Object(k, x) <==> Object(l, x); }
  }

  lemma AddsBefore(h: Heap, k: Heap, l: Heap, a: nat)
    requires Adds(h, k, a) && SameObjects(k, l)
    ensures Adds(h, l, a) && At(l.mem, a) == At(k.mem, a)
  {
    assert Object(k, a);
    forall x ensures Object(l, x) <==> Object(h, x) || x == a { assert Object(k, x) <==> Object(l, x); }
  }

  lemma SameUsersTrans(h: Heap, k: Heap, l: Heap)
    requires SameUsers(h, k) && SameUsers(k, l)
    ensures SameUsers(h, l)
  {
    forall a ensures User(h, a) <==> User(l, a) { assert User(h, a) <==> User(k, a); }
  }

  /** The new object is one of the application's, and the map is still in place. */
  lemma SettledUser(h: Heap, k: Heap, l: Heap, a: nat, pageMap: nat)
    requires SameUsers(h, k) && Adds(k, l, a) && At(l.mem, a).cid != MAP_CID && !Object(k, a)
    requires MapSound(k, pageMap) && |l.bits| == |k.bits| && l.end == k.end && (pageMap == 0 ==> l.bits == k.bits)
    ensures AddsUser(h, l, a) && !User(h, a) && MapSound(l, pageMap)
  {
    forall x ensures User(l, x) <==> User(h, x) || x == a
      ensures User(h, x) ==> At(h.mem, x) == At(l.mem, x)
    {
      assert User(h, x) <==> User(k, x);
      assert Object(l, x) <==> Object(k, x) || x == a;
    }
    if pageMap != 0 {
      assert Object(k, pageMap);
      assert Object(l, pageMap);
      BigObjectIsLarge(l, pageMap);
    }
  }

  /** No block has address 0, so a null head means an empty chain. */
  lemma ChainNonNull(h: Heap, c: nat)
    requires Tiled(h.seg, h.end) && Chained(h) && c < CLASSES && h.chains[c] != []
    ensures h.heads[c] == h.chains[c][0] != 0
  {
    assert ChainOk(h, c);
    var b := h.chains[c][0];
    assert FreeBlock(h, b, c) <==> b in h.chains[c];
    assert Place(h.seg, h.end, PageOf(b));
  }

  /** Whether an object is a block or has pages of its own shows in its header. */
  lemma SmallIsBlock(h: Heap, a: nat)
    requires Typed(h) && Object(h, a) && IsSmall(At(h.mem, a).size)
    ensures SmallObject(h, a) && ClassOf(At(h.mem, a).size) == PageClass(h, PageOf(a))
  {
  }

  lemma LargeIsPages(h: Heap, a: nat)
    requires Core(h) && Object(h, a) && !IsSmall(At(h.mem, a).size)
    ensures a == Adr(PageOf(a)) && LargeObject(h, PageOf(a))
    ensures PageOf(a) in h.seg && PageOf(a) + h.seg[PageOf(a)] <= h.end
  {
    assert SmallObject(h, a) ==> IsSmall(At(h.mem, a).size);
    assert Place(h.seg, h.end, PageOf(a));
  }

  /** Objects of several pages exist only beside a page map that has a bit for each page. */
  lemma LargeIsMapped(h: Heap, s: nat, pageMap: nat)
    requires Core(h) && MapSound(h, pageMap) && LargeObject(h, s) && h.seg[s] > 1 && Top(h, s).cid != MAP_CID
    ensures pageMap != 0 && h.end <= |h.bits|
  {
    assert BitsOf(h, s);
    assert Bit(h.bits, s + 1);
  }

  lemma DroppedUser(h: Heap, l: Heap, a: nat, pageMap: nat)
    requires Drops(h, l, a) && User(h, a) && MapSound(h, pageMap)
    requires |l.bits| == |h.bits| && l.end == h.end
    ensures forall x :: User(l, x) <==> User(h, x) && x != a
    ensures forall x :: User(l, x) ==> At(l.mem, x) == At(h.mem, x)
    ensures MapSound(l, pageMap)
  {
    forall x ensures User(l, x) <==> User(h, x) && x != a
      ensures User(l, x) ==> At(l.mem, x) == At(h.mem, x)
    {
      assert Object(l, x) <==> Object(h, x) && x != a;
    }
    if pageMap != 0 {
      assert Object(h, pageMap);
      assert Object(l, pageMap);
      BigObjectIsLarge(l, pageMap);
    }
  }
}

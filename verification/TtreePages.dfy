/** What a T-tree stands for: the objects of its nodes from left to right, and the loops by which an
    object enters or leaves the item array of one node. */
module TtreePages {
  import opened AvlTrees

  const PAGE_SIZE: nat := 125
  const MIN_ITEMS: nat := PAGE_SIZE - 2

  /** A stored object: the relation compares keys, `id` tells objects with equal keys apart. */
  datatype Obj = Obj(key: int, id: nat)

  /** The item array of a node, of which the first `n` slots are in use. */
  datatype Page = Page(item: seq<Obj>, n: nat)

  /** Every node has at least one item and at most as many as there are slots. */
  predicate Filled(pg: Page) { |pg.item| == PAGE_SIZE && 1 <= pg.n <= PAGE_SIZE }

  function Live(pg: Page): seq<Obj>
    requires Filled(pg)
  {
    pg.item[..pg.n]
  }

  function First(pg: Page): Obj
    requires Filled(pg)
  {
    pg.item[0]
  }

  function Last(pg: Page): Obj
    requires Filled(pg)
  {
    pg.item[pg.n - 1]
  }

  ghost predicate AllFilled(t: Tree<Page>) {
    match t
    case Leaf => true
    case Node(l, pg, _, r) => AllFilled(l) && Filled(pg) && AllFilled(r)
  }

  /** All objects in order. */
  ghost function Objs(t: Tree<Page>): seq<Obj>
    requires AllFilled(t)
  {
    match t
    case Leaf => []
    case Node(l, pg, _, r) => Objs(l) + Live(pg) + Objs(r)
  }

  ghost function Bag(t: Tree<Page>): multiset<Obj>
    requires AllFilled(t)
  {
    multiset(Objs(t))
  }

  ghost predicate Sorted(s: seq<Obj>) { forall i, j :: 0 <= i < j < |s| ==> s[i].key <= s[j].key }

  ghost predicate AtMost(s: seq<Obj>, key: int) { forall x :: x in s ==> x.key <= key }

  ghost predicate AtLeast(s: seq<Obj>, key: int) { forall x :: x in s ==> key <= x.key }

  /** Balanced, no node empty or over-full, and all objects in the order of their keys. */
  ghost predicate Good(t: Tree<Page>) { Avl(t) && AllFilled(t) && Sorted(Objs(t)) }

  // ---------- The order, node by node ----------

  lemma SortedParts(a: seq<Obj>, m: seq<Obj>, b: seq<Obj>)
    requires m != []
    ensures Sorted(a + m + b) <==>
              Sorted(a) && Sorted(m) && Sorted(b) && AtMost(a, m[0].key) && AtLeast(b, m[|m| - 1].key)
  {
    var s := a + m + b;
    if Sorted(s) {
      forall i, j | 0 <= i < j < |a| ensures a[i].key <= a[j].key { assert s[i].key <= s[j].key; }
      forall i, j | 0 <= i < j < |m| ensures m[i].key <= m[j].key { assert s[|a| + i].key <= s[|a| + j].key; }
      forall i, j | 0 <= i < j < |b| ensures b[i].key <= b[j].key {
        assert s[|a| + |m| + i].key <= s[|a| + |m| + j].key;
      }
      forall x | x in a ensures x.key <= m[0].key {
        var i :| 0 <= i < |a| && a[i] == x;
        assert s[i].key <= s[|a|].key;
      }
      forall x | x in b ensures m[|m| - 1].key <= x.key {
        var i :| 0 <= i < |b| && b[i] == x;
        assert s[|a| + |m| - 1].key <= s[|a| + |m| + i].key;
      }
    }
  }

  /** A node is in order when its parts are and its items lie between them. */
  ghost predicate NodeInOrder(l: Tree<Page>, pg: Page, r: Tree<Page>) {
    && AllFilled(l) && AllFilled(r) && Filled(pg)
    && Sorted(Objs(l)) && Sorted(Live(pg)) && Sorted(Objs(r))
    && AtMost(Objs(l), First(pg).key) && AtLeast(Objs(r), Last(pg).key)
  }

  lemma NodeOrder(t: Tree<Page>)
    requires t.Node?
    ensures AllFilled(t) && Sorted(Objs(t)) <==> NodeInOrder(t.left, t.val, t.right)
    ensures AllFilled(t) ==> Bag(t) == Bag(t.left) + multiset(Live(t.val)) + Bag(t.right)
  {
    if AllFilled(t) { SortedParts(Objs(t.left), Live(t.val), Objs(t.right)); }
  }

  // ---------- Turns keep all this ----------

  ghost function Flat(pages: seq<Page>): seq<Obj>
    requires forall i :: 0 <= i < |pages| ==> Filled(pages[i])
  {
    if pages == [] then [] else Live(pages[0]) + Flat(pages[1..])
  }

  ghost predicate FilledPages(pages: seq<Page>) { forall i :: 0 <= i < |pages| ==> Filled(pages[i]) }

  lemma {:induction false} FlatJoin(a: seq<Page>, b: seq<Page>)
    requires FilledPages(a) && FilledPages(b)
    ensures Flat(a + b) == Flat(a) + Flat(b)
  {
    if a == [] {
      assert a + b == b;
    } else {
      assert (a + b)[1..] == a[1..] + b;
      FlatJoin(a[1..], b);
    }
  }

  /** The objects depend on the order of the nodes only, not on the shape of the tree. */
  lemma {:induction false} ObjsOfItems(t: Tree<Page>)
    ensures AllFilled(t) <==> FilledPages(Items(t))
    ensures AllFilled(t) ==> Objs(t) == Flat(Items(t))
  {
    match t
    case Leaf =>
    case Node(l, pg, _, r) =>
      ObjsOfItems(l);
      ObjsOfItems(r);
      FilledParts(Items(l), pg, Items(r));
      if AllFilled(t) {
        FlatJoin(Items(l), [pg]);
        FlatJoin(Items(l) + [pg], Items(r));
        assert Flat([pg]) == Live(pg);
      }
  }

  lemma FilledParts(a: seq<Page>, pg: Page, b: seq<Page>)
    ensures FilledPages(a + [pg] + b) <==> FilledPages(a) && Filled(pg) && FilledPages(b)
  {
    var s := a + [pg] + b;
    if FilledPages(s) {
      forall i | 0 <= i < |a| ensures Filled(a[i]) { assert s[i] == a[i]; }
      assert s[|a|] == pg;
      forall i | 0 <= i < |b| ensures Filled(b[i]) { assert s[|a| + 1 + i] == b[i]; }
    }
  }

  lemma SameItemsSameObjs(t: Tree<Page>, k: Tree<Page>)
    requires Items(t) == Items(k) && AllFilled(t)
    ensures AllFilled(k) && Objs(k) == Objs(t)
  {
    ObjsOfItems(t);
    ObjsOfItems(k);
  }

  // ---------- The item array of a node ----------

  // Each loop is described slot by slot first.

  /** Makes room at slot `r` by moving the later items up, and puts `obj` there. */
  method InsertItem(pg: Page, r: nat, obj: Obj) returns (after: Page)
    requires Filled(pg) && pg.n < PAGE_SIZE && r <= pg.n
    ensures Filled(after) && Live(after) == Live(pg)[..r] + [obj] + Live(pg)[r..]
  {
    var item := pg.item;
    var i := pg.n;
    while i > r
      invariant r <= i <= pg.n && |item| == PAGE_SIZE
      invariant forall x :: 0 <= x <= i ==> item[x] == pg.item[x]
      invariant forall x :: i < x <= pg.n ==> item[x] == pg.item[x - 1]
    {
      item := item[i := item[i - 1]];
      i := i - 1;
    }
    item := item[r := obj];
    after := Page(item, pg.n + 1);
    ItemsAre(item, pg.n + 1, Live(pg)[..r] + [obj] + Live(pg)[r..]);
  }

  lemma ItemsAre(item: seq<Obj>, n: nat, s: seq<Obj>)
    requires n <= |item| && |s| == n && forall x :: 0 <= x < n ==> item[x] == s[x]
    ensures item[..n] == s
  {
  }

  /** In a full node: the first item leaves and `obj` goes before what was slot `r`. */
  method ReplaceFirst(pg: Page, r: nat, obj: Obj) returns (after: Page)
    requires Filled(pg) && 1 <= r <= pg.n
    ensures Filled(after) && Live(after) == Live(pg)[1..r] + [obj] + Live(pg)[r..]
  {
    var item := pg.item;
    for i := 1 to r
      invariant |item| == PAGE_SIZE
      invariant forall x :: 0 <= x < i - 1 ==> item[x] == pg.item[x + 1]
      invariant forall x :: i - 1 <= x < pg.n ==> item[x] == pg.item[x]
    {
      item := item[i - 1 := item[i]];
    }
    item := item[r - 1 := obj];
    after := Page(item, pg.n);
    ItemsAre(item, pg.n, Live(pg)[1..r] + [obj] + Live(pg)[r..]);
  }

  /** In a full node: the last item leaves and `obj` goes to slot `r`. */
  method ReplaceLast(pg: Page, r: nat, obj: Obj) returns (after: Page)
    requires Filled(pg) && r < pg.n
    ensures Filled(after) && Live(after) == Live(pg)[..r] + [obj] + Live(pg)[r..pg.n - 1]
  {
    var item := pg.item;
    var i := pg.n - 1;
    while i > r
      invariant r <= i < pg.n && |item| == PAGE_SIZE
      invariant forall x :: 0 <= x <= i ==> item[x] == pg.item[x]
      invariant forall x :: i < x < pg.n ==> item[x] == pg.item[x - 1]
    {
      item := item[i := item[i - 1]];
      i := i - 1;
    }
    item := item[r := obj];
    after := Page(item, pg.n);
    ItemsAre(item, pg.n, Live(pg)[..r] + [obj] + Live(pg)[r..pg.n - 1]);
  }

  /** Item `i` leaves: the later ones move down. */
  method MoveDown(pg: Page, i: nat) returns (item: seq<Obj>)
    requires Filled(pg) && i < pg.n
    ensures |item| == PAGE_SIZE
    ensures forall x :: 0 <= x < i ==> item[x] == pg.item[x]
    ensures forall x :: i <= x < pg.n - 1 ==> item[x] == pg.item[x + 1]
  {
    item := pg.item;
    var j := i + 1;
    while j < pg.n
      invariant i + 1 <= j <= pg.n && |item| == PAGE_SIZE
      invariant forall x :: 0 <= x < i || j - 1 <= x < pg.n ==> item[x] == pg.item[x]
      invariant forall x :: i <= x < j - 1 ==> item[x] == pg.item[x + 1]
    {
      item := item[j - 1 := item[j]];
      j := j + 1;
    }
  }

  method RemoveItem(pg: Page, i: nat) returns (after: Page)
    requires Filled(pg) && i < pg.n && 1 < pg.n
    ensures Filled(after) && Live(after) == Live(pg)[..i] + Live(pg)[i + 1..]
  {
    var item := MoveDown(pg, i);
    after := Page(item, pg.n - 1);
    ItemsAre(item, pg.n - 1, Live(pg)[..i] + Live(pg)[i + 1..]);
  }

  /** Item `i` leaves and `x` enters at the end. */
  method RefillBack(pg: Page, i: nat, x: Obj) returns (after: Page)
    requires Filled(pg) && i < pg.n
    ensures Filled(after) && Live(after) == Live(pg)[..i] + Live(pg)[i + 1..] + [x]
  {
    var item := MoveDown(pg, i);
    item := item[pg.n - 1 := x];
    after := Page(item, pg.n);
    ItemsAre(item, pg.n, Live(pg)[..i] + Live(pg)[i + 1..] + [x]);
  }

  /** Item `i` leaves and `x` enters in front. */
  method RefillFront(pg: Page, i: nat, x: Obj) returns (after: Page)
    requires Filled(pg) && i < pg.n
    ensures Filled(after) && Live(after) == [x] + Live(pg)[..i] + Live(pg)[i + 1..]
  {
    var item := pg.item;
    var j := i;
    while j > 0
      invariant 0 <= j <= i && |item| == PAGE_SIZE
      invariant forall y :: 0 <= y <= j || i < y < pg.n ==> item[y] == pg.item[y]
      invariant forall y :: j < y <= i ==> item[y] == pg.item[y - 1]
    {
      j := j - 1;
      item := item[j + 1 := item[j]];
    }
    item := item[0 := x];
    after := Page(item, pg.n);
    ItemsAre(item, pg.n, [x] + Live(pg)[..i] + Live(pg)[i + 1..]);
  }

  /** The slot for an object whose key lies between those of the first and the last item. */
  method FindSlot(pg: Page, obj: Obj) returns (r: nat)
    requires Filled(pg) && Sorted(Live(pg)) && First(pg).key < obj.key < Last(pg).key
    ensures 1 <= r < pg.n && pg.item[r - 1].key <= obj.key <= pg.item[r].key
  {
    assert forall i, j :: 0 <= i < j < pg.n ==> Live(pg)[i].key <= Live(pg)[j].key;
    var l := 1;
    r := pg.n - 1;
    while l < r
      invariant 1 <= l <= r < pg.n
      invariant pg.item[l - 1].key < obj.key <= pg.item[r].key
    {
      var i := (l + r) / 2;
      var diff := obj.key - pg.item[i].key;
      if diff > 0 {
        l := i + 1;
      } else {
        r := i;
        if diff == 0 {
          assert Live(pg)[r - 1].key <= Live(pg)[r].key;
          break;
        }
      }
    }
  }

  /** The slot of `obj` itself, or the number of items if it is not here. */
  method FindItem(pg: Page, obj: Obj) returns (i: nat)
    requires Filled(pg)
    ensures i <= pg.n && (i < pg.n ==> pg.item[i] == obj) && (i == pg.n ==> obj !in Live(pg))
  {
    i := 0;
    while i < pg.n && pg.item[i] != obj
      invariant i <= pg.n && obj !in pg.item[..i]
    {
      i := i + 1;
    }
  }
}

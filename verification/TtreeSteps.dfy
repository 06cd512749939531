/** What an insertion into, or a removal from, one subtree of a T-tree node means for the node. */
module TtreeSteps {
  import opened AvlTrees
  import opened TtreePages

  /** `k` is `t` with `obj` added, and higher than it or not. */
  ghost predicate Inserted(t: Tree<Page>, k: Tree<Page>, obj: Obj, higher: bool) {
    && Good(t) && Good(k) && Bag(k) == Bag(t) + multiset{obj}
    && Height(k) == Height(t) + (if higher then 1 else 0)
    && (higher && t.Node? ==> k.Node? && k.balance != 0)
  }

  /** `k` is `t` with one `obj` less, and `lower` levels lower. */
  ghost predicate Removed(t: Tree<Page>, k: Tree<Page>, obj: Obj, lower: int) {
    && Good(t) && Good(k) && obj in Bag(t) && Bag(k) == Bag(t) - multiset{obj}
    && 0 <= lower <= 1 && Height(k) == Height(t) - lower
  }

  /** What a removal reports: one level lower or not, or -1 with nothing changed if `obj` is not there. */
  ghost predicate Outcome(t: Tree<Page>, k: Tree<Page>, obj: Obj, h: int) {
    if h == -1 then Good(t) && k == t && obj !in Bag(t) else Removed(t, k, obj, h)
  }

  lemma GoodParts(t: Tree<Page>)
    requires Good(t) && t.Node?
    ensures Good(t.left) && Good(t.right) && NodeInOrder(t.left, t.val, t.right)
    ensures Bag(t) == Bag(t.left) + multiset(Live(t.val)) + Bag(t.right)
  {
    NodeOrder(t);
  }

  lemma GoodWhole(t: Tree<Page>)
    requires t.Node? && Avl(t) && NodeInOrder(t.left, t.val, t.right)
    ensures Good(t) && Bag(t) == Bag(t.left) + multiset(Live(t.val)) + Bag(t.right)
  {
    NodeOrder(t);
  }

  /** The bag decides about bounds. */
  lemma BagAtMost(t: Tree<Page>, key: int)
    requires AllFilled(t)
    ensures AtMost(Objs(t), key) <==> forall x :: x in Bag(t) ==> x.key <= key
    ensures AtLeast(Objs(t), key) <==> forall x :: x in Bag(t) ==> key <= x.key
  {
  }

  lemma SingleGood(t: Tree<Page>, obj: Obj)
    requires t.Node? && t == Node(Leaf, t.val, 0, Leaf) && Filled(t.val) && Live(t.val) == [obj]
    ensures Inserted(Leaf, t, obj, true)
  {
    assert Objs(t) == [obj];
  }

  // ---------- Insertion into a subtree ----------

  /** Replacing the left subtree by one with `obj` in it. */
  lemma InsertedLeft(t: Tree<Page>, l: Tree<Page>, obj: Obj, higher: bool)
    requires Good(t) && t.Node? && Inserted(t.left, l, obj, higher) && obj.key <= First(t.val).key
    ensures var k := t.(left := l);
      && NodeInOrder(l, t.val, t.right) && AllFilled(k) && Sorted(Objs(k)) && Bag(k) == Bag(t) + multiset{obj}
      && (if higher then LeftGrew(k) else Inserted(t, k, obj, false))
  {
    hide Sorted, Objs;
    GoodParts(t);
    BagAtMost(t.left, First(t.val).key);
    BagAtMost(l, First(t.val).key);
    NodeOrder(t.(left := l));
  }

  lemma InsertedRight(t: Tree<Page>, r: Tree<Page>, obj: Obj, higher: bool)
    requires Good(t) && t.Node? && Inserted(t.right, r, obj, higher) && Last(t.val).key <= obj.key
    ensures var k := t.(right := r);
      && NodeInOrder(t.left, t.val, r) && AllFilled(k) && Sorted(Objs(k)) && Bag(k) == Bag(t) + multiset{obj}
      && (if higher then RightGrew(k) else Inserted(t, k, obj, false))
  {
    hide Sorted, Objs;
    GoodParts(t);
    BagAtMost(t.right, Last(t.val).key);
    BagAtMost(r, Last(t.val).key);
    NodeOrder(t.(right := r));
  }

  /** ... and then restoring the balance. */
  lemma BalancedLeft(t: Tree<Page>, l: Tree<Page>, obj: Obj)
    requires Good(t) && t.Node? && Inserted(t.left, l, obj, true) && obj.key <= First(t.val).key
    ensures LeftGrew(t.(left := l)) && Inserted(t, AfterLeftGrew(t.(left := l)), obj, t.balance == 0)
  {
    InsertedLeft(t, l, obj, true);
    var k := t.(left := l);
    LeftGrewBalanced(k);
    LeftGrewItems(k);
    SameItemsSameObjs(k, AfterLeftGrew(k));
  }

  lemma BalancedRight(t: Tree<Page>, r: Tree<Page>, obj: Obj)
    requires Good(t) && t.Node? && Inserted(t.right, r, obj, true) && Last(t.val).key <= obj.key
    ensures RightGrew(t.(right := r)) && Inserted(t, AfterRightGrew(t.(right := r)), obj, t.balance == 0)
  {
    InsertedRight(t, r, obj, true);
    var k := t.(right := r);
    RightGrewBalanced(k);
    RightGrewItems(k);
    SameItemsSameObjs(k, AfterRightGrew(k));
  }

  // ---------- Insertion into the node itself ----------

  lemma SortedSplit(s: seq<Obj>, r: nat)
    requires Sorted(s) && r <= |s|
    ensures Sorted(s[..r]) && Sorted(s[r..])
    ensures r > 0 ==> AtMost(s[..r], s[r - 1].key)
    ensures r < |s| ==> AtLeast(s[r..], s[r].key)
  {
  }

  lemma SortedInsert(s: seq<Obj>, r: nat, obj: Obj)
    requires Sorted(s) && r <= |s| && (r > 0 ==> s[r - 1].key <= obj.key) && (r < |s| ==> obj.key <= s[r].key)
    ensures Sorted(s[..r] + [obj] + s[r..])
    ensures multiset(s[..r] + [obj] + s[r..]) == multiset(s) + multiset{obj}
  {
    hide Sorted;
    assert s == s[..r] + s[r..];
    SortedSplit(s, r);
    SortedOne(obj);
    SortedParts(s[..r], [obj], s[r..]);
  }

  lemma SortedOne(obj: Obj)
    ensures Sorted([obj])
  {
  }

  /** `obj` comes in before slot `r` and the first item goes. */
  lemma ShiftedDown(s: seq<Obj>, after: seq<Obj>, r: nat, obj: Obj)
    requires Sorted(s) && 1 <= r < |s| && s[r - 1].key <= obj.key <= s[r].key
    requires after == s[1..r] + [obj] + s[r..]
    ensures Sorted(after) && multiset(after) + multiset{s[0]} == multiset(s) + multiset{obj}
    ensures s[0].key <= after[0].key && after[|after| - 1] == s[|s| - 1]
  {
    hide Sorted;
    SortedInsert(s, r, obj);
    var all := s[..r] + [obj] + s[r..];
    assert all == [] + [s[0]] + after;
    SortedParts([], [s[0]], after);
    assert all == [s[0]] + after;
  }

  /** `obj` comes in before slot `r` and the last item goes. */
  lemma ShiftedUp(s: seq<Obj>, after: seq<Obj>, r: nat, obj: Obj)
    requires Sorted(s) && 1 <= r < |s| && s[r - 1].key <= obj.key <= s[r].key
    requires after == s[..r] + [obj] + s[r..|s| - 1]
    ensures Sorted(after) && multiset(after) + multiset{s[|s| - 1]} == multiset(s) + multiset{obj}
    ensures after[|after| - 1].key <= s[|s| - 1].key && after[0] == s[0]
  {
    hide Sorted;
    SortedInsert(s, r, obj);
    var all := s[..r] + [obj] + s[r..];
    assert all == after + [s[|s| - 1]] + [];
    SortedParts(after, [s[|s| - 1]], []);
    assert all == after + [s[|s| - 1]];
  }

  /** The ends of the items in a node are those of the sequence they are. */
  lemma Ends(pg: Page)
    requires Filled(pg)
    ensures |Live(pg)| == pg.n && Live(pg)[0] == First(pg) && Live(pg)[pg.n - 1] == Last(pg)
    ensures forall i :: 0 <= i < pg.n ==> Live(pg)[i] == pg.item[i]
  {
  }

  /** The node gets other items within the bounds of its subtrees. */
  lemma NewItems(t: Tree<Page>, pg: Page)
    requires Good(t) && t.Node? && Filled(pg) && Sorted(Live(pg))
    requires AtMost(Objs(t.left), First(pg).key) && AtLeast(Objs(t.right), Last(pg).key)
    ensures var k := t.(val := pg);
            Good(k) && Height(k) == Height(t) && Bag(k) + multiset(Live(t.val)) == Bag(t) + multiset(Live(pg))
  {
    hide Sorted, Objs, AtMost, AtLeast;
    GoodParts(t);
    GoodWhole(t.(val := pg));
  }

  lemma Exchange(a: multiset<Obj>, b: multiset<Obj>, l: multiset<Obj>, l': multiset<Obj>, x: multiset<Obj>,
                 y: multiset<Obj>)
    requires a + l == b + l' && l' + x == l + y
    ensures a + x == b + y
  {
    forall o ensures (a + x)[o] == (b + y)[o] {
      assert (a + l)[o] == (b + l')[o] && (l' + x)[o] == (l + y)[o];
    }
  }

  lemma BoundsHere(t: Tree<Page>, pg: Page, r: nat, obj: Obj)
    requires Good(t) && t.Node? && r <= t.val.n && Filled(pg) && Live(pg) == Live(t.val)[..r] + [obj] + Live(t.val)[r..]
    requires r == 0 ==> t.left.Leaf? || obj.key == First(t.val).key
    requires r == t.val.n ==> t.right.Leaf? || obj.key == Last(t.val).key
    ensures AtMost(Objs(t.left), First(pg).key) && AtLeast(Objs(t.right), Last(pg).key)
  {
    hide Sorted, Height, Avl;
    GoodParts(t);
    Ends(pg);
    Ends(t.val);
  }

  /** `obj` enters the node's items at slot `r`; the bounds towards the subtrees still hold. */
  lemma InsertedHere(t: Tree<Page>, pg: Page, r: nat, obj: Obj)
    requires Good(t) && t.Node? && r <= t.val.n && Filled(pg) && Live(pg) == Live(t.val)[..r] + [obj] + Live(t.val)[r..]
    requires r > 0 ==> t.val.item[r - 1].key <= obj.key
    requires r < t.val.n ==> obj.key <= t.val.item[r].key
    requires r == 0 ==> t.left.Leaf? || obj.key == First(t.val).key
    requires r == t.val.n ==> t.right.Leaf? || obj.key == Last(t.val).key
    ensures Inserted(t, t.(val := pg), obj, false)
  {
    hide Sorted, Height, Avl, Live, Objs, AtMost, AtLeast;
    GoodParts(t);
    Ends(t.val);
    Ends(pg);
    SortedInsert(Live(t.val), r, obj);
    BoundsHere(t, pg, r, obj);
    NewItems(t, pg);
    Exchange(Bag(t.(val := pg)), Bag(t), multiset(Live(t.val)), multiset(Live(pg)), multiset{}, multiset{obj});
  }

  /** A full node takes `obj` in and gives its first item up. */
  lemma FirstGivenUp(t: Tree<Page>, pg: Page, r: nat, obj: Obj)
    requires Good(t) && t.Node? && 1 <= r < t.val.n && Filled(pg)
    requires Live(pg) == Live(t.val)[1..r] + [obj] + Live(t.val)[r..]
    requires t.val.item[r - 1].key <= obj.key <= t.val.item[r].key
    ensures var k := t.(val := pg);
      && Good(k) && Height(k) == Height(t) && Bag(k) + multiset{First(t.val)} == Bag(t) + multiset{obj}
      && First(t.val).key <= First(pg).key
  {
    hide Sorted, Objs, Height, Avl, Live;
    GoodParts(t);
    Ends(pg);
    Ends(t.val);
    ShiftedDown(Live(t.val), Live(pg), r, obj);
    NewItems(t, pg);
    Exchange(Bag(t.(val := pg)), Bag(t), multiset(Live(t.val)), multiset(Live(pg)), multiset{First(t.val)},
             multiset{obj});
  }

  lemma LastGivenUp(t: Tree<Page>, pg: Page, r: nat, obj: Obj)
    requires Good(t) && t.Node? && 1 <= r < t.val.n && Filled(pg)
    requires Live(pg) == Live(t.val)[..r] + [obj] + Live(t.val)[r..t.val.n - 1]
    requires t.val.item[r - 1].key <= obj.key <= t.val.item[r].key
    ensures var k := t.(val := pg);
      && Good(k) && Height(k) == Height(t) && Bag(k) + multiset{Last(t.val)} == Bag(t) + multiset{obj}
      && Last(pg).key <= Last(t.val).key && First(pg) == First(t.val)
  {
    hide Sorted, Objs, Height, Avl, Live;
    GoodParts(t);
    Ends(pg);
    Ends(t.val);
    ShiftedUp(Live(t.val), Live(pg), r, obj);
    NewItems(t, pg);
    Exchange(Bag(t.(val := pg)), Bag(t), multiset(Live(t.val)), multiset(Live(pg)), multiset{Last(t.val)},
             multiset{obj});
  }

  /** Taking `obj` in and inserting again what was given up adds `obj` all in all. */
  lemma InsertedAgain(t: Tree<Page>, k: Tree<Page>, l: Tree<Page>, obj: Obj, given: Obj, higher: bool)
    requires Good(t) && t.Node? && Inserted(k, l, given, higher) && k.Node? && Height(k) == Height(t)
    requires Bag(k) + multiset{given} == Bag(t) + multiset{obj}
    ensures Inserted(t, l, obj, higher)
  {
  }

  // ---------- Removal ----------

  /** The left subtree, or the node's own items, changed so that `obj` is gone; the balance field is
      still that of before. */
  ghost predicate LeftChanged(t: Tree<Page>, k: Tree<Page>, obj: Obj, lower: int) {
    && Good(t) && t.Node? && k.Node? && k.right == t.right && k.balance == t.balance
    && Avl(k.left) && 0 <= lower <= 1 && Height(k.left) == Height(t.left) - lower
    && AllFilled(k) && Sorted(Objs(k)) && obj in Bag(t) && Bag(k) == Bag(t) - multiset{obj}
  }

  ghost predicate RightChanged(t: Tree<Page>, k: Tree<Page>, obj: Obj, lower: int) {
    && Good(t) && t.Node? && k.Node? && k.left == t.left && k.balance == t.balance
    && Avl(k.right) && 0 <= lower <= 1 && Height(k.right) == Height(t.right) - lower
    && AllFilled(k) && Sorted(Objs(k)) && obj in Bag(t) && Bag(k) == Bag(t) - multiset{obj}
  }

  lemma LeftDone(t: Tree<Page>, k: Tree<Page>, obj: Obj, lower: int)
    requires LeftChanged(t, k, obj, lower)
    ensures lower == 0 ==> Removed(t, k, obj, 0)
    ensures lower == 1 ==> LeftShrank(k) && (k.balance > 0 ==> k.right.Node?)
    ensures lower == 1 ==> Removed(t, AfterLeftShrank(k), obj, if LowerLeft(k) then 1 else 0)
  {
    hide Sorted;
    if lower == 1 {
      LeftShrankBalanced(k);
      LeftShrankItems(k);
      SameItemsSameObjs(k, AfterLeftShrank(k));
    }
  }

  lemma RightDone(t: Tree<Page>, k: Tree<Page>, obj: Obj, lower: int)
    requires RightChanged(t, k, obj, lower)
    ensures lower == 0 ==> Removed(t, k, obj, 0)
    ensures lower == 1 ==> RightShrank(k) && (k.balance < 0 ==> k.left.Node?)
    ensures lower == 1 ==> Removed(t, AfterRightShrank(k), obj, if LowerRight(k) then 1 else 0)
  {
    hide Sorted;
    if lower == 1 {
      RightShrankBalanced(k);
      RightShrankItems(k);
      SameItemsSameObjs(k, AfterRightShrank(k));
    }
  }

  /** `obj` is gone from the left subtree. */
  lemma RemovedLeft(t: Tree<Page>, l: Tree<Page>, obj: Obj, lower: int)
    requires Good(t) && t.Node? && Removed(t.left, l, obj, lower)
    ensures LeftChanged(t, t.(left := l), obj, lower)
  {
    hide Sorted, Objs;
    GoodParts(t);
    BagAtMost(t.left, First(t.val).key);
    BagAtMost(l, First(t.val).key);
    NodeOrder(t.(left := l));
  }

  lemma RemovedRight(t: Tree<Page>, r: Tree<Page>, obj: Obj, lower: int)
    requires Good(t) && t.Node? && Removed(t.right, r, obj, lower)
    ensures RightChanged(t, t.(right := r), obj, lower)
  {
    hide Sorted, Objs, Avl, Height;
    GoodParts(t);
    BagAtMost(t.right, Last(t.val).key);
    BagAtMost(r, Last(t.val).key);
    NodeOrder(t.(right := r));
  }

  /** Without item `i`. */
  lemma Cut(s: seq<Obj>, i: nat)
    requires Sorted(s) && i < |s|
    ensures Sorted(s[..i] + s[i + 1..])
    ensures multiset(s) == multiset(s[..i] + s[i + 1..]) + multiset{s[i]}
    ensures AtMost(s[..i] + s[i + 1..], s[|s| - 1].key) && AtLeast(s[..i] + s[i + 1..], s[0].key)
  {
    hide Sorted;
    assert s == s[..i] + [s[i]] + s[i + 1..];
    SortedParts(s[..i], [s[i]], s[i + 1..]);
    SortedJoin(s[..i], s[i + 1..], s[i].key);
    SortedBounds(s);
  }

  lemma SortedJoin(a: seq<Obj>, b: seq<Obj>, key: int)
    requires Sorted(a) && Sorted(b) && AtMost(a, key) && AtLeast(b, key)
    ensures Sorted(a + b)
  {
    if b != [] {
      hide Sorted;
      SortedParts([], [b[0]], b[1..]);
      assert b == [] + [b[0]] + b[1..];
      assert a + b == a + [b[0]] + b[1..];
      SortedParts(a, [b[0]], b[1..]);
    } else {
      assert a + b == a;
    }
  }

  lemma SortedBounds(s: seq<Obj>)
    requires Sorted(s) && s != []
    ensures AtMost(s, s[|s| - 1].key) && AtLeast(s, s[0].key)
  {
  }

  /** An item leaves a node that keeps others. */
  lemma RemovedHere(t: Tree<Page>, pg: Page, i: nat)
    requires Good(t) && t.Node? && i < t.val.n && Filled(pg) && Live(pg) == Live(t.val)[..i] + Live(t.val)[i + 1..]
    ensures Removed(t, t.(val := pg), t.val.item[i], 0)
  {
    hide Sorted, Objs, Live;
    GoodParts(t);
    Ends(t.val);
    Ends(pg);
    Cut(Live(t.val), i);
    assert First(pg) in Live(pg) && Last(pg) in Live(pg);
    NewItems(t, pg);
    assert t.val.item[i] in Live(t.val);
    Exchange(Bag(t.(val := pg)), Bag(t), multiset(Live(t.val)), multiset(Live(pg)), multiset{t.val.item[i]},
             multiset{});
    assert Bag(t) == Bag(t.(val := pg)) + multiset{t.val.item[i]};
  }

  /** The only item of a node with one subtree leaves: the subtree takes the place of the node. */
  lemma RemovedNode(t: Tree<Page>, obj: Obj)
    requires Good(t) && t.Node? && Live(t.val) == [obj]
    ensures t.right.Leaf? ==> Removed(t, t.left, obj, 1)
    ensures t.left.Leaf? ==> Removed(t, t.right, obj, 1)
  {
    hide Good, Bag, Objs, NodeInOrder;
    GoodParts(t);
    EmptyGood();
    assert Bag(t) - multiset{obj} == Bag(t.left) + Bag(t.right);
    assert t.left.Leaf? ==> Bag(t) - multiset{obj} == Bag(t.right);
    assert t.left.Leaf? ==> Height(t) == 1 + Height(t.right);
  }

  lemma EmptyGood()
    ensures Good(Leaf) && Bag(Leaf) == multiset{} && Objs(Leaf) == []
  {
  }

  /** Multiset bookkeeping of a refill: `x` moves from a subtree to the node, `obj` leaves. */
  lemma RefillBag(sub: multiset<Obj>, live: multiset<Obj>, live': multiset<Obj>, rest: multiset<Obj>, x: Obj, obj: Obj)
    requires x in sub && live' + multiset{obj} == live + multiset{x}
    ensures sub - multiset{x} + live' + rest == sub + live + rest - multiset{obj}
    ensures obj in sub + live + rest
  {
    forall o ensures (sub - multiset{x} + live' + rest)[o] == (sub + live + rest - multiset{obj})[o] {
      assert (live' + multiset{obj})[o] == (live + multiset{x})[o];
    }
    assert (live' + multiset{obj})[obj] == (live + multiset{x})[obj];
  }

  lemma RefilledFrontOrder(t: Tree<Page>, pg: Page, l: Tree<Page>, i: nat, x: Obj, lower: int)
    requires Good(t) && t.Node? && i < t.val.n && Filled(pg)
    requires Live(pg) == [x] + Live(t.val)[..i] + Live(t.val)[i + 1..]
    requires AtMost(Objs(t.left), x.key) && Removed(t.left, l, x, lower)
    ensures NodeInOrder(l, pg, t.right)
    ensures multiset(Live(pg)) + multiset{t.val.item[i]} == multiset(Live(t.val)) + multiset{x}
  {
    hide Sorted, Objs, Live, Avl, Height;
    GoodParts(t);
    Ends(t.val);
    Ends(pg);
    var rest := Live(t.val)[..i] + Live(t.val)[i + 1..];
    Cut(Live(t.val), i);
    BagAtMost(t.left, First(t.val).key);
    assert x.key <= First(t.val).key;
    BagAtMost(t.left, x.key);
    BagAtMost(l, x.key);
    assert AtMost(Objs(l), x.key);
    assert Live(pg) == [x] + rest;
    SortedFront(x, rest, First(t.val).key);
    LastOfFront(t, pg, rest, x);
  }

  /** Item `i` leaves and the greatest object of the left subtree takes the first place. */
  lemma RefilledFront(t: Tree<Page>, pg: Page, l: Tree<Page>, i: nat, x: Obj, lower: int)
    requires Good(t) && t.Node? && i < t.val.n && Filled(pg)
    requires Live(pg) == [x] + Live(t.val)[..i] + Live(t.val)[i + 1..]
    requires AtMost(Objs(t.left), x.key) && Removed(t.left, l, x, lower)
    ensures LeftChanged(t, t.(left := l, val := pg), t.val.item[i], lower)
  {
    hide Sorted, Objs, Live, Avl, Height, NodeInOrder, AtMost, AtLeast;
    RefilledFrontOrder(t, pg, l, i, x, lower);
    GoodParts(t);
    NodeOrder(t.(left := l, val := pg));
    RefillBag(Bag(t.left), multiset(Live(t.val)), multiset(Live(pg)), Bag(t.right), x, t.val.item[i]);
  }

  lemma SortedFront(x: Obj, rest: seq<Obj>, key: int)
    requires Sorted(rest) && x.key <= key && AtLeast(rest, key)
    ensures Sorted([x] + rest)
  {
    SortedOne(x);
    SortedJoin([x], rest, x.key);
  }

  lemma LastOfFront(t: Tree<Page>, pg: Page, rest: seq<Obj>, x: Obj)
    requires Good(t) && t.Node? && Filled(pg) && Live(pg) == [x] + rest && x.key <= First(t.val).key
    requires AtMost(rest, Last(t.val).key)
    ensures AtLeast(Objs(t.right), Last(pg).key)
  {
    GoodParts(t);
    Ends(t.val);
    Ends(pg);
    SortedBounds(Live(t.val));
  }

  lemma RefillBagBack(rest: multiset<Obj>, live: multiset<Obj>, live': multiset<Obj>, sub: multiset<Obj>, x: Obj,
                      obj: Obj)
    requires x in sub && live' + multiset{obj} == live + multiset{x}
    ensures rest + live' + (sub - multiset{x}) == rest + live + sub - multiset{obj}
    ensures obj in rest + live + sub
  {
    forall o ensures (rest + live' + (sub - multiset{x}))[o] == (rest + live + sub - multiset{obj})[o] {
      assert (live' + multiset{obj})[o] == (live + multiset{x})[o];
    }
    assert (live' + multiset{obj})[obj] == (live + multiset{x})[obj];
  }

  lemma SortedBack(x: Obj, rest: seq<Obj>, key: int)
    requires Sorted(rest) && key <= x.key && AtMost(rest, key)
    ensures Sorted(rest + [x])
  {
    SortedOne(x);
    SortedJoin(rest, [x], x.key);
  }

  lemma FirstOfBack(t: Tree<Page>, pg: Page, rest: seq<Obj>, x: Obj)
    requires Good(t) && t.Node? && Filled(pg) && Live(pg) == rest + [x] && Last(t.val).key <= x.key
    requires AtLeast(rest, First(t.val).key)
    ensures AtMost(Objs(t.left), First(pg).key)
  {
    GoodParts(t);
    Ends(t.val);
    Ends(pg);
    SortedBounds(Live(t.val));
  }

  lemma RefilledBackOrder(t: Tree<Page>, pg: Page, r: Tree<Page>, i: nat, x: Obj, lower: int)
    requires Good(t) && t.Node? && i < t.val.n && Filled(pg)
    requires Live(pg) == Live(t.val)[..i] + Live(t.val)[i + 1..] + [x]
    requires AtLeast(Objs(t.right), x.key) && Removed(t.right, r, x, lower)
    ensures NodeInOrder(t.left, pg, r)
    ensures multiset(Live(pg)) + multiset{t.val.item[i]} == multiset(Live(t.val)) + multiset{x}
  {
    hide Sorted, Objs, Live, Avl, Height;
    GoodParts(t);
    Ends(t.val);
    Ends(pg);
    var rest := Live(t.val)[..i] + Live(t.val)[i + 1..];
    Cut(Live(t.val), i);
    BagAtMost(t.right, Last(t.val).key);
    BagAtMost(t.right, x.key);
    BagAtMost(r, x.key);
    assert Live(pg) == rest + [x];
    SortedBack(x, rest, Last(t.val).key);
    FirstOfBack(t, pg, rest, x);
  }

  /** Item `i` leaves and the least object of the right subtree takes the last place. */
  lemma RefilledBack(t: Tree<Page>, pg: Page, r: Tree<Page>, i: nat, x: Obj, lower: int)
    requires Good(t) && t.Node? && i < t.val.n && Filled(pg)
    requires Live(pg) == Live(t.val)[..i] + Live(t.val)[i + 1..] + [x]
    requires AtLeast(Objs(t.right), x.key) && Removed(t.right, r, x, lower)
    ensures RightChanged(t, t.(right := r, val := pg), t.val.item[i], lower)
  {
    hide Sorted, Objs, Live, Avl, Height, NodeInOrder, AtMost, AtLeast;
    RefilledBackOrder(t, pg, r, i, x, lower);
    GoodParts(t);
    NodeOrder(t.(right := r, val := pg));
    RefillBagBack(Bag(t.left), multiset(Live(t.val)), multiset(Live(pg)), Bag(t.right), x, t.val.item[i]);
  }

  /** Where a removal may look for `obj`: it is in the tree, or no key is greater than its own. */
  ghost predicate CanLook(t: Tree<Page>, obj: Obj) { Good(t) && (obj in Bag(t) || AtMost(Objs(t), obj.key)) }

  /** The removal goes to the subtree, or finds the item in the node, where it should. */
  lemma LookLeft(t: Tree<Page>, obj: Obj)
    requires CanLook(t, obj) && t.Node? && obj.key <= First(t.val).key
    ensures CanLook(t.left, obj)
    ensures obj !in Bag(t.left) ==> obj.key == First(t.val).key
  {
    GoodParts(t);
    Ends(t.val);
    BagAtMost(t, obj.key);
    BagAtMost(t.left, obj.key);
    BagAtMost(t.left, First(t.val).key);
    BagAtMost(t.right, Last(t.val).key);
    SortedBounds(Live(t.val));
    assert First(t.val) in Live(t.val);
  }

  /** What is neither in the node nor, if it could be, in its left subtree is in the right one if
      anywhere. */
  lemma LookRight(t: Tree<Page>, obj: Obj)
    requires CanLook(t, obj) && t.Node?
    requires First(t.val).key <= obj.key
    requires obj.key == First(t.val).key ==> obj !in Bag(t.left)
    requires obj.key <= Last(t.val).key ==> obj !in Live(t.val)
    ensures CanLook(t.right, obj)
    ensures obj in Bag(t) <==> obj in Bag(t.right)
  {
    hide Sorted, Objs, Live, Avl;
    GoodParts(t);
    Ends(t.val);
    BagAtMost(t, obj.key);
    BagAtMost(t.right, obj.key);
    BagAtMost(t.left, First(t.val).key);
    SortedBounds(Live(t.val));
    assert obj in Bag(t) <==> obj in Bag(t.left) || obj in Live(t.val) || obj in Bag(t.right);
    assert obj !in Bag(t.left) && obj !in Live(t.val);
    if obj !in Bag(t.right) {
      assert forall x :: x in Bag(t.right) ==> x in Bag(t);
    }
  }

  // ---------- The ends of the order ----------

  /** What bounds the right subtree of a node bounds the node's own items, and the left subtree. */
  lemma RightmostBelow(t: Tree<Page>)
    requires Good(t) && t.Node? && t.right.Node?
    ensures forall o :: o in Bag(t.right) ==> o in Bag(t)
    ensures forall key :: AtMost(Objs(t.right), key) ==> AtMost(Objs(t), key)
  {
    GoodParts(t);
    GoodParts(t.right);
    Ends(t.val);
    Ends(t.right.val);
    SortedBounds(Live(t.val));
    assert First(t.right.val) in Live(t.right.val);
    assert First(t.right.val) in Objs(t.right);
  }

  lemma RightmostHere(t: Tree<Page>)
    requires Good(t) && t.Node? && t.right.Leaf?
    ensures Last(t.val) in Bag(t) && AtMost(Objs(t), Last(t.val).key)
  {
    GoodParts(t);
    Ends(t.val);
    SortedBounds(Live(t.val));
    assert Last(t.val) in Live(t.val);
  }

  lemma LeftmostBelow(t: Tree<Page>)
    requires Good(t) && t.Node? && t.left.Node?
    ensures forall o :: o in Bag(t.left) ==> o in Bag(t)
    ensures forall key :: AtLeast(Objs(t.left), key) ==> AtLeast(Objs(t), key)
  {
    GoodParts(t);
    GoodParts(t.left);
    Ends(t.val);
    Ends(t.left.val);
    SortedBounds(Live(t.val));
    assert First(t.left.val) in Live(t.left.val);
    assert First(t.left.val) in Objs(t.left);
  }

  lemma LeftmostHere(t: Tree<Page>)
    requires Good(t) && t.Node? && t.left.Leaf?
    ensures First(t.val) in Bag(t) && AtLeast(Objs(t), First(t.val).key)
  {
    GoodParts(t);
    Ends(t.val);
    SortedBounds(Live(t.val));
    assert First(t.val) in Live(t.val);
  }
}

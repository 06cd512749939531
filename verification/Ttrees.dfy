/** The T-tree: insertion, removal and range search over nodes on the heap. */
module Ttrees {
  import opened AvlTrees
  import opened AvlNodes
  import opened TtreePages
  import opened TtreeSteps
  import opened TtreeShapes

  /** A node holding one item. */
  method NewNode(obj: Obj) returns (n: Node<Page>)
    ensures n.Valid() && fresh(n.repr) && Inserted(Leaf, n.tree, obj, true) && InsertedShape(Leaf, n.tree, obj)
  {
    var pg := Page(seq(PAGE_SIZE, i => obj), 1);
    n := new Node(pg);
    assert Live(pg) == [obj];
    SingleGood(n.tree, obj);
    NewShape(n.tree, obj);
  }

  /** Whether `obj` lies strictly between the ends of the node's items. */
  predicate Between(pg: Page, obj: Obj)
    requires Filled(pg)
  {
    First(pg).key < obj.key < Last(pg).key
  }

  /** `obj` goes to slot `r` of the node itself, which has room. */
  method PutHere(n: Node<Page>, r: nat, obj: Obj)
    requires n.Valid() && Good(n.tree) && AllFilled(n.tree) && n.val.n < PAGE_SIZE && r <= n.val.n
    requires r > 0 ==> n.val.item[r - 1].key <= obj.key
    requires r < n.val.n ==> obj.key <= n.val.item[r].key
    requires r == 0 ==> n.left == null || obj.key == First(n.val).key
    requires r == n.val.n ==> n.right == null || obj.key == Last(n.val).key
    modifies n
    ensures n.Valid() && n.repr == old(n.repr) && Inserted(old(n.tree), n.tree, obj, false)
    ensures InsertWay(old(n.tree), obj).Here? ==> InsertedShape(old(n.tree), n.tree, obj)
  {
    n.Parts();
    hide Node.Valid, Good, Avl, Height, Inserted, InsertedShape, InsertWay;
    ghost var t := n.tree;
    var more := InsertItem(n.val, r, obj);
    n.SetVal(more);
    InsertedHere(t, more, r, obj);
    assert more.n == t.val.n + 1 by { Ends(more); Ends(t.val); }
    if InsertWay(t, obj).Here? { HereShape(t, more, obj); }
  }

  /** Adds `obj` below `n`; `p` takes the place of `n`.  An item pushed out of a full node goes down
      into a subtree, for it does not lie between the ends of the node any more. */
  method Insert(n: Node<Page>, obj: Obj) returns (p: Node<Page>, higher: bool)
    requires n.Valid() && Good(n.tree)
    modifies n.repr
    ensures p.Valid() && fresh(p.repr - old(n.repr)) && Inserted(old(n.tree), p.tree, obj, higher)
    ensures InsertedShape(old(n.tree), p.tree, obj)
    decreases Height(n.tree), if AllFilled(n.tree) && Between(n.val, obj) then 1 else 0, 2
  {
    hide Node.Valid, Good, Avl, Height, Inserted, Live, InsertedShape;
    var pg := n.val;
    GoodParts(n.tree);
    n.Parts();
    if obj.key <= pg.item[0].key {
      if (n.left == null || obj.key == pg.item[0].key) && pg.n != PAGE_SIZE {
        PutHere(n, 0, obj);
        p, higher := n, false;
      } else {
        p, higher := InsertLeft(n, obj);
      }
    } else if obj.key >= pg.item[pg.n - 1].key {
      if (n.right == null || obj.key == pg.item[pg.n - 1].key) && pg.n != PAGE_SIZE {
        PutHere(n, pg.n, obj);
        p, higher := n, false;
      } else {
        p, higher := InsertRight(n, obj);
      }
    } else {
      p, higher := InsertBetween(n, obj);
    }
  }

  /** Adds `obj` below a pointer that may be null. */
  method InsertAt(q: Node?<Page>, obj: Obj) returns (p: Node<Page>, higher: bool)
    requires IsTree(q) && Good(TreeOf(q))
    modifies ReprOf(q)
    ensures p.Valid() && fresh(p.repr - old(ReprOf(q))) && Inserted(old(TreeOf(q)), p.tree, obj, higher)
    ensures InsertedShape(old(TreeOf(q)), p.tree, obj)
    decreases Height(TreeOf(q)), 2, 0
  {
    hide Node.Valid, Good, Avl, Height, Inserted, InsertedShape;
    if q == null {
      p := NewNode(obj);
      higher := true;
    } else {
      p, higher := Insert(q, obj);
    }
  }

  /** Adds `obj` to the left subtree of `n`, without looking at the balance of `n`. */
  method InsertBelowLeft(n: Node<Page>, obj: Obj) returns (higher: bool)
    requires n.Valid() && Good(n.tree)
    modifies n.repr
    ensures n.Valid() && fresh(n.repr - old(n.repr)) && n.tree == old(n.tree).(left := n.tree.left)
    ensures Inserted(old(n.tree).left, n.tree.left, obj, higher) && InsertedShape(old(n.tree).left, n.tree.left, obj)
    decreases Height(n.tree), 0, 0
  {
    hide Height, Avl, Good, NodeInOrder, InsertedShape;
    GoodParts(n.tree);
    HeightBelow(n.tree);
    hide Node.Valid, Good, Avl, Height, Inserted, NodeInOrder, InsertedShape;
    n.Parts();
    var l;
    l, higher := InsertAt(n.left, obj);
    n.SetLeft(l);
  }

  method InsertBelowRight(n: Node<Page>, obj: Obj) returns (higher: bool)
    requires n.Valid() && Good(n.tree)
    modifies n.repr
    ensures n.Valid() && fresh(n.repr - old(n.repr)) && n.tree == old(n.tree).(right := n.tree.right)
    ensures Inserted(old(n.tree).right, n.tree.right, obj, higher)
    ensures InsertedShape(old(n.tree).right, n.tree.right, obj)
    decreases Height(n.tree), 0, 0
  {
    hide Height, Avl, Good, Node.Valid, Inserted, NodeInOrder, InsertedShape;
    GoodParts(n.tree);
    HeightBelow(n.tree);
    hide Node.Valid, Good, Avl, Height, Inserted, NodeInOrder, InsertedShape;
    n.Parts();
    var r;
    r, higher := InsertAt(n.right, obj);
    n.SetRight(r);
  }

  method InsertLeft(n: Node<Page>, obj: Obj) returns (p: Node<Page>, higher: bool)
    requires n.Valid() && Good(n.tree) && AllFilled(n.tree) && obj.key <= First(n.val).key
    requires InsertWay(n.tree, obj) == ToLeft(obj)
    modifies n.repr
    ensures p.Valid() && fresh(p.repr - old(n.repr)) && Inserted(old(n.tree), p.tree, obj, higher)
    ensures InsertedShape(old(n.tree), p.tree, obj)
    decreases Height(n.tree), 0, 1
  {
    hide Node.Valid, Good, Avl, Height, Inserted, InsertedShape, InsertWay;
    ghost var t := n.tree;
    higher := InsertBelowLeft(n, obj);
    p := n;
    InsertedLeft(t, n.tree.left, obj, higher);
    LeftShape(t, n.tree.left, obj, obj, higher);
    if higher {
      BalancedLeft(t, n.tree.left, obj);
      p, higher := n.LeftHigher();
    }
  }

  method InsertRight(n: Node<Page>, obj: Obj) returns (p: Node<Page>, higher: bool)
    requires n.Valid() && Good(n.tree) && AllFilled(n.tree) && Last(n.val).key <= obj.key
    requires InsertWay(n.tree, obj) == ToRight(obj)
    modifies n.repr
    ensures p.Valid() && fresh(p.repr - old(n.repr)) && Inserted(old(n.tree), p.tree, obj, higher)
    ensures InsertedShape(old(n.tree), p.tree, obj)
    decreases Height(n.tree), 0, 1
  {
    hide Node.Valid, Good, Avl, Height, Inserted, InsertedShape, InsertWay;
    ghost var t := n.tree;
    higher := InsertBelowRight(n, obj);
    p := n;
    InsertedRight(t, n.tree.right, obj, higher);
    RightShape(t, n.tree.right, obj, obj, higher);
    if higher {
      BalancedRight(t, n.tree.right, obj);
      p, higher := n.RightHigher();
    }
  }

  /** The place of `obj` is among the items of `n`.  If there is no room, an item of the side that is
      not the higher one is given up and inserted again. */
  method InsertBetween(n: Node<Page>, obj: Obj) returns (p: Node<Page>, higher: bool)
    requires n.Valid() && Good(n.tree) && AllFilled(n.tree) && Between(n.val, obj)
    modifies n.repr
    ensures p.Valid() && fresh(p.repr - old(n.repr)) && Inserted(old(n.tree), p.tree, obj, higher)
    ensures InsertedShape(old(n.tree), p.tree, obj)
    decreases Height(n.tree), 1, 0
  {
    hide Node.Valid, Good, Avl, Height, Inserted, AllFilled, Live, Sorted, InsertedShape, Bag;
    ghost var t := n.tree;
    var pg := n.val;
    GoodParts(t);
    var r := FindSlot(pg, obj);
    if pg.n != PAGE_SIZE {
      PutHere(n, r, obj);
      p, higher := n, false;
    } else {
      var given, other;
      if n.balance >= 0 {
        given := pg.item[0];
        other := ReplaceFirst(pg, r, obj);
        FirstGivenUp(t, other, r, obj);
      } else {
        given := pg.item[pg.n - 1];
        other := ReplaceLast(pg, r, obj);
        LastGivenUp(t, other, r, obj);
      }
      assert other.n == pg.n by { Ends(other); Ends(pg); }
      n.SetVal(other);
      ghost var k := n.tree;
      p, higher := Insert(n, given);
      InsertedAgain(t, k, p.tree, obj, given, higher);
      AgainShape(t, other, obj, given, p.tree);
    }
  }

  // ---------- Removal ----------

  /** All that is known of the greatest item of `t` while the search for it goes down the right side. */
  ghost predicate RightSideOf(k: Tree<Page>, t: Tree<Page>) {
    && k.Node? && Good(k) && t.Node? && AllFilled(t) && Greatest(k) == Greatest(t)
    && (forall o :: o in Bag(k) ==> o in Bag(t))
    && (forall key :: AtMost(Objs(k), key) ==> AtMost(Objs(t), key))
  }

  ghost predicate LeftSideOf(k: Tree<Page>, t: Tree<Page>) {
    && k.Node? && Good(k) && t.Node? && AllFilled(t) && Least(k) == Least(t)
    && (forall o :: o in Bag(k) ==> o in Bag(t))
    && (forall key :: AtLeast(Objs(k), key) ==> AtLeast(Objs(t), key))
  }

  lemma DownRightSide(k: Tree<Page>, t: Tree<Page>)
    requires RightSideOf(k, t)
    ensures Filled(k.val) && (k.right.Node? ==> RightSideOf(k.right, t))
    ensures k.right.Leaf? ==> Last(k.val) in Bag(t) && AtMost(Objs(t), Last(k.val).key) && Last(k.val) == Greatest(t)
  {
    hide AtMost, Sorted, Avl, Objs, Greatest;
    GoodParts(k);
    GreatestDown(k);
    if k.right.Node? { RightmostBelow(k); } else { RightmostHere(k); }
  }

  lemma DownLeftSide(k: Tree<Page>, t: Tree<Page>)
    requires LeftSideOf(k, t)
    ensures Filled(k.val) && (k.left.Node? ==> LeftSideOf(k.left, t))
    ensures k.left.Leaf? ==> First(k.val) in Bag(t) && AtLeast(Objs(t), First(k.val).key) && First(k.val) == Least(t)
  {
    hide AtLeast, Sorted, Avl, Objs, Least;
    GoodParts(k);
    LeastDown(k);
    if k.left.Node? { LeftmostBelow(k); } else { LeftmostHere(k); }
  }

  /** The last item of the rightmost node. */
  method GreatestItem(n: Node<Page>) returns (x: Obj)
    requires n.Valid() && Good(n.tree)
    ensures x in Bag(n.tree) && AtMost(Objs(n.tree), x.key) && x == Greatest(n.tree)
  {
    hide AtMost, Sorted, Avl, Objs, Bag, Greatest;
    var lp: Node<Page> := n;
    DownRightSide(lp.tree, n.tree);
    while lp.right != null
      invariant lp.Valid() && RightSideOf(lp.tree, n.tree)
      decreases lp.tree
    {
      DownRightSide(lp.tree, n.tree);
      lp := lp.right;
    }
    DownRightSide(lp.tree, n.tree);
    x := lp.val.item[lp.val.n - 1];
  }

  /** The first item of the leftmost node. */
  method LeastItem(n: Node<Page>) returns (x: Obj)
    requires n.Valid() && Good(n.tree)
    ensures x in Bag(n.tree) && AtLeast(Objs(n.tree), x.key) && x == Least(n.tree)
  {
    hide AtLeast, Sorted, Avl, Objs, Bag, Least;
    var rp: Node<Page> := n;
    DownLeftSide(rp.tree, n.tree);
    while rp.left != null
      invariant rp.Valid() && LeftSideOf(rp.tree, n.tree)
      decreases rp.tree
    {
      DownLeftSide(rp.tree, n.tree);
      rp := rp.left;
    }
    DownLeftSide(rp.tree, n.tree);
    x := rp.val.item[0];
  }

  /** Takes one `obj` out below `n`; `p` takes the place of `n`.  The result is 1 if the tree is one
      level lower, 0 if not, and -1 if `obj` is not there. */
  method Remove(n: Node<Page>, obj: Obj) returns (p: Node?<Page>, h: int)
    requires n.Valid() && CanLook(n.tree, obj)
    modifies n.repr
    ensures IsTree(p) && ReprOf(p) <= old(n.repr)
    ensures Outcome(old(n.tree), TreeOf(p), obj, h) && (h == -1 ==> p == n)
    ensures h != -1 ==> RemovedShape(old(n.tree), TreeOf(p), obj)
    decreases Height(n.tree), 4
  {
    hide Node.Valid, Good, Avl, Height, Removed, Sorted, Live, RemovedShape;
    ghost var t := n.tree;
    GoodParts(t);
    n.Parts();
    if obj.key <= n.val.item[0].key {
      LookLeft(t, obj);
      if n.left != null {
        p, h := RemoveLeft(n, obj);
        if h != -1 { return; }
      }
      assert obj.key == n.val.item[0].key;
    }
    p, h := RemoveHereOrRight(n, obj);
  }

  /** The rest of the removal, once `obj` cannot be in the left subtree. */
  method RemoveHereOrRight(n: Node<Page>, obj: Obj) returns (p: Node?<Page>, h: int)
    requires n.Valid() && CanLook(n.tree, obj) && AllFilled(n.tree) && First(n.val).key <= obj.key
    requires obj.key == First(n.val).key ==> obj !in Bag(n.tree.left)
    modifies n.repr
    ensures IsTree(p) && ReprOf(p) <= old(n.repr)
    ensures Outcome(old(n.tree), TreeOf(p), obj, h) && (h == -1 ==> p == n)
    ensures h != -1 ==> RemovedShape(old(n.tree), TreeOf(p), obj)
    decreases Height(n.tree), 3
  {
    hide Node.Valid, Good, Avl, Height, Removed, Sorted, Live, RemovedShape, Bag;
    ghost var t := n.tree;
    var pg := n.val;
    GoodParts(t);
    n.Parts();
    if obj.key <= pg.item[pg.n - 1].key {
      var i := FindItem(pg, obj);
      if i < pg.n {
        p, h := RemoveSlot(n, i);
        return;
      }
    } else {
      BeyondLast(pg, obj);
    }
    LookRight(t, obj);
    if n.right != null {
      p, h := RemoveRight(n, obj);
    } else {
      EmptyGood();
      p, h := n, -1;
    }
  }

  method RemoveLeft(n: Node<Page>, obj: Obj) returns (p: Node<Page>, h: int)
    requires n.Valid() && Good(n.tree) && n.left != null && CanLook(n.tree.left, obj)
    requires AllFilled(n.tree) && obj.key <= First(n.val).key
    modifies n.repr
    ensures p.Valid() && p.repr <= old(n.repr)
    ensures if h == -1 then p == n && n.tree == old(n.tree) && obj !in old(Bag(n.tree.left))
            else Removed(old(n.tree), p.tree, obj, h) && 0 <= h
    ensures h != -1 ==> RemovedShape(old(n.tree), p.tree, obj)
    decreases Height(n.tree), 1
  {
    hide Node.Valid, Good, Avl, Height, CanLook, RemovedShape, RemoveWay;
    ghost var t := n.tree;
    GoodParts(t);
    h := RemoveBelowLeft(n, obj);
    p := n;
    if h != -1 {
      RemovedLeft(t, n.tree.left, obj, h);
      LeftWay(t, obj);
      FromLeftShape(t, n.tree, obj, obj, h);
      LeftDone(t, n.tree, obj, h);
      if h > 0 {
        p, h := n.LeftLower();
      }
    }
  }

  method RemoveBelowLeft(n: Node<Page>, obj: Obj) returns (h: int)
    requires n.Valid() && n.left != null && CanLook(n.tree.left, obj)
    modifies n.repr
    ensures n.Valid() && n.repr <= old(n.repr) && n.tree == old(n.tree).(left := n.tree.left)
    ensures Outcome(old(n.tree.left), n.tree.left, obj, h)
    ensures h != -1 ==> RemovedShape(old(n.tree.left), n.tree.left, obj)
    decreases Height(n.tree), 0
  {
    hide Removed, Good, CanLook, Outcome, Node.Valid, Height, RemovedShape;
    HeightBelow(n.tree);
    n.Parts();
    var l;
    l, h := Remove(n.left, obj);
    n.SetLeft(l);
  }

  method RemoveRight(n: Node<Page>, obj: Obj) returns (p: Node<Page>, h: int)
    requires n.Valid() && Good(n.tree) && n.right != null && CanLook(n.tree.right, obj)
    requires AllFilled(n.tree) && obj !in Live(n.val) && (obj.key <= First(n.val).key ==> obj !in Bag(n.tree.left))
    modifies n.repr
    ensures p.Valid() && p.repr <= old(n.repr)
    ensures if h == -1 then p == n && n.tree == old(n.tree) && obj !in old(Bag(n.tree.right))
            else Removed(old(n.tree), p.tree, obj, h) && 0 <= h
    ensures h != -1 ==> RemovedShape(old(n.tree), p.tree, obj)
    decreases Height(n.tree), 1
  {
    hide Node.Valid, Good, Avl, Height, CanLook, RemovedShape, RemoveWay;
    ghost var t := n.tree;
    GoodParts(t);
    h := RemoveBelowRight(n, obj);
    p := n;
    if h != -1 {
      RemovedRight(t, n.tree.right, obj, h);
      RightWay(t, obj);
      FromRightShape(t, n.tree, obj, obj, h);
      RightDone(t, n.tree, obj, h);
      if h > 0 {
        p, h := n.RightLower();
      }
    }
  }

  method RemoveBelowRight(n: Node<Page>, obj: Obj) returns (h: int)
    requires n.Valid() && n.right != null && CanLook(n.tree.right, obj)
    modifies n.repr
    ensures n.Valid() && n.repr <= old(n.repr) && n.tree == old(n.tree).(right := n.tree.right)
    ensures Outcome(old(n.tree.right), n.tree.right, obj, h)
    ensures h != -1 ==> RemovedShape(old(n.tree.right), n.tree.right, obj)
    decreases Height(n.tree), 0
  {
    hide Removed, Good, CanLook, Outcome, Node.Valid, Height, RemovedShape;
    HeightBelow(n.tree);
    n.Parts();
    var r;
    r, h := Remove(n.right, obj);
    n.SetRight(r);
  }

  /** Takes item `i` out of node `n`: a node that must not lose items is refilled from its higher
      subtree, one that loses its only item goes. */
  method RemoveSlot(n: Node<Page>, i: nat) returns (p: Node?<Page>, h: int)
    requires n.Valid() && Good(n.tree) && AllFilled(n.tree) && i < n.val.n
    requires n.val.item[i].key == First(n.val).key ==> n.val.item[i] !in Bag(n.tree.left)
    modifies n.repr
    ensures IsTree(p) && ReprOf(p) <= old(n.repr)
    ensures Removed(old(n.tree), TreeOf(p), old(n.val).item[i], h) && 0 <= h
    ensures RemovedShape(old(n.tree), TreeOf(p), old(n.val).item[i])
    decreases Height(n.tree), 2
  {
    hide Node.Valid, Good, Height, Removed, Sorted, RemovedShape, RemoveWay, Avl, Bag, AllFilled, Objs;
    ghost var t := n.tree;
    var pg := n.val;
    GoodParts(t);
    n.Parts();
    SlotWay(t, pg.item[i]);
    if pg.n == 1 {
      if n.right == null || n.left == null {
        assert Live(pg) == [pg.item[i]];
        RemovedNode(t, pg.item[i]);
        GoneShape(t, pg.item[i]);
        p, h := if n.right == null then n.left else n.right, 1;
        return;
      }
    }
    if pg.n <= MIN_ITEMS {
      if n.left != null && n.balance <= 0 {
        p, h := RefillFromLeft(n, i);
        return;
      } else if n.right != null {
        p, h := RefillFromRight(n, i);
        return;
      }
    }
    var less := RemoveItem(pg, i);
    n.SetVal(less);
    RemovedHere(t, less, i);
    SlotShape(t, less, pg.item[i]);
    p, h := n, 0;
  }

  /** Item `i` goes, and the greatest item of the left subtree comes in its stead. */
  method RefillFromLeft(n: Node<Page>, i: nat) returns (p: Node?<Page>, h: int)
    requires n.Valid() && Good(n.tree) && AllFilled(n.tree) && i < n.val.n && n.left != null
    requires n.val.item[i] in Bag(n.tree) && RemoveWay(n.tree, n.val.item[i]) == FromLeft(Greatest(n.tree.left))
    modifies n.repr
    ensures p != null && p.Valid() && p.repr <= old(n.repr)
    ensures Removed(old(n.tree), p.tree, old(n.val).item[i], h) && 0 <= h
    ensures RemovedShape(old(n.tree), p.tree, old(n.val).item[i])
    decreases Height(n.tree), 1
  {
    hide Greatest, RemovedShape, Objs, Bag;
    ghost var t := n.tree;
    GoodParts(t);
    HeightBelow(t);
    n.Parts();
    var x := GreatestItem(n.left);
    var other := RefillFront(n.val, i, x);
    n.SetVal(other);
    p := n;
    h := RemoveBelowLeft(n, x);
    RefilledFront(t, other, n.tree.left, i, x, h);
    assert other.n == t.val.n by { Ends(other); Ends(t.val); }
    FromLeftShape(t, n.tree, t.val.item[i], x, h);
    LeftDone(t, n.tree, t.val.item[i], h);
    if h > 0 {
      p, h := n.LeftLower();
    }
  }

  /** Item `i` goes, and the least item of the right subtree comes in its stead. */
  method RefillFromRight(n: Node<Page>, i: nat) returns (p: Node?<Page>, h: int)
    requires n.Valid() && Good(n.tree) && AllFilled(n.tree) && i < n.val.n && n.right != null
    requires n.val.item[i] in Bag(n.tree) && RemoveWay(n.tree, n.val.item[i]) == FromRight(Least(n.tree.right))
    modifies n.repr
    ensures p != null && p.Valid() && p.repr <= old(n.repr)
    ensures Removed(old(n.tree), p.tree, old(n.val).item[i], h) && 0 <= h
    ensures RemovedShape(old(n.tree), p.tree, old(n.val).item[i])
    decreases Height(n.tree), 1
  {
    hide Least, RemoveWay, Avl, NodeInOrder, Objs, Bag, AllFilled, RemovedShape;
    ghost var t := n.tree;
    GoodParts(t);
    HeightBelow(t);
    n.Parts();
    var x := LeastItem(n.right);
    var other := RefillBack(n.val, i, x);
    n.SetVal(other);
    p := n;
    h := RemoveBelowRight(n, x);
    RefilledBack(t, other, n.tree.right, i, x, h);
    assert other.n == t.val.n by { Ends(other); Ends(t.val); }
    FromRightShape(t, n.tree, t.val.item[i], x, h);
    RightDone(t, n.tree, t.val.item[i], h);
    if h > 0 {
      p, h := n.RightLower();
    }
  }
}

/** What an insertion into, or a removal from, one subtree of an AVL tree node means for the keys of
    the node's tree in order. */
module AvlKeys {
  import opened AvlTrees
  import opened Rings

  ghost predicate Ordered(s: seq<L2elem>) { forall i, j :: 0 <= i < j < |s| ==> s[i].value < s[j].value }

  ghost predicate AllBelow(s: seq<L2elem>, value: int) { forall e :: e in s ==> e.value < value }

  ghost predicate AllAbove(s: seq<L2elem>, value: int) { forall e :: e in s ==> value < e.value }

  /** Balanced, and the keys strictly increase. */
  ghost predicate KeyTree(t: Tree<L2elem>) { Avl(t) && Ordered(Items(t)) }

  lemma OrderedParts(a: seq<L2elem>, v: L2elem, b: seq<L2elem>)
    ensures Ordered(a + [v] + b) <==> Ordered(a) && Ordered(b) && AllBelow(a, v.value) && AllAbove(b, v.value)
  {
    var s := a + [v] + b;
    if Ordered(s) {
      forall i, j | 0 <= i < j < |a| ensures a[i].value < a[j].value { assert s[i].value < s[j].value; }
      forall i, j | 0 <= i < j < |b| ensures b[i].value < b[j].value {
        assert s[|a| + 1 + i].value < s[|a| + 1 + j].value;
      }
      forall e | e in a ensures e.value < v.value {
        var i :| 0 <= i < |a| && a[i] == e;
        assert s[i].value < s[|a|].value;
      }
      forall e | e in b ensures v.value < e.value {
        var i :| 0 <= i < |b| && b[i] == e;
        assert s[|a|].value < s[|a| + 1 + i].value;
      }
    }
  }

  lemma KeyTreeParts(t: Tree<L2elem>)
    requires KeyTree(t) && t.Node?
    ensures KeyTree(t.left) && KeyTree(t.right)
    ensures AllBelow(Items(t.left), t.val.value) && AllAbove(Items(t.right), t.val.value)
  {
    OrderedParts(Items(t.left), t.val, Items(t.right));
  }

  // ---------- Insertion ----------

  /** `k` has the keys of `t` and `x` at place `j`, and is higher than `t` or not. */
  ghost predicate Added(t: Tree<L2elem>, k: Tree<L2elem>, x: L2elem, j: nat, higher: bool) {
    && KeyTree(t) && KeyTree(k) && j <= |Items(t)| && Items(k) == Put(Items(t), j, x)
    && Height(k) == Height(t) + (if higher then 1 else 0)
    && (higher && t.Node? ==> k.Node? && k.balance != 0)
  }

  /** What an insertion reports: the new key, or the one in the tree with the same value, which may be
      this very key, and nothing changed. */
  ghost predicate AddOutcome(t: Tree<L2elem>, k: Tree<L2elem>, x: L2elem, key: L2elem, j: nat, higher: bool) {
    if key == x && x !in Items(t) then Added(t, k, x, j, higher)
    else k == t && key in Items(t) && key.value == x.value && !higher
  }

  lemma SingleKey(t: Tree<L2elem>, x: L2elem)
    requires t == Node(Leaf, x, 0, Leaf)
    ensures Added(Leaf, t, x, 0, true)
  {
    assert Items(t) == [x];
  }

  lemma PutInFront(a: seq<L2elem>, v: L2elem, b: seq<L2elem>, j: nat, x: L2elem)
    requires j <= |a|
    ensures Put(a, j, x) + [v] + b == Put(a + [v] + b, j, x)
  {
  }

  lemma PutBehind(a: seq<L2elem>, v: L2elem, b: seq<L2elem>, j: nat, x: L2elem)
    requires j <= |b|
    ensures a + [v] + Put(b, j, x) == Put(a + [v] + b, |a| + 1 + j, x)
  {
  }

  lemma PutBounds(s: seq<L2elem>, j: nat, x: L2elem, value: int)
    requires j <= |s|
    ensures AllBelow(s, value) && x.value < value ==> AllBelow(Put(s, j, x), value)
    ensures AllAbove(s, value) && value < x.value ==> AllAbove(Put(s, j, x), value)
  {
  }

  lemma AddedLeftItems(t: Tree<L2elem>, l: Tree<L2elem>, x: L2elem, j: nat)
    requires t.Node? && j <= |Items(t.left)| && Items(l) == Put(Items(t.left), j, x)
    ensures j <= |Items(t)| && Items(t.(left := l)) == Put(Items(t), j, x)
  {
    hide Put;
    PutInFront(Items(t.left), t.val, Items(t.right), j, x);
  }

  lemma AddedRightItems(t: Tree<L2elem>, r: Tree<L2elem>, x: L2elem, j: nat)
    requires t.Node? && j <= |Items(t.right)| && Items(r) == Put(Items(t.right), j, x)
    ensures |Items(t)| == |Items(t.left)| + 1 + |Items(t.right)|
    ensures Items(t.(right := r)) == Put(Items(t), |Items(t.left)| + 1 + j, x)
  {
    hide Put;
    PutBehind(Items(t.left), t.val, Items(t.right), j, x);
  }

  lemma ItemsOrdered(t: Tree<L2elem>)
    requires t.Node?
    ensures Ordered(Items(t)) <==> (
              && Ordered(Items(t.left)) && Ordered(Items(t.right))
              && AllBelow(Items(t.left), t.val.value) && AllAbove(Items(t.right), t.val.value))
  {
    hide Ordered, AllBelow, AllAbove;
    OrderedParts(Items(t.left), t.val, Items(t.right));
  }

  lemma AddedLeft(t: Tree<L2elem>, l: Tree<L2elem>, x: L2elem, j: nat, higher: bool)
    requires KeyTree(t) && t.Node? && Added(t.left, l, x, j, higher) && x.value < t.val.value
    ensures var k := t.(left := l);
      && Ordered(Items(k)) && j <= |Items(t)| && Items(k) == Put(Items(t), j, x)
      && (if higher then LeftGrew(k) else Added(t, k, x, j, false))
  {
    hide Ordered, AllBelow, AllAbove, Items, Put;
    KeyTreeParts(t);
    AddedLeftItems(t, l, x, j);
    PutBounds(Items(t.left), j, x, t.val.value);
    ItemsOrdered(t.(left := l));
  }

  lemma AddedRight(t: Tree<L2elem>, r: Tree<L2elem>, x: L2elem, j: nat, higher: bool)
    requires KeyTree(t) && t.Node? && Added(t.right, r, x, j, higher) && t.val.value < x.value
    ensures var k := t.(right := r); var i := |Items(t.left)| + 1 + j;
      && Ordered(Items(k)) && i <= |Items(t)| && Items(k) == Put(Items(t), i, x)
      && (if higher then RightGrew(k) else Added(t, k, x, i, false))
  {
    hide Ordered, AllBelow, AllAbove, Items, Put;
    KeyTreeParts(t);
    AddedRightItems(t, r, x, j);
    PutBounds(Items(t.right), j, x, t.val.value);
    ItemsOrdered(t.(right := r));
  }

  lemma AddedLeftBalanced(t: Tree<L2elem>, l: Tree<L2elem>, x: L2elem, j: nat)
    requires KeyTree(t) && t.Node? && Added(t.left, l, x, j, true) && x.value < t.val.value
    ensures LeftGrew(t.(left := l)) && Added(t, AfterLeftGrew(t.(left := l)), x, j, t.balance == 0)
  {
    hide Ordered;
    AddedLeft(t, l, x, j, true);
    LeftGrewBalanced(t.(left := l));
    LeftGrewItems(t.(left := l));
  }

  lemma AddedRightBalanced(t: Tree<L2elem>, r: Tree<L2elem>, x: L2elem, j: nat)
    requires KeyTree(t) && t.Node? && Added(t.right, r, x, j, true) && t.val.value < x.value
    ensures RightGrew(t.(right := r))
    ensures Added(t, AfterRightGrew(t.(right := r)), x, |Items(t.left)| + 1 + j, t.balance == 0)
  {
    hide Ordered;
    AddedRight(t, r, x, j, true);
    RightGrewBalanced(t.(right := r));
    RightGrewItems(t.(right := r));
  }

  // ---------- Removal ----------

  /** `k` has the keys of `t` but the one at place `j`, and is `lower` levels lower. */
  ghost predicate Taken(t: Tree<L2elem>, k: Tree<L2elem>, j: nat, lower: int) {
    && KeyTree(t) && KeyTree(k) && j < |Items(t)| && Items(k) == Drop(Items(t), j)
    && 0 <= lower <= 1 && Height(k) == Height(t) - lower
  }

  ghost predicate TakeOutcome(t: Tree<L2elem>, k: Tree<L2elem>, x: L2elem, j: nat, h: int) {
    if h == -1 then k == t && x !in Items(t) else Taken(t, k, j, h) && Items(t)[j] == x
  }

  lemma DropInFront(a: seq<L2elem>, v: L2elem, b: seq<L2elem>, j: nat)
    requires j < |a|
    ensures Drop(a, j) + [v] + b == Drop(a + [v] + b, j)
  {
  }

  lemma DropBehind(a: seq<L2elem>, v: L2elem, b: seq<L2elem>, j: nat)
    requires j < |b|
    ensures a + [v] + Drop(b, j) == Drop(a + [v] + b, |a| + 1 + j)
  {
  }

  lemma DropOrdered(s: seq<L2elem>, j: nat)
    requires Ordered(s) && j < |s|
    ensures Ordered(Drop(s, j))
  {
  }

  /** One key is gone from the left subtree, or from the node with the left subtree filling in. */
  ghost predicate LeftTaken(t: Tree<L2elem>, k: Tree<L2elem>, j: nat, lower: int) {
    && KeyTree(t) && t.Node? && k.Node? && k.right == t.right && k.balance == t.balance
    && Avl(k.left) && 0 <= lower <= 1 && Height(k.left) == Height(t.left) - lower
    && j < |Items(t)| && Items(k) == Drop(Items(t), j)
  }

  ghost predicate RightTaken(t: Tree<L2elem>, k: Tree<L2elem>, j: nat, lower: int) {
    && KeyTree(t) && t.Node? && k.Node? && k.left == t.left && k.balance == t.balance
    && Avl(k.right) && 0 <= lower <= 1 && Height(k.right) == Height(t.right) - lower
    && j < |Items(t)| && Items(k) == Drop(Items(t), j)
  }

  lemma LeftTakenDone(t: Tree<L2elem>, k: Tree<L2elem>, j: nat, lower: int)
    requires LeftTaken(t, k, j, lower)
    ensures lower == 0 ==> Taken(t, k, j, 0)
    ensures lower == 1 ==> LeftShrank(k) && (k.balance > 0 ==> k.right.Node?)
    ensures lower == 1 ==> Taken(t, AfterLeftShrank(k), j, if LowerLeft(k) then 1 else 0)
  {
    DropOrdered(Items(t), j);
    hide Ordered;
    if lower == 1 {
      LeftShrankBalanced(k);
      LeftShrankItems(k);
    }
  }

  lemma RightTakenDone(t: Tree<L2elem>, k: Tree<L2elem>, j: nat, lower: int)
    requires RightTaken(t, k, j, lower)
    ensures lower == 0 ==> Taken(t, k, j, 0)
    ensures lower == 1 ==> RightShrank(k) && (k.balance < 0 ==> k.left.Node?)
    ensures lower == 1 ==> Taken(t, AfterRightShrank(k), j, if LowerRight(k) then 1 else 0)
  {
    DropOrdered(Items(t), j);
    hide Ordered;
    if lower == 1 {
      RightShrankBalanced(k);
      RightShrankItems(k);
    }
  }

  lemma TakenLeft(t: Tree<L2elem>, l: Tree<L2elem>, j: nat, lower: int)
    requires KeyTree(t) && t.Node? && Taken(t.left, l, j, lower)
    ensures LeftTaken(t, t.(left := l), j, lower) && Items(t)[j] == Items(t.left)[j]
  {
    hide Ordered, Avl, Height;
    DropInFront(Items(t.left), t.val, Items(t.right), j);
  }

  lemma TakenRight(t: Tree<L2elem>, r: Tree<L2elem>, j: nat, lower: int)
    requires KeyTree(t) && t.Node? && Taken(t.right, r, j, lower)
    ensures RightTaken(t, t.(right := r), |Items(t.left)| + 1 + j, lower)
    ensures Items(t)[|Items(t.left)| + 1 + j] == Items(t.right)[j]
  {
    hide Ordered, Avl, Height;
    DropBehind(Items(t.left), t.val, Items(t.right), j);
  }

  /** The key of the node goes, and the greatest key of the left subtree takes its place. */
  lemma TakenHere(t: Tree<L2elem>, l: Tree<L2elem>, lower: int)
    requires KeyTree(t) && t.Node? && t.left.Node? && Taken(t.left, l, |Items(t.left)| - 1, lower)
    ensures LeftTaken(t, t.(left := l, val := Items(t.left)[|Items(t.left)| - 1]), |Items(t.left)|, lower)
    ensures Items(t)[|Items(t.left)|] == t.val
  {
    hide Ordered, Avl, Height;
    LastToMiddle(Items(t.left), t.val, Items(t.right));
  }

  lemma LastToMiddle(a: seq<L2elem>, v: L2elem, b: seq<L2elem>)
    requires a != []
    ensures Drop(a, |a| - 1) + [a[|a| - 1]] + b == Drop(a + [v] + b, |a|)
  {
  }

  /** A node with one subtree or none goes: that subtree takes its place. */
  lemma TakenNode(t: Tree<L2elem>)
    requires KeyTree(t) && t.Node?
    ensures t.right.Leaf? ==> Taken(t, t.left, |Items(t.left)|, 1)
    ensures t.left.Leaf? ==> Taken(t, t.right, 0, 1)
    ensures Items(t)[|Items(t.left)|] == t.val
  {
    KeyTreeParts(t);
    hide Ordered;
    DropOnly(Items(t.left), t.val, Items(t.right));
  }

  lemma DropOnly(a: seq<L2elem>, v: L2elem, b: seq<L2elem>)
    ensures (a + [v] + b)[|a|] == v
    ensures a == [] ==> Drop(a + [v] + b, 0) == b
    ensures b == [] ==> Drop(a + [v] + b, |a|) == a
  {
  }

  /** A key is where its value says. */
  lemma WhereKeyIs(t: Tree<L2elem>, x: L2elem)
    requires KeyTree(t) && t.Node?
    ensures x.value < t.val.value ==> (x in Items(t) <==> x in Items(t.left))
    ensures x.value > t.val.value ==> (x in Items(t) <==> x in Items(t.right))
    ensures x.value == t.val.value ==> (x in Items(t) <==> x == t.val)
  {
    KeyTreeParts(t);
  }
}

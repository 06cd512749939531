/** Height-balanced trees as values, and the four ways in which the T-tree and the AVL tree restore
    the balance of a node one of whose subtrees grew or shrank by one level. */
module AvlTrees {

  datatype Tree<V> = Leaf | Node(left: Tree<V>, val: V, balance: int, right: Tree<V>)

  function Height<V>(t: Tree<V>): nat {
    match t
    case Leaf => 0
    case Node(l, _, _, r) => 1 + Max(Height(l), Height(r))
  }

  function Max(a: int, b: int): int { if a < b then b else a }

  /** The values from left to right. */
  function Items<V>(t: Tree<V>): seq<V> {
    match t
    case Leaf => []
    case Node(l, v, _, r) => Items(l) + [v] + Items(r)
  }

  /** Every balance field is the difference of heights, and that is at most one. */
  ghost predicate Avl<V>(t: Tree<V>) {
    match t
    case Leaf => true
    case Node(l, _, b, r) => Avl(l) && Avl(r) && b == Height(r) - Height(l) && -1 <= b <= 1
  }

  lemma HeightBelow<V>(t: Tree<V>)
    requires t.Node?
    ensures Height(t.left) < Height(t) && Height(t.right) < Height(t)
    ensures forall v :: Height(t.(val := v)) == Height(t)
  {
  }

  // ---------- Turns ----------

  /** The left child comes up. */
  function TurnRight<V>(t: Tree<V>, balance: int, leftBalance: int): Tree<V>
    requires t.Node? && t.left.Node?
  {
    var l := t.left;
    Node(l.left, l.val, leftBalance, Node(l.right, t.val, balance, t.right))
  }

  function TurnLeft<V>(t: Tree<V>, balance: int, rightBalance: int): Tree<V>
    requires t.Node? && t.right.Node?
  {
    var r := t.right;
    Node(Node(t.left, t.val, balance, r.left), r.val, rightBalance, r.right)
  }

  /** The right child of the left child comes up. */
  function TurnLeftRight<V>(t: Tree<V>): Tree<V>
    requires t.Node? && t.left.Node? && t.left.right.Node?
  {
    var l, m := t.left, t.left.right;
    Node(Node(l.left, l.val, if m.balance > 0 then -1 else 0, m.left), m.val, 0,
         Node(m.right, t.val, if m.balance < 0 then 1 else 0, t.right))
  }

  function TurnRightLeft<V>(t: Tree<V>): Tree<V>
    requires t.Node? && t.right.Node? && t.right.left.Node?
  {
    var r, m := t.right, t.right.left;
    Node(Node(t.left, t.val, if m.balance > 0 then -1 else 0, m.left), m.val, 0,
         Node(m.right, r.val, if m.balance < 0 then 1 else 0, r.right))
  }

  lemma {:induction false} TurnRightItems<V>(t: Tree<V>, balance: int, leftBalance: int)
    requires t.Node? && t.left.Node?
    ensures Items(TurnRight(t, balance, leftBalance)) == Items(t)
  {
    Regroup(Items(t.left.left), t.left.val, Items(t.left.right), t.val, Items(t.right));
  }

  lemma {:induction false} TurnLeftItems<V>(t: Tree<V>, balance: int, rightBalance: int)
    requires t.Node? && t.right.Node?
    ensures Items(TurnLeft(t, balance, rightBalance)) == Items(t)
  {
    Regroup(Items(t.left), t.val, Items(t.right.left), t.right.val, Items(t.right.right));
  }

  lemma {:induction false} TurnLeftRightItems<V>(t: Tree<V>)
    requires t.Node? && t.left.Node? && t.left.right.Node?
    ensures Items(TurnLeftRight(t)) == Items(t)
  {
    var k := t.(left := TurnLeft(t.left, 0, 0));
    TurnLeftItems(t.left, 0, 0);
    TurnRightItems(k, 0, 0);
    assert Items(TurnLeftRight(t)) == Items(TurnRight(k, 0, 0));
  }

  lemma {:induction false} TurnRightLeftItems<V>(t: Tree<V>)
    requires t.Node? && t.right.Node? && t.right.left.Node?
    ensures Items(TurnRightLeft(t)) == Items(t)
  {
    var k := t.(right := TurnRight(t.right, 0, 0));
    TurnRightItems(t.right, 0, 0);
    TurnLeftItems(k, 0, 0);
    assert Items(TurnRightLeft(t)) == Items(TurnLeft(k, 0, 0));
  }

  lemma Regroup<V>(a: seq<V>, x: V, b: seq<V>, y: V, c: seq<V>)
    ensures a + [x] + (b + [y] + c) == (a + [x] + b) + [y] + c
  {
  }

  // Balance and height after a turn, when the left, or right, subtree is two levels higher.

  lemma {:induction false} TurnedRight<V>(t: Tree<V>, balance: int, leftBalance: int)
    requires t.Node? && Avl(t.left) && Avl(t.right) && Height(t.left) == Height(t.right) + 2
    requires t.left.balance <= 0 && leftBalance == 1 + t.left.balance == -balance
    ensures Avl(TurnRight(t, balance, leftBalance))
    ensures Height(TurnRight(t, balance, leftBalance)) == Height(t) - (if t.left.balance < 0 then 1 else 0)
  {
    hide Items;
  }

  lemma {:induction false} TurnedLeft<V>(t: Tree<V>, balance: int, rightBalance: int)
    requires t.Node? && Avl(t.left) && Avl(t.right) && Height(t.right) == Height(t.left) + 2
    requires t.right.balance >= 0 && rightBalance == t.right.balance - 1 == -balance
    ensures Avl(TurnLeft(t, balance, rightBalance))
    ensures Height(TurnLeft(t, balance, rightBalance)) == Height(t) - (if t.right.balance > 0 then 1 else 0)
  {
    hide Items;
  }

  lemma {:induction false} TurnedLeftRight<V>(t: Tree<V>)
    requires t.Node? && Avl(t.left) && Avl(t.right) && Height(t.left) == Height(t.right) + 2
    requires t.left.balance > 0
    ensures t.left.right.Node? && Avl(TurnLeftRight(t)) && Height(TurnLeftRight(t)) == Height(t) - 1
  {
    hide Items;
    assert Avl(t.left.right) && Avl(t.left.right.left) && Avl(t.left.right.right);
  }

  lemma {:induction false} TurnedRightLeft<V>(t: Tree<V>)
    requires t.Node? && Avl(t.left) && Avl(t.right) && Height(t.right) == Height(t.left) + 2
    requires t.right.balance < 0
    ensures t.right.left.Node? && Avl(TurnRightLeft(t)) && Height(TurnRightLeft(t)) == Height(t) - 1
  {
    hide Items;
    assert Avl(t.right.left) && Avl(t.right.left.left) && Avl(t.right.left.right);
  }

  // ---------- After an insertion ----------

  /** The left subtree is one level higher than the balance field of the root still says; where that
      was the higher one, it has two or more levels and is not even. */
  ghost predicate LeftGrew<V>(t: Tree<V>) {
    && t.Node? && Avl(t.left) && Avl(t.right) && -1 <= t.balance <= 1
    && t.balance == Height(t.right) - (Height(t.left) - 1)
    && (t.balance == -1 ==> t.left.Node? && t.left.balance != 0)
  }

  ghost predicate RightGrew<V>(t: Tree<V>) {
    && t.Node? && Avl(t.left) && Avl(t.right) && -1 <= t.balance <= 1
    && t.balance == Height(t.right) - 1 - Height(t.left)
    && (t.balance == 1 ==> t.right.Node? && t.right.balance != 0)
  }

  // Where the code follows a pointer, there is a node.

  lemma {:induction false} LeftInnerNode<V>(t: Tree<V>)
    requires LeftGrew(t) && t.balance == -1 && t.left.balance >= 0
    ensures t.left.Node? && t.left.right.Node?
  {
  }

  lemma {:induction false} RightInnerNode<V>(t: Tree<V>)
    requires RightGrew(t) && t.balance == 1 && t.right.balance <= 0
    ensures t.right.Node? && t.right.left.Node?
  {
  }

  function AfterLeftGrew<V>(t: Tree<V>): Tree<V>
    requires LeftGrew(t)
  {
    if t.balance > 0 then t.(balance := 0)
    else if t.balance == 0 then t.(balance := -1)
    else if t.left.balance < 0 then TurnRight(t, 0, 0)
    else TurnLeftRight(t)
  }

  function AfterRightGrew<V>(t: Tree<V>): Tree<V>
    requires RightGrew(t)
  {
    if t.balance < 0 then t.(balance := 0)
    else if t.balance == 0 then t.(balance := 1)
    else if t.right.balance > 0 then TurnLeft(t, 0, 0)
    else TurnRightLeft(t)
  }

  /** The balance is right again; the tree as a whole has grown only where it was even before. */
  lemma {:induction false} LeftGrewBalanced<V>(t: Tree<V>)
    requires LeftGrew(t)
    ensures var k := AfterLeftGrew(t);
            && Avl(k) && (t.balance == 0 ==> k.balance != 0)
            && Height(k) == 1 + Max(Height(t.left) - 1, Height(t.right)) + (if t.balance == 0 then 1 else 0)
  {
    hide Items;
    if t.balance < 0 {
      if t.left.balance < 0 { TurnedRight(t, 0, 0); } else { TurnedLeftRight(t); }
    }
  }

  lemma {:induction false} RightGrewBalanced<V>(t: Tree<V>)
    requires RightGrew(t)
    ensures var k := AfterRightGrew(t);
            && Avl(k) && (t.balance == 0 ==> k.balance != 0)
            && Height(k) == 1 + Max(Height(t.left), Height(t.right) - 1) + (if t.balance == 0 then 1 else 0)
  {
    hide Items;
    if t.balance > 0 {
      if t.right.balance > 0 { TurnedLeft(t, 0, 0); } else { TurnedRightLeft(t); }
    }
  }

  lemma {:induction false} LeftGrewItems<V>(t: Tree<V>)
    requires LeftGrew(t)
    ensures Items(AfterLeftGrew(t)) == Items(t)
  {
    if t.balance < 0 {
      if t.left.balance < 0 { TurnRightItems(t, 0, 0); } else { TurnLeftRightItems(t); }
    }
  }

  lemma {:induction false} RightGrewItems<V>(t: Tree<V>)
    requires RightGrew(t)
    ensures Items(AfterRightGrew(t)) == Items(t)
  {
    if t.balance > 0 {
      if t.right.balance > 0 { TurnLeftItems(t, 0, 0); } else { TurnRightLeftItems(t); }
    }
  }

  // ---------- After a removal ----------

  /** The left subtree is one level lower than the balance field of the root still says. */
  ghost predicate LeftShrank<V>(t: Tree<V>) {
    && t.Node? && Avl(t.left) && Avl(t.right) && -1 <= t.balance <= 1
    && t.balance == Height(t.right) - (Height(t.left) + 1)
  }

  ghost predicate RightShrank<V>(t: Tree<V>) {
    && t.Node? && Avl(t.left) && Avl(t.right) && -1 <= t.balance <= 1
    && t.balance == Height(t.right) + 1 - Height(t.left)
  }

  lemma {:induction false} LeftShrankNode<V>(t: Tree<V>)
    requires LeftShrank(t) && t.balance > 0
    ensures t.right.Node? && (t.right.balance < 0 ==> t.right.left.Node?)
  {
  }

  lemma {:induction false} RightShrankNode<V>(t: Tree<V>)
    requires RightShrank(t) && t.balance < 0
    ensures t.left.Node? && (t.left.balance > 0 ==> t.left.right.Node?)
  {
  }

  function AfterLeftShrank<V>(t: Tree<V>): Tree<V>
    requires LeftShrank(t)
  {
    if t.balance < 0 then t.(balance := 0)
    else if t.balance == 0 then t.(balance := 1)
    else if t.right.balance == 0 then TurnLeft(t, 1, -1)
    else if t.right.balance > 0 then TurnLeft(t, 0, 0)
    else TurnRightLeft(t)
  }

  function AfterRightShrank<V>(t: Tree<V>): Tree<V>
    requires RightShrank(t)
  {
    if t.balance > 0 then t.(balance := 0)
    else if t.balance == 0 then t.(balance := -1)
    else if t.left.balance == 0 then TurnRight(t, -1, 1)
    else if t.left.balance < 0 then TurnRight(t, 0, 0)
    else TurnLeftRight(t)
  }

  /** Whether the whole tree is lower after that. */
  predicate LowerLeft<V>(t: Tree<V>)
    requires t.Node? && (t.balance > 0 ==> t.right.Node?)
  {
    t.balance < 0 || (t.balance > 0 && t.right.balance != 0)
  }

  predicate LowerRight<V>(t: Tree<V>)
    requires t.Node? && (t.balance < 0 ==> t.left.Node?)
  {
    t.balance > 0 || (t.balance < 0 && t.left.balance != 0)
  }

  lemma {:induction false} LeftShrankBalanced<V>(t: Tree<V>)
    requires LeftShrank(t)
    ensures t.balance > 0 ==> t.right.Node?
    ensures Avl(AfterLeftShrank(t))
    ensures Height(AfterLeftShrank(t)) == 1 + Max(Height(t.left) + 1, Height(t.right)) - (if LowerLeft(t) then 1 else 0)
  {
    hide Items;
    if t.balance > 0 {
      if t.right.balance >= 0 { TurnedLeft(t, 1 - t.right.balance, t.right.balance - 1); } else { TurnedRightLeft(t); }
    }
  }

  lemma {:induction false} RightShrankBalanced<V>(t: Tree<V>)
    requires RightShrank(t)
    ensures t.balance < 0 ==> t.left.Node?
    ensures Avl(AfterRightShrank(t))
    ensures Height(AfterRightShrank(t))
            == 1 + Max(Height(t.left), Height(t.right) + 1) - (if LowerRight(t) then 1 else 0)
  {
    hide Items;
    if t.balance < 0 {
      if t.left.balance <= 0 { TurnedRight(t, -1 - t.left.balance, 1 + t.left.balance); } else { TurnedLeftRight(t); }
    }
  }

  lemma {:induction false} LeftShrankItems<V>(t: Tree<V>)
    requires LeftShrank(t)
    ensures Items(AfterLeftShrank(t)) == Items(t)
  {
    if t.balance > 0 {
      if t.right.balance >= 0 {
        TurnLeftItems(t, 1 - t.right.balance, t.right.balance - 1);
      } else {
        TurnRightLeftItems(t);
      }
    }
  }

  lemma {:induction false} RightShrankItems<V>(t: Tree<V>)
    requires RightShrank(t)
    ensures Items(AfterRightShrank(t)) == Items(t)
  {
    if t.balance < 0 {
      if t.left.balance <= 0 {
        TurnRightItems(t, -1 - t.left.balance, 1 + t.left.balance);
      } else {
        TurnLeftRightItems(t);
      }
    }
  }
}

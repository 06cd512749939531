/** Nodes of a height-balanced tree on the heap.  The node classes of the T-tree and of the AVL tree
    restore their balance by the same pointer turns; `Node` has these, for any contents. */
module AvlNodes {
  import opened AvlTrees

  class Node<V> {
    var left: Node?<V>
    var right: Node?<V>
    var balance: int
    var val: V

    ghost var repr: set<object>   // this node and all below
    ghost var tree: Tree<V>       // what they stand for

    ghost predicate Valid()
      reads this, repr
      ensures Valid() ==> this in repr && tree.Node? && tree.val == val && tree.balance == balance
      decreases repr
    {
      && this in repr
      && (left != null ==> left in repr && left.repr <= repr && this !in left.repr && left.Valid())
      && (right != null ==> right in repr && right.repr <= repr && this !in right.repr && right.Valid())
      && (left != null && right != null ==> left.repr !! right.repr)
      && repr == {this} + ReprOf(left) + ReprOf(right)
      && tree == Tree.Node(TreeOf(left), val, balance, TreeOf(right))
    }

    constructor (val: V)
      ensures Valid() && fresh(repr) && tree == Tree.Node(Leaf, val, 0, Leaf)
      ensures left == right == null
    {
      left, right, balance := null, null, 0;
      this.val := val;
      repr, tree := {this}, Tree.Node(Leaf, val, 0, Leaf);
    }

    lemma Assemble()
      requires IsTree(left) && this !in ReprOf(left)
      requires IsTree(right) && this !in ReprOf(right)
      requires ReprOf(left) !! ReprOf(right) && repr == {this} + ReprOf(left) + ReprOf(right)
      requires tree == Tree.Node(TreeOf(left), val, balance, TreeOf(right))
      ensures Valid()
    {
    }

    method SetLeft(p: Node?<V>)
      requires IsTree(p) && this !in ReprOf(p)
      requires IsTree(right) && this !in ReprOf(right)
      requires ReprOf(p) !! ReprOf(right)
      modifies `left, `repr, `tree
      ensures Valid() && left == p
      ensures repr == {this} + old(ReprOf(p)) + old(ReprOf(right))
      ensures tree == Tree.Node(old(TreeOf(p)), val, balance, old(TreeOf(right)))
    {
      hide Node.Valid;
      left := p;
      repr := {this} + ReprOf(left) + ReprOf(right);
      tree := Tree.Node(TreeOf(left), val, balance, TreeOf(right));
      Assemble();
    }

    method SetRight(p: Node?<V>)
      requires IsTree(p) && this !in ReprOf(p)
      requires IsTree(left) && this !in ReprOf(left)
      requires ReprOf(p) !! ReprOf(left)
      modifies `right, `repr, `tree
      ensures Valid() && right == p
      ensures repr == {this} + old(ReprOf(left)) + old(ReprOf(p))
      ensures tree == Tree.Node(old(TreeOf(left)), val, balance, old(TreeOf(p)))
    {
      hide Node.Valid;
      right := p;
      repr := {this} + ReprOf(left) + ReprOf(right);
      tree := Tree.Node(TreeOf(left), val, balance, TreeOf(right));
      Assemble();
    }

    method SetBoth(l: Node?<V>, r: Node?<V>)
      requires IsTree(l) && this !in ReprOf(l)
      requires IsTree(r) && this !in ReprOf(r)
      requires ReprOf(l) !! ReprOf(r)
      modifies `left, `right, `repr, `tree
      ensures Valid() && left == l && right == r
      ensures repr == {this} + old(ReprOf(l)) + old(ReprOf(r))
      ensures tree == Tree.Node(old(TreeOf(l)), val, balance, old(TreeOf(r)))
    {
      hide Node.Valid;
      left, right := l, r;
      repr := {this} + ReprOf(left) + ReprOf(right);
      tree := Tree.Node(TreeOf(left), val, balance, TreeOf(right));
      Assemble();
    }

    method SetBalance(b: int)
      requires Valid()
      modifies `balance, `tree
      ensures Valid() && balance == b && tree == old(tree).(balance := b)
    {
      balance := b;
      tree := tree.(balance := b);
    }

    method SetVal(v: V)
      requires Valid()
      modifies `val, `tree
      ensures Valid() && val == v && tree == old(tree).(val := v)
    {
      val := v;
      tree := tree.(val := v);
    }

    /** What is known of the parts of a tree. */
    lemma Parts()
      requires Valid()
      ensures IsTree(left) && this !in ReprOf(left)
      ensures IsTree(right) && this !in ReprOf(right)
      ensures ReprOf(left) !! ReprOf(right) && repr == {this} + ReprOf(left) + ReprOf(right)
      ensures tree == Tree.Node(TreeOf(left), val, balance, TreeOf(right))
      ensures (left != null <==> tree.left.Node?) && (right != null <==> tree.right.Node?)
    {
    }

    // ---------- Turns ----------

    /** Single turn: the left child comes up. */
    method RaiseLeft(b: int, leftBalance: int) returns (p: Node<V>)
      requires Valid() && left != null
      modifies this, left
      ensures old(tree).left.Node?
      ensures p.Valid() && p.repr == old(repr)
      ensures p.tree == TurnRight(old(tree), b, leftBalance)
    {
      hide Node.Valid;
      Parts();
      left.Parts();
      p := left;
      balance, p.balance := b, leftBalance;
      SetLeft(p.right);
      p.SetRight(this);
    }

    /** Single turn: the right child comes up. */
    method RaiseRight(b: int, rightBalance: int) returns (p: Node<V>)
      requires Valid() && right != null
      modifies this, right
      ensures old(tree).right.Node?
      ensures p.Valid() && p.repr == old(repr)
      ensures p.tree == TurnLeft(old(tree), b, rightBalance)
    {
      hide Node.Valid;
      Parts();
      right.Parts();
      p := right;
      balance, p.balance := b, rightBalance;
      SetRight(p.left);
      p.SetLeft(this);
    }

    // A double turn starts with the child that will come up giving its subtrees away: the inner one
    // to its parent (`ShedRight`, `ShedLeft`), then the outer one to the node above.

    method ShedRight(b: int) returns (p: Node<V>)
      requires Valid() && right != null
      modifies this
      ensures p == old(right) && old(tree).right.Node? && p.val == old(tree).right.val
      ensures Valid() && tree == Tree.Node(old(tree).left, old(tree).val, b, old(tree).right.left)
      ensures p !in repr && ReprOf(p.right) !! repr && old(repr) == repr + {p} + ReprOf(p.right)
      ensures IsTree(p.right) && p !in ReprOf(p.right)
      ensures TreeOf(p.right) == old(tree).right.right
    {
      hide Node.Valid;
      Parts();
      right.Parts();
      p := right;
      balance := b;
      SetRight(p.left);
    }

    method ShedLeft(b: int) returns (p: Node<V>)
      requires Valid() && left != null
      modifies this
      ensures p == old(left) && old(tree).left.Node? && p.val == old(tree).left.val
      ensures Valid() && tree == Tree.Node(old(tree).left.right, old(tree).val, b, old(tree).right)
      ensures p !in repr && ReprOf(p.left) !! repr && old(repr) == repr + {p} + ReprOf(p.left)
      ensures IsTree(p.left) && p !in ReprOf(p.left)
      ensures TreeOf(p.left) == old(tree).left.left
    {
      hide Node.Valid;
      Parts();
      left.Parts();
      p := left;
      balance := b;
      SetLeft(p.right);
    }

    method EmptyLeftRight(b: int, leftBalance: int) returns (lp: Node<V>, p: Node<V>)
      requires Valid() && left != null && left.right != null
      modifies this, left
      ensures lp == old(left) && p == old(left.right) && lp.Valid() && Valid()
      ensures lp.repr !! repr && p !in lp.repr + repr && old(repr) == lp.repr + repr + {p}
      ensures old(tree).left.Node? && old(tree).left.right.Node?
      ensures var t := old(tree);
        && lp.tree == Tree.Node(t.left.left, t.left.val, leftBalance, t.left.right.left)
        && tree == Tree.Node(t.left.right.right, t.val, b, t.right)
        && p.val == t.left.right.val
    {
      hide Node.Valid;
      Parts();
      left.Parts();
      lp := left;
      balance := b;
      p := lp.ShedRight(leftBalance);
      SetLeft(p.right);
    }

    method EmptyRightLeft(b: int, rightBalance: int) returns (rp: Node<V>, p: Node<V>)
      requires Valid() && right != null && right.left != null
      modifies this, right
      ensures rp == old(right) && p == old(right.left) && rp.Valid() && Valid()
      ensures rp.repr !! repr && p !in rp.repr + repr && old(repr) == rp.repr + repr + {p}
      ensures old(tree).right.Node? && old(tree).right.left.Node?
      ensures var t := old(tree);
        && rp.tree == Tree.Node(t.right.left.right, t.right.val, rightBalance, t.right.right)
        && tree == Tree.Node(t.left, t.val, b, t.right.left.left)
        && p.val == t.right.left.val
    {
      hide Node.Valid;
      Parts();
      right.Parts();
      rp := right;
      balance := b;
      p := rp.ShedLeft(rightBalance);
      SetRight(p.left);
    }

    /** Double turn: the right child of the left child comes up. */
    method RaiseLeftRight() returns (p: Node<V>)
      requires Valid() && left != null && left.right != null
      modifies this, left, left.right
      ensures old(tree).left.Node? && old(tree).left.right.Node?
      ensures p.Valid() && p.repr == old(repr)
      ensures p.tree == TurnLeftRight(old(tree))
    {
      var mid := left.right.balance;
      assert tree.left.right.balance == mid;
      hide Node.Valid;
      var lp;
      lp, p := EmptyLeftRight(if mid < 0 then 1 else 0, if mid > 0 then -1 else 0);
      p.balance := 0;
      p.SetBoth(lp, this);
    }

    /** Double turn: the left child of the right child comes up. */
    method RaiseRightLeft() returns (p: Node<V>)
      requires Valid() && right != null && right.left != null
      modifies this, right, right.left
      ensures old(tree).right.Node? && old(tree).right.left.Node?
      ensures p.Valid() && p.repr == old(repr)
      ensures p.tree == TurnRightLeft(old(tree))
    {
      var mid := right.left.balance;
      assert tree.right.left.balance == mid;
      hide Node.Valid;
      var rp;
      rp, p := EmptyRightLeft(if mid > 0 then -1 else 0, if mid < 0 then 1 else 0);
      p.balance := 0;
      p.SetBoth(this, rp);
    }

    // ---------- Restoring the balance ----------

    /** After an insertion made the left subtree one level higher. */
    method LeftHigher() returns (p: Node<V>, higher: bool)
      requires Valid() && LeftGrew(tree)
      modifies repr
      ensures p.Valid() && p.repr == old(repr) && p.tree == AfterLeftGrew(old(tree))
      ensures higher <==> old(balance) == 0
    {
      Parts();
      if left != null { left.Parts(); }
      hide Node.Valid, Avl, Height;
      p, higher := this, false;
      if balance > 0 {
        SetBalance(0);
      } else if balance == 0 {
        SetBalance(-1);
        higher := true;
      } else if left.balance < 0 {
        p := RaiseLeft(0, 0);
      } else {
        LeftInnerNode(tree);
        p := RaiseLeftRight();
      }
    }

    method RightHigher() returns (p: Node<V>, higher: bool)
      requires Valid() && RightGrew(tree)
      modifies repr
      ensures p.Valid() && p.repr == old(repr) && p.tree == AfterRightGrew(old(tree))
      ensures higher <==> old(balance) == 0
    {
      Parts();
      if right != null { right.Parts(); }
      hide Node.Valid, Avl, Height;
      p, higher := this, false;
      if balance < 0 {
        SetBalance(0);
      } else if balance == 0 {
        SetBalance(1);
        higher := true;
      } else if right.balance > 0 {
        p := RaiseRight(0, 0);
      } else {
        RightInnerNode(tree);
        p := RaiseRightLeft();
      }
    }

    /** After a removal made the left subtree one level lower: 1 if the whole tree is lower now. */
    method LeftLower() returns (p: Node<V>, lower: int)
      requires Valid() && LeftShrank(tree)
      modifies repr
      ensures p.Valid() && p.repr == old(repr) && p.tree == AfterLeftShrank(old(tree))
      ensures old(tree).balance > 0 ==> old(tree).right.Node?
      ensures lower == if LowerLeft(old(tree)) then 1 else 0
    {
      if balance > 0 { LeftShrankNode(tree); }
      Parts();
      if right != null { right.Parts(); }
      hide Node.Valid, Avl, Height;
      p := this;
      if balance < 0 {
        SetBalance(0);
        lower := 1;
      } else if balance == 0 {
        SetBalance(1);
        lower := 0;
      } else if right.balance >= 0 {
        if right.balance == 0 {
          p := RaiseRight(1, -1);
          lower := 0;
        } else {
          p := RaiseRight(0, 0);
          lower := 1;
        }
      } else {
        p := RaiseRightLeft();
        lower := 1;
      }
    }

    method RightLower() returns (p: Node<V>, lower: int)
      requires Valid() && RightShrank(tree)
      modifies repr
      ensures p.Valid() && p.repr == old(repr) && p.tree == AfterRightShrank(old(tree))
      ensures old(tree).balance < 0 ==> old(tree).left.Node?
      ensures lower == if LowerRight(old(tree)) then 1 else 0
    {
      if balance < 0 { RightShrankNode(tree); }
      Parts();
      if left != null { left.Parts(); }
      hide Node.Valid, Avl, Height;
      p := this;
      if balance > 0 {
        SetBalance(0);
        lower := 1;
      } else if balance == 0 {
        SetBalance(-1);
        lower := 0;
      } else if left.balance <= 0 {
        if left.balance == 0 {
          p := RaiseLeft(-1, 1);
          lower := 0;
        } else {
          p := RaiseLeft(0, 0);
          lower := 1;
        }
      } else {
        p := RaiseLeftRight();
        lower := 1;
      }
    }
  }

  ghost function ReprOf<V>(p: Node?<V>): set<object>
    reads p
  {
    if p == null then {} else p.repr
  }

  ghost predicate IsTree<V>(p: Node?<V>)
    reads p, ReprOf(p)
  {
    p != null ==> p.Valid()
  }

  ghost function TreeOf<V>(p: Node?<V>): Tree<V>
    reads p
  {
    if p == null then Leaf else p.tree
  }
}

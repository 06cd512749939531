/** The iterator of a T-tree: a current item and two stacks, of the nodes above it and the positions
    in them. */
module TtreeIteration {
  import opened Options
  import opened AvlTrees
  import opened AvlNodes
  import opened TtreePages
  import opened TtreeSteps
  import opened TtreeIndex
  import opened TtreeStacks

  class Iterator {
    var currNode: Node?<Page>
    var currPos: int
    var nodeStack: seq<Node<Page>>
    var posStack: seq<int>

    ghost var world: set<object>           // the nodes of the tree
    ghost var trees: seq<Tree<Page>>       // what the nodes on the stack stand for
    ghost const whole: Tree<Page>          // the whole tree
    ghost const reverse: bool

    ghost predicate Known(m: Node<Page>)
      reads `world, world
    {
      m in world && m.repr <= world && m.Valid() && SoundTree(m.tree)
    }

    ghost predicate Valid()
      reads this, world
    {
      && Stacks()
      && (if currNode == null then currPos == -1 else Known(currNode) && -1 <= currPos < currNode.val.n)
      && (currPos != -1 ==> Linked(whole, trees, posStack, currNode.tree, reverse))
    }

    /** The items a forward run has still to visit, the current one included. */
    ghost function Remaining(): seq<Obj>
      requires Valid()
      reads this, world
    {
      if currPos == -1 then [] else After(currNode.tree, currPos) + AfterStack(trees, posStack)
    }

    /** The items a reverse run has still to visit, the last one first. */
    ghost function RemainingBack(): seq<Obj>
      requires Valid()
      reads this, world
    {
      if currPos == -1 then [] else BeforeStack(trees, posStack) + Before(currNode.tree, currPos)
    }
  
    predicate IsValid()
      reads this
    {
      currPos != -1
    }

    /** Notes the node and position to come back to. */
    method Push()
      requires Stacks() && currNode != null && Known(currNode)
      requires if reverse then -1 <= currPos < currNode.tree.val.n else 0 <= currPos
      modifies `nodeStack, `posStack, `trees
      ensures Stacks() && |trees| > 0
      ensures AfterStack(trees, posStack) == After(currNode.tree, currPos) + old(AfterStack(trees, posStack))
      ensures BeforeStack(trees, posStack) == old(BeforeStack(trees, posStack)) + Before(currNode.tree, currPos)
      ensures trees == old(trees) + [currNode.tree] && posStack == old(posStack) + [currPos]
    {
      hide After, Before, AfterStack, BeforeStack, SoundTree;
      PushAfter(trees, posStack, currNode.tree, currPos);
      nodeStack, posStack := nodeStack + [currNode], posStack + [currPos];
      trees := trees + [currNode.tree];
    }

    /** Goes back to the node and position on top of the stacks. */
    method Pop()
      requires Stacks() && |nodeStack| > 0
      modifies `nodeStack, `posStack, `trees, `currNode, `currPos
      ensures Stacks() && currNode != null && Known(currNode) && |nodeStack| == |old(nodeStack)| - 1
      ensures if reverse then -1 <= currPos < currNode.tree.val.n else 0 <= currPos
      ensures old(AfterStack(trees, posStack)) == After(currNode.tree, currPos) + AfterStack(trees, posStack)
      ensures old(BeforeStack(trees, posStack)) == BeforeStack(trees, posStack) + Before(currNode.tree, currPos)
      ensures trees == old(trees)[..|old(trees)| - 1] && posStack == old(posStack)[..|old(posStack)| - 1]
      ensures currNode.tree == old(trees)[|old(trees)| - 1]
    {
      hide Objs, After, Before, AfterStack, BeforeStack, Linked, Iterator.Known, SoundTree;
      PopStack(trees, posStack);
      var s := |nodeStack| - 1;
      currNode, currPos := nodeStack[s], posStack[s];
      nodeStack, posStack, trees := nodeStack[..s], posStack[..s], trees[..s];
    }

    ghost predicate Stacks()
      reads `nodeStack, `posStack, `trees, `world, world
    {
      && this !in world
      && |nodeStack| == |posStack| == |trees| && SoundTrees(trees)
      && (forall i :: 0 <= i < |nodeStack| ==> Known(nodeStack[i]) && nodeStack[i].tree == trees[i])
      && (forall i :: 0 <= i < |posStack| ==> if reverse then -1 <= posStack[i] < trees[i].val.n else 0 <= posStack[i])
    }

    lemma KnownBelow(m: Node<Page>)
      requires Known(m)
      ensures SoundTree(m.tree)
      ensures m.left != null ==> Known(m.left) && m.left.tree == m.tree.left
      ensures m.right != null ==> Known(m.right) && m.right.tree == m.tree.right
      ensures m.left == null <==> m.tree.left == Leaf
      ensures m.right == null <==> m.tree.right == Leaf
      ensures m.val == m.tree.val
    {
      GoodParts(m.tree);
      m.Parts();
      if m.left != null { GoodParts(m.left.tree); }
      if m.right != null { GoodParts(m.right.tree); }
    }

    /** The current item, if the run is not over: the first that remains, or the last in reverse. */
    method Current() returns (x: Option<Obj>)
      requires Valid()
      ensures x == Head(Remaining()) == End(RemainingBack())
    {
      if currPos == -1 {
        return None;
      }
      NotOver();
      return Some(currNode.val.item[currPos]);
    }

    lemma NotOver()
      requires Valid() && IsValid()
      ensures Remaining() != [] && Remaining()[0] == currNode.val.item[currPos]
      ensures RemainingBack() != [] && RemainingBack()[|RemainingBack()| - 1] == currNode.val.item[currPos]
    {
      KnownBelow(currNode);
      NextAfter(currNode.tree, currPos);
    }

    constructor (t: Ttree, reverse: bool)
      requires t.Valid()
      ensures Valid() && world == ReprOf(t.root) && this.reverse == reverse && whole == TreeOf(t.root)
      ensures !reverse ==> Remaining() == t.Contents()
      ensures reverse ==> RemainingBack() == t.Contents()
      ensures !reverse && t.root != null && t.root.left != null ==> (
                !CanTurnBack() && IsValid() && posStack[|posStack| - 1] == 0)
    {
      hide Objs, After, Before, Avl, Sorted, Live;
      currNode := t.root;
      currPos := -1;
      nodeStack, posStack := [], [];
      world, trees := ReprOf(t.root), [];
      this.reverse, whole := reverse, TreeOf(t.root);
      new;
      EmptyGood();
      if currNode != null {
        GoodParts(currNode.tree);
        Start(reverse);
      }
    }

    /** Down from the root to the first item of the run. */
    method Start(reverse: bool)
      requires Stacks() && trees == [] && currNode != null && Known(currNode) && reverse == this.reverse
      requires whole == currNode.tree
      modifies `nodeStack, `posStack, `trees, `currNode, `currPos
      ensures Valid()
      ensures !reverse ==> Remaining() == old(Objs(currNode.tree)) && currPos == 0
      ensures !reverse && old(currNode.left) != null ==> (
                currNode.left == null && nodeStack != [] && posStack[|posStack| - 1] == 0)
      ensures reverse ==> RemainingBack() == old(Objs(currNode.tree))
    {
      hide Objs, After, Before, Sorted, Avl;
      ghost var all := Objs(currNode.tree);
      if reverse {
        assert BeforeStack(trees, posStack) + all == all;
        DownRight();
      } else {
        assert all + AfterStack(trees, posStack) == all;
        DownLeft();
      }
    }

    // ---------- A forward run ----------

    /** From a node whose items are all still to come, down to its leftmost node. */
    method DownLeft()
      requires Stacks() && currNode != null && Known(currNode) && !reverse
      requires Linked(whole, trees, posStack, currNode.tree, reverse)
      modifies `nodeStack, `posStack, `trees, `currNode, `currPos
      ensures Valid() && currPos == 0
      ensures Remaining() == old(Objs(currNode.tree) + AfterStack(trees, posStack))
      ensures currNode != null && currNode.left == null
      ensures old(currNode.left) != null ==> nodeStack != [] && posStack[|posStack| - 1] == 0
    {
      hide Objs, After, Before, AfterStack, BeforeStack, Iterator.Known, Avl, Sorted, Linked;
      KnownBelow(currNode);
      EmptyGood();
      currPos := 0;
      ghost var all := Objs(currNode.tree) + AfterStack(trees, posStack);
      while currNode.left != null
        invariant Stacks() && currNode != null && Known(currNode) && SoundTree(currNode.tree) && currPos == 0
        invariant all == Objs(currNode.tree) + AfterStack(trees, posStack)
        invariant currNode == old(currNode) || (nodeStack != [] && posStack[|posStack| - 1] == 0)
        invariant Linked(whole, trees, posStack, currNode.tree, reverse)
        decreases currNode.tree
      {
        WholeAfter(currNode.tree);
        KnownBelow(currNode);
        LinkedPush(whole, trees, posStack, currNode.tree, currPos, currNode.tree.left, reverse);
        Push();
        currNode := currNode.left;
        KnownBelow(currNode);
      }
      KnownBelow(currNode);
      WholeAfter(currNode.tree);
      assert [] + After(currNode.tree, 0) == After(currNode.tree, 0);
    }

    /** Goes on to the next item; null at the end of the run. */
    method Next() returns (x: Option<Obj>)
      requires Valid() && !reverse
      modifies this
      ensures Valid() && world == old(world)
      ensures Remaining() == Tail(old(Remaining())) && x == Head(Remaining())
    {
      hide Iterator.Known, Iterator.Stacks, SoundTree, Linked;
      if !IsValid() {
        return None;
      }
      NotOver();
      hide Iterator.Valid, Iterator.Remaining, Iterator.RemainingBack, Head, Tail, Front, End;
      StepForward();
      x := Current();
    }

    method StepForward()
      requires Valid() && !reverse && IsValid() && Remaining() != []
      modifies `nodeStack, `posStack, `trees, `currNode, `currPos
      ensures Valid() && Remaining() == Tail(old(Remaining()))
    {
      hide Objs, After, Before, AfterStack, BeforeStack, Iterator.Known, Avl, Sorted, Linked;
      KnownBelow(currNode);
      NextAfter(currNode.tree, currPos);
      ghost var item, more := currNode.val.item[currPos], AfterStack(trees, posStack);
      currPos := currPos + 1;
      if currPos >= currNode.val.n {
        TailOf(item, Objs(currNode.tree.right), more);
        if currNode.right != null {
          ToRight();
        } else {
          EmptyGood();
          ClimbForward();
        }
      } else {
        TailOf(item, After(currNode.tree, currPos), more);
      }
    }

    /** The node is done: on to its right subtree. */
    method ToRight()
      requires Stacks() && currNode != null && Known(currNode) && !reverse
      requires SoundTree(currNode.tree) && 0 <= currPos == currNode.tree.val.n && currNode.right != null
      requires Linked(whole, trees, posStack, currNode.tree, reverse)
      modifies `nodeStack, `posStack, `trees, `currNode, `currPos
      ensures Valid() && Remaining() == old(Objs(currNode.tree.right) + AfterStack(trees, posStack))
    {
      hide Objs, After, AfterStack, BeforeStack, Before, Iterator.Known, Avl, Sorted, Linked;
      KnownBelow(currNode);
      NothingAt(currNode.tree, currPos);
      LinkedPush(whole, trees, posStack, currNode.tree, currPos, currNode.tree.right, reverse);
      Push();
      assert AfterStack(trees, posStack) == old(AfterStack(trees, posStack));
      currNode := currNode.right;
      DownLeft();
    }

    /** Up to a node that has items left; the run is over if there is none. */
    method ClimbForward()
      requires Stacks() && currNode != null && Known(currNode) && !reverse
      requires SoundTree(currNode.tree) && 0 <= currPos && currPos >= currNode.tree.val.n
      requires Linked(whole, trees, posStack, currNode.tree, reverse)
      modifies `nodeStack, `posStack, `trees, `currNode, `currPos
      ensures Valid() && Remaining() == old(AfterStack(trees, posStack))
    {
      hide Objs, After, Before, BeforeStack, Iterator.Known, Avl, Sorted, Linked;
      ghost var rest := AfterStack(trees, posStack);
      var s := |nodeStack|;
      KnownBelow(currNode);
      NothingAt(currNode.tree, currPos);
      while currPos >= currNode.val.n && s > 0
        invariant Stacks() && s == |nodeStack| && currNode != null && Known(currNode) && SoundTree(currNode.tree)
        invariant currNode.val == currNode.tree.val && 0 <= currPos
        invariant currPos >= currNode.val.n ==> After(currNode.tree, currPos) == []
        invariant rest == After(currNode.tree, currPos) + AfterStack(trees, posStack)
        invariant Linked(whole, trees, posStack, currNode.tree, reverse)
        decreases s
      {
        s := s - 1;
        LinkedPop(whole, trees, posStack, currNode.tree, reverse);
        Pop();
        KnownBelow(currNode);
        NothingAt(currNode.tree, currPos);
      }
      if currPos >= currNode.val.n {
        currPos := -1;
      }
    }

    // ---------- A reverse run ----------

    /** From a node whose items are all still to come in reverse, down to its rightmost node. */
    method DownRight()
      requires Stacks() && currNode != null && Known(currNode) && reverse
      requires Linked(whole, trees, posStack, currNode.tree, reverse)
      modifies `nodeStack, `posStack, `trees, `currNode, `currPos
      ensures Valid() && currPos >= 0
      ensures RemainingBack() == old(BeforeStack(trees, posStack) + Objs(currNode.tree))
    {
      hide Objs, After, Before, AfterStack, BeforeStack, Iterator.Known, Avl, Sorted, Linked;
      KnownBelow(currNode);
      EmptyGood();
      currPos := currNode.val.n - 1;
      ghost var all := BeforeStack(trees, posStack) + Objs(currNode.tree);
      while currNode.right != null
        invariant Stacks() && currNode != null && Known(currNode) && SoundTree(currNode.tree)
        invariant currNode.val == currNode.tree.val && currPos == currNode.val.n - 1
        invariant all == BeforeStack(trees, posStack) + Objs(currNode.tree)
        invariant Linked(whole, trees, posStack, currNode.tree, reverse)
        decreases currNode.tree
      {
        WholeAfter(currNode.tree);
        KnownBelow(currNode);
        LinkedPush(whole, trees, posStack, currNode.tree, currPos, currNode.tree.right, reverse);
        Push();
        currNode := currNode.right;
        KnownBelow(currNode);
        currPos := currNode.val.n - 1;
      }
      KnownBelow(currNode);
      WholeAfter(currNode.tree);
      assert Before(currNode.tree, currPos) + [] == Before(currNode.tree, currPos);
    }

    /** Goes back to the item before; null at the end of the run. */
    method Previous() returns (x: Option<Obj>)
      requires Valid() && reverse
      modifies this
      ensures Valid() && world == old(world)
      ensures RemainingBack() == Front(old(RemainingBack())) && x == End(RemainingBack())
    {
      hide Iterator.Known, Iterator.Stacks, SoundTrees, Linked;
      if !IsValid() {
        return None;
      }
      NotOver();
      hide Iterator.Valid, Iterator.Remaining, Iterator.RemainingBack, Head, Tail, Front, End;
      StepBack();
      x := Current();
    }

    method StepBack()
      requires Valid() && reverse && IsValid() && RemainingBack() != []
      modifies `nodeStack, `posStack, `trees, `currNode, `currPos
      ensures Valid() && RemainingBack() == Front(old(RemainingBack()))
    {
      hide Objs, After, Before, AfterStack, BeforeStack, Iterator.Known, Avl, Sorted, Linked;
      KnownBelow(currNode);
      NextAfter(currNode.tree, currPos);
      ghost var item, more := currNode.val.item[currPos], BeforeStack(trees, posStack);
      currPos := currPos - 1;
      if currPos < 0 {
        FrontOf(more, Objs(currNode.tree.left), item);
        if currNode.left != null {
          ToLeft();
        } else {
          EmptyGood();
          ClimbBack();
        }
      } else {
        FrontOf(more, Before(currNode.tree, currPos), item);
      }
    }

    /** The node is done: on to its left subtree. */
    method ToLeft()
      requires Stacks() && currNode != null && Known(currNode) && reverse
      requires SoundTree(currNode.tree) && currPos == -1 && currNode.left != null
      requires Linked(whole, trees, posStack, currNode.tree, reverse)
      modifies `nodeStack, `posStack, `trees, `currNode, `currPos
      ensures Valid() && RemainingBack() == old(BeforeStack(trees, posStack) + Objs(currNode.tree.left))
    {
      hide Objs, After, AfterStack, BeforeStack, Before, Iterator.Known, Avl, Sorted, Linked;
      KnownBelow(currNode);
      NothingAt(currNode.tree, currPos);
      LinkedPush(whole, trees, posStack, currNode.tree, currPos, currNode.tree.left, reverse);
      Push();
      assert BeforeStack(trees, posStack) == old(BeforeStack(trees, posStack));
      currNode := currNode.left;
      DownRight();
    }

    method ClimbBack()
      requires Stacks() && currNode != null && Known(currNode) && reverse
      requires SoundTree(currNode.tree) && currPos == -1
      requires Linked(whole, trees, posStack, currNode.tree, reverse)
      modifies `nodeStack, `posStack, `trees, `currNode, `currPos
      ensures Valid() && RemainingBack() == old(BeforeStack(trees, posStack))
    {
      hide Objs, After, Before, AfterStack, Iterator.Known, Avl, Sorted, Linked;
      ghost var rest := BeforeStack(trees, posStack);
      var s := |nodeStack|;
      KnownBelow(currNode);
      NothingAt(currNode.tree, currPos);
      while currPos < 0 && s > 0
        invariant Stacks() && s == |nodeStack| && currNode != null && Known(currNode) && SoundTree(currNode.tree)
        invariant currNode.val == currNode.tree.val && -1 <= currPos < currNode.val.n
        invariant currPos < 0 ==> Before(currNode.tree, currPos) == []
        invariant rest == BeforeStack(trees, posStack) + Before(currNode.tree, currPos)
        invariant Linked(whole, trees, posStack, currNode.tree, reverse)
        decreases s
      {
        s := s - 1;
        LinkedPop(whole, trees, posStack, currNode.tree, reverse);
        Pop();
        KnownBelow(currNode);
        NothingAt(currNode.tree, currPos);
      }
    }

    // ---------- A change of direction ----------

    /** The items that a forward run has passed. */
    ghost function Passed(): seq<Obj>
      requires Valid() && IsValid()
      reads this, world
    {
      PastStack(trees, posStack) + (Objs(currNode.tree.left) + Live(currNode.tree.val)[..currPos])
    }

    /** The items that a reverse run has passed, the last of them first. */
    ghost function PassedBack(): seq<Obj>
      requires Valid() && IsValid()
      reads this, world
    {
      (Live(currNode.tree.val)[currPos + 1..] + Objs(currNode.tree.right)) + PastBackStack(trees, posStack)
    }

    lemma RunIsWhole()
      requires Valid() && IsValid()
      ensures SoundTree(whole)
      ensures !reverse ==> Objs(whole) == Passed() + Remaining()
      ensures reverse ==> Objs(whole) == RemainingBack() + PassedBack()
    {
      hide Linked, PastStack, PastBackStack, AfterStack, BeforeStack, Sorted, Avl;
      WholeRun(whole, trees, posStack, currNode.tree, reverse);
      Around(currNode.tree, currPos, PastStack(trees, posStack), AfterStack(trees, posStack));
      Around(currNode.tree, currPos, BeforeStack(trees, posStack), PastBackStack(trees, posStack));
    }

    /** The condition under which a step back in a forward run goes to the item before: it is on this node or
        below it on the left, or there is none. */
    predicate CanTurnBack()
      reads this, currNode
    {
      currPos > 0 || (currNode != null && currNode.left != null) || nodeStack == []
    }

    predicate CanTurnForward()
      reads this, currNode
    {
      currNode == null || currPos + 1 < currNode.val.n || currNode.right != null || nodeStack == []
    }

    /** A step back in a forward run: the item before, or null if there is none, if and only if it need not
        climb.  If it must, it goes to the first item of the node above instead, which is still ahead, or
        behind the last item of that node, which is not `inside` its items. */
    method TurnBack() returns (x: Option<Obj>, inside: bool)
      requires Valid() && !reverse && IsValid()
      modifies `nodeStack, `posStack, `currNode, `currPos
      ensures old(CanTurnBack()) ==> inside && x == End(old(Passed()))
      ensures !old(CanTurnBack()) ==> (inside <==> old(posStack[|posStack| - 1]) == 0)
      ensures !old(CanTurnBack()) && inside ==> (
                && |old(Objs(currNode.tree))| < |old(Remaining())|
                && x == Some(old(Remaining())[|old(Objs(currNode.tree))|]))
    {
      hide Objs, After, PastStack, AfterStack, Linked, Iterator.Known, Avl, Sorted, End, Iterator.Stacks, Live;
      TurnFacts();
      if nodeStack != [] { StackFacts(); }
      currPos := currPos - 1;
      if currPos < 0 {
        if currNode.left != null {
          nodeStack, posStack := nodeStack + [currNode], posStack + [currPos];
          currNode := currNode.left;
          LastBelow();
        } else if |nodeStack| > 0 {
          // no position noted in a forward run is negative, so one step up is enough
          var s := |nodeStack| - 1;
          currNode, currPos := nodeStack[s], posStack[s];
          nodeStack, posStack := nodeStack[..s], posStack[..s];
        }
      }
      inside := currPos < currNode.val.n;
      x := if 0 <= currPos && inside then Some(currNode.val.item[currPos]) else None;
    }

    lemma NodeHasItems()
      requires Valid() && IsValid()
      ensures currNode != null && SoundTree(currNode.tree) && 0 < |Objs(currNode.tree)|
    {
      ObjsSplit(currNode.tree);
    }

    lemma TurnFacts()
      requires Valid() && !reverse && IsValid()
      ensures Known(currNode) && this !in world && 0 <= currPos < currNode.val.n <= |currNode.val.item|
      ensures currNode.left != null ==> Known(currNode.left)
      ensures currPos > 0 ==> End(Passed()) == Some(currNode.val.item[currPos - 1])
      ensures currPos == 0 && currNode.left != null ==> End(Passed()) == End(Objs(currNode.left.tree))
      ensures currPos == 0 && currNode.left == null && nodeStack == [] ==> End(Passed()) == None
    {
      KnownBelow(currNode);
      hide Iterator.Known, Sorted, Avl, Linked;
      var t := currNode.tree;
      ObjsSplit(t);
      if t.left.Node? { ObjsSplit(t.left); }
      EndOfPassed(PastStack(trees, posStack), Objs(t.left), Live(t.val), currPos);
    }

    lemma StackFacts()
      requires Valid() && !reverse && IsValid() && nodeStack != []
      ensures |nodeStack| == |posStack|
      ensures var a, q := nodeStack[|nodeStack| - 1], posStack[|posStack| - 1];
        && 0 <= q && (q < a.val.n <==> q == 0) && 0 < a.val.n <= |a.val.item|
      ensures currPos == 0 && currNode.left == null && posStack[|posStack| - 1] == 0 ==> (
                && |Objs(currNode.tree)| < |Remaining()|
                && Remaining()[|Objs(currNode.tree)|] == nodeStack[|nodeStack| - 1].val.item[0])
    {
      hide Objs, Live, After, AfterStack, PastStack, SoundTree;
      TopOfStack();
      if currPos == 0 && currNode.left == null {
        KnownBelow(currNode);
        AheadOfFirst(trees, posStack, currNode.tree);
      }
    }

    /** Down from a node to the last item below it. */
    method LastBelow()
      requires currNode != null && Known(currNode) && this !in world
      modifies `nodeStack, `posStack, `currNode, `currPos
      ensures currNode != null && Known(currNode) && 0 <= currPos < currNode.val.n <= |currNode.val.item|
      ensures Some(currNode.val.item[currPos]) == old(End(Objs(currNode.tree)))
    {
      hide Objs, Avl, Sorted, Iterator.Known;
      KnownBelow(currNode);
      ghost var last := End(Objs(currNode.tree));
      currPos := currNode.val.n - 1;
      while currNode.right != null
        invariant currNode != null && Known(currNode) && SoundTree(currNode.tree) && currNode.val == currNode.tree.val
        invariant currPos == currNode.val.n - 1 && last == End(Objs(currNode.tree))
        decreases currNode.tree
      {
        KnownBelow(currNode);
        EndOfTree(currNode.tree);
        nodeStack, posStack := nodeStack + [currNode], posStack + [currPos];
        currNode := currNode.right;
        KnownBelow(currNode);
        currPos := currNode.val.n - 1;
      }
      KnownBelow(currNode);
      EndOfTree(currNode.tree);
    }

    /** A step forward in a reverse run: the item behind, or null if there is none, if and only if it need not
        climb.  If it must, it goes to the last item of the node above instead, which is still to come, or
        it ends the run although items are there. */
    method TurnForward() returns (x: Option<Obj>)
      requires Valid() && reverse && IsValid()
      modifies `nodeStack, `posStack, `currNode, `currPos
      ensures old(CanTurnForward()) ==> x == Head(old(PassedBack()))
      ensures !old(CanTurnForward()) && old(posStack[|posStack| - 1]) == -1 ==> (
                currPos == -1 && x == None && old(PassedBack()) != [])
      ensures !old(CanTurnForward()) && old(posStack[|posStack| - 1]) != -1 ==> (
                var n := |old(RemainingBack())| - 1 - |old(Objs(currNode.tree))|;
                0 <= n && x == Some(old(RemainingBack())[n]))
    {
      hide Objs, Before, PastBackStack, BeforeStack, Linked, Iterator.Known, Avl, Sorted, Head, Iterator.Stacks, Live;
      ForwardFacts();
      if nodeStack != [] { StackBackFacts(); }
      currPos := currPos + 1;
      if currPos >= currNode.val.n {
        if currNode.right != null {
          nodeStack, posStack := nodeStack + [currNode], posStack + [currPos];
          currNode := currNode.right;
          FirstBelow();
        } else {
          if |nodeStack| > 0 {
            // no position noted in a reverse run is behind the last item, so one step up is enough
            var s := |nodeStack| - 1;
            currNode, currPos := nodeStack[s], posStack[s];
            nodeStack, posStack := nodeStack[..s], posStack[..s];
          }
          if currPos >= currNode.val.n {
            currPos := -1;
          }
        }
      }
      x := if 0 <= currPos then Some(currNode.val.item[currPos]) else None;
    }

    lemma ForwardFacts()
      requires Valid() && reverse && IsValid()
      ensures Known(currNode) && this !in world && 0 <= currPos < currNode.val.n <= |currNode.val.item|
      ensures currNode.right != null ==> Known(currNode.right)
      ensures currPos + 1 < currNode.val.n ==> Head(PassedBack()) == Some(currNode.val.item[currPos + 1])
      ensures currPos + 1 == currNode.val.n && currNode.right != null ==>
                Head(PassedBack()) == Head(Objs(currNode.right.tree))
      ensures currPos + 1 == currNode.val.n && currNode.right == null && nodeStack == [] ==> Head(PassedBack()) == None
    {
      KnownBelow(currNode);
      hide Iterator.Known, Sorted, Avl, Linked;
      var t := currNode.tree;
      ObjsSplit(t);
      if t.right.Node? { ObjsSplit(t.right); }
      HeadOfPassed(PastBackStack(trees, posStack), Objs(t.right), Live(t.val), currPos + 1);
    }

    lemma StackBackFacts()
      requires Valid() && reverse && IsValid() && nodeStack != []
      ensures |nodeStack| == |posStack|
      ensures var a, q := nodeStack[|nodeStack| - 1], posStack[|posStack| - 1];
        && -1 <= q < a.val.n <= |a.val.item| && 0 < a.val.n
      ensures currPos + 1 == currNode.val.n && currNode.right == null ==> (
                var a, q, n := nodeStack[|nodeStack| - 1], posStack[|posStack| - 1],
                               |RemainingBack()| - 1 - |Objs(currNode.tree)|;
                && (q == -1 ==> PassedBack() != [])
                && (q != -1 ==> 0 <= n && RemainingBack()[n] == a.val.item[q]))
    {
      hide Objs, Live, Before, BeforeStack, PastBackStack, Linked, SoundTree;
      TopOfStack();
      if currPos + 1 == currNode.val.n && currNode.right == null {
        KnownBelow(currNode);
        BehindLast(trees, posStack, currNode.tree);
      }
    }

    /** The node on top of the stack. */
    lemma TopOfStack()
      requires Stacks() && nodeStack != []
      ensures |nodeStack| == |posStack| == |trees|
      ensures var a := nodeStack[|nodeStack| - 1];
        && a.val == trees[|trees| - 1].val && SoundTree(a.tree) && a.tree == trees[|trees| - 1]
        && 0 < a.val.n <= |a.val.item|
    {
      KnownBelow(nodeStack[|nodeStack| - 1]);
      ObjsSplit(trees[|trees| - 1]);
    }

    /** Down from a node to the first item below it. */
    method FirstBelow()
      requires currNode != null && Known(currNode) && this !in world
      modifies `nodeStack, `posStack, `currNode, `currPos
      ensures currNode != null && Known(currNode) && 0 == currPos < currNode.val.n <= |currNode.val.item|
      ensures Some(currNode.val.item[currPos]) == old(Head(Objs(currNode.tree)))
    {
      hide Objs, Avl, Sorted, Iterator.Known;
      KnownBelow(currNode);
      ghost var first := Head(Objs(currNode.tree));
      currPos := 0;
      while currNode.left != null
        invariant currNode != null && Known(currNode) && SoundTree(currNode.tree) && currNode.val == currNode.tree.val
        invariant currPos == 0 && first == Head(Objs(currNode.tree))
        decreases currNode.tree
      {
        KnownBelow(currNode);
        HeadOfTree(currNode.tree);
        nodeStack, posStack := nodeStack + [currNode], posStack + [currPos];
        currNode := currNode.left;
        KnownBelow(currNode);
      }
      KnownBelow(currNode);
      HeadOfTree(currNode.tree);
    }
  }

  /** A forward run visits exactly the objects of the index in order. */
  method VisitForward(t: Ttree) returns (visited: seq<Obj>)
    requires t.Valid()
    ensures visited == t.Contents()
  {
    hide Iterator.Valid, Iterator.Remaining, Iterator.RemainingBack, Ttree.Valid, Ttree.Contents, Iterator.Stacks;
    ghost var all := t.Contents();
    var it := new Iterator(t, false);
    var x := it.Current();
    visited := [];
    while x.Some?
      invariant it.Valid() && !it.reverse && fresh(it)
      invariant visited + it.Remaining() == all
      invariant x == Head(it.Remaining())
      decreases |it.Remaining()|
    {
      visited := visited + [x.value];
      x := it.Next();
    }
  }

  /** A reverse run visits exactly the objects of the index in reverse order. */
  method VisitBackward(t: Ttree) returns (visited: seq<Obj>)
    requires t.Valid()
    ensures |visited| == |t.Contents()|
    ensures forall i :: 0 <= i < |visited| ==> visited[i] == t.Contents()[|visited| - 1 - i]
  {
    hide Iterator.Valid, Iterator.Remaining, Iterator.RemainingBack, Ttree.Valid, Ttree.Contents, Iterator.Stacks;
    ghost var all := t.Contents();
    var it := new Iterator(t, true);
    var x := it.Current();
    visited := [];
    while x.Some?
      invariant it.Valid() && it.reverse && fresh(it)
      invariant |visited| <= |all| && it.RemainingBack() == all[..|all| - |visited|]
      invariant forall i :: 0 <= i < |visited| ==> visited[i] == all[|all| - 1 - i]
      invariant x == End(it.RemainingBack())
      decreases |it.RemainingBack()|
    {
      visited := visited + [x.value];
      x := it.Previous();
    }
  }

  /** In every index whose root has a left subtree, a step back right at the start of a forward run, where
      nothing has been passed, does not end the run: it jumps ahead. */
  method TurnedAtStart(t: Ttree) returns (x: Option<Obj>, ghost i: nat)
    requires t.Valid() && t.root != null && t.root.left != null
    ensures 0 < i < |t.Contents()| && x == Some(t.Contents()[i])
  {
    hide Iterator.Valid, Iterator.Remaining, Ttree.Valid, Ttree.Contents, Iterator.Stacks, Objs;
    var it := new Iterator(t, false);
    it.NodeHasItems();
    i := |Objs(it.currNode.tree)|;
    var inside;
    x, inside := it.TurnBack();
  }
}

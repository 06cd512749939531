/** The AVL tree whose keys are threaded on a circular list that starts at the tree object. */
module AvlIndex {
  import opened AvlTrees
  import opened AvlNodes
  import opened Rings
  import opened AvlKeys

  /** The keys of `t` are the elements of `ring` from `lo` on. */
  ghost predicate Threads(t: Tree<L2elem>, ring: seq<L2elem>, lo: nat) {
    0 < lo && lo + |Items(t)| <= |ring| && ring[lo..lo + |Items(t)|] == Items(t)
  }

  /** `ring` is linked, and lies within `links`. */
  ghost predicate RingIn(ring: seq<L2elem>, links: set<object>)
    reads links
  {
    (forall e :: e in ring ==> e in links) && IsRing(ring)
  }

  /** The list `more` has a new key at place `at`, or is what it was. */
  ghost predicate NewRing(ring: seq<L2elem>, more: seq<L2elem>, at: nat, insKey: L2elem, key: L2elem) {
    at <= |ring| && more == if key == insKey && insKey !in ring then Put(ring, at, insKey) else ring
  }

  lemma ThreadsBelow(t: Tree<L2elem>, ring: seq<L2elem>, lo: nat)
    requires Threads(t, ring, lo) && t.Node?
    ensures Threads(t.left, ring, lo) && Threads(t.right, ring, lo + |Items(t.left)| + 1)
    ensures ring[lo + |Items(t.left)|] == t.val
  {
    var s := ring[lo..lo + |Items(t)|];
    var i := |Items(t.left)|;
    assert ring[lo..lo + i] == s[..i];
    assert s[i] == t.val;
    assert ring[lo + i + 1..lo + i + 1 + |Items(t.right)|] == s[i + 1..];
  }

  /** Adds `insKey` below `n`, unless there is a key with its value, be it `insKey` itself: `key` is what
      is in the tree then.  `j` is the place of a new key among those below `n`. */
  method Insert(n: Node<L2elem>, insKey: L2elem, ghost ring: seq<L2elem>, ghost lo: nat, ghost links: set<object>)
    returns (p: Node<L2elem>, key: L2elem, higher: bool, ghost j: nat, ghost more: seq<L2elem>)
    requires n.Valid() && KeyTree(n.tree) && n.repr !! links
    requires RingIn(ring, links) && Threads(n.tree, ring, lo) && insKey in links
    requires insKey in ring <==> insKey in Items(n.tree)
    modifies n.repr, links
    ensures p.Valid() && fresh(p.repr - old(n.repr)) && AddOutcome(old(n.tree), p.tree, insKey, key, j, higher)
    ensures RingIn(more, links) && NewRing(ring, more, lo + j, insKey, key)
    decreases Height(n.tree), 2
  {
    hide Node.Valid, KeyTree, Avl, Height, Added, Threads, RingIn;
    ghost var t := n.tree;
    var diff := insKey.value - n.val.value;
    if diff < 0 {
      p, key, higher, j, more := InsertLeft(n, insKey, ring, lo, links);
    } else if diff > 0 {
      p, key, higher, j, more := InsertRight(n, insKey, ring, lo, links);
    } else {
      ThreadsBelow(t, ring, lo);
      assert n.val in Items(t);
      InRing(t, ring, lo, n.val);
      p, key, higher, j, more := n, n.val, false, 0, ring;
    }
  }

  lemma InRing(t: Tree<L2elem>, ring: seq<L2elem>, lo: nat, e: L2elem)
    requires Threads(t, ring, lo) && e in Items(t)
    ensures e in ring && lo <= |ring|
  {
    assert e in ring[lo..lo + |Items(t)|];
  }

  method InsertLeft(n: Node<L2elem>, insKey: L2elem, ghost ring: seq<L2elem>, ghost lo: nat, ghost links: set<object>)
    returns (p: Node<L2elem>, key: L2elem, higher: bool, ghost j: nat, ghost more: seq<L2elem>)
    requires n.Valid() && KeyTree(n.tree) && n.repr !! links && insKey.value < n.val.value
    requires RingIn(ring, links) && Threads(n.tree, ring, lo) && insKey in links
    requires insKey in ring <==> insKey in Items(n.tree)
    modifies n.repr, links
    ensures p.Valid() && fresh(p.repr - old(n.repr)) && AddOutcome(old(n.tree), p.tree, insKey, key, j, higher)
    ensures RingIn(more, links) && NewRing(ring, more, lo + j, insKey, key)
    decreases Height(n.tree), 1
  {
    hide Node.Valid, KeyTree, Avl, Height, Added, RingIn, NewRing;
    ghost var t := n.tree;
    WhereKeyIs(t, insKey);
    if n.left == null {
      n.Parts();
      more := AttachLeft(n, insKey, ring, lo, links);
      key, higher, j := insKey, true, 0;
    } else {
      KeyTreeParts(t);
      ThreadsBelow(t, ring, lo);
      key, higher, j, more := InsertBelowLeft(n, insKey, ring, lo, links);
    }
    p := n;
    if key == insKey && insKey !in ring { AddedLeft(t, n.tree.left, insKey, j, higher); }
    if higher {
      AddedLeftBalanced(t, n.tree.left, insKey, j);
      p, higher := n.LeftHigher();
    }
  }

  method InsertBelowLeft(n: Node<L2elem>, insKey: L2elem, ghost ring: seq<L2elem>, ghost lo: nat,
                         ghost links: set<object>)
    returns (key: L2elem, higher: bool, ghost j: nat, ghost more: seq<L2elem>)
    requires n.Valid() && n.left != null && KeyTree(n.tree.left) && n.repr !! links
    requires RingIn(ring, links) && Threads(n.tree.left, ring, lo) && insKey in links
    requires insKey in ring <==> insKey in Items(n.tree.left)
    modifies n.repr, links
    ensures n.Valid() && fresh(n.repr - old(n.repr)) && n.tree == old(n.tree).(left := n.tree.left)
    ensures AddOutcome(old(n.tree.left), n.tree.left, insKey, key, j, higher)
    ensures RingIn(more, links) && NewRing(ring, more, lo + j, insKey, key)
    decreases Height(n.tree), 0
  {
    hide Node.Valid, KeyTree, Avl, Height, Added, RingIn, NewRing, Ordered, AddOutcome;
    HeightBelow(n.tree);
    n.Parts();
    var l;
    l, key, higher, j, more := Insert(n.left, insKey, ring, lo, links);
    n.SetLeft(l);
  }

  /** A new leftmost key below `n`: in the list it comes right before the key of `n`. */
  method AttachLeft(n: Node<L2elem>, insKey: L2elem, ghost ring: seq<L2elem>, ghost lo: nat, ghost links: set<object>)
    returns (ghost more: seq<L2elem>)
    requires n.Valid() && n.left == null && n.repr !! links
    requires RingIn(ring, links) && Threads(n.tree, ring, lo) && insKey in links && insKey !in ring
    modifies n, links
    ensures n.Valid() && fresh(n.repr - old(n.repr)) && n.tree == old(n.tree).(left := n.tree.left)
    ensures old(n.tree).left == Leaf && Added(Leaf, n.tree.left, insKey, 0, true)
    ensures RingIn(more, links) && NewRing(ring, more, lo, insKey, insKey)
  {
    hide Node.Valid, Avl, Height, Added, IsRing;
    ThreadsBelow(n.tree, ring, lo);
    n.Parts();
    RingAround(ring, lo, links);
    var l := new Node(insKey);
    SingleKey(l.tree, insKey);
    insKey.LinkBefore(n.val, ring, lo);
    more := Put(ring, lo, insKey);
    assert RingIn(more, links);
    n.SetLeft(l);
  }

  method AttachRight(n: Node<L2elem>, insKey: L2elem, ghost ring: seq<L2elem>, ghost lo: nat, ghost links: set<object>)
    returns (ghost more: seq<L2elem>)
    requires n.Valid() && n.right == null && n.repr !! links
    requires RingIn(ring, links) && Threads(n.tree, ring, lo) && insKey in links && insKey !in ring
    modifies n, links
    ensures n.Valid() && fresh(n.repr - old(n.repr)) && n.tree == old(n.tree).(right := n.tree.right)
    ensures old(n.tree).right == Leaf && Added(Leaf, n.tree.right, insKey, 0, true)
    ensures RingIn(more, links) && NewRing(ring, more, lo + |Items(old(n.tree).left)| + 1, insKey, insKey)
  {
    hide Node.Valid, Avl, Height, Added, IsRing, Threads, Items;
    ThreadsBelow(n.tree, ring, lo);
    n.Parts();
    ghost var i := lo + |Items(n.tree.left)|;
    RingAround(ring, i, links);
    var r := new Node(insKey);
    SingleKey(r.tree, insKey);
    insKey.LinkAfter(n.val, ring, i);
    more := Put(ring, i + 1, insKey);
    assert RingIn(more, links);
    n.SetRight(r);
  }

  /** The neighbours of an element of the list are elements of the list. */
  lemma RingAround(ring: seq<L2elem>, i: nat, links: set<object>)
    requires RingIn(ring, links) && 0 < i < |ring|
    ensures ring[i].next in links && ring[i].prev in links
  {
    RingNext(ring, i);
    RingNext(ring, i - 1);
  }

  method InsertRight(n: Node<L2elem>, insKey: L2elem, ghost ring: seq<L2elem>, ghost lo: nat, ghost links: set<object>)
    returns (p: Node<L2elem>, key: L2elem, higher: bool, ghost j: nat, ghost more: seq<L2elem>)
    requires n.Valid() && KeyTree(n.tree) && n.repr !! links && insKey.value > n.val.value
    requires RingIn(ring, links) && Threads(n.tree, ring, lo) && insKey in links
    requires insKey in ring <==> insKey in Items(n.tree)
    modifies n.repr, links
    ensures p.Valid() && fresh(p.repr - old(n.repr)) && AddOutcome(old(n.tree), p.tree, insKey, key, j, higher)
    ensures RingIn(more, links) && NewRing(ring, more, lo + j, insKey, key)
    decreases Height(n.tree), 1
  {
    hide Node.Valid, KeyTree, Avl, Height, Added, RingIn, NewRing, Threads, Ordered, ReprOf;
    ghost var t := n.tree;
    WhereKeyIs(t, insKey);
    if n.right == null {
      n.Parts();
      more := AttachRight(n, insKey, ring, lo, links);
      key, higher, j := insKey, true, 0;
    } else {
      KeyTreeParts(t);
      ThreadsBelow(t, ring, lo);
      key, higher, j, more := InsertBelowRight(n, insKey, ring, lo + |Items(t.left)| + 1, links);
    }
    p := n;
    if key == insKey && insKey !in ring { AddedRight(t, n.tree.right, insKey, j, higher); }
    if higher {
      AddedRightBalanced(t, n.tree.right, insKey, j);
      p, higher := n.RightHigher();
    }
    j := |Items(t.left)| + 1 + j;
  }

  method InsertBelowRight(n: Node<L2elem>, insKey: L2elem, ghost ring: seq<L2elem>, ghost lo: nat,
                          ghost links: set<object>)
    returns (key: L2elem, higher: bool, ghost j: nat, ghost more: seq<L2elem>)
    requires n.Valid() && n.right != null && KeyTree(n.tree.right) && n.repr !! links
    requires RingIn(ring, links) && Threads(n.tree.right, ring, lo) && insKey in links
    requires insKey in ring <==> insKey in Items(n.tree.right)
    modifies n.repr, links
    ensures n.Valid() && fresh(n.repr - old(n.repr)) && n.tree == old(n.tree).(right := n.tree.right)
    ensures AddOutcome(old(n.tree.right), n.tree.right, insKey, key, j, higher)
    ensures RingIn(more, links) && NewRing(ring, more, lo + j, insKey, key)
    decreases Height(n.tree), 0
  {
    hide Node.Valid, KeyTree, Avl, Height, Added, RingIn, NewRing, Ordered, AddOutcome;
    HeightBelow(n.tree);
    n.Parts();
    var r;
    r, key, higher, j, more := Insert(n.right, insKey, ring, lo, links);
    n.SetRight(r);
  }

  // ---------- Removal ----------

  /** Restores the balance of `n`, whose left subtree lost a key and perhaps a level. */
  method FinishLeft(n: Node<L2elem>, lower: int, ghost t: Tree<L2elem>, ghost j: nat) returns (p: Node<L2elem>, h: int)
    requires n.Valid() && LeftTaken(t, n.tree, j, lower)
    modifies n.repr
    ensures p.Valid() && p.repr <= old(n.repr) && Taken(t, p.tree, j, h) && 0 <= h
  {
    hide Node.Valid, KeyTree, Avl, Height, Taken, Items;
    LeftTakenDone(t, n.tree, j, lower);
    p, h := n, 0;
    if lower > 0 {
      p, h := n.LeftLower();
    }
  }

  method FinishRight(n: Node<L2elem>, lower: int, ghost t: Tree<L2elem>, ghost j: nat) returns (p: Node<L2elem>, h: int)
    requires n.Valid() && RightTaken(t, n.tree, j, lower)
    modifies n.repr
    ensures p.Valid() && p.repr <= old(n.repr) && Taken(t, p.tree, j, h) && 0 <= h
  {
    hide Node.Valid, KeyTree, Avl, Height, Taken, Items;
    RightTakenDone(t, n.tree, j, lower);
    p, h := n, 0;
    if lower > 0 {
      p, h := n.RightLower();
    }
  }

  /** The list `less` has lost the key at place `at`, or is what it was. */
  ghost predicate LessRing(ring: seq<L2elem>, less: seq<L2elem>, at: nat, found: bool) {
    if found then at < |ring| && less == Drop(ring, at) else less == ring
  }

  /** `k` is `t` without its greatest key, which is `key`. */
  ghost predicate GreatestTaken(t: Tree<L2elem>, k: Tree<L2elem>, key: L2elem, h: int) {
    |Items(t)| > 0 && key == Items(t)[|Items(t)| - 1] && Taken(t, k, |Items(t)| - 1, h)
  }

  /** Takes the rightmost node out below `n`; its key goes to node `q`.  The node itself is `gone`, and can be
      deleted. */
  method RemoveGreatest(n: Node<L2elem>, q: Node<L2elem>) returns (p: Node?<L2elem>, h: int, gone: Node<L2elem>)
    requires n.Valid() && KeyTree(n.tree) && q !in n.repr
    modifies n.repr, q`val
    ensures IsTree(p) && ReprOf(p) <= old(n.repr) && GreatestTaken(old(n.tree), TreeOf(p), q.val, h)
    ensures gone in old(n.repr) && gone !in ReprOf(p)
    decreases Height(n.tree), 1
  {
    hide Node.Valid, KeyTree, Avl, Height;
    ghost var t := n.tree;
    KeyTreeParts(t);
    n.Parts();
    if n.right != null {
      h, gone := RemoveGreatestBelow(n, q);
      p := n;
      TakenRight(t, n.tree.right, |Items(t.right)| - 1, h);
      p, h := FinishRight(n, h, t, |Items(t)| - 1);
    } else {
      TakenNode(t);
      q.val := n.val;
      gone := n;
      p, h := n.left, 1;
    }
  }

  method RemoveGreatestBelow(n: Node<L2elem>, q: Node<L2elem>) returns (h: int, gone: Node<L2elem>)
    requires n.Valid() && n.right != null && KeyTree(n.tree.right) && q !in n.repr
    modifies n.repr, q`val
    ensures n.Valid() && n.repr <= old(n.repr) && n.tree == old(n.tree).(right := n.tree.right)
    ensures GreatestTaken(old(n.tree).right, n.tree.right, q.val, h)
    ensures gone in old(n.repr) && gone !in n.repr
    decreases Height(n.tree), 0
  {
    hide Node.Valid, KeyTree, Avl, Height, GreatestTaken;
    HeightBelow(n.tree);
    n.Parts();
    var r;
    r, h, gone := RemoveGreatest(n.right, q);
    n.SetRight(r);
  }

  /** Takes `delKey` itself, not just a key like it, out below `n` and off the list: 1 if the tree is
      one level lower, 0 if not, -1 if it is not there.  `j` is its place among the keys below `n`. */
  method Remove(n: Node<L2elem>, delKey: L2elem, ghost ring: seq<L2elem>, ghost lo: nat, ghost links: set<object>)
    returns (p: Node?<L2elem>, h: int, ghost j: nat, ghost less: seq<L2elem>)
    requires n.Valid() && KeyTree(n.tree) && n.repr !! links && RingIn(ring, links) && Threads(n.tree, ring, lo)
    modifies n.repr, links
    ensures IsTree(p) && ReprOf(p) <= old(n.repr) && TakeOutcome(old(n.tree), TreeOf(p), delKey, j, h)
    ensures RingIn(less, links) && LessRing(ring, less, lo + j, h != -1)
    decreases Height(n.tree), 2
  {
    hide Node.Valid, KeyTree, Avl, Height, RingIn, Taken, Threads;
    ghost var t := n.tree;
    WhereKeyIs(t, delKey);
    KeyTreeParts(t);
    ThreadsBelow(t, ring, lo);
    n.Parts();
    var diff := delKey.value - n.val.value;
    if diff < 0 {
      if n.left == null {
        p, h, j, less := n, -1, 0, ring;
      } else {
        p, h, j, less := RemoveLeft(n, delKey, ring, lo, links);
      }
    } else if diff > 0 {
      if n.right == null {
        p, h, j, less := n, -1, 0, ring;
      } else {
        p, h, j, less := RemoveRight(n, delKey, ring, lo, links);
      }
    } else if n.val != delKey {
      p, h, j, less := n, -1, 0, ring;
    } else {
      j := |Items(t.left)|;
      var gone;
      p, h, gone, less := RemoveNode(n, ring, lo, links);
    }
  }

  method RemoveLeft(n: Node<L2elem>, delKey: L2elem, ghost ring: seq<L2elem>, ghost lo: nat, ghost links: set<object>)
    returns (p: Node<L2elem>, h: int, ghost j: nat, ghost less: seq<L2elem>)
    requires n.Valid() && n.left != null && KeyTree(n.tree) && n.repr !! links
    requires RingIn(ring, links) && Threads(n.tree.left, ring, lo)
    requires (delKey in Items(n.tree) <==> delKey in Items(n.tree.left))
    modifies n.repr, links
    ensures p.Valid() && p.repr <= old(n.repr) && TakeOutcome(old(n.tree), p.tree, delKey, j, h)
    ensures RingIn(less, links) && LessRing(ring, less, lo + j, h != -1)
    decreases Height(n.tree), 1
  {
    hide Node.Valid, KeyTree, Avl, Height, Taken, RingIn, Items, LeftTaken, RightTaken;
    ghost var t := n.tree;
    KeyTreeParts(t);
    h, j, less := RemoveBelowLeft(n, delKey, ring, lo, links);
    p := n;
    if h != -1 {
      TakenLeft(t, n.tree.left, j, h);
      p, h := FinishLeft(n, h, t, j);
    }
  }

  method RemoveBelowLeft(n: Node<L2elem>, delKey: L2elem, ghost ring: seq<L2elem>, ghost lo: nat,
                         ghost links: set<object>)
    returns (h: int, ghost j: nat, ghost less: seq<L2elem>)
    requires n.Valid() && n.left != null && KeyTree(n.tree.left) && n.repr !! links
    requires RingIn(ring, links) && Threads(n.tree.left, ring, lo)
    modifies n.repr, links
    ensures n.Valid() && n.repr <= old(n.repr) && n.tree == old(n.tree).(left := n.tree.left)
    ensures TakeOutcome(old(n.tree).left, n.tree.left, delKey, j, h)
    ensures RingIn(less, links) && LessRing(ring, less, lo + j, h != -1)
    decreases Height(n.tree), 0
  {
    hide Node.Valid, KeyTree, Avl, Height, RingIn, LessRing, TakeOutcome;
    HeightBelow(n.tree);
    n.Parts();
    var l;
    l, h, j, less := Remove(n.left, delKey, ring, lo, links);
    n.SetLeft(l);
  }

  method RemoveRight(n: Node<L2elem>, delKey: L2elem, ghost ring: seq<L2elem>, ghost lo: nat, ghost links: set<object>)
    returns (p: Node<L2elem>, h: int, ghost j: nat, ghost less: seq<L2elem>)
    requires n.Valid() && n.right != null && KeyTree(n.tree) && n.repr !! links && RingIn(ring, links)
    requires Threads(n.tree.right, ring, lo + |Items(n.tree.left)| + 1)
    requires delKey in Items(n.tree) <==> delKey in Items(n.tree.right)
    modifies n.repr, links
    ensures p.Valid() && p.repr <= old(n.repr) && TakeOutcome(old(n.tree), p.tree, delKey, j, h)
    ensures RingIn(less, links) && LessRing(ring, less, lo + j, h != -1)
    decreases Height(n.tree), 1
  {
    hide Node.Valid, KeyTree, Avl, Height, Taken, RingIn, Items, RightTaken;
    ghost var t := n.tree;
    KeyTreeParts(t);
    ghost var before := |Items(t.left)| + 1;
    var h0;
    ghost var i;
    h0, i, less := RemoveBelowRight(n, delKey, ring, lo + before, links);
    j := before + i;
    if h0 == -1 {
      return n, -1, j, less;
    }
    TakenRight(t, n.tree.right, i, h0);
    p, h := FinishRight(n, h0, t, j);
  }

  method RemoveBelowRight(n: Node<L2elem>, delKey: L2elem, ghost ring: seq<L2elem>, ghost lo: nat,
                          ghost links: set<object>)
    returns (h: int, ghost j: nat, ghost less: seq<L2elem>)
    requires n.Valid() && n.right != null && KeyTree(n.tree.right) && n.repr !! links
    requires RingIn(ring, links) && Threads(n.tree.right, ring, lo)
    modifies n.repr, links
    ensures n.Valid() && n.repr <= old(n.repr) && n.tree == old(n.tree).(right := n.tree.right)
    ensures TakeOutcome(old(n.tree).right, n.tree.right, delKey, j, h)
    ensures RingIn(less, links) && LessRing(ring, less, lo + j, h != -1)
    decreases Height(n.tree), 0
  {
    hide Node.Valid, KeyTree, Avl, Height, RingIn, LessRing, TakeOutcome;
    HeightBelow(n.tree);
    n.Parts();
    var r;
    r, h, j, less := Remove(n.right, delKey, ring, lo, links);
    n.SetRight(r);
  }

  /** The key of `n` goes, and with it the node `gone`: `n` itself, or the one whose key took the place. */
  method RemoveNode(n: Node<L2elem>, ghost ring: seq<L2elem>, ghost lo: nat, ghost links: set<object>)
    returns (p: Node?<L2elem>, h: int, gone: Node<L2elem>, ghost less: seq<L2elem>)
    requires n.Valid() && KeyTree(n.tree) && n.repr !! links && RingIn(ring, links) && Threads(n.tree, ring, lo)
    modifies n.repr, links
    ensures IsTree(p) && ReprOf(p) <= old(n.repr) && Taken(old(n.tree), TreeOf(p), |Items(old(n.tree).left)|, h)
    ensures gone in old(n.repr) && gone !in ReprOf(p)
    ensures RingIn(less, links) && LessRing(ring, less, lo + |Items(old(n.tree).left)|, true) && 0 <= h
    decreases Height(n.tree), 1
  {
    hide Node.Valid, KeyTree, Avl, Height, Taken, RingIn;
    ghost var t := n.tree;
    var delKey := n.val;
    ThreadsBelow(t, ring, lo);
    TakenNode(t);
    n.Parts();
    h, gone := 1, n;
    if n.right == null {
      p := n.left;
    } else if n.left == null {
      p := n.right;
    } else {
      p, h, gone := FillFromLeft(n);
    }
    less := UnlinkAt(delKey, ring, lo + |Items(t.left)|, links);
  }

  method UnlinkAt(e: L2elem, ghost ring: seq<L2elem>, ghost i: nat, ghost links: set<object>)
      returns (ghost less: seq<L2elem>)
    requires RingIn(ring, links) && 0 < i < |ring| && ring[i] == e
    modifies links
    ensures RingIn(less, links) && less == Drop(ring, i)
  {
    RingAround(ring, i, links);
    e.Unlink(ring, i);
    less := Drop(ring, i);
  }

  /** The greatest key of the left subtree takes the place of the key of `n`. */
  method FillFromLeft(n: Node<L2elem>) returns (p: Node<L2elem>, h: int, gone: Node<L2elem>)
    requires n.Valid() && KeyTree(n.tree) && n.left != null
    modifies n.repr
    ensures p.Valid() && p.repr <= old(n.repr) && Taken(old(n.tree), p.tree, |Items(old(n.tree).left)|, h) && 0 <= h
    ensures gone in old(n.repr) && gone !in p.repr
    decreases Height(n.tree), 1
  {
    hide Node.Valid, KeyTree, Avl, Height, Taken, Items;
    ghost var t := n.tree;
    KeyTreeParts(t);
    var lower;
    lower, gone := MoveGreatestUp(n);
    TakenHere(t, n.tree.left, lower);
    p, h := FinishLeft(n, lower, t, |Items(t.left)|);
  }

  method MoveGreatestUp(n: Node<L2elem>) returns (lower: int, gone: Node<L2elem>)
    requires n.Valid() && n.left != null && KeyTree(n.tree.left)
    modifies n.repr
    ensures n.Valid() && n.repr <= old(n.repr)
    ensures n.tree == old(n.tree).(left := n.tree.left, val := n.tree.val)
    ensures GreatestTaken(old(n.tree).left, n.tree.left, n.tree.val, lower) && 0 <= lower <= 1
    ensures old(n.tree).left.Node?
    ensures gone in old(n.repr) && gone !in n.repr
    decreases Height(n.tree), 0
  {
    hide Node.Valid, KeyTree, Avl, Height;
    n.Parts();
    var l;
    l, lower, gone := RemoveGreatest(n.left, n);
    n.SetLeft(l);
  }

  /** The tree.  It is itself an element of the list of its keys, `head`. */
  class AvlTree {
    const head: L2elem
    var root: Node?<L2elem>

    ghost var ring: seq<L2elem>    // the head, and the keys
    ghost var links: set<object>   // the elements of the list

    ghost function Keys(): seq<L2elem>
      requires ring != []
      reads `ring
    {
      ring[1..]
    }

    /** The keys of the tree in order are the elements of the list in order. */
    ghost predicate Valid()
      reads this, root, ReprOf(root), links
    {
      && ring != [] && ring[0] == head && RingIn(ring, links)
      && IsTree(root) && KeyTree(TreeOf(root)) && Items(TreeOf(root)) == ring[1..]
      && ReprOf(root) !! links && this !in ReprOf(root) && this !in links
    }

    constructor ()
      ensures Valid() && Keys() == [] && fresh(head)
    {
      var e := new L2elem(0);
      head := e;
      root := null;
      ring, links := [e], {e};
      new;
      Alone(ring);
    }

    /** Adds the key and returns it, unless the tree has one of the same value, be it this very key:
        that is returned then, and nothing changes. */
    method Add(key: L2elem) returns (found: L2elem)
      requires Valid() && key != head && key !in ReprOf(root)
      modifies this, ReprOf(root), links, key
      ensures Valid() && fresh(ReprOf(root) - old(ReprOf(root)))
      ensures if found == key && key !in old(Keys())
              then exists j: nat :: j <= |old(Keys())| && Keys() == Put(old(Keys()), j, key)
              else found in old(Keys()) && found.value == key.value && Keys() == old(Keys())
    {
      if root == null {
        AddFirst(key);
        found := key;
      } else {
        found := AddBelow(key);
      }
    }

    method AddFirst(key: L2elem)
      requires Valid() && key != head && root == null
      modifies this, links, key
      ensures Valid() && fresh(ReprOf(root)) && old(Keys()) == [] && Keys() == Put([], 0, key)
    {
      hide KeyTree, IsRing, Node.Valid;
      EmptyKeys();
      RingNext(ring, 0);
      root := new Node(key);
      SingleKey(root.tree, key);
      key.LinkAfter(head, ring, 0);
      ring, links := Put(ring, 1, key), links + {key};
    }

    method AddBelow(key: L2elem) returns (found: L2elem)
      requires Valid() && key != head && key !in ReprOf(root) && root != null
      modifies this, ReprOf(root), links, key
      ensures Valid() && fresh(ReprOf(root) - old(ReprOf(root)))
      ensures if found == key && key !in old(Keys())
              then exists j: nat :: j <= |old(Keys())| && Keys() == Put(old(Keys()), j, key)
              else found in old(Keys()) && found.value == key.value && Keys() == old(Keys())
    {
      hide KeyTree, IsRing, Items, Node.Valid, RingIn;
      MoreLinks(ring, links, key);
      links := links + {key};
      ghost var before := ring;
      var p, k, higher;
      ghost var j, more;
      p, k, higher, j, more := Insert(root, key, ring, 1, links);
      PutBehindHead(ring, j, key);
      root, found, ring := p, k, more;
    }

    /** Takes the key itself out of tree and list; false if it is not in the tree. */
    method Take(key: L2elem) returns (found: bool)
      requires Valid()
      modifies this, ReprOf(root), links
      ensures Valid() && ReprOf(root) <= old(ReprOf(root))
      ensures found <==> key in old(Keys())
      ensures if found
              then exists j: nat :: j < |old(Keys())| && old(Keys())[j] == key && Keys() == Drop(old(Keys()), j)
              else Keys() == old(Keys())
    {
      hide KeyTree, IsRing, Items, Node.Valid, RingIn;
      EmptyKeys();
      if root == null {
        return false;
      }
      var p, h;
      ghost var j, less;
      p, h, j, less := Remove(root, key, ring, 1, links);
      found := h >= 0;
      if found { DropBehindHead(ring, j); }
      root, ring := p, less;
    }

    /** The key with the value of `key`, if there is one. */
    method Search(key: L2elem) returns (found: L2elem?)
      requires Valid()
      ensures if found == null then forall e :: e in Keys() ==> e.value != key.value
              else found in Keys() && found.value == key.value
    {
      hide IsRing;
      var np: Node?<L2elem> := root;
      while np != null
        invariant IsTree(np) && KeyTree(TreeOf(np))
        invariant forall e :: e in Items(TreeOf(np)) ==> e in Keys()
        invariant forall e :: e in Keys() && e.value == key.value ==> e in Items(TreeOf(np))
        decreases TreeOf(np)
      {
        KeyTreeParts(np.tree);
        np.Parts();
        var diff := key.value - np.val.value;
        SearchBelow(np.tree, key.value);
        if diff < 0 {
          np := np.left;
        } else if diff > 0 {
          np := np.right;
        } else {
          assert np.val in Items(np.tree);
          return np.val;
        }
      }
      return null;
    }
  }

  lemma MoreLinks(ring: seq<L2elem>, links: set<object>, key: L2elem)
    requires RingIn(ring, links)
    ensures RingIn(ring, links + {key})
  {
  }

  lemma PutBehindHead(ring: seq<L2elem>, j: nat, key: L2elem)
    requires 1 + j <= |ring|
    ensures Put(ring, 1 + j, key)[1..] == Put(ring[1..], j, key) && Put(ring, 1 + j, key)[0] == ring[0]
  {
  }

  lemma DropBehindHead(ring: seq<L2elem>, j: nat)
    requires 1 + j < |ring|
    ensures Drop(ring, 1 + j)[1..] == Drop(ring[1..], j) && Drop(ring, 1 + j)[0] == ring[0]
    ensures ring[1..][j] == ring[1 + j]
  {
  }

  lemma SearchBelow(t: Tree<L2elem>, value: int)
    requires KeyTree(t) && t.Node?
    ensures forall e :: e in Items(t.left) || e in Items(t.right) ==> e in Items(t)
    ensures value < t.val.value ==> forall e :: e in Items(t) && e.value == value ==> e in Items(t.left)
    ensures value > t.val.value ==> forall e :: e in Items(t) && e.value == value ==> e in Items(t.right)
  {
    KeyTreeParts(t);
  }

  lemma EmptyKeys()
    ensures KeyTree(Leaf) && Items<L2elem>(Leaf) == []
  {
  }

  lemma Alone(ring: seq<L2elem>)
    requires |ring| == 1 && ring[0].next == ring[0] && ring[0].prev == ring[0]
    ensures IsRing(ring)
  {
  }
}

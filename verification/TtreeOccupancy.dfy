/** The documentation says that a node with two subtrees always has at least `MIN_ITEMS` items.
    Restoring the balance does not keep that: the node that a turn brings up gets two subtrees whatever
    it holds.  Here is, for every tree and object, when an insertion or a removal keeps it. */
module TtreeOccupancy {
  import opened AvlTrees
  import opened TtreePages
  import opened TtreeSteps
  import opened TtreeShapes

  /** Every node with two subtrees has the minimum of items. */
  predicate WellOccupied(s: Tree<nat>) {
    match s
    case Leaf => true
    case Node(l, n, _, r) => WellOccupied(l) && WellOccupied(r) && (l.Node? && r.Node? ==> MIN_ITEMS <= n)
  }

  // ---------- One turn ----------

  /** The items of the node that a turn after an insertion on the left brings up. */
  function RisenFromLeft(s: Tree<nat>): nat
    requires LeftGrew(s) && s.balance < 0
  {
    if s.left.balance < 0 then s.left.val else LeftInnerNode(s); s.left.right.val
  }

  function RisenFromRight(s: Tree<nat>): nat
    requires RightGrew(s) && s.balance > 0
  {
    if s.right.balance > 0 then s.right.val else RightInnerNode(s); s.right.left.val
  }

  /** The occupancy is kept exactly when no turn is made or the node that comes up has enough items. */
  lemma {:induction false} OccupancyAfterLeft(s: Tree<nat>)
    requires LeftGrew(s) && WellOccupied(s)
    ensures WellOccupied(AfterLeftGrew(s)) <==> s.balance < 0 ==> MIN_ITEMS <= RisenFromLeft(s)
  {
    if s.balance < 0 {
      assert WellOccupied(s.left.left) && WellOccupied(s.left.right);
      if s.left.balance < 0 {
        assert s.left.left.Node?;
      } else {
        LeftInnerNode(s);
        var k := AfterLeftGrew(s);
        assert WellOccupied(k.left) && WellOccupied(k.right);
      }
    }
  }

  lemma {:induction false} OccupancyAfterRight(s: Tree<nat>)
    requires RightGrew(s) && WellOccupied(s)
    ensures WellOccupied(AfterRightGrew(s)) <==> s.balance > 0 ==> MIN_ITEMS <= RisenFromRight(s)
  {
    if s.balance > 0 {
      assert WellOccupied(s.right.left) && WellOccupied(s.right.right);
      if s.right.balance > 0 {
        assert s.right.right.Node?;
      } else {
        RightInnerNode(s);
        var k := AfterRightGrew(s);
        assert WellOccupied(k.left) && WellOccupied(k.right);
      }
    }
  }

  /** The items of the node that comes up when the other side of `s` has become too low. */
  function RisenLeft(s: Tree<nat>): nat
    requires s.Node? && (s.balance > 0 ==> s.right.Node?)
  {
    if s.balance <= 0 then s.val else s.right.val
  }

  function RisenRight(s: Tree<nat>): nat
    requires s.Node? && (s.balance < 0 ==> s.left.Node?)
  {
    if s.balance >= 0 then s.val else s.left.val
  }

  /** After a removal on the left the turn takes place on the right: that side must be well occupied, and
      the node that comes up have enough items. */
  lemma {:induction false} OccupancyAfterLeftShrank(s: Tree<nat>)
    requires LeftShrank(s) && WellOccupied(s.right) && (s.left.Node? && s.right.Node? ==> MIN_ITEMS <= s.val)
    ensures s.balance > 0 ==> s.right.Node? && (s.right.balance < 0 ==> s.right.left.Node?)
    ensures WellOccupied(AfterLeftShrank(s))
            <==> WellOccupied(s.left) && (s.balance > 0 ==> MIN_ITEMS <= RisenRight(s.right))
  {
    if s.balance > 0 {
      LeftShrankNode(s);
      var k := AfterLeftShrank(s);
      assert WellOccupied(s.right.left) && WellOccupied(s.right.right);
      if s.right.balance >= 0 {
        assert s.right.right.Node?;
      } else {
        assert WellOccupied(s.right.left.left) && WellOccupied(s.right.left.right);
        assert WellOccupied(k.right);
      }
    }
  }

  lemma {:induction false} OccupancyAfterRightShrank(s: Tree<nat>)
    requires RightShrank(s) && WellOccupied(s.left) && (s.left.Node? && s.right.Node? ==> MIN_ITEMS <= s.val)
    ensures s.balance < 0 ==> s.left.Node? && (s.left.balance > 0 ==> s.left.right.Node?)
    ensures WellOccupied(AfterRightShrank(s))
            <==> WellOccupied(s.right) && (s.balance < 0 ==> MIN_ITEMS <= RisenLeft(s.left))
  {
    if s.balance < 0 {
      RightShrankNode(s);
      var k := AfterRightShrank(s);
      assert WellOccupied(s.left.left) && WellOccupied(s.left.right);
      if s.left.balance <= 0 {
        assert s.left.left.Node?;
      } else {
        assert WellOccupied(s.left.right.left) && WellOccupied(s.left.right.right);
        assert WellOccupied(k.left);
      }
    }
  }

  // ---------- A whole insertion ----------

  predicate Childless(t: Tree<Page>) { t.Node? && t.left.Leaf? && t.right.Leaf? }

  /** On its way the insertion comes to a leaf, full as it is, and makes a new node on the inner side of
      it, while the leaf's parent leans to that leaf: a double turn will bring the new node up. */
  predicate InsertBreaks(t: Tree<Page>, obj: Obj)
    requires AllFilled(t)
  {
    t.Node? &&
    match InsertWay(t, obj)
    case Here => false
    case ToLeft(x) =>
      InsertBreaks(t.left, x) || (t.balance < 0 && Childless(t.left) && InsertWay(t.left, x).ToRight?)
    case ToRight(x) =>
      InsertBreaks(t.right, x) || (t.balance > 0 && Childless(t.right) && InsertWay(t.right, x).ToLeft?)
  }

  ghost predicate Grows(t: Tree<Page>, obj: Obj)
    requires Avl(t) && AllFilled(t)
  {
    Height(AfterInsert(t, obj)) > Height(t)
  }

  lemma {:induction false} GrewLeft(s: Tree<nat>, l: Tree<nat>)
    requires Avl(s) && s.Node? && Leans(s.left, l)
    ensures Height(GrownLeft(s, l)) > Height(s) <==> Height(l) > Height(s.left) && s.balance == 0
    ensures Height(l) > Height(s.left) && s.balance == 0 ==> GrownLeft(s, l) == Node(l, s.val, -1, s.right)
  {
    if Height(l) > Height(s.left) { LeftGrewBalanced(s.(left := l)); }
  }

  lemma {:induction false} GrewRight(s: Tree<nat>, r: Tree<nat>)
    requires Avl(s) && s.Node? && Leans(s.right, r)
    ensures Height(GrownRight(s, r)) > Height(s) <==> Height(r) > Height(s.right) && s.balance == 0
    ensures Height(r) > Height(s.right) && s.balance == 0 ==> GrownRight(s, r) == Node(s.left, s.val, 1, r)
  {
    if Height(r) > Height(s.right) { RightGrewBalanced(s.(right := r)); }
  }

  /** An even node has two subtrees or none. */
  lemma {:induction false} Even(t: Tree<Page>)
    requires Avl(t) && t.Node? && t.balance == 0
    ensures t.left.Node? <==> t.right.Node?
    ensures WellOccupied(Counts(t)) && t.left.Node? ==> MIN_ITEMS <= t.val.n
  {
    CountsOf(t);
  }

  /** A node that is higher after the insertion was even and has its old items, of which there are enough
      for two subtrees; and no turn was made. */
  lemma {:induction false} GrownNode(t: Tree<Page>, obj: Obj)
    requires Avl(t) && AllFilled(t) && t.Node? && Grows(t, obj)
    ensures t.balance == 0 && !InsertWay(t, obj).Here? && !InsertBreaks(t, obj)
    ensures var w := InsertWay(t, obj);
      && (w.ToLeft? ==> Grows(t.left, w.x))
      && (w.ToLeft? ==> AfterInsert(t, obj) == Node(AfterInsert(t.left, w.x), t.val.n, -1, Counts(t.right)))
      && (w.ToRight? ==> Grows(t.right, w.x))
      && (w.ToRight? ==> AfterInsert(t, obj) == Node(Counts(t.left), t.val.n, 1, AfterInsert(t.right, w.x)))
    ensures WellOccupied(Counts(t)) ==> MIN_ITEMS <= t.val.n
  {
    hide GrownLeft, GrownRight, WellOccupied, Leans, Counts;
    CountsOf(t);
    if t.balance == 0 { Even(t); }
    match InsertWay(t, obj)
    case Here => assert false;
    case ToLeft(x) =>
      GrewLeft(Counts(t), AfterInsert(t.left, x));
      if t.left.Node? { GrownNode(t.left, x); }
    case ToRight(x) =>
      GrewRight(Counts(t), AfterInsert(t.right, x));
      if t.right.Node? { GrownNode(t.right, x); }
  }

  /** A subtree grew, and the tree leans to it: what the turn brings up. */
  lemma {:induction false} TurnedUpLeft(t: Tree<Page>, x: Obj)
    requires Avl(t) && AllFilled(t) && t.Node? && t.balance < 0 && Grows(t.left, x)
    requires WellOccupied(Counts(t)) && WellOccupied(AfterInsert(t.left, x))
    ensures t.left.Node?
    ensures WellOccupied(GrownLeft(Counts(t), AfterInsert(t.left, x)))
            <==> !(Childless(t.left) && InsertWay(t.left, x).ToRight?)
  {
    hide InsertBreaks, AfterLeftGrew, Grows;
    var l := t.left;
    var k := Counts(t).(left := AfterInsert(l, x));
    CountsOf(t);
    GrownNode(l, x);
    Even(l);
    var w := InsertWay(l, x);
    if w.ToRight? && l.right.Node? { GrownNode(l.right, w.x); }
    CountsOf(l);
    OccupancyAfterLeft(k);
  }

  lemma {:induction false} TurnedUpRight(t: Tree<Page>, x: Obj)
    requires Avl(t) && AllFilled(t) && t.Node? && t.balance > 0 && Grows(t.right, x)
    requires WellOccupied(Counts(t)) && WellOccupied(AfterInsert(t.right, x))
    ensures t.right.Node?
    ensures WellOccupied(GrownRight(Counts(t), AfterInsert(t.right, x)))
            <==> !(Childless(t.right) && InsertWay(t.right, x).ToLeft?)
  {
    hide InsertBreaks, AfterRightGrew, Grows;
    var r := t.right;
    var k := Counts(t).(right := AfterInsert(r, x));
    CountsOf(t);
    GrownNode(r, x);
    Even(r);
    var w := InsertWay(r, x);
    if w.ToLeft? && r.left.Node? { GrownNode(r.left, w.x); }
    CountsOf(r);
    OccupancyAfterRight(k);
  }

  /** A full leaf grows when an insertion goes on to either side of it. */
  lemma {:induction false} LeafGrows(t: Tree<Page>, obj: Obj)
    requires Avl(t) && AllFilled(t) && Childless(t) && !InsertWay(t, obj).Here?
    ensures Grows(t, obj)
  {
    hide GrownLeft, GrownRight, Counts, Leans;
    CountsOf(t);
    match InsertWay(t, obj)
    case ToLeft(x) => GrewLeft(Counts(t), AfterInsert(Leaf, x));
    case ToRight(x) => GrewRight(Counts(t), AfterInsert(Leaf, x));
    case Here => assert false;
  }

  /** Without a turn at the node itself: it gets a second subtree only if it is full. */
  lemma {:induction false} NoTurnLeft(t: Tree<Page>, obj: Obj, x: Obj)
    requires Avl(t) && AllFilled(t) && t.Node? && InsertWay(t, obj) == ToLeft(x)
    requires WellOccupied(Counts(t)) && !(Grows(t.left, x) && t.balance < 0)
    ensures WellOccupied(GrownLeft(Counts(t), AfterInsert(t.left, x))) <==> WellOccupied(AfterInsert(t.left, x))
  {
    CountsOf(t);
  }

  lemma {:induction false} NoTurnRight(t: Tree<Page>, obj: Obj, x: Obj)
    requires Avl(t) && AllFilled(t) && t.Node? && InsertWay(t, obj) == ToRight(x)
    requires WellOccupied(Counts(t)) && !(Grows(t.right, x) && t.balance > 0)
    ensures WellOccupied(GrownRight(Counts(t), AfterInsert(t.right, x))) <==> WellOccupied(AfterInsert(t.right, x))
  {
    CountsOf(t);
  }

  /** For every tree and object: an insertion keeps the occupancy unless it ends in that one way. */
  lemma {:induction false} InsertOccupancy(t: Tree<Page>, obj: Obj)
    requires Avl(t) && AllFilled(t) && WellOccupied(Counts(t))
    ensures WellOccupied(AfterInsert(t, obj)) <==> !InsertBreaks(t, obj)
  {
    hide GrownLeft, GrownRight, Grows, Counts, Leans;
    if t.Node? {
      CountsOf(t);
      match InsertWay(t, obj)
      case Here =>
      case ToLeft(x) =>
        InsertOccupancy(t.left, x);
        if Grows(t.left, x) && t.balance < 0 {
          if t.left.Node? { GrownNode(t.left, x); }
          TurnedUpLeft(t, x);
        } else {
          NoTurnLeft(t, obj, x);
          if t.balance < 0 && Childless(t.left) && InsertWay(t.left, x).ToRight? { LeafGrows(t.left, x); }
        }
      case ToRight(x) =>
        InsertOccupancy(t.right, x);
        if Grows(t.right, x) && t.balance > 0 {
          if t.right.Node? { GrownNode(t.right, x); }
          TurnedUpRight(t, x);
        } else {
          NoTurnRight(t, obj, x);
          if t.balance > 0 && Childless(t.right) && InsertWay(t.right, x).ToLeft? { LeafGrows(t.right, x); }
        }
    }
  }

  // ---------- A whole removal ----------

  /** Whether the tree is lower after the removal: every node on the way was leaning to it, or is turned
      about a node that leans away. */
  ghost predicate Lowers(t: Tree<Page>, obj: Obj)
    requires Good(t) && obj in Bag(t)
  {
    t.Node? &&
    match RemoveWay(t, obj)
    case Slot => false
    case Gone => true
    case FromLeft(x) => Lowers(t.left, x) && (t.balance < 0 || (t.balance > 0 && t.right.Node? && t.right.balance != 0))
    case FromRight(x) => Lowers(t.right, x) && (t.balance > 0 || (t.balance < 0 && t.left.Node? && t.left.balance != 0))
  }

  /** Some turn on the way back brings up a node with too few items.  Where there is a turn, the node
      that comes up stands on the other side, so it is as it was. */
  ghost predicate RemoveBreaks(t: Tree<Page>, obj: Obj)
    requires Good(t) && obj in Bag(t)
  {
    t.Node? &&
    match RemoveWay(t, obj)
    case Slot => false
    case Gone => false
    case FromLeft(x) =>
      RemoveBreaks(t.left, x) || (Lowers(t.left, x) && t.balance > 0 && TooFewRight(t.right))
    case FromRight(x) =>
      RemoveBreaks(t.right, x) || (Lowers(t.right, x) && t.balance < 0 && TooFewLeft(t.left))
  }

  predicate TooFewRight(r: Tree<Page>) {
    r.Node? && if r.balance >= 0 then r.val.n < MIN_ITEMS else r.left.Node? && r.left.val.n < MIN_ITEMS
  }

  predicate TooFewLeft(l: Tree<Page>) {
    l.Node? && if l.balance <= 0 then l.val.n < MIN_ITEMS else l.right.Node? && l.right.val.n < MIN_ITEMS
  }

  lemma {:induction false} LowersIs(t: Tree<Page>, obj: Obj)
    requires Good(t) && obj in Bag(t)
    ensures Height(AfterRemove(t, obj)) < Height(t) <==> Lowers(t, obj)
  {
    hide Sorted, AllFilled, Bag, RemoveWay, ShrunkLeft, ShrunkRight, Counts;
    if t.Node? {
      CountsOf(t);
      match RemoveWay(t, obj)
      case Slot =>
      case Gone =>
      case FromLeft(x) =>
        LowersIs(t.left, x);
        if t.right.Node? { CountsOf(t.right); }
        SankLeft(Counts(t), AfterRemove(t.left, x));
      case FromRight(x) =>
        LowersIs(t.right, x);
        if t.left.Node? { CountsOf(t.left); }
        SankRight(Counts(t), AfterRemove(t.right, x));
    }
  }

  lemma {:induction false} SankLeft(s: Tree<nat>, l: Tree<nat>)
    requires Avl(s) && s.Node? && Sinks(s.left, l)
    ensures Height(ShrunkLeft(s, l)) < Height(s)
            <==> (
              && Height(l) < Height(s.left)
              && (s.balance < 0 || (s.balance > 0 && s.right.Node? && s.right.balance != 0)))
  {
    if Height(l) < Height(s.left) { LeftShrankBalanced(s.(left := l)); }
  }

  lemma {:induction false} SankRight(s: Tree<nat>, r: Tree<nat>)
    requires Avl(s) && s.Node? && Sinks(s.right, r)
    ensures Height(ShrunkRight(s, r)) < Height(s)
            <==> (
              && Height(r) < Height(s.right)
              && (s.balance > 0 || (s.balance < 0 && s.left.Node? && s.left.balance != 0)))
  {
    if Height(r) < Height(s.right) { RightShrankBalanced(s.(right := r)); }
  }

  lemma {:induction false} ShrunkLeftOccupancy(t: Tree<Page>, l: Tree<nat>)
    requires Avl(t) && t.Node? && Sinks(Counts(t.left), l) && t.left.Node? && WellOccupied(Counts(t))
    ensures WellOccupied(ShrunkLeft(Counts(t), l))
            <==> WellOccupied(l) && !(Height(l) < Height(t.left) && t.balance > 0 && TooFewRight(t.right))
  {
    hide AfterLeftShrank;
    CountsOf(t);
    if t.right.Node? {
      CountsOf(t.right);
      if t.right.left.Node? { CountsOf(t.right.left); }
    }
    if Height(l) < Height(t.left) { OccupancyAfterLeftShrank(Counts(t).(left := l)); }
  }

  lemma {:induction false} ShrunkRightOccupancy(t: Tree<Page>, r: Tree<nat>)
    requires Avl(t) && t.Node? && Sinks(Counts(t.right), r) && t.right.Node? && WellOccupied(Counts(t))
    ensures WellOccupied(ShrunkRight(Counts(t), r))
            <==> WellOccupied(r) && !(Height(r) < Height(t.right) && t.balance < 0 && TooFewLeft(t.left))
  {
    hide AfterRightShrank;
    CountsOf(t);
    if t.left.Node? {
      CountsOf(t.left);
      if t.left.right.Node? { CountsOf(t.left.right); }
    }
    if Height(r) < Height(t.right) { OccupancyAfterRightShrank(Counts(t).(right := r)); }
  }

  /** Where a removal goes on there is a subtree, and a node with two subtrees that just loses an item has
      one to spare: refills keep the occupancy. */
  lemma {:induction false} WayOutParts(t: Tree<Page>, obj: Obj)
    requires Good(t) && t.Node? && obj in Bag(t)
    ensures RemoveWay(t, obj).FromLeft? ==> t.left.Node?
    ensures RemoveWay(t, obj).FromRight? ==> t.right.Node?
    ensures RemoveWay(t, obj).Slot? && t.left.Node? && t.right.Node? ==> MIN_ITEMS < t.val.n
  {
    hide Sorted, Live;
    GoodParts(t);
    EmptyGood();
  }

  /** For every tree and every object in it: a removal keeps the occupancy unless one of its turns brings
      up a node with too few items. */
  lemma {:induction false} RemoveOccupancy(t: Tree<Page>, obj: Obj)
    requires Good(t) && obj in Bag(t) && WellOccupied(Counts(t))
    ensures WellOccupied(AfterRemove(t, obj)) <==> !RemoveBreaks(t, obj)
  {
    hide Bag, RemoveWay, ShrunkLeft, ShrunkRight, Counts, Lowers, TooFewLeft, TooFewRight;
    if t.Node? {
      CountsOf(t);
      WayOutParts(t, obj);
      match RemoveWay(t, obj)
      case Slot =>
      case Gone =>
      case FromLeft(x) =>
        RemoveOccupancy(t.left, x);
        LowersIs(t.left, x);
        ShrunkLeftOccupancy(t, AfterRemove(t.left, x));
      case FromRight(x) =>
        RemoveOccupancy(t.right, x);
        LowersIs(t.right, x);
        ShrunkRightOccupancy(t, AfterRemove(t.right, x));
    }
  }

  // ---------- Trees for which it fails ----------

  /** `n` objects with the keys from `key` on. */
  function Row(key: int, n: nat): Page {
    Page(seq(PAGE_SIZE, i => Obj(key + i, 0)), n)
  }

  lemma RowItems(key: int, n: nat)
    requires 1 <= n <= PAGE_SIZE
    ensures Filled(Row(key, n)) && Sorted(Live(Row(key, n))) && First(Row(key, n)).key == key
    ensures Last(Row(key, n)).key == key + n - 1
    ensures AtLeast(Live(Row(key, n)), key) && AtMost(Live(Row(key, n)), key + n - 1)
    ensures Live(Row(key, n))[0] == Obj(key, 0)
  {
  }

  lemma AvlJoin<V>(t: Tree<V>)
    requires t.Node? && Avl(t.left) && Avl(t.right) && t.balance == Height(t.right) - Height(t.left)
    requires -1 <= t.balance <= 1
    ensures Avl(t)
  {
  }

  lemma Within(s: seq<Obj>, lo: int, hi: int, lo': int, hi': int)
    requires AtLeast(s, lo) && AtMost(s, hi) && lo' <= lo && hi <= hi'
    ensures AtLeast(s, lo') && AtMost(s, hi')
  {
  }

  lemma NoObjs(lo: int, hi: int)
    ensures Good(Leaf) && AtLeast(Objs(Leaf), lo) && AtMost(Objs(Leaf), hi)
  {
  }

  /** A full leaf below a node that leans to it, and an object between the keys of the two. */
  lemma {:induction false} FullLeafFails(t: Tree<Page>, obj: Obj)
    requires Good(t) && AllFilled(t) && t.Node? && t.right.Leaf? && t.balance < 0 && Childless(t.left)
    requires Filled(t.left.val) && t.left.val.n == PAGE_SIZE && Last(t.left.val).key < obj.key < First(t.val).key
    ensures WellOccupied(Counts(t)) && InsertBreaks(t, obj) && !WellOccupied(AfterInsert(t, obj))
  {
    hide AllFilled, Avl, Height, Live, AfterInsert, Sorted, Objs;
    GoodParts(t);
    GoodParts(t.left);
    Ends(t.left.val);
    SortedBounds(Live(t.left.val));
    CountsOf(t);
    CountsOf(t.left);
    assert WellOccupied(Counts(t.left));
    InsertOccupancy(t, obj);
  }

  lemma RowCount(key: int, n: nat)
    ensures Row(key, n).n == n
  {
  }

  /** Two leaves of one item, and a full node above each, the right one below the left one. */
  ghost predicate OneItemAtEnd(t: Tree<Page>, a: Page, b: Page, m: Page, z: Page) {
    && a == Row(0, 1) && b == Row(1000, PAGE_SIZE) && m == Row(2000, 1) && z == Row(3000, PAGE_SIZE)
    && t == Node(Node(Leaf, a, 0, Leaf), b, 1, Node(Node(Leaf, m, 0, Leaf), z, -1, Leaf))
  }

  lemma {:induction false} GoodOver(t: Tree<Page>, lo: int, hi: int)
    requires t.Node? && Avl(t) && Good(t.left) && Good(t.right) && AllFilled(t.left) && AllFilled(t.right)
    requires Filled(t.val) && Sorted(Live(t.val)) && lo <= First(t.val).key && Last(t.val).key <= hi
    requires AtLeast(Objs(t.left), lo) && AtMost(Objs(t.left), First(t.val).key)
    requires AtLeast(Objs(t.right), Last(t.val).key) && AtMost(Objs(t.right), hi)
    ensures Good(t) && AllFilled(t) && AtLeast(Objs(t), lo) && AtMost(Objs(t), hi)
  {
    hide Live, Avl;
    Ends(t.val);
    SortedBounds(Live(t.val));
    GoodWhole(t);
    NodeOrder(t);
  }

  /** A leaf, and a node with only a left leaf, whose pages are in order. */
  lemma {:induction false} LeafIsGood(t: Tree<Page>, a: Page)
    requires Filled(a) && Sorted(Live(a)) && t == Node(Leaf, a, 0, Leaf)
    ensures Good(t) && AllFilled(t) && Avl(t) && Height(t) == 1
    ensures AtLeast(Objs(t), First(a).key) && AtMost(Objs(t), Last(a).key) && Live(a) != [] && Live(a)[0] in Bag(t)
  {
    hide Sorted, Live;
    NoObjs(First(a).key, First(a).key);
    NoObjs(Last(a).key, Last(a).key);
    Ends(a);
    SortedBounds(Live(a));
    GoodWhole(t);
    NodeOrder(t);
    assert Objs(t) == Live(a);
  }

  lemma {:induction false} SemileafIsGood(t: Tree<Page>, m: Page, z: Page)
    requires Filled(m) && Sorted(Live(m)) && Filled(z) && Sorted(Live(z)) && Last(m).key <= First(z).key
    requires First(m).key <= First(z).key && t == Node(Node(Leaf, m, 0, Leaf), z, -1, Leaf)
    ensures Good(t) && AllFilled(t) && Avl(t) && Height(t) == 2
    ensures AtLeast(Objs(t), First(m).key) && AtMost(Objs(t), Last(z).key)
  {
    hide Objs, Sorted, Bag, AtLeast, AtMost, Live, Good, AllFilled, Filled, First, Last;
    LeafIsGood(t.left, m);
    NoObjs(Last(z).key, Last(z).key);
    Within(Objs(t.left), First(m).key, Last(m).key, First(m).key, First(z).key);
    GoodOver(t, First(m).key, Last(z).key);
  }

  lemma {:induction false} OneItemAtEndIsGood(t: Tree<Page>, a: Page, b: Page, m: Page, z: Page)
    requires OneItemAtEnd(t, a, b, m, z)
    ensures Good(t) && AllFilled(t) && Obj(0, 0) in Bag(t.left)
  {
    hide Row, Objs, Sorted, Bag, AtLeast, AtMost, Live, Good, AllFilled, Filled, First, Last, Avl, Height;
    RowItems(0, 1);
    RowItems(1000, PAGE_SIZE);
    RowItems(2000, 1);
    RowItems(3000, PAGE_SIZE);
    LeafIsGood(t.left, a);
    SemileafIsGood(t.right, m, z);
    AvlJoin(t);
    Within(Objs(t.left), First(a).key, Last(a).key, First(a).key, First(b).key);
    Within(Objs(t.right), First(m).key, Last(z).key, Last(b).key, Last(z).key);
    GoodOver(t, First(a).key, Last(z).key);
  }

  lemma {:induction false} InsertionFails(t: Tree<Page>, a: Page, b: Page, obj: Obj)
    requires a == Row(0, PAGE_SIZE) && b == Row(1000, 1) && t == Node(Node(Leaf, a, 0, Leaf), b, -1, Leaf)
    requires obj == Obj(500, 0)
    ensures Good(t) && AllFilled(t) && WellOccupied(Counts(t)) && InsertBreaks(t, obj)
    ensures !WellOccupied(AfterInsert(t, obj))
  {
    hide Row, Objs, Sorted, Bag, AtLeast, AtMost, Live, AfterInsert, InsertBreaks, WellOccupied, Counts;
    RowItems(0, PAGE_SIZE);
    RowItems(1000, 1);
    RowCount(0, PAGE_SIZE);
    SemileafIsGood(t, a, b);
    FullLeafFails(t, obj);
  }

  /** The only item of a leaf is removed; the turn on the other side brings a node that has been all right
      as a leaf to the top of two subtrees. */
  lemma {:induction false} EmptiedLeafFails(t: Tree<Page>, obj: Obj)
    requires Good(t) && AllFilled(t) && t.Node? && t.balance > 0 && Childless(t.left) && obj in Bag(t.left)
    requires t.left.val.n == 1 && MIN_ITEMS <= t.val.n && obj.key <= First(t.val).key
    requires t.right.Node? && t.right.balance < 0 && t.right.right.Leaf? && Childless(t.right.left)
    requires t.right.left.val.n < MIN_ITEMS
    ensures obj in Bag(t) && WellOccupied(Counts(t)) && RemoveBreaks(t, obj) && !WellOccupied(AfterRemove(t, obj))
  {
    hide Avl, Height, Live, Sorted, AtLeast, AtMost, Objs, AfterRemove, RemoveWay;
    GoodParts(t);
    GoodParts(t.left);
    EmptyGood();
    LeftWay(t, obj);
    SlotWay(t.left, obj);
    CountsOf(t);
    CountsOf(t.left);
    CountsOf(t.right);
    CountsOf(t.right.left);
    assert WellOccupied(Counts(t.left)) && WellOccupied(Counts(t.right.left));
    assert WellOccupied(Counts(t.right));
    RemoveOccupancy(t, obj);
  }

  lemma {:induction false} RemovalFails(t: Tree<Page>, a: Page, b: Page, m: Page, z: Page, obj: Obj)
    requires OneItemAtEnd(t, a, b, m, z) && obj == Obj(0, 0)
    ensures Good(t) && obj in Bag(t) && WellOccupied(Counts(t)) && RemoveBreaks(t, obj)
    ensures !WellOccupied(AfterRemove(t, obj))
  {
    hide Good, AllFilled, Avl, Height, Row, AfterRemove, RemoveBreaks, WellOccupied, Counts, Live, AtLeast, AtMost,
         Sorted, Bag;
    OneItemAtEndIsGood(t, a, b, m, z);
    RowItems(1000, PAGE_SIZE);
    RowCount(0, 1);
    RowCount(1000, PAGE_SIZE);
    RowCount(2000, 1);
    EmptiedLeafFails(t, obj);
  }
}

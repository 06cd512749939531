/** The shape a T-tree has after an insertion or a removal: how many items each node holds and where it
    stands, as a function of the tree before and of the object. */
module TtreeShapes {
  import opened AvlTrees
  import opened TtreePages
  import opened TtreeSteps

  /** The tree with just the number of items in each node. */
  function Counts(t: Tree<Page>): (s: Tree<nat>)
    ensures Height(s) == Height(t) && (Avl(s) <==> Avl(t)) && (s.Node? <==> t.Node?)
  {
    match t
    case Leaf => Leaf
    case Node(l, pg, b, r) => Node(Counts(l), pg.n, b, Counts(r))
  }

  function WithItems(t: Tree<Page>, n: nat): (s: Tree<nat>)
    requires t.Node?
    ensures Height(s) == Height(t) && (Avl(s) <==> Avl(t))
  {
    Node(Counts(t.left), n, t.balance, Counts(t.right))
  }

  // ---------- Insertion ----------

  datatype WayIn = Here | ToLeft(x: Obj) | ToRight(x: Obj)

  /** Where an insertion goes on from a node, and with what: the object, or the item that a full node
      gives up for it. */
  function InsertWay(t: Tree<Page>, obj: Obj): WayIn
    requires t.Node? && Filled(t.val)
  {
    var pg := t.val;
    if obj.key <= First(pg).key then
      if (t.left.Leaf? || obj.key == First(pg).key) && pg.n != PAGE_SIZE then Here else ToLeft(obj)
    else if obj.key >= Last(pg).key then
      if (t.right.Leaf? || obj.key == Last(pg).key) && pg.n != PAGE_SIZE then Here else ToRight(obj)
    else if pg.n != PAGE_SIZE then Here
    else if t.balance >= 0 then ToLeft(First(pg))
    else ToRight(Last(pg))
  }

  /** A subtree that is higher after an insertion leans to one side, unless it is a new node. */
  ghost predicate Leans<V>(before: Tree<V>, after: Tree<V>) {
    && Avl(after) && after.Node? && Height(before) <= Height(after) <= Height(before) + 1
    && (Height(after) > Height(before) && before.Node? ==> after.balance != 0)
  }

  function GrownLeft(s: Tree<nat>, l: Tree<nat>): (k: Tree<nat>)
    requires Avl(s) && s.Node? && Leans(s.left, l)
    ensures Leans(s, k)
  {
    var k := s.(left := l);
    if Height(l) > Height(s.left) then
      LeftGrewBalanced(k);
      AfterLeftGrew(k)
    else k
  }

  function GrownRight(s: Tree<nat>, r: Tree<nat>): (k: Tree<nat>)
    requires Avl(s) && s.Node? && Leans(s.right, r)
    ensures Leans(s, k)
  {
    var k := s.(right := r);
    if Height(r) > Height(s.right) then
      RightGrewBalanced(k);
      AfterRightGrew(k)
    else k
  }

  function AfterInsert(t: Tree<Page>, obj: Obj): (k: Tree<nat>)
    requires Avl(t) && AllFilled(t)
    ensures Leans(Counts(t), k)
  {
    if t.Leaf? then Node(Leaf, 1, 0, Leaf)
    else
      match InsertWay(t, obj)
      case Here => WithItems(t, t.val.n + 1)
      case ToLeft(x) => GrownLeft(Counts(t), AfterInsert(t.left, x))
      case ToRight(x) => GrownRight(Counts(t), AfterInsert(t.right, x))
  }

  // ---------- Removal ----------

  datatype WayOut = Slot | Gone | FromLeft(x: Obj) | FromRight(x: Obj)

  /** Where a removal goes on from a node, and with what: the object, or the item that refills the node;
      or the node just loses an item, or goes as a whole. */
  ghost function RemoveWay(t: Tree<Page>, obj: Obj): (w: WayOut)
    requires Good(t) && t.Node? && obj in Bag(t)
    ensures w.FromLeft? ==> Good(t.left) && w.x in Bag(t.left)
    ensures w.FromRight? ==> Good(t.right) && w.x in Bag(t.right)
    ensures w.Gone? ==> t.left.Leaf? || t.right.Leaf?
  {
    GoodParts(t);
    var pg := t.val;
    if obj.key <= First(pg).key && obj in Bag(t.left) then FromLeft(obj)
    else if obj in Live(pg) then
      if pg.n == 1 && (t.right.Leaf? || t.left.Leaf?) then Gone
      else if pg.n <= MIN_ITEMS && t.left.Node? && t.balance <= 0 then FromLeft(Greatest(t.left))
      else if pg.n <= MIN_ITEMS && t.right.Node? then FromRight(Least(t.right))
      else Slot
    else
      InRight(t, obj);
      FromRight(obj)
  }

  lemma InRight(t: Tree<Page>, obj: Obj)
    requires Good(t) && t.Node? && obj in Bag(t) && Filled(t.val)
    requires obj.key <= First(t.val).key ==> obj !in Bag(t.left)
    requires obj !in Live(t.val)
    ensures Good(t.right) && obj in Bag(t.right)
  {
    hide Good, Bag, Live;
    GoodParts(t);
    LeftIsLess(t, obj);
  }

  lemma LeftIsLess(t: Tree<Page>, obj: Obj)
    requires Good(t) && t.Node? && Filled(t.val) && AllFilled(t.left)
    ensures obj in Bag(t.left) ==> obj.key <= First(t.val).key
  {
    GoodParts(t);
  }

  /** The last, or first, object in order. */
  ghost function Greatest(t: Tree<Page>): (x: Obj)
    requires t.Node? && AllFilled(t)
    ensures x in Bag(t)
  {
    Objs(t)[|Objs(t)| - 1]
  }

  ghost function Least(t: Tree<Page>): (x: Obj)
    requires t.Node? && AllFilled(t)
    ensures x in Bag(t)
  {
    Objs(t)[0]
  }

  lemma EndsOfJoin(a: seq<Obj>, m: seq<Obj>, b: seq<Obj>)
    requires m != []
    ensures var s := a + m + b; s[|s| - 1] == if b == [] then m[|m| - 1] else b[|b| - 1]
    ensures var s := a + m + b; s[0] == if a == [] then m[0] else a[0]
  {
  }

  lemma {:induction false} ObjsOf(t: Tree<Page>)
    requires AllFilled(t)
    ensures t.Node? <==> Objs(t) != []
    ensures t.Node? ==> AllFilled(t.left) && AllFilled(t.right) && Filled(t.val) && Live(t.val) != []
    ensures t.Node? ==> Objs(t) == Objs(t.left) + Live(t.val) + Objs(t.right)
  {
  }

  lemma {:induction false} GreatestDown(t: Tree<Page>)
    requires AllFilled(t) && t.Node?
    ensures AllFilled(t.right) && Greatest(t) == if t.right.Node? then Greatest(t.right) else Last(t.val)
  {
    hide Objs, AllFilled;
    ObjsOf(t);
    ObjsOf(t.right);
    EndsOfJoin(Objs(t.left), Live(t.val), Objs(t.right));
  }

  lemma {:induction false} LeastDown(t: Tree<Page>)
    requires AllFilled(t) && t.Node?
    ensures AllFilled(t.left) && Least(t) == if t.left.Node? then Least(t.left) else First(t.val)
  {
    hide Objs, AllFilled;
    ObjsOf(t);
    ObjsOf(t.left);
    EndsOfJoin(Objs(t.left), Live(t.val), Objs(t.right));
  }

  ghost predicate Sinks<V>(before: Tree<V>, after: Tree<V>) {
    Avl(after) && Height(before) - 1 <= Height(after) <= Height(before)
  }

  function ShrunkLeft(s: Tree<nat>, l: Tree<nat>): (k: Tree<nat>)
    requires Avl(s) && s.Node? && Sinks(s.left, l)
    ensures Sinks(s, k)
  {
    var k := s.(left := l);
    if Height(l) < Height(s.left) then
      LeftShrankBalanced(k);
      AfterLeftShrank(k)
    else k
  }

  function ShrunkRight(s: Tree<nat>, r: Tree<nat>): (k: Tree<nat>)
    requires Avl(s) && s.Node? && Sinks(s.right, r)
    ensures Sinks(s, k)
  {
    var k := s.(right := r);
    if Height(r) < Height(s.right) then
      RightShrankBalanced(k);
      AfterRightShrank(k)
    else k
  }

  ghost function AfterRemove(t: Tree<Page>, obj: Obj): (k: Tree<nat>)
    requires Good(t) && obj in Bag(t)
    ensures Sinks(Counts(t), k)
  {
    if t.Leaf? then Leaf
    else
      match RemoveWay(t, obj)
      case Slot => WithItems(t, t.val.n - 1)
      case Gone => if t.right.Leaf? then Counts(t.left) else Counts(t.right)
      case FromLeft(x) => ShrunkLeft(Counts(t), AfterRemove(t.left, x))
      case FromRight(x) => ShrunkRight(Counts(t), AfterRemove(t.right, x))
  }

  // ---------- Turns of the tree are turns of its shape ----------

  lemma {:induction false} CountsOf(t: Tree<Page>)
    requires t.Node?
    ensures Counts(t) == Node(Counts(t.left), t.val.n, t.balance, Counts(t.right))
  {
  }

  lemma {:induction false} CountsTurnRight(t: Tree<Page>, balance: int, leftBalance: int)
    requires t.Node? && t.left.Node?
    ensures Counts(TurnRight(t, balance, leftBalance)) == TurnRight(Counts(t), balance, leftBalance)
  {
    CountsOf(t);
    CountsOf(t.left);
  }

  lemma {:induction false} CountsTurnLeft(t: Tree<Page>, balance: int, rightBalance: int)
    requires t.Node? && t.right.Node?
    ensures Counts(TurnLeft(t, balance, rightBalance)) == TurnLeft(Counts(t), balance, rightBalance)
  {
    CountsOf(t);
    CountsOf(t.right);
  }

  lemma {:induction false} CountsTurnLeftRight(t: Tree<Page>)
    requires t.Node? && t.left.Node? && t.left.right.Node?
    ensures var s := Counts(t);
            s.Node? && s.left.Node? && s.left.right.Node? && Counts(TurnLeftRight(t)) == TurnLeftRight(s)
  {
    CountsOf(t);
    CountsOf(t.left);
    CountsOf(t.left.right);
  }

  lemma {:induction false} CountsTurnRightLeft(t: Tree<Page>)
    requires t.Node? && t.right.Node? && t.right.left.Node?
    ensures var s := Counts(t);
            s.Node? && s.right.Node? && s.right.left.Node? && Counts(TurnRightLeft(t)) == TurnRightLeft(s)
  {
    CountsOf(t);
    CountsOf(t.right);
    CountsOf(t.right.left);
  }

  lemma {:induction false} CountsAfterLeftGrew(t: Tree<Page>)
    requires LeftGrew(t)
    ensures LeftGrew(Counts(t)) && Counts(AfterLeftGrew(t)) == AfterLeftGrew(Counts(t))
  {
    hide TurnRight, TurnLeftRight;
    CountsOf(t);
    if t.balance < 0 {
      CountsOf(t.left);
      if t.left.balance < 0 {
        CountsTurnRight(t, 0, 0);
      } else {
        LeftInnerNode(t);
        CountsTurnLeftRight(t);
      }
    }
  }

  lemma {:induction false} CountsAfterRightGrew(t: Tree<Page>)
    requires RightGrew(t)
    ensures RightGrew(Counts(t)) && Counts(AfterRightGrew(t)) == AfterRightGrew(Counts(t))
  {
    hide TurnLeft, TurnRightLeft;
    CountsOf(t);
    if t.balance > 0 {
      CountsOf(t.right);
      if t.right.balance > 0 {
        CountsTurnLeft(t, 0, 0);
      } else {
        RightInnerNode(t);
        CountsTurnRightLeft(t);
      }
    }
  }

  lemma {:induction false} CountsAfterLeftShrank(t: Tree<Page>)
    requires LeftShrank(t)
    ensures LeftShrank(Counts(t)) && Counts(AfterLeftShrank(t)) == AfterLeftShrank(Counts(t))
  {
    hide TurnLeft, TurnRightLeft;
    CountsOf(t);
    if t.balance > 0 {
      LeftShrankNode(t);
      CountsOf(t.right);
      if t.right.balance == 0 {
        CountsTurnLeft(t, 1, -1);
      } else if t.right.balance > 0 {
        CountsTurnLeft(t, 0, 0);
      } else {
        CountsTurnRightLeft(t);
      }
    }
  }

  lemma {:induction false} CountsAfterRightShrank(t: Tree<Page>)
    requires RightShrank(t)
    ensures RightShrank(Counts(t)) && Counts(AfterRightShrank(t)) == AfterRightShrank(Counts(t))
  {
    hide TurnRight, TurnLeftRight;
    CountsOf(t);
    if t.balance < 0 {
      RightShrankNode(t);
      CountsOf(t.left);
      if t.left.balance == 0 {
        CountsTurnRight(t, -1, 1);
      } else if t.left.balance < 0 {
        CountsTurnRight(t, 0, 0);
      } else {
        CountsTurnLeftRight(t);
      }
    }
  }

  // ---------- What the steps of the code do to the shape ----------

  ghost predicate InsertedShape(t: Tree<Page>, k: Tree<Page>, obj: Obj) {
    Avl(t) && AllFilled(t) && Counts(k) == AfterInsert(t, obj)
  }

  ghost predicate RemovedShape(t: Tree<Page>, k: Tree<Page>, obj: Obj) {
    Good(t) && obj in Bag(t) && Counts(k) == AfterRemove(t, obj)
  }

  lemma {:induction false} NewShape(k: Tree<Page>, obj: Obj)
    requires k.Node? && k == Node(Leaf, k.val, 0, Leaf) && k.val.n == 1
    ensures InsertedShape(Leaf, k, obj)
  {
  }

  lemma {:induction false} HereShape(t: Tree<Page>, pg: Page, obj: Obj)
    requires Good(t) && t.Node? && Filled(t.val) && InsertWay(t, obj).Here? && pg.n == t.val.n + 1
    ensures InsertedShape(t, t.(val := pg), obj)
  {
  }

  lemma {:induction false} LeftShape(t: Tree<Page>, l: Tree<Page>, obj: Obj, x: Obj, higher: bool)
    requires Good(t) && t.Node? && Filled(t.val) && InsertWay(t, obj) == ToLeft(x)
    requires Inserted(t.left, l, x, higher) && InsertedShape(t.left, l, x)
    ensures !higher ==> InsertedShape(t, t.(left := l), obj)
    ensures higher && LeftGrew(t.(left := l)) ==> InsertedShape(t, AfterLeftGrew(t.(left := l)), obj)
  {
    hide AfterLeftGrew;
    CountsOf(t);
    CountsOf(t.(left := l));
    if higher && LeftGrew(t.(left := l)) { CountsAfterLeftGrew(t.(left := l)); }
  }

  lemma {:induction false} RightShape(t: Tree<Page>, r: Tree<Page>, obj: Obj, x: Obj, higher: bool)
    requires Good(t) && t.Node? && Filled(t.val) && InsertWay(t, obj) == ToRight(x)
    requires Inserted(t.right, r, x, higher) && InsertedShape(t.right, r, x)
    ensures !higher ==> InsertedShape(t, t.(right := r), obj)
    ensures higher && RightGrew(t.(right := r)) ==> InsertedShape(t, AfterRightGrew(t.(right := r)), obj)
  {
    hide AfterRightGrew;
    CountsOf(t);
    CountsOf(t.(right := r));
    if higher && RightGrew(t.(right := r)) { CountsAfterRightGrew(t.(right := r)); }
  }

  /** Inserting again what a full node gave up goes the way that was meant for the object. */
  lemma {:induction false} AgainShape(t: Tree<Page>, pg: Page, obj: Obj, given: Obj, p: Tree<Page>)
    requires Good(t) && t.Node? && Filled(t.val) && t.val.n == PAGE_SIZE && Filled(pg) && pg.n == PAGE_SIZE
    requires First(t.val).key < obj.key < Last(t.val).key && InsertedShape(t.(val := pg), p, given)
    requires t.balance >= 0 ==> given == First(t.val) && First(t.val).key <= First(pg).key
    requires t.balance < 0 ==> given == Last(t.val) && Last(pg).key <= Last(t.val).key && First(pg) == First(t.val)
    ensures InsertedShape(t, p, obj)
  {
    CountsOf(t);
    CountsOf(t.(val := pg));
    assert InsertWay(t, obj) == InsertWay(t.(val := pg), given);
  }

  lemma {:induction false} FromLeftShape(t: Tree<Page>, k: Tree<Page>, obj: Obj, x: Obj, lower: int)
    requires Good(t) && t.Node? && obj in Bag(t) && RemoveWay(t, obj) == FromLeft(x)
    requires k.Node? && k.right == t.right && k.balance == t.balance && k.val.n == t.val.n
    requires Removed(t.left, k.left, x, lower) && RemovedShape(t.left, k.left, x)
    ensures lower == 0 ==> RemovedShape(t, k, obj)
    ensures lower == 1 && LeftShrank(k) ==> RemovedShape(t, AfterLeftShrank(k), obj)
  {
    hide AfterLeftShrank, Good, Bag, RemoveWay;
    CountsOf(t);
    CountsOf(k);
    if lower == 1 && LeftShrank(k) { CountsAfterLeftShrank(k); }
  }

  lemma {:induction false} FromRightShape(t: Tree<Page>, k: Tree<Page>, obj: Obj, x: Obj, lower: int)
    requires Good(t) && t.Node? && obj in Bag(t) && RemoveWay(t, obj) == FromRight(x)
    requires k.Node? && k.left == t.left && k.balance == t.balance && k.val.n == t.val.n
    requires Removed(t.right, k.right, x, lower) && RemovedShape(t.right, k.right, x)
    ensures lower == 0 ==> RemovedShape(t, k, obj)
    ensures lower == 1 && RightShrank(k) ==> RemovedShape(t, AfterRightShrank(k), obj)
  {
    hide AfterRightShrank, Good, Bag, RemoveWay;
    CountsOf(t);
    CountsOf(k);
    if lower == 1 && RightShrank(k) { CountsAfterRightShrank(k); }
  }

  lemma {:induction false} SlotShape(t: Tree<Page>, pg: Page, obj: Obj)
    requires Good(t) && t.Node? && obj in Bag(t) && RemoveWay(t, obj).Slot? && pg.n + 1 == t.val.n
    ensures RemovedShape(t, t.(val := pg), obj)
  {
    hide Good, Bag, RemoveWay;
  }

  lemma {:induction false} GoneShape(t: Tree<Page>, obj: Obj)
    requires Good(t) && t.Node? && obj in Bag(t) && RemoveWay(t, obj).Gone?
    ensures RemovedShape(t, if t.right.Leaf? then t.left else t.right, obj)
  {
    hide Good, Bag, RemoveWay;
  }

  /** Where a removal from the node itself goes on. */
  lemma SlotWay(t: Tree<Page>, obj: Obj)
    requires Good(t) && t.Node? && AllFilled(t) && obj in Live(t.val)
    requires obj.key == First(t.val).key ==> obj !in Bag(t.left)
    ensures obj in Bag(t)
    ensures RemoveWay(t, obj) ==
              if t.val.n == 1 && (t.right.Leaf? || t.left.Leaf?) then Gone
              else if t.val.n <= MIN_ITEMS && t.left.Node? && t.balance <= 0 then FromLeft(Greatest(t.left))
              else if t.val.n <= MIN_ITEMS && t.right.Node? then FromRight(Least(t.right))
              else Slot
  {
    hide Bag, Avl;
    GoodParts(t);
    Ends(t.val);
    SortedBounds(Live(t.val));
  }

  lemma LeftWay(t: Tree<Page>, obj: Obj)
    requires Good(t) && t.Node? && AllFilled(t) && obj.key <= First(t.val).key && obj in Bag(t.left)
    ensures obj in Bag(t) && RemoveWay(t, obj) == FromLeft(obj)
  {
    hide Bag, Avl, Live;
    GoodParts(t);
  }

  lemma BeyondLast(pg: Page, obj: Obj)
    requires Filled(pg) && Sorted(Live(pg)) && Last(pg).key < obj.key
    ensures obj !in Live(pg)
  {
    Ends(pg);
    SortedBounds(Live(pg));
  }

  lemma RightWay(t: Tree<Page>, obj: Obj)
    requires Good(t) && t.Node? && AllFilled(t) && obj !in Live(t.val) && obj in Bag(t)
    requires obj.key <= First(t.val).key ==> obj !in Bag(t.left)
    ensures RemoveWay(t, obj) == FromRight(obj)
  {
    hide Bag, Avl, Live;
    GoodParts(t);
  }
}

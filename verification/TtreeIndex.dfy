/** The index as its users see it. */
module TtreeIndex {
  import opened AvlTrees
  import opened AvlNodes
  import opened TtreePages
  import opened TtreeSteps
  import opened TtreeQueries
  import opened TtreeSearch
  import opened Ttrees
  import opened TtreeShapes
  import opened TtreeOccupancy

  class Ttree {
    var root: Node?<Page>

    ghost predicate Valid()
      reads this, root, ReprOf(root)
    {
      IsTree(root) && this !in ReprOf(root) && Good(TreeOf(root))
    }

    /** All objects of the index, in order. */
    ghost function Contents(): seq<Obj>
      requires Valid()
      reads this, root, ReprOf(root)
    {
      Objs(TreeOf(root))
    }

    /** Every node with two subtrees has the minimum of items. */
    ghost predicate Occupied()
      reads this, root
    {
      WellOccupied(Counts(TreeOf(root)))
    }

    constructor ()
      ensures Valid() && Contents() == [] && root == null
    {
      root := null;
      new;
      EmptyGood();
    }

    method Add(obj: Obj)
      requires Valid()
      modifies this, ReprOf(root)
      ensures Valid() && multiset(Contents()) == multiset(old(Contents())) + multiset{obj}
      ensures Sorted(Contents()) && fresh(ReprOf(root) - old(ReprOf(root)))
      ensures InsertedShape(old(TreeOf(root)), TreeOf(root), obj)
      ensures old(Occupied()) ==> (Occupied() <==> !InsertBreaks(old(TreeOf(root)), obj))
    {
      hide WellOccupied, InsertBreaks, AfterInsert, Sorted, Counts;
      ghost var t := TreeOf(root);
      if root == null {
        root := NewNode(obj);
      } else {
        var p, higher := Insert(root, obj);
        root := p;
      }
      if WellOccupied(Counts(t)) { InsertOccupancy(t, obj); }
    }

    /** The object must be in the index. */
    method Take(obj: Obj)
      requires Valid() && obj in Contents()
      modifies this, ReprOf(root)
      ensures Valid() && multiset(Contents()) == multiset(old(Contents())) - multiset{obj}
      ensures Sorted(Contents()) && ReprOf(root) <= old(ReprOf(root))
      ensures RemovedShape(old(TreeOf(root)), TreeOf(root), obj)
      ensures old(Occupied()) ==> (Occupied() <==> !RemoveBreaks(old(TreeOf(root)), obj))
    {
      hide WellOccupied, RemoveBreaks, AfterRemove, Sorted, Counts, Objs, Avl, AllFilled, Live, Height, Node.Valid;
      ghost var t := TreeOf(root);
      EmptyGood();
      assert obj in Bag(t);
      var p, h := Remove(root, obj);
      root := p;
      if WellOccupied(Counts(t)) { RemoveOccupancy(t, obj); }
    }

    /** All objects between the keys of the query that satisfy its predicate, in order, cut at the
        limit: `at` are their places in the index. */
    method Select(sc: SearchContext) returns (n: nat, ghost at: seq<nat>)
      requires Valid() && sc !in ReprOf(root)
      modifies sc
      ensures sc.Valid() && sc.found == Limited(sc.query, Matching(sc.query, Contents()))
      ensures Picks(sc.query, Contents(), at)
      ensures n == |sc.found| == if sc.query.limit == 0 || |at| <= sc.query.limit then |at| else sc.query.limit
      ensures forall i :: 0 <= i < n ==> sc.found[i] == Contents()[at[i]]
    {
      hide Picks, Sorted, Avl, AllFilled, Height;
      at := MatchingPicks(sc.query, Contents());
      sc.Reset();
      if root != null {
        assert !Full(sc.query, []);
        var goOn := Find(root, sc);
        assert [] + Matching(sc.query, Contents()) == Matching(sc.query, Contents());
      }
      n := sc.nMatches;
    }
  }
}

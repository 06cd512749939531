/** Range search: a search context collects the matches while the tree is gone through in order. */
module TtreeSearch {
  import opened Options
  import opened AvlTrees
  import opened AvlNodes
  import opened TtreePages
  import opened TtreeSteps
  import opened TtreeQueries

  class SearchContext {
    const query: Query
    const buffered: bool
    var buffer: seq<Obj>         // stays empty if no buffer is wanted
    var nMatches: nat
    var lastMatch: Option<Obj>

    ghost var found: seq<Obj>    // all matches so far

    ghost predicate Valid()
      reads this
    {
      && nMatches == |found| && buffer == (if buffered then found else [])
      && lastMatch == (if found == [] then None else Some(found[|found| - 1]))
    }

    constructor (query: Query, buffered: bool)
      ensures Valid() && found == [] && this.query == query && this.buffered == buffered
    {
      this.query, this.buffered := query, buffered;
      buffer, nMatches, lastMatch, found := [], 0, None, [];
    }

    method Reset()
      modifies this
      ensures Valid() && found == []
    {
      lastMatch, nMatches, buffer := None, 0, [];
      found := [];
    }

    /** Notes a match; false if that was the last one wanted. */
    method Take(x: Obj) returns (goOn: bool)
      requires Valid()
      modifies this
      ensures Valid() && found == old(found) + [x] && goOn == !(|found| == query.limit)
    {
      lastMatch := Some(x);
      if buffered {
        buffer := buffer + [x];
      }
      nMatches := nMatches + 1;
      found := found + [x];
      goOn := nMatches != query.limit;
    }
  }

  /** Looks at one object that does not come before the first key. */
  method Look(sc: SearchContext, x: Obj) returns (goOn: bool)
    requires sc.Valid() && !Full(sc.query, sc.found) && !TooSmall(sc.query, x)
    modifies sc
    ensures sc.Valid() && Took(sc.query, old(sc.found), sc.found, [x], goOn)
  {
    hide Matching, Took, Full;
    TookOne(sc.query, sc.found, x);
    if TooGreat(sc.query, x) {
      return false;
    }
    goOn := true;
    if sc.query.pred(x) {
      goOn := sc.Take(x);
    }
  }

  /** Goes through the items of a node from slot `from` on. */
  method Scan(sc: SearchContext, pg: Page, from: nat) returns (goOn: bool)
    requires sc.Valid() && !Full(sc.query, sc.found) && Filled(pg) && from <= pg.n && Sorted(Live(pg))
    requires forall i :: from <= i < pg.n ==> !TooSmall(sc.query, pg.item[i])
    modifies sc
    ensures sc.Valid() && Took(sc.query, old(sc.found), sc.found, Live(pg)[from..], goOn)
  {
    hide Matching, Took, Full, Sorted;
    ghost var s, f0 := Live(pg), sc.found;
    var l := from;
    TookNothing(sc.query, f0);
    assert s[from..l] == [];
    while l < pg.n
      invariant from <= l <= pg.n && sc.Valid() && !Full(sc.query, sc.found)
      invariant Took(sc.query, f0, sc.found, s[from..l], true)
    {
      ghost var f := sc.found;
      goOn := Look(sc, pg.item[l]);
      TookMore(sc.query, f0, f, sc.found, s, from, l, goOn);
      if !goOn {
        return;
      }
      TookOn(sc.query, f0, sc.found, s[from..l + 1]);
      l := l + 1;
    }
    assert s[from..l] == s[from..];
    return true;
  }

  lemma TookMore(q: Query, f0: seq<Obj>, f: seq<Obj>, f1: seq<Obj>, s: seq<Obj>, from: nat, l: nat, goOn: bool)
    requires Sorted(s) && from <= l < |s| && Took(q, f0, f, s[from..l], true) && Took(q, f, f1, [s[l]], goOn)
    ensures Took(q, f0, f1, s[from..l + 1], goOn)
    ensures !goOn ==> Took(q, f0, f1, s[from..], false)
  {
    hide Matching, Took, Full, Sorted;
    assert s[from..l] + [s[l]] == s[from..l + 1];
    TookThen(q, f0, f, f1, s[from..l], [s[l]], goOn);
    if !goOn {
      SortedSplit(s, from);
      assert s[from..l + 1] + s[l + 1..] == s[from..];
      TookStop(q, f0, f1, s[from..l + 1], s[l + 1..]);
    }
  }

  lemma TookOn(q: Query, f0: seq<Obj>, f1: seq<Obj>, s: seq<Obj>)
    requires Took(q, f0, f1, s, true)
    ensures !Full(q, f1)
  {
  }

  /** The first slot whose item is not before the first key. */
  method FirstSlot(pg: Page, q: Query) returns (r: nat)
    requires Filled(pg) && Sorted(Live(pg)) && q.first.Bound?
    ensures r <= pg.n
    ensures forall i :: 0 <= i < pg.n ==> (TooSmall(q, pg.item[i]) <==> i < r)
  {
    assert forall i, j :: 0 <= i < j < pg.n ==> Live(pg)[i].key <= Live(pg)[j].key;
    var l := 0;
    r := pg.n;
    while l < r
      invariant 0 <= l <= r <= pg.n
      invariant forall i :: 0 <= i < l ==> TooSmall(q, pg.item[i])
      invariant forall i :: r <= i < pg.n ==> !TooSmall(q, pg.item[i])
    {
      var m := (l + r) / 2;
      if q.first.key - pg.item[m].key >= Gap(q.first) {
        l := m + 1;
      } else {
        r := m;
      }
    }
  }

  /** The items of `n` from slot `from` on, and the right subtree. */
  method FindFrom(n: Node<Page>, sc: SearchContext, from: nat) returns (goOn: bool)
    requires n.Valid() && Good(n.tree) && AllFilled(n.tree) && sc !in n.repr
    requires sc.Valid() && !Full(sc.query, sc.found) && from <= n.val.n
    requires forall i :: from <= i < n.val.n ==> !TooSmall(sc.query, n.val.item[i])
    modifies sc
    ensures sc.Valid() && Took(sc.query, old(sc.found), sc.found, Live(n.val)[from..] + Objs(n.tree.right), goOn)
    decreases n.tree, 0
  {
    hide Matching, Took, Full, Sorted, Good;
    GoodParts(n.tree);
    SortedTail(n.tree, from);
    ghost var f0, here, beyond := sc.found, Live(n.val)[from..], Objs(n.tree.right);
    goOn := Scan(sc, n.val, from);
    if !goOn {
      TookStop(sc.query, f0, sc.found, here, beyond);
    } else {
      ghost var f1 := sc.found;
      TookOn(sc.query, f0, f1, here);
      if n.right != null {
        goOn := Find(n.right, sc);
      } else {
        TookNothing(sc.query, f1);
      }
      TookThen(sc.query, f0, f1, sc.found, here, beyond, goOn);
    }
  }

  lemma SortedTail(t: Tree<Page>, from: nat)
    requires Good(t) && t.Node? && from <= t.val.n
    ensures Sorted(Live(t.val)[from..] + Objs(t.right))
    ensures Objs(t) == Objs(t.left) + (Live(t.val) + Objs(t.right)) && Sorted(Objs(t))
  {
    hide Sorted, AtMost, AtLeast, Avl, Live;
    GoodParts(t);
    Ends(t.val);
    SortedSplit(Live(t.val), from);
    SortedBounds(Live(t.val));
    BoundedTail(Live(t.val), from, Last(t.val).key);
    SortedJoin(Live(t.val)[from..], Objs(t.right), Last(t.val).key);
    Assoc(Objs(t.left), Live(t.val), Objs(t.right));
  }

  lemma BoundedTail(s: seq<Obj>, from: nat, key: int)
    requires from <= |s| && AtMost(s, key)
    ensures AtMost(s[from..], key)
  {
  }

  lemma Assoc(a: seq<Obj>, b: seq<Obj>, c: seq<Obj>)
    ensures a + b + c == a + (b + c)
  {
  }

  /** Finds all matches below `n`, in order, up to the limit; false if nothing after them can match. */
  method Find(n: Node<Page>, sc: SearchContext) returns (goOn: bool)
    requires n.Valid() && Good(n.tree) && sc !in n.repr
    requires sc.Valid() && !Full(sc.query, sc.found)
    modifies sc
    ensures sc.Valid() && Took(sc.query, old(sc.found), sc.found, Objs(n.tree), goOn)
    decreases n.tree, 2
  {
    hide Matching, Took, Full, Sorted, Good;
    GoodParts(n.tree);
    var pg, q := n.val, sc.query;
    if TooSmall(q, pg.item[0]) {
      goOn := FindRightPart(n, sc);
    } else {
      goOn := FindAll(n, sc);
    }
  }

  /** The search when the first item of `n`, and so all of its left subtree, comes before the first
      key. */
  method FindRightPart(n: Node<Page>, sc: SearchContext) returns (goOn: bool)
    requires n.Valid() && Good(n.tree) && AllFilled(n.tree) && sc !in n.repr
    requires sc.Valid() && !Full(sc.query, sc.found) && TooSmall(sc.query, First(n.val))
    modifies sc
    ensures sc.Valid() && Took(sc.query, old(sc.found), sc.found, Objs(n.tree), goOn)
    decreases n.tree, 1
  {
    hide Matching, Took, Full, Sorted, Good, Objs, Live;
    GoodParts(n.tree);
    Ends(n.val);
    var pg, q := n.val, sc.query;
    var r := pg.n;
    if TooSmall(q, pg.item[pg.n - 1]) {
      goOn := FindBeyond(n, sc);
    } else {
      r := FirstSlot(pg, q);
      goOn := FindFrom(n, sc, r);
    }
    SkippedParts(q, n.tree, r);
    TookSkip(q, old(sc.found), sc.found, Objs(n.tree.left) + Live(pg)[..r], Live(pg)[r..] + Objs(n.tree.right), goOn);
  }

  /** All items of `n` come before the first key: only the right subtree is left. */
  method FindBeyond(n: Node<Page>, sc: SearchContext) returns (goOn: bool)
    requires n.Valid() && Good(n.tree) && AllFilled(n.tree) && sc !in n.repr
    requires sc.Valid() && !Full(sc.query, sc.found)
    modifies sc
    ensures sc.Valid() && Took(sc.query, old(sc.found), sc.found, Live(n.val)[n.val.n..] + Objs(n.tree.right), goOn)
    decreases n.tree, 0
  {
    hide Matching, Took, Full, Sorted, Good, Objs;
    GoodParts(n.tree);
    EmptyGood();
    if n.right != null {
      goOn := Find(n.right, sc);
    } else {
      TookNothing(sc.query, sc.found);
      goOn := true;
    }
    assert Live(n.val)[n.val.n..] + Objs(n.tree.right) == Objs(n.tree.right);
  }

  /** Everything before slot `r`, whose items are too small up to there, is too small. */
  lemma SkippedParts(q: Query, t: Tree<Page>, r: nat)
    requires Good(t) && t.Node? && 1 <= r <= t.val.n && TooSmall(q, t.val.item[r - 1])
    ensures forall x :: x in Objs(t.left) + Live(t.val)[..r] ==> TooSmall(q, x)
    ensures Objs(t) == (Objs(t.left) + Live(t.val)[..r]) + (Live(t.val)[r..] + Objs(t.right))
  {
    GoodParts(t);
    Ends(t.val);
    SortedSplit(Live(t.val), r);
    SortedBounds(Live(t.val));
    Regrouped(Objs(t.left), Live(t.val), Objs(t.right), r);
    hide Sorted, Objs, Live;
  }

  lemma Regrouped(a: seq<Obj>, m: seq<Obj>, b: seq<Obj>, r: nat)
    requires r <= |m|
    ensures a + m + b == (a + m[..r]) + (m[r..] + b)
  {
  }

  /** The search when no item of `n` comes before the first key. */
  method FindAll(n: Node<Page>, sc: SearchContext) returns (goOn: bool)
    requires n.Valid() && Good(n.tree) && AllFilled(n.tree) && sc !in n.repr
    requires sc.Valid() && !Full(sc.query, sc.found) && !TooSmall(sc.query, First(n.val))
    modifies sc
    ensures sc.Valid() && Took(sc.query, old(sc.found), sc.found, Objs(n.tree), goOn)
    decreases n.tree, 1
  {
    hide Matching, Took, Full, Sorted, Good, Objs;
    GoodParts(n.tree);
    EmptyGood();
    Ends(n.val);
    SortedBounds(Live(n.val));
    ghost var f0, before, after := sc.found, Objs(n.tree.left), Live(n.val) + Objs(n.tree.right);
    SortedTail(n.tree, 0);
    assert Sorted(before + after);
    if n.left != null {
      goOn := Find(n.left, sc);
      if !goOn {
        TookStop(sc.query, f0, sc.found, before, after);
        return;
      }
      TookOn(sc.query, f0, sc.found, before);
    } else {
      TookNothing(sc.query, f0);
    }
    ghost var f1 := sc.found;
    assert Live(n.val)[0..] == Live(n.val);
    goOn := FindFrom(n, sc, 0);
    TookThen(sc.query, f0, f1, sc.found, before, after, goOn);
  }
}

/** What a range search of a T-tree selects, and how the selection splits along the tree. */
module TtreeQueries {
  import opened TtreePages

  datatype Bound = NoBound | Bound(key: int, inclusive: bool)

  datatype Query = Query(first: Bound, last: Bound, limit: nat, pred: Obj -> bool)

  /** By how much a key must be beyond the bound to be outside. */
  function Gap(b: Bound): int { if b.Bound? && b.inclusive then 1 else 0 }

  /** `x` comes before the first key of the query. */
  predicate TooSmall(q: Query, x: Obj) { q.first.Bound? && q.first.key - x.key >= Gap(q.first) }

  /** `x` comes after the last key. */
  predicate TooGreat(q: Query, x: Obj) { q.last.Bound? && -(q.last.key - x.key) >= Gap(q.last) }

  /** The objects of `s` between the two keys that satisfy the predicate, in order. */
  ghost function Matching(q: Query, s: seq<Obj>): seq<Obj> {
    if s == [] then []
    else (if !TooSmall(q, s[0]) && !TooGreat(q, s[0]) && q.pred(s[0]) then [s[0]] else []) + Matching(q, s[1..])
  }

  /** `x` is not before the first key, nor at it if that is exclusive. */
  predicate NotBefore(b: Bound, x: Obj) {
    match b
    case NoBound => true
    case Bound(key, inclusive) => if inclusive then key <= x.key else key < x.key
  }

  predicate NotBehind(b: Bound, x: Obj) {
    match b
    case NoBound => true
    case Bound(key, inclusive) => if inclusive then x.key <= key else x.key < key
  }

  /** What a query asks for, by comparison of keys. */
  predicate Wanted(q: Query, x: Obj) { NotBefore(q.first, x) && NotBehind(q.last, x) && q.pred(x) }

  lemma WantedIs(q: Query, x: Obj)
    ensures Wanted(q, x) <==> !TooSmall(q, x) && !TooGreat(q, x) && q.pred(x)
  {
  }

  /** `at` are the places of `s`, in order, that have what the query asks for. */
  ghost predicate Picks(q: Query, s: seq<Obj>, at: seq<nat>) {
    && (forall i :: 0 <= i < |at| ==> at[i] < |s| && Wanted(q, s[at[i]]))
    && (forall i, j :: 0 <= i < j < |at| ==> at[i] < at[j])
    && (forall k: nat :: k < |s| && Wanted(q, s[k]) ==> k in at)
  }

  function Shifted(at: seq<nat>): seq<nat> { seq(|at|, i requires 0 <= i < |at| => at[i] + 1) }

  lemma PicksRest(q: Query, s: seq<Obj>, rest: seq<nat>)
    requires s != [] && Picks(q, s[1..], rest)
    ensures forall i :: 0 <= i < |rest| ==> Shifted(rest)[i] < |s| && Wanted(q, s[Shifted(rest)[i]])
    ensures forall i, j :: 0 <= i < j < |rest| ==> Shifted(rest)[i] < Shifted(rest)[j]
    ensures forall k: nat :: 0 < k < |s| && Wanted(q, s[k]) ==> k in Shifted(rest)
  {
    hide Wanted;
    forall k: nat | 0 < k < |s| && Wanted(q, s[k]) ensures k in Shifted(rest) {
      assert s[1..][k - 1] == s[k];
      assert k - 1 in rest;
      var i :| 0 <= i < |rest| && rest[i] == k - 1;
      assert Shifted(rest)[i] == k;
    }
  }

  lemma PicksNext(q: Query, s: seq<Obj>, rest: seq<nat>, at: seq<nat>)
    requires s != [] && Picks(q, s[1..], rest)
    requires at == (if Wanted(q, s[0]) then [0] else []) + Shifted(rest)
    ensures Picks(q, s, at)
  {
    PicksRest(q, s, rest);
    hide Wanted, Shifted;
    assert |Shifted(rest)| == |rest|;
    if Wanted(q, s[0]) {
      forall k: nat | k < |s| && Wanted(q, s[k]) ensures k in at { assert k == 0 || k in Shifted(rest); }
    }
  }

  /** What is selected are just the wanted objects, each as often as it is there, in their order. */
  lemma {:induction false} MatchingPicks(q: Query, s: seq<Obj>) returns (at: seq<nat>)
    ensures Picks(q, s, at) && |Matching(q, s)| == |at|
    ensures forall i :: 0 <= i < |at| ==> at[i] < |s| && Matching(q, s)[i] == s[at[i]]
    decreases |s|
  {
    hide Wanted, TooSmall, TooGreat, Picks;
    if s == [] {
      at := [];
      NothingPicked(q);
    } else {
      var rest := MatchingPicks(q, s[1..]);
      WantedIs(q, s[0]);
      at := (if Wanted(q, s[0]) then [0] else []) + Shifted(rest);
      PicksNext(q, s, rest, at);
    }
  }

  lemma NothingPicked(q: Query)
    ensures Picks(q, [], [])
  {
  }

  /** Cut at the selection limit, 0 meaning none. */
  ghost function Limited(q: Query, s: seq<Obj>): seq<Obj> {
    if q.limit == 0 || |s| <= q.limit then s else s[..q.limit]
  }

  ghost predicate Full(q: Query, s: seq<Obj>) { q.limit != 0 && q.limit <= |s| }

  /** A search that had found `f0` went through `s` and now has `f1`; it goes on, or stops because
      nothing after `s` can be found. */
  ghost predicate Took(q: Query, f0: seq<Obj>, f1: seq<Obj>, s: seq<Obj>, goOn: bool) {
    && f1 == Limited(q, f0 + Matching(q, s))
    && (if goOn then !Full(q, f1) else Full(q, f1) || exists x :: x in s && TooGreat(q, x))
  }

  lemma {:induction false} MatchingJoin(q: Query, a: seq<Obj>, b: seq<Obj>)
    ensures Matching(q, a + b) == Matching(q, a) + Matching(q, b)
  {
    if a == [] {
      assert a + b == b;
    } else {
      assert (a + b)[1..] == a[1..] + b;
      MatchingJoin(q, a[1..], b);
    }
  }

  lemma {:induction false} MatchingNone(q: Query, s: seq<Obj>)
    requires forall x :: x in s ==> TooSmall(q, x) || TooGreat(q, x)
    ensures Matching(q, s) == []
  {
    if s != [] {
      assert forall x :: x in s[1..] ==> x in s;
      MatchingNone(q, s[1..]);
    }
  }

  lemma TookNothing(q: Query, f: seq<Obj>)
    requires !Full(q, f)
    ensures Took(q, f, f, [], true)
  {
    assert f + [] == f;
  }

  lemma TookThen(q: Query, f0: seq<Obj>, f1: seq<Obj>, f2: seq<Obj>, a: seq<Obj>, b: seq<Obj>, goOn: bool)
    requires Took(q, f0, f1, a, true) && Took(q, f1, f2, b, goOn)
    ensures Took(q, f0, f2, a + b, goOn)
  {
    MatchingJoin(q, a, b);
    assert f0 + (Matching(q, a) + Matching(q, b)) == f0 + Matching(q, a) + Matching(q, b);
    if !goOn && !Full(q, f2) {
      var x :| x in b && TooGreat(q, x);
      assert x in a + b;
    }
  }

  /** Once the search has stopped, what follows in order would add nothing. */
  lemma TookStop(q: Query, f0: seq<Obj>, f1: seq<Obj>, a: seq<Obj>, b: seq<Obj>)
    requires Took(q, f0, f1, a, false) && Sorted(a + b)
    ensures Took(q, f0, f1, a + b, false)
  {
    MatchingJoin(q, a, b);
    if Full(q, f1) {
      CutTwice(q, f0 + Matching(q, a), Matching(q, b));
      assert f0 + (Matching(q, a) + Matching(q, b)) == f0 + Matching(q, a) + Matching(q, b);
    } else {
      var x :| x in a && TooGreat(q, x);
      forall y | y in b ensures TooGreat(q, y) { InOrder(a, b, x, y); }
      MatchingNone(q, b);
      assert x in a + b;
      assert Matching(q, a) + [] == Matching(q, a);
    }
  }

  lemma CutTwice(q: Query, s: seq<Obj>, more: seq<Obj>)
    requires Full(q, Limited(q, s))
    ensures Limited(q, s + more) == Limited(q, s)
  {
  }

  lemma InOrder(a: seq<Obj>, b: seq<Obj>, x: Obj, y: Obj)
    requires Sorted(a + b) && x in a && y in b
    ensures x.key <= y.key
  {
    var i :| 0 <= i < |a| && a[i] == x;
    var j :| 0 <= j < |b| && b[j] == y;
    assert (a + b)[i] == x && (a + b)[|a| + j] == y;
  }

  /** What comes before the first key may be skipped. */
  lemma TookSkip(q: Query, f0: seq<Obj>, f1: seq<Obj>, a: seq<Obj>, b: seq<Obj>, goOn: bool)
    requires forall x :: x in a ==> TooSmall(q, x)
    requires Took(q, f0, f1, b, goOn)
    ensures Took(q, f0, f1, a + b, goOn)
  {
    MatchingJoin(q, a, b);
    MatchingNone(q, a);
    if !goOn && !Full(q, f1) {
      var x :| x in b && TooGreat(q, x);
      assert x in a + b;
    }
  }

  /** One more object. */
  lemma TookOne(q: Query, f: seq<Obj>, x: Obj)
    requires !Full(q, f) && !TooSmall(q, x)
    ensures TooGreat(q, x) ==> Took(q, f, f, [x], false)
    ensures !TooGreat(q, x) && !q.pred(x) ==> Took(q, f, f, [x], true)
    ensures !TooGreat(q, x) && q.pred(x) ==> Took(q, f, f + [x], [x], !(|f| + 1 == q.limit))
  {
    assert Matching(q, [x][1..]) == [];
    assert f + [] == f;
    assert x in [x];
  }
}

/** Rectangles and pages of the R-tree, and the split of a page that is full. */
module RtreeSplit {

  const CARD: nat := 186
  const MIN_FILL: nat := CARD / 2

  datatype Rect = Rect(x0: int, y0: int, x1: int, y1: int)

  /** A branch leads to a page, or on a leaf page to an object. */
  datatype Ptr = Child(page: Page) | Obj(id: nat)
  datatype Branch = Branch(rect: Rect, p: Ptr)
  datatype Page = Page(b: seq<Branch>)

  function MinOf(a: int, b: int): int { if a <= b then a else b }

  function MaxOf(a: int, b: int): int { if a >= b then a else b }

  /** The smallest rectangle that contains both. */
  function Join(r: Rect, s: Rect): Rect {
    Rect(MinOf(r.x0, s.x0), MinOf(r.y0, s.y0), MaxOf(r.x1, s.x1), MaxOf(r.y1, s.y1))
  }

  // ---------- Which slots went where ----------

  /** The branches whose slot, among the first `k`, is marked `v`. */
  ghost function Part(b: seq<Branch>, taken: seq<int>, v: int, k: nat): multiset<Branch>
    requires k <= |b| == |taken|
  {
    if k == 0 then multiset{}
    else Part(b, taken, v, k - 1) + if taken[k - 1] == v then multiset{b[k - 1]} else multiset{}
  }

  ghost function Count(taken: seq<int>, v: int, k: nat): nat
    requires k <= |taken|
  {
    if k == 0 then 0 else Count(taken, v, k - 1) + if taken[k - 1] == v then 1 else 0
  }

  lemma {:induction false} Unchanged(b: seq<Branch>, t: seq<int>, t': seq<int>, v: int, k: nat)
    requires k <= |b| == |t| == |t'| && t[..k] == t'[..k]
    ensures Part(b, t', v, k) == Part(b, t, v, k)
  {
    if k > 0 {
      assert t[..k][k - 1] == t'[..k][k - 1];
      assert t[..k - 1] == t[..k][..k - 1] == t'[..k][..k - 1] == t'[..k - 1];
      Unchanged(b, t, t', v, k - 1);
    }
  }

  lemma {:induction false} UnchangedCount(t: seq<int>, t': seq<int>, v: int, k: nat)
    requires k <= |t| == |t'| && t[..k] == t'[..k]
    ensures Count(t', v, k) == Count(t, v, k)
  {
    if k > 0 {
      assert t[..k][k - 1] == t'[..k][k - 1];
      assert t[..k - 1] == t[..k][..k - 1] == t'[..k][..k - 1] == t'[..k - 1];
      UnchangedCount(t, t', v, k - 1);
    }
  }

  // A slot that was marked 0 is marked `v`: what that means for the slots marked `w`.

  lemma {:induction false} RetakenCount(t: seq<int>, i: nat, v: int, k: nat, w: int)
    requires i < k <= |t| && t[i] == 0 && v != 0
    ensures Count(t[i := v], w, k) == Count(t, w, k) + (if w == v then 1 else if w == 0 then -1 else 0)
  {
    if i == k - 1 {
      assert t[..i] == t[i := v][..i];
      UnchangedCount(t, t[i := v], w, i);
    } else {
      RetakenCount(t, i, v, k - 1, w);
    }
  }

  lemma {:induction false} RetakenPart(b: seq<Branch>, t: seq<int>, i: nat, v: int, k: nat, w: int)
    requires i < k <= |b| == |t| && t[i] == 0 && v != 0
    ensures w == 0 ==> Part(b, t, 0, k) == Part(b, t[i := v], 0, k) + multiset{b[i]}
    ensures w == v ==> Part(b, t[i := v], v, k) == Part(b, t, v, k) + multiset{b[i]}
    ensures w != 0 && w != v ==> Part(b, t[i := v], w, k) == Part(b, t, w, k)
  {
    var t' := t[i := v];
    if i == k - 1 {
      Unchanged(b, t, t', w, i);
    } else {
      RetakenPart(b, t, i, v, k - 1, w);
      var last := if t[k - 1] == w then multiset{b[k - 1]} else multiset{};
      Swap(Part(b, t, w, k - 1), multiset{b[i]}, last);
      Swap(Part(b, t', w, k - 1), multiset{b[i]}, last);
    }
  }

  lemma Swap(a: multiset<Branch>, x: multiset<Branch>, y: multiset<Branch>)
    ensures a + x + y == a + y + x
  {
  }

  lemma {:induction false} AllUntaken(b: seq<Branch>, t: seq<int>, k: nat)
    requires k <= |b| == |t| && forall i :: 0 <= i < |t| ==> t[i] == 0
    ensures Part(b, t, 0, k) == multiset(b[..k]) && Count(t, 0, k) == k
    ensures forall w :: w != 0 ==> Part(b, t, w, k) == multiset{} && Count(t, w, k) == 0
  {
    if k > 0 {
      AllUntaken(b, t, k - 1);
      assert b[..k] == b[..k - 1] + [b[k - 1]];
    }
  }

  lemma {:induction false} SomeUntaken(t: seq<int>, k: nat) returns (i: nat)
    requires k <= |t| && Count(t, 0, k) > 0
    ensures i < k && t[i] == 0
  {
    if t[k - 1] == 0 {
      i := k - 1;
    } else {
      i := SomeUntaken(t, k - 1);
    }
  }

  lemma {:induction false} NoneUntaken(b: seq<Branch>, t: seq<int>, k: nat)
    requires k <= |b| == |t| && Count(t, 0, k) == 0
    ensures Part(b, t, 0, k) == multiset{}
  {
    if k > 0 { NoneUntaken(b, t, k - 1); }
  }

  // ---------- The split ----------

  /** Number `i` of the branches `br`, `b[0]`, `b[1]` ... */
  function Candidate(b: seq<Branch>, br: Branch, i: nat): Branch
    requires i <= |b|
  {
    if i == 0 then br else b[i - 1]
  }

  /** The area that two of them do not need when covered together. */
  function Waste(b: seq<Branch>, br: Branch, area: Rect -> int, i: nat, j: nat): int
    requires i <= |b| && j <= |b|
  {
    var r, s := Candidate(b, br, i).rect, Candidate(b, br, j).rect;
    area(Join(r, s)) - area(r) - area(s)
  }

  /** The two of the branches `br`, `b[0]`, `b[1]` ... that waste most area when covered together. */
  method PickSeeds(b: seq<Branch>, br: Branch, area: Rect -> int) returns (seed0: nat, seed1: nat)
    requires |b| == CARD
    ensures seed0 < seed1 <= CARD
    ensures forall i: nat, j: nat :: i < j <= CARD ==> Waste(b, br, area, i, j) <= Waste(b, br, area, seed0, seed1)
  {
    var worstWaste := 0;
    seed0, seed1 := 0, 1;
    var bp := br;
    for i := 0 to CARD
      invariant seed0 < seed1 <= CARD && bp == Candidate(b, br, i)
      invariant i > 0 ==> worstWaste == Waste(b, br, area, seed0, seed1)
      invariant forall x: nat, y: nat :: x < i && x < y <= CARD ==> Waste(b, br, area, x, y) <= worstWaste
    {
      for j := i + 1 to CARD + 1
        invariant seed0 < seed1 <= CARD
        invariant i > 0 || j > 1 ==> worstWaste == Waste(b, br, area, seed0, seed1)
        invariant forall x: nat, y: nat :: x < i && x < y <= CARD ==> Waste(b, br, area, x, y) <= worstWaste
        invariant forall y: nat :: i < y < j ==> Waste(b, br, area, i, y) <= worstWaste
      {
        var waste := area(Join(bp.rect, b[j - 1].rect)) - area(bp.rect) - area(b[j - 1].rect);
        if (i == 0 && j == 1) || waste > worstWaste {
          worstWaste := waste;
          seed0, seed1 := i, j;
        }
      }
      bp := b[i];
    }
  }

  /** The state of a split: `p` has group 0, the slots marked 2 are group 1, those marked 0 are still to
      be assigned. */
  ghost predicate Splitting(b: seq<Branch>, taken: seq<int>, p: seq<Branch>, card1: nat, all: multiset<Branch>) {
    && |b| == |taken| == CARD && 1 <= |p| && 1 <= card1
    && card1 == Count(taken, 2, CARD) && |p| + card1 + Count(taken, 0, CARD) == CARD + 1
    && multiset(p) + Part(b, taken, 0, CARD) + Part(b, taken, 2, CARD) == all
  }

  lemma ToNewPage(b: seq<Branch>, taken: seq<int>, p: seq<Branch>, card1: nat, all: multiset<Branch>, i: nat)
    requires Splitting(b, taken, p, card1, all) && i < CARD && taken[i] == 0
    ensures Splitting(b, taken[i := 1], p + [b[i]], card1, all)
    ensures Count(taken, 0, CARD) == Count(taken[i := 1], 0, CARD) + 1
  {
    RetakenCount(taken, i, 1, CARD, 0);
    RetakenPart(b, taken, i, 1, CARD, 0);
    RetakenCount(taken, i, 1, CARD, 2);
    RetakenPart(b, taken, i, 1, CARD, 2);
  }

  lemma ToOldPage(b: seq<Branch>, taken: seq<int>, p: seq<Branch>, card1: nat, all: multiset<Branch>, i: nat)
    requires Splitting(b, taken, p, card1, all) && i < CARD && taken[i] == 0
    ensures Splitting(b, taken[i := 2], p, card1 + 1, all) && Count(taken, 0, CARD) == Count(taken[i := 2], 0, CARD) + 1
  {
    RetakenCount(taken, i, 2, CARD, 0);
    RetakenPart(b, taken, i, 2, CARD, 0);
    RetakenCount(taken, i, 2, CARD, 2);
    RetakenPart(b, taken, i, 2, CARD, 2);
  }

  function Abs(x: int): nat { if x < 0 then -x else x }

  /** How much more area group 0 would have to take in for `br` than group 1. */
  function Preference(br: Branch, group0: Rect, group1: Rect, area0: int, area1: int, area: Rect -> int): int {
    (area(Join(group0, br.rect)) - area0) - (area(Join(group1, br.rect)) - area1)
  }

  /** The branch with the strongest preference, and the group it prefers. */
  method Choose(b: seq<Branch>, taken: seq<int>, group0: Rect, group1: Rect, area0: int, area1: int, area: Rect -> int)
    returns (chosen: nat, better: int)
    requires |b| == |taken| == CARD && Count(taken, 0, CARD) > 0
    ensures chosen < CARD && taken[chosen] == 0
    ensures better == if Preference(b[chosen], group0, group1, area0, area1, area) < 0 then 0 else 1
    ensures forall i :: 0 <= i < CARD && taken[i] == 0 ==>
              Abs(Preference(b[i], group0, group1, area0, area1, area))
              <= Abs(Preference(b[chosen], group0, group1, area0, area1, area))
  {
    ghost var some := SomeUntaken(taken, CARD);
    var c, biggestDiff := -1, -1;
    better := -1;
    for i := 0 to CARD
      invariant -1 <= c < CARD && (c >= 0 ==> taken[c] == 0)
      invariant c == -1 ==> biggestDiff == -1 && some >= i
      invariant c >= 0 ==> biggestDiff == Abs(Preference(b[c], group0, group1, area0, area1, area))
      invariant c >= 0 ==> better == if Preference(b[c], group0, group1, area0, area1, area) < 0 then 0 else 1
      invariant forall x :: 0 <= x < i && taken[x] == 0 ==>
                  Abs(Preference(b[x], group0, group1, area0, area1, area)) <= biggestDiff
    {
      if taken[i] == 0 {
        var diff := (area(Join(group0, b[i].rect)) - area0) - (area(Join(group1, b[i].rect)) - area1);
        if diff > biggestDiff || -diff > biggestDiff {
          c := i;
          if diff < 0 {
            better := 0;
            biggestDiff := -diff;
          } else {
            better := 1;
            biggestDiff := diff;
          }
        }
      }
    }
    chosen := c;
  }

  type Slot = i: nat | i < CARD

  /** What has gone to the two groups, and the rectangles around them. */
  datatype Groups = Groups(taken: seq<int>, p: seq<Branch>, group0: Rect, group1: Rect)

  ghost function Prefers(b: seq<Branch>, g: Groups, i: nat, area: Rect -> int): int
    requires i < |b|
  {
    Preference(b[i], g.group0, g.group1, area(g.group0), area(g.group1), area)
  }

  /** Branch `i` goes to the group whose rectangle has to gain less area for it. */
  ghost function Given(b: seq<Branch>, g: Groups, i: Slot, area: Rect -> int): Groups
    requires |b| == |g.taken| == CARD
  {
    if Prefers(b, g, i, area) < 0
    then Groups(g.taken[i := 1], g.p + [b[i]], Join(g.group0, b[i].rect), g.group1)
    else Groups(g.taken[i := 2], g.p, g.group0, Join(g.group1, b[i].rect))
  }

  ghost function GivenAll(b: seq<Branch>, g: Groups, order: seq<Slot>, area: Rect -> int): (after: Groups)
    requires |b| == |g.taken| == CARD
    ensures |after.taken| == CARD
  {
    if order == [] then g
    else Given(b, GivenAll(b, g, order[..|order| - 1], area), order[|order| - 1], area)
  }

  /** Of the branches that are left none has a stronger preference for one of the groups. */
  ghost predicate Strongest(b: seq<Branch>, g: Groups, i: nat, area: Rect -> int)
    requires |b| == |g.taken| == CARD
  {
    && i < CARD && g.taken[i] == 0
    && forall x :: 0 <= x < |b| && g.taken[x] == 0 ==> Abs(Prefers(b, g, x, area)) <= Abs(Prefers(b, g, i, area))
  }

  /** From `g` on, the branches are given away in this order, always the one with the strongest preference. */
  ghost predicate InOrder(b: seq<Branch>, g: Groups, order: seq<Slot>, area: Rect -> int)
    requires |b| == |g.taken| == CARD
  {
    forall k :: 0 <= k < |order| ==> Strongest(b, GivenAll(b, g, order[..k], area), order[k], area)
  }

  lemma GivenNext(b: seq<Branch>, g: Groups, order: seq<Slot>, i: Slot, area: Rect -> int)
    requires |b| == |g.taken| == CARD
    ensures GivenAll(b, g, order + [i], area) == Given(b, GivenAll(b, g, order, area), i, area)
  {
    assert (order + [i])[..|order|] == order;
  }

  lemma OneMore(b: seq<Branch>, g: Groups, order: seq<Slot>, i: Slot, area: Rect -> int)
    requires |b| == |g.taken| == CARD && InOrder(b, g, order, area)
    requires Strongest(b, GivenAll(b, g, order, area), i, area)
    ensures InOrder(b, g, order + [i], area)
    ensures GivenAll(b, g, order + [i], area) == Given(b, GivenAll(b, g, order, area), i, area)
  {
    hide Strongest, Given, GivenAll;
    GivenNext(b, g, order, i, area);
    var more := order + [i];
    assert more[..|order|] == order;
    forall k | 0 <= k < |more| ensures Strongest(b, GivenAll(b, g, more[..k], area), more[k], area) {
      if k < |order| { assert more[..k] == order[..k]; }
    }
  }

  /** Groups grow by the branch with the strongest preference until one of them has all it may get. */
  method Distribute(b: seq<Branch>, taken0: seq<int>, p0: seq<Branch>, r0: Rect, r1: Rect, area: Rect -> int,
                    ghost all: multiset<Branch>)
    returns (taken: seq<int>, p: seq<Branch>, card1: nat, ghost order: seq<Slot>)
    requires Splitting(b, taken0, p0, 1, all) && |p0| == 1
    ensures Splitting(b, taken, p, card1, all)
    ensures InOrder(b, Groups(taken0, p0, r0, r1), order, area)
    ensures GivenAll(b, Groups(taken0, p0, r0, r1), order, area).taken == taken
    ensures GivenAll(b, Groups(taken0, p0, r0, r1), order, area).p == p
    ensures |p| <= CARD + 1 - MIN_FILL && card1 <= CARD + 1 - MIN_FILL
    ensures |p| == CARD + 1 - MIN_FILL || card1 == CARD + 1 - MIN_FILL || |p| + card1 == CARD + 1
  {
    hide Splitting, Preference, InOrder, GivenAll;
    taken, p, card1, order := taken0, p0, 1, [];
    var group0, group1 := r0, r1;
    var area0, area1 := area(r0), area(r1);
    ghost var g := Groups(taken0, p0, r0, r1);
    SplittingCounts(b, taken, p, card1, all);
    NoneGiven(b, g, area);
    while |p| + card1 < CARD + 1 && |p| < CARD + 1 - MIN_FILL && card1 < CARD + 1 - MIN_FILL
      invariant Splitting(b, taken, p, card1, all) && |b| == |taken| == CARD
      invariant |p| + card1 + Count(taken, 0, CARD) == CARD + 1
      invariant |p| <= CARD + 1 - MIN_FILL && card1 <= CARD + 1 - MIN_FILL
      invariant area0 == area(group0) && area1 == area(group1)
      invariant InOrder(b, g, order, area) && GivenAll(b, g, order, area) == Groups(taken, p, group0, group1)
      decreases Count(taken, 0, CARD)
    {
      var chosen, better := Choose(b, taken, group0, group1, area0, area1, area);
      OneMore(b, g, order, chosen, area);
      order := order + [chosen];
      if better == 0 {
        ToNewPage(b, taken, p, card1, all, chosen);
        group0 := Join(group0, b[chosen].rect);
        area0 := area(group0);
        taken, p := taken[chosen := 1], p + [b[chosen]];
      } else {
        ToOldPage(b, taken, p, card1, all, chosen);
        group1 := Join(group1, b[chosen].rect);
        area1 := area(group1);
        taken, card1 := taken[chosen := 2], card1 + 1;
      }
      SplittingCounts(b, taken, p, card1, all);
    }
  }

  lemma NoneGiven(b: seq<Branch>, g: Groups, area: Rect -> int)
    requires |b| == |g.taken| == CARD
    ensures InOrder(b, g, [], area) && GivenAll(b, g, [], area) == g
  {
  }

  lemma SplittingCounts(b: seq<Branch>, taken: seq<int>, p: seq<Branch>, card1: nat, all: multiset<Branch>)
    requires Splitting(b, taken, p, card1, all)
    ensures |b| == |taken| == CARD && |p| + card1 + Count(taken, 0, CARD) == CARD + 1
    ensures card1 == Count(taken, 2, CARD)
  {
  }

  /** What is left over goes to the group that has less. */
  method Balance(b: seq<Branch>, taken0: seq<int>, p0: seq<Branch>, card0: nat, ghost all: multiset<Branch>)
    returns (taken: seq<int>, p: seq<Branch>, card1: nat)
    requires Splitting(b, taken0, p0, card0, all)
    requires |p0| <= CARD + 1 - MIN_FILL && card0 <= CARD + 1 - MIN_FILL
    ensures Splitting(b, taken, p, card1, all) && |p| + card1 == CARD + 1
    ensures |p| <= CARD + 1 - MIN_FILL && card1 <= CARD + 1 - MIN_FILL
    ensures p0 <= p && forall i :: 0 <= i < CARD && taken0[i] != 0 ==> taken[i] == taken0[i]
  {
    hide Count, Part;
    taken, p, card1 := taken0, p0, card0;
    for i := 0 to CARD
      invariant p0 <= p && |taken| == CARD && forall x :: 0 <= x < CARD && taken0[x] != 0 ==> taken[x] == taken0[x]
      invariant Splitting(b, taken, p, card1, all)
      invariant |p| <= CARD + 1 - MIN_FILL && card1 <= CARD + 1 - MIN_FILL
      invariant forall j :: 0 <= j < i ==> taken[j] != 0
    {
      if taken[i] == 0 {
        UntakenLeft(taken, i, CARD);
        if |p| >= card1 {
          ToOldPage(b, taken, p, card1, all, i);
          taken, card1 := taken[i := 2], card1 + 1;
        } else {
          ToNewPage(b, taken, p, card1, all, i);
          taken, p := taken[i := 1], p + [b[i]];
        }
      }
    }
    AllTaken(taken, CARD);
  }

  lemma {:induction false} AllTaken(t: seq<int>, k: nat)
    requires k <= |t| && forall j :: 0 <= j < k ==> t[j] != 0
    ensures Count(t, 0, k) == 0
  {
    if k > 0 { AllTaken(t, k - 1); }
  }

  lemma {:induction false} UntakenLeft(t: seq<int>, i: nat, k: nat)
    requires i < k <= |t| && t[i] == 0
    ensures Count(t, 0, k) > 0
  {
    if i < k - 1 { UntakenLeft(t, i, k - 1); }
  }

  /** The slots of group 1 move together at the front of the page. */
  method Compact(b: seq<Branch>, taken: seq<int>, n: nat) returns (kept: seq<Branch>)
    requires |b| == |taken| == CARD && n == Count(taken, 2, CARD)
    ensures |kept| == n && multiset(kept) == Part(b, taken, 2, CARD)
  {
    kept := [];
    var j := 0;
    while |kept| < n
      invariant j <= CARD && |kept| == Count(taken, 2, j) <= n && multiset(kept) == Part(b, taken, 2, j)
      decreases CARD - j
    {
      if taken[j] == 2 {
        kept := kept + [b[j]];
      }
      j := j + 1;
      CountMono(taken, 2, j, CARD);
    }
    SameFromHere(b, taken, 2, j, CARD);
  }

  lemma {:induction false} CountMono(t: seq<int>, v: int, j: nat, k: nat)
    requires j <= k <= |t|
    ensures Count(t, v, j) <= Count(t, v, k)
  {
    if j < k { CountMono(t, v, j, k - 1); }
  }

  lemma {:induction false} SameFromHere(b: seq<Branch>, t: seq<int>, v: int, j: nat, k: nat)
    requires j <= k <= |b| == |t| && Count(t, v, j) == Count(t, v, k)
    ensures Part(b, t, v, j) == Part(b, t, v, k)
  {
    if j < k {
      CountMono(t, v, j, k - 1);
      SameFromHere(b, t, v, j, k - 1);
    }
  }

  /** The first seed is alone on the new page, the second one alone in the other group. */
  lemma Seeded(b: seq<Branch>, taken: seq<int>, first: Branch, i: nat, all: multiset<Branch>)
    requires |b| == |taken| == CARD && i < CARD && (forall j :: 0 <= j < CARD ==> taken[j] == 0)
    requires multiset{first} + multiset(b) == all
    ensures Splitting(b, taken[i := 2], [first], 1, all)
  {
    AllUntaken(b, taken, CARD);
    assert b[..CARD] == b;
    RetakenCount(taken, i, 2, CARD, 0);
    RetakenPart(b, taken, i, 2, CARD, 0);
    RetakenCount(taken, i, 2, CARD, 2);
    RetakenPart(b, taken, i, 2, CARD, 2);
  }

  lemma Done(b: seq<Branch>, taken: seq<int>, p: seq<Branch>, card1: nat, all: multiset<Branch>)
    requires Splitting(b, taken, p, card1, all) && |p| + card1 == CARD + 1
    ensures multiset(p) + Part(b, taken, 2, CARD) == all
  {
    NoneUntaken(b, taken, CARD);
  }

  /** The page and one more branch are split as the two branches that waste most area attract the others. */
  ghost predicate SplitWell(all: seq<Branch>, br: Branch, area: Rect -> int, kept: seq<Branch>, given: seq<Branch>)
    requires |all| == CARD
  {
    exists seed0: nat, seed1: nat, order: seq<Slot> ::
      && seed0 < seed1 <= CARD
      && (forall i: nat, j: nat :: i < j <= CARD ==> Waste(all, br, area, i, j) <= Waste(all, br, area, seed0, seed1))
      && InOrder(Others(all, br, seed0), AtFirst(all, br, seed0, seed1), order, area)
      && SplitAfter(all, br, seed0, seed1, order, area, kept, given)
  }

  /** The slots of the page, the first seed having been replaced by the new branch. */
  ghost function Others(all: seq<Branch>, br: Branch, seed0: nat): (b: seq<Branch>)
    requires seed0 <= |all|
    ensures |b| == |all|
  {
    if seed0 == 0 then all else all[seed0 - 1 := br]
  }

  ghost function AtFirst(all: seq<Branch>, br: Branch, seed0: nat, seed1: nat): (g: Groups)
    requires |all| == CARD && seed0 < seed1 <= CARD
    ensures |g.taken| == CARD
  {
    var first := Candidate(all, br, seed0);
    Groups(seq(CARD, i => 0)[seed1 - 1 := 2], [first], first.rect, Candidate(all, br, seed1).rect)
  }

  /** The order has been kept until one group was full or nothing was left, and what was left then is added. */
  ghost predicate SplitAfter(all: seq<Branch>, br: Branch, seed0: nat, seed1: nat, order: seq<Slot>, area: Rect -> int,
                             kept: seq<Branch>, given: seq<Branch>)
    requires |all| == CARD && seed0 < seed1 <= CARD
  {
    var b := Others(all, br, seed0);
    var g := GivenAll(b, AtFirst(all, br, seed0, seed1), order, area);
    && g.p <= given && Part(b, g.taken, 2, CARD) <= multiset(kept)
    && (|g.p| == CARD + 1 - MIN_FILL || Count(g.taken, 2, CARD) == CARD + 1 - MIN_FILL || Count(g.taken, 0, CARD) == 0)
  }

  lemma {:induction false} PartGrows(b: seq<Branch>, t: seq<int>, t': seq<int>, k: nat)
    requires k <= |b| == |t| == |t'| && forall i :: 0 <= i < |t| && t[i] == 2 ==> t'[i] == 2
    ensures Part(b, t, 2, k) <= Part(b, t', 2, k)
  {
    if k > 0 { PartGrows(b, t, t', k - 1); }
  }

  /** Splits a full page and one more branch into two pages: none is lost or doubled, and both pages
      have at least `MIN_FILL` branches, whatever the areas are. */
  method SplitPage(pg: Page, br: Branch, area: Rect -> int) returns (after: Page, p: Page)
    requires |pg.b| == CARD
    ensures multiset(after.b) + multiset(p.b) == multiset(pg.b) + multiset{br}
    ensures MIN_FILL <= |after.b| <= CARD && MIN_FILL <= |p.b| <= CARD
    ensures SplitWell(pg.b, br, area, after.b, p.b)
  {
    hide Splitting, Part, InOrder, GivenAll, Waste, Count;
    var seed0, seed1 := PickSeeds(pg.b, br, area);
    var b, first := pg.b, br;
    ghost var all := multiset(pg.b) + multiset{br};
    if seed0 != 0 {
      first := b[seed0 - 1];
      b := b[seed0 - 1 := br];
    }
    var taken := seq(CARD, i => 0);
    Seeded(b, taken, first, seed1 - 1, all);
    taken := taken[seed1 - 1 := 2];
    var group, card1;
    ghost var order;
    assert b == Others(pg.b, br, seed0);
    assert Groups(taken, [first], first.rect, b[seed1 - 1].rect) == AtFirst(pg.b, br, seed0, seed1);
    taken, group, card1, order := Distribute(b, taken, [first], first.rect, b[seed1 - 1].rect, area, all);
    SplittingCounts(b, taken, group, card1, all);
    ghost var given, first1 := taken, group;
    taken, group, card1 := Balance(b, taken, group, card1, all);
    SplittingCounts(b, taken, group, card1, all);
    PartGrows(b, given, taken, CARD);
    Done(b, taken, group, card1, all);
    p := Page(group);
    var kept := Compact(b, taken, card1);
    after := Page(kept);
    assert SplitAfter(pg.b, br, seed0, seed1, order, area, kept, group);
  }
}

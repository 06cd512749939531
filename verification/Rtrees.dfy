/** The R-tree: insertion, removal with re-insertion of orphaned pages, and search. */
module Rtrees {
  import opened Options
  import opened RtreeSplit
  import opened RtreePages

  // ---------- Insertion ----------

  /** What an insertion of `br` at height `target` below a page makes of the page: a page of the same
      height, and another one if it was split. */
  ghost predicate Inserted(pg: Page, after: Page, q: Option<Page>, added: multiset<Entry>, level: nat) {
    && Sound(after, level)
    && (q.None? ==> |pg.b| <= |after.b| && after.b != [] && Below(after.b, level) == Below(pg.b, level) + added)
    && (q.Some? ==> Sound(q.value, level) && MIN_FILL <= |after.b| && MIN_FILL <= |q.value.b|
                    && Below(after.b, level) + Below(q.value.b, level) == Below(pg.b, level) + added)
  }

  /** A page is split only when it is full. */
  ghost predicate Added(pg: Page, br: Branch, area: Rect -> int, after: Page, q: Option<Page>) {
    if |pg.b| < CARD then q.None? && after.b == pg.b + [br]
    else |pg.b| == CARD && q.Some? && multiset(after.b) + multiset(q.value.b) == multiset(pg.b) + multiset{br}
         && SplitWell(pg.b, br, area, after.b, q.value.b)
  }

  /** Only the branch changes whose rectangle grows least, the smaller one of several. */
  ghost predicate BestGrows(pg: Page, r: Rect, area: Rect -> int, after: Page, q: Option<Page>) {
    exists best: nat :: best < |pg.b|
      && (forall i :: 0 <= i < |pg.b| ==> NoWorse(pg.b[best].rect, pg.b[i].rect, r, area))
      && multiset(pg.b) - multiset{pg.b[best]}
         <= multiset(after.b) + if q.Some? then multiset(q.value.b) else multiset{}
  }

  lemma OthersStay(b: seq<Branch>, i: nat, x: Branch)
    requires i < |b|
    ensures multiset(b) - multiset{b[i]} <= multiset(b[i := x])
  {
  }

  method AddBranch(pg: Page, br: Branch, area: Rect -> int, ghost level: nat) returns (after: Page, q: Option<Page>)
    requires Sound(pg, level) && SoundBranch(br, level)
    ensures Inserted(pg, after, q, Of(br, level), level) && Added(pg, br, area, after, q)
  {
    hide SoundBranch, Of, Below, SplitWell;
    if |pg.b| < CARD {
      BelowJoin(pg.b, [br], level);
      BelowOne(br, level);
      after, q := Page(pg.b + [br]), None;
    } else {
      var p;
      after, p := SplitPage(pg, br, area);
      q := Some(p);
      SplitSound(pg, br, after, p, level);
    }
  }

  lemma SplitSound(pg: Page, br: Branch, after: Page, p: Page, level: nat)
    requires Sound(pg, level) && SoundBranch(br, level)
    requires multiset(after.b) + multiset(p.b) == multiset(pg.b) + multiset{br}
    requires |after.b| <= CARD && |p.b| <= CARD
    ensures Sound(after, level) && Sound(p, level)
    ensures Below(after.b, level) + Below(p.b, level) == Below(pg.b, level) + Of(br, level)
  {
    hide SoundBranch, Of, Below;
    forall x | x in after.b || x in p.b ensures SoundBranch(x, level) {
      assert x in multiset(after.b) + multiset(p.b);
      assert x in pg.b || x == br;
    }
    BelowJoin(after.b, p.b, level);
    BelowJoin(pg.b, [br], level);
    BelowOne(br, level);
    BelowPermuted(after.b + p.b, pg.b + [br], level);
  }

  /** How much area rectangle `s` gains by taking `r` in. */
  function Growth(s: Rect, r: Rect, area: Rect -> int): int { area(Join(s, r)) - area(s) }

  predicate NoWorse(s: Rect, t: Rect, r: Rect, area: Rect -> int) {
    Growth(s, r, area) < Growth(t, r, area) || (Growth(s, r, area) == Growth(t, r, area) && area(s) <= area(t))
  }

  /** The branch whose rectangle grows least, the smaller one of several. */
  method PickBranch(pg: Page, r: Rect, area: Rect -> int) returns (mini: nat)
    requires pg.b != []
    ensures mini < |pg.b|
    ensures forall i :: 0 <= i < |pg.b| ==> NoWorse(pg.b[mini].rect, pg.b[i].rect, r, area)
  {
    mini := 0;
    var minIncr, bestArea := 0, 0;
    for i := 0 to |pg.b|
      invariant mini < |pg.b|
      invariant i > 0 ==> bestArea == area(pg.b[mini].rect) && minIncr == Growth(pg.b[mini].rect, r, area)
      invariant forall x :: 0 <= x < i ==> NoWorse(pg.b[mini].rect, pg.b[x].rect, r, area)
    {
      var rArea := area(pg.b[i].rect);
      var incr := area(Join(pg.b[i].rect, r)) - rArea;
      if i == 0 || incr < minIncr {
        bestArea, minIncr, mini := rArea, incr, i;
      } else if incr == minIncr && rArea < bestArea {
        bestArea, mini := rArea, i;
      }
    }
  }

  /** Inserts `br` at `k` - 1 levels below `pg`. */
  method InsertBranch(pg: Page, br: Branch, k: nat, area: Rect -> int, ghost level: nat)
      returns (after: Page, q: Option<Page>)
    requires Sound(pg, level) && 1 <= k <= level && (k > 1 ==> pg.b != [])
    requires SoundBranch(br, level - k + 1)
    ensures Inserted(pg, after, q, Of(br, level - k + 1), level)
    ensures if k == 1 then Added(pg, br, area, after, q) else BestGrows(pg, br.rect, area, after, q)
    decreases k
  {
    hide SoundBranch, Of, Below, SplitWell, NoWorse;
    if k > 1 {
      var mini := PickBranch(pg, br.rect, area);
      ChildOf(pg, mini, level);
      var child := pg.b[mini].p.page;
      var p, q1 := InsertBranch(child, br, k - 1, area, level - 1);
      if q1.None? {
        ChildGrew(pg, mini, p, br, level, level - k + 1);
        OthersStay(pg.b, mini, Branch(Join(pg.b[mini].rect, br.rect), Child(p)));
        after := Page(pg.b[mini := Branch(Join(pg.b[mini].rect, br.rect), Child(p))]);
        q := None;
        assert BestGrows(pg, br.rect, area, after, q);
      } else {
        ChildSplit(pg, mini, p, q1.value, Of(br, level - k + 1), level);
        var pCover := CoverOf(p);
        var qCover := CoverOf(q1.value);
        var mid := Page(pg.b[mini := Branch(pCover, Child(p))]);
        OthersStay(pg.b, mini, Branch(pCover, Child(p)));
        after, q := AddBranch(mid, Branch(qCover, Child(q1.value)), area, level);
        assert multiset(mid.b) <= multiset(after.b) + if q.Some? then multiset(q.value.b) else multiset{};
        assert BestGrows(pg, br.rect, area, after, q);
      }
    } else {
      after, q := AddBranch(pg, br, area, level);
    }
  }

  lemma ChildOf(pg: Page, i: nat, level: nat)
    requires Sound(pg, level) && level > 1 && i < |pg.b|
    ensures pg.b[i].p.Child? && Sound(pg.b[i].p.page, level - 1) && MIN_FILL <= |pg.b[i].p.page.b| <= CARD
    ensures pg.b[i].rect == Cover(pg.b[i].p.page.b)
    ensures Of(pg.b[i], level) == Below(pg.b[i].p.page.b, level - 1)
  {
    assert SoundBranch(pg.b[i], level);
  }

  /** A branch is replaced by one to a sound child. */
  lemma Replaced(pg: Page, i: nat, br: Branch, level: nat)
    requires Sound(pg, level) && i < |pg.b| && SoundBranch(br, level)
    ensures Sound(Page(pg.b[i := br]), level)
    ensures Below(pg.b[i := br], level) + Of(pg.b[i], level) == Below(pg.b, level) + Of(br, level)
  {
    hide SoundBranch, Of, Below;
    var b := pg.b[i := br];
    forall x | x in b ensures SoundBranch(x, level) { assert x == br || x in pg.b; }
    BelowSplit(pg.b, i, level);
    BelowSplit(b, i, level);
    assert b[..i] + b[i + 1..] == pg.b[..i] + pg.b[i + 1..];
  }

  /** The child took the entry without a split: joining its rectangle with that of the entry gives
      its new exact cover. */
  lemma ChildGrew(pg: Page, i: nat, p: Page, br: Branch, level: nat, target: nat)
    requires Sound(pg, level) && level > 1 && i < |pg.b| && pg.b[i].p.Child? && SoundBranch(br, target)
    requires Inserted(pg.b[i].p.page, p, None, Of(br, target), level - 1)
    ensures var after := Page(pg.b[i := Branch(Join(pg.b[i].rect, br.rect), Child(p))]);
            Inserted(pg, after, None, Of(br, target), level)
  {
    hide Below, Tight;
    ChildOf(pg, i, level);
    var child, rect := pg.b[i].p.page, Join(pg.b[i].rect, br.rect);
    CoverTight(child, level - 1);
    CoverTight(p, level - 1);
    BranchTight(br, target);
    TightJoin(Cover(child.b), Below(child.b, level - 1), br.rect, Of(br, target));
    TightUnique(rect, Cover(p.b), Below(p.b, level - 1));
    Replaced(pg, i, Branch(rect, Child(p)), level);
    Balance3(Below(pg.b[i := Branch(rect, Child(p))], level), Below(pg.b, level), Of(pg.b[i], level), Of(br, target));
  }

  lemma Balance3(a: multiset<Entry>, b: multiset<Entry>, c: multiset<Entry>, d: multiset<Entry>)
    requires a + c == b + (c + d)
    ensures a == b + d
  {
    forall e ensures a[e] == (b + d)[e] { assert (a + c)[e] == (b + (c + d))[e]; }
  }

  /** The child was split: two sound branches take the place of one. */
  lemma ChildSplit(pg: Page, i: nat, p: Page, q: Page, added: multiset<Entry>, level: nat)
    requires Sound(pg, level) && level > 1 && i < |pg.b| && pg.b[i].p.Child?
    requires Inserted(pg.b[i].p.page, p, Some(q), added, level - 1)
    ensures var mid := Page(pg.b[i := Branch(Cover(p.b), Child(p))]); var qBranch := Branch(Cover(q.b), Child(q));
      && Sound(mid, level) && SoundBranch(qBranch, level)
      && Below(mid.b, level) + Of(qBranch, level) == Below(pg.b, level) + added
  {
    hide Below;
    ChildOf(pg, i, level);
    var pBranch, qBranch := Branch(Cover(p.b), Child(p)), Branch(Cover(q.b), Child(q));
    Replaced(pg, i, pBranch, level);
    Balance4(Below(pg.b[i := pBranch], level), Below(pg.b, level), Of(pg.b[i], level), Of(pBranch, level),
             Of(qBranch, level), added);
  }

  lemma Balance4(a: multiset<Entry>, b: multiset<Entry>, c: multiset<Entry>, p: multiset<Entry>, q: multiset<Entry>,
                 d: multiset<Entry>)
    requires a + c == b + p && p + q == c + d
    ensures a + q == b + d
  {
    forall e ensures (a + q)[e] == (b + d)[e] {
      assert (a + c)[e] == (b + p)[e] && (p + q)[e] == (c + d)[e];
    }
  }

  // ---------- Removal ----------

  /** The pages of a re-insertion chain are at consecutive heights, the first one highest and the last
      one a leaf page; each has become too small by one branch. */
  ghost predicate ChainOk(chain: seq<Page>) {
    forall i :: 0 <= i < |chain| ==> Sound(chain[i], |chain| - i) && |chain[i].b| == MIN_FILL - 1
  }

  ghost function ChainBag(chain: seq<Page>): multiset<Entry> {
    if chain == [] then multiset{} else Below(chain[0].b, |chain|) + ChainBag(chain[1..])
  }

  /** `after` has lost entry `e` and the orphaned pages in `chain`: itself it has lost a branch if it is
      a leaf page or its child was orphaned. */
  ghost predicate Removed(pg: Page, after: Page, chain: seq<Page>, e: Entry, level: nat) {
    && Sound(after, level) && ChainOk(chain) && |chain| < level
    && |after.b| == |pg.b| - (if |chain| == level - 1 then 1 else 0)
    && Below(after.b, level) + ChainBag(chain) + multiset{e} == Below(pg.b, level)
  }

  function Without(b: seq<Branch>, i: nat): seq<Branch>
    requires i < |b|
  {
    b[..i] + b[i + 1..]
  }

  /** A search for `obj` that looks only below branches whose rectangles overlap `r` comes to it. */
  ghost predicate Reaches(b: seq<Branch>, r: Rect, obj: nat, level: nat)
    decreases level, 1
  {
    exists br :: br in b && ReachesBy(br, r, obj, level)
  }

  ghost predicate ReachesBy(br: Branch, r: Rect, obj: nat, level: nat)
    decreases level, 0
  {
    match br.p
    case Obj(id) => level == 1 && id == obj
    case Child(pg) => level > 1 && Overlap(br.rect, r) && Reaches(pg.b, r, obj, level - 1)
  }

  lemma ReachesNext(b: seq<Branch>, i: nat, r: Rect, obj: nat, level: nat)
    requires i < |b|
    ensures Reaches(b[..i + 1], r, obj, level) <==> Reaches(b[..i], r, obj, level) || ReachesBy(b[i], r, obj, level)
    ensures ReachesBy(b[i], r, obj, level) ==> Reaches(b, r, obj, level)
  {
    hide ReachesBy;
    assert b[..i + 1] == b[..i] + [b[i]];
  }

  /** What is stored with a proper rectangle is reached: the covers on the way overlap it. */
  lemma {:induction false} ProperIsReached(pg: Page, r: Rect, obj: nat, level: nat)
    requires Sound(pg, level) && Proper(r) && Entry(r, obj) in Below(pg.b, level)
    ensures Reaches(pg.b, r, obj, level)
    decreases level
  {
    BranchWith(pg.b, Entry(r, obj), level);
    var br :| br in pg.b && Entry(r, obj) in Of(br, level);
    if level > 1 {
      OutsideBranch(br, level, r, Entry(r, obj));
      ProperIsReached(br.p.page, r, obj, level - 1);
    }
    assert ReachesBy(br, r, obj, level);
  }

  lemma {:induction false} BranchWith(b: seq<Branch>, e: Entry, level: nat)
    requires e in Below(b, level)
    ensures exists br :: br in b && e in Of(br, level)
    decreases |b|
  {
    if e !in Of(b[0], level) { BranchWith(b[1..], e, level); }
  }

  /** Where every rectangle is the same improper one, so is every cover, and nothing overlaps it. */
  lemma SwappedIsMissed(pg: Page, r: Rect, obj: nat, level: nat)
    requires Sound(pg, level) && level > 1 && !Proper(r)
    requires forall e :: e in Below(pg.b, level) ==> e.rect == r
    ensures !Reaches(pg.b, r, obj, level)
  {
    hide Below, Of;
    forall br | br in pg.b ensures !ReachesBy(br, r, obj, level) {
      BelowBranch(pg.b, br, level);
      BranchTight(br, level);
    }
  }

  lemma BelowBranch(b: seq<Branch>, br: Branch, level: nat)
    requires br in b
    ensures Of(br, level) <= Below(b, level)
  {
    hide Of, Below;
    var i :| 0 <= i < |b| && b[i] == br;
    BelowSplit(b, i, level);
  }

  /** A removal is sure to find what is stored with rectangle `r` if and only if `r` is proper. */
  lemma FoundIffProper(r: Rect)
    ensures Proper(r) <==> (
              forall pg: Page, obj: nat, level: nat ::
                Sound(pg, level) && Entry(r, obj) in Below(pg.b, level) ==> Reaches(pg.b, r, obj, level))
  {
    if Proper(r) {
      forall pg: Page, obj: nat, level: nat | Sound(pg, level) && Entry(r, obj) in Below(pg.b, level)
        ensures Reaches(pg.b, r, obj, level)
      {
        ProperIsReached(pg, r, obj, level);
      }
    } else {
      var pg := SameEverywhere(r);
      SwappedIsMissed(pg, r, 0, 2);
    }
  }

  /** A page above a leaf page that has the same rectangle in every branch. */
  lemma SameEverywhere(r: Rect) returns (pg: Page)
    ensures Sound(pg, 2) && Entry(r, 0) in Below(pg.b, 2)
    ensures forall e :: e in Below(pg.b, 2) ==> e.rect == r
  {
    var leaf := Page(seq(MIN_FILL, i requires 0 <= i < MIN_FILL => Branch(r, Obj(i))));
    assert forall br :: br in leaf.b ==> SoundBranch(br, 1);
    SameBelow(leaf.b, r);
    CoverTight(leaf, 1);
    var br := Branch(r, Child(leaf));
    assert SoundBranch(br, 2);
    pg := Page([br]);
    BelowOne(br, 2);
    BelowBranch(leaf.b, leaf.b[0], 1);
    assert Entry(r, 0) in Of(leaf.b[0], 1);
  }

  lemma {:induction false} SameBelow(b: seq<Branch>, r: Rect)
    requires forall br :: br in b ==> br.rect == r
    ensures forall e :: e in Below(b, 1) ==> e.rect == r
  {
    forall e | e in Below(b, 1) ensures e.rect == r { BranchWith(b, e, 1); }
  }

  /** Looks for `obj` on the pages below whose rectangles overlap `r`, and takes it out.  The pages that
      became too small on the way are in `chain`, and `rlevel` is one less than the height of the first
      of them. */
  method RemoveFrom(pg: Page, r: Rect, obj: nat, level: nat)
    returns (found: bool, after: Page, chain: seq<Page>, rlevel: int, ghost e: Entry)
    requires Sound(pg, level)
    ensures found <==> Reaches(pg.b, r, obj, level)
    ensures found ==> Removed(pg, after, chain, e, level) && e.id == obj && (chain != [] ==> rlevel == |chain| - 1)
    ensures !found ==> after == pg
    decreases level, 1
  {
    hide SoundBranch, Of, Below, Removed, Reaches;
    e := Entry(r, obj);
    if level != 1 {
      found, after, chain, rlevel, e := RemoveBelow(pg, r, obj, level);
    } else {
      found, after, e := RemoveHere(pg, r, obj);
      chain, rlevel := [], 0;
    }
  }

  method RemoveHere(pg: Page, r: Rect, obj: nat) returns (found: bool, after: Page, ghost e: Entry)
    requires Sound(pg, 1)
    ensures found <==> Reaches(pg.b, r, obj, 1)
    ensures found ==> Removed(pg, after, [], e, 1) && e.id == obj
    ensures !found ==> after == pg
  {
    hide Below, Of, Removed, Reaches;
    ReachesNone(r, obj, 1);
    for i := 0 to |pg.b|
      invariant !Reaches(pg.b[..i], r, obj, 1)
    {
      LeafBranch(pg, i);
      ReachesNext(pg.b, i, r, obj, 1);
      if pg.b[i].p == Obj(obj) {
        e := Entry(pg.b[i].rect, obj);
        after := Page(Without(pg.b, i));
        RemovedLeaf(pg, i);
        return true, after, e;
      }
    }
    assert pg.b[..|pg.b|] == pg.b;
    return false, pg, Entry(r, obj);
  }

  lemma ReachesNone(r: Rect, obj: nat, level: nat)
    ensures !Reaches([], r, obj, level)
  {
  }

  lemma LeafBranch(pg: Page, i: nat)
    requires Sound(pg, 1) && i < |pg.b|
    ensures pg.b[i].p.Obj? && Of(pg.b[i], 1) == multiset{Entry(pg.b[i].rect, pg.b[i].p.id)}
    ensures Below([], 1) == multiset{}
  {
    assert SoundBranch(pg.b[i], 1);
  }

  lemma RemovedLeaf(pg: Page, i: nat)
    requires Sound(pg, 1) && i < |pg.b|
    ensures pg.b[i].p.Obj? && Removed(pg, Page(Without(pg.b, i)), [], Entry(pg.b[i].rect, pg.b[i].p.id), 1)
  {
    hide Below, Of;
    LeafBranch(pg, i);
    BelowSplit(pg.b, i, 1);
    SoundPermuted(pg, Without(pg.b, i), 1);
    EmptyChain();
  }

  lemma EmptyChain()
    ensures ChainBag([]) == multiset{}
  {
  }

  method RemoveBelow(pg: Page, r: Rect, obj: nat, level: nat)
    returns (found: bool, after: Page, chain: seq<Page>, rlevel: int, ghost e: Entry)
    requires Sound(pg, level) && level > 1
    ensures found <==> Reaches(pg.b, r, obj, level)
    ensures found ==> Removed(pg, after, chain, e, level) && e.id == obj && (chain != [] ==> rlevel == |chain| - 1)
    ensures !found ==> after == pg
    decreases level, 0
  {
    hide Below, Of, Removed, SoundBranch, Sound, Reaches;
    ReachesNone(r, obj, level);
    for i := 0 to |pg.b|
      invariant !Reaches(pg.b[..i], r, obj, level)
    {
      ChildOf(pg, i, level);
      ReachesNext(pg.b, i, r, obj, level);
      if Overlap(pg.b[i].rect, r) {
        var p;
        found, p, chain, rlevel, e := RemoveFrom(pg.b[i].p.page, r, obj, level - 1);
        if found {
          after, chain, rlevel := AfterRemoval(pg, i, p, chain, rlevel, e, level);
          return;
        }
      }
    }
    assert pg.b[..|pg.b|] == pg.b;
    return false, pg, [], 0, Entry(r, obj);
  }

  lemma NothingBelow(level: nat)
    ensures Below([], level) == multiset{}
  {
  }

  /** The child has lost the entry: it gets its new exact cover, or joins the chain. */
  method AfterRemoval(pg: Page, i: nat, p: Page, chain0: seq<Page>, rlevel0: int, ghost e: Entry, level: nat)
    returns (after: Page, chain: seq<Page>, rlevel: int)
    requires Sound(pg, level) && level > 1 && i < |pg.b| && pg.b[i].p.Child?
    requires Removed(pg.b[i].p.page, p, chain0, e, level - 1) && (chain0 != [] ==> rlevel0 == |chain0| - 1)
    ensures Removed(pg, after, chain, e, level) && (chain != [] ==> rlevel == |chain| - 1)
  {
    hide Below, Of, SoundBranch, Sound;
    ChildOf(pg, i, level);
    if |p.b| >= MIN_FILL {
      ChildShrank(pg, i, p, chain0, e, level);
      var c := CoverOf(p);
      after, chain, rlevel := Page(pg.b[i := Branch(c, Child(p))]), chain0, rlevel0;
    } else {
      ChildOrphaned(pg, i, p, chain0, e, level);
      chain, rlevel := [p] + chain0, level - 2;
      after := Page(Without(pg.b, i));
    }
  }

  lemma ChildShrank(pg: Page, i: nat, p: Page, chain: seq<Page>, e: Entry, level: nat)
    requires Sound(pg, level) && level > 1 && i < |pg.b| && pg.b[i].p.Child?
    requires Removed(pg.b[i].p.page, p, chain, e, level - 1) && |p.b| >= MIN_FILL
    ensures Removed(pg, Page(pg.b[i := Branch(Cover(p.b), Child(p))]), chain, e, level)
  {
    hide Below, ChainOk;
    ChildOf(pg, i, level);
    var br := Branch(Cover(p.b), Child(p));
    Replaced(pg, i, br, level);
    Balance5(Below(pg.b[i := br], level), Below(pg.b, level), Of(pg.b[i], level), Of(br, level), ChainBag(chain),
             multiset{e});
  }

  lemma Balance5(a: multiset<Entry>, b: multiset<Entry>, c: multiset<Entry>, p: multiset<Entry>, q: multiset<Entry>,
                 e: multiset<Entry>)
    requires a + c == b + p && p + q + e == c
    ensures a + q + e == b
  {
    forall x ensures (a + q + e)[x] == b[x] {
      assert (a + c)[x] == (b + p)[x] && (p + q + e)[x] == c[x];
    }
  }

  /** A child that is too small now lost a branch just before, so the chain so far ends right below it. */
  lemma ChildOrphaned(pg: Page, i: nat, p: Page, chain: seq<Page>, e: Entry, level: nat)
    requires Sound(pg, level) && level > 1 && i < |pg.b| && pg.b[i].p.Child?
    requires Removed(pg.b[i].p.page, p, chain, e, level - 1) && |p.b| < MIN_FILL
    ensures |chain| == level - 2 && Removed(pg, Page(Without(pg.b, i)), [p] + chain, e, level)
  {
    hide Below, SoundBranch;
    ChildOf(pg, i, level);
    var longer := [p] + chain;
    assert longer[1..] == chain;
    forall j | 0 <= j < |longer| ensures Sound(longer[j], |longer| - j) && |longer[j].b| == MIN_FILL - 1 {
      if j > 0 { assert longer[j] == chain[j - 1]; }
    }
    SoundPermuted(pg, Without(pg.b, i), level);
    BelowSplit(pg.b, i, level);
    Balance6(Below(Without(pg.b, i), level), Below(p.b, level - 1), ChainBag(chain), multiset{e}, Of(pg.b[i], level));
  }

  lemma Balance6(a: multiset<Entry>, p: multiset<Entry>, q: multiset<Entry>, e: multiset<Entry>, c: multiset<Entry>)
    requires p + q + e == c
    ensures a + (p + q) + e == a + c
  {
  }

  // ---------- Search ----------

  /** `hits` are the entries of `bag` that meet `r`, each as often as it is there. */
  ghost predicate Hits(hits: seq<Entry>, r: Rect, bag: multiset<Entry>) {
    forall e {:trigger multiset(hits)[e]} :: multiset(hits)[e] == if Meet(r, e.rect) then bag[e] else 0
  }

  ghost function Ids(hits: seq<Entry>): seq<nat> { seq(|hits|, i requires 0 <= i < |hits| => hits[i].id) }

  /** `buffer` has the objects of exactly the entries of `bag` that meet `r`. */
  ghost predicate Reports(buffer: seq<nat>, r: Rect, bag: multiset<Entry>) {
    exists hits: seq<Entry> :: Hits(hits, r, bag) && buffer == Ids(hits)
  }

  lemma HitsJoin(h: seq<Entry>, a: multiset<Entry>, g: seq<Entry>, b: multiset<Entry>, r: Rect)
    requires Hits(h, r, a) && Hits(g, r, b)
    ensures Hits(h + g, r, a + b)
    ensures Ids(h + g) == Ids(h) + Ids(g)
  {
    forall e ensures multiset(h + g)[e] == if Meet(r, e.rect) then (a + b)[e] else 0 {
      assert multiset(h + g)[e] == multiset(h)[e] + multiset(g)[e];
    }
  }

  /** Puts the objects below `pg` that meet `r` into the buffer and counts them. */
  method SearchPage(pg: Page, r: Rect, buffer0: seq<nat>, level: nat)
      returns (buffer: seq<nat>, hitCount: nat, ghost hits: seq<Entry>)
    requires Sound(pg, level)
    ensures Hits(hits, r, Below(pg.b, level)) && buffer == buffer0 + Ids(hits) && hitCount == |hits|
    decreases level, 1
  {
    hide Below, Of, Hits, SoundBranch;
    buffer, hitCount, hits := buffer0, 0, [];
    NoHits(r, level);
    for i := 0 to |pg.b|
      invariant Hits(hits, r, Below(pg.b[..i], level)) && buffer == buffer0 + Ids(hits) && hitCount == |hits|
    {
      assert pg.b[..i + 1] == pg.b[..i] + [pg.b[i]];
      BelowJoin(pg.b[..i], [pg.b[i]], level);
      BelowOne(pg.b[i], level);
      var more, n;
      ghost var found;
      more, n, found := SearchBranch(pg, i, r, buffer, level);
      HitsJoin(hits, Below(pg.b[..i], level), found, Of(pg.b[i], level), r);
      buffer, hitCount, hits := more, hitCount + n, hits + found;
    }
    assert pg.b[..|pg.b|] == pg.b;
  }

  lemma NoHits(r: Rect, level: nat)
    ensures Hits([], r, Below([], level)) && Ids([]) == []
  {
  }

  method SearchBranch(pg: Page, i: nat, r: Rect, buffer0: seq<nat>, level: nat)
      returns (buffer: seq<nat>, n: nat, ghost hits: seq<Entry>)
    requires Sound(pg, level) && i < |pg.b|
    ensures Hits(hits, r, Of(pg.b[i], level)) && buffer == buffer0 + Ids(hits) && n == |hits|
    decreases level, 0
  {
    buffer, n, hits := buffer0, 0, [];
    assert SoundBranch(pg.b[i], level);
    if Overlap(r, pg.b[i].rect) {
      if level != 1 {
        ChildOf(pg, i, level);
        buffer, n, hits := SearchPage(pg.b[i].p.page, r, buffer0, level - 1);
      } else {
        OverlapIsMeet(r, pg.b[i].rect);
        buffer, n := buffer0 + [pg.b[i].p.id], 1;
        hits := [Entry(pg.b[i].rect, pg.b[i].p.id)];
      }
    } else {
      forall e | e in Of(pg.b[i], level) ensures !Meet(r, e.rect) {
        OutsideBranch(pg.b[i], level, r, e);
        OverlapIsMeet(r, e.rect);
      }
    }
  }

  // ---------- The tree ----------

  class RTree {
    const area: Rect -> int      // only guides the choice among branches
    var nRecords: nat
    var height: nat
    var root: Option<Page>

    /** All leaves at the same depth below the root, exact covers, all pages but the root filled, and an
        inner root with at least two branches. */
    ghost predicate Valid()
      reads this
    {
      if root.None? then nRecords == 0 && height == 0
      else Sound(root.value, height) && (height > 1 ==> 2 <= |root.value.b|) && nRecords == |Contents()|
    }

    ghost function Contents(): multiset<Entry>
      reads this
    {
      if root.None? then multiset{} else Below(root.value.b, height)
    }

    constructor (area: Rect -> int)
      ensures Valid() && Contents() == multiset{} && root.None?
    {
      this.area := area;
      nRecords, height, root := 0, 0, None;
    }

    /** Inserts a branch of a page at height `target` into the tree; a root that is split gets a new
        root above it. */
    method InsertAtRoot(br: Branch, k: nat, ghost target: nat)
      requires root.Some? && Sound(root.value, height) && (k > 1 ==> root.value.b != [])
      requires 1 <= k <= height && target == height - k + 1 && SoundBranch(br, target)
      modifies `root, `height
      ensures root.Some? && Sound(root.value, height) && root.value.b != []
      ensures old(height) <= height && (height > old(height) ==> |root.value.b| == 2)
      ensures height == old(height) ==> |root.value.b| >= old(|root.value.b|)
      ensures Below(root.value.b, height) == old(Below(root.value.b, height)) + Of(br, target)
    {
      hide Below, Of, SoundBranch;
      var after, q := InsertBranch(root.value, br, k, area, height);
      root := Some(after);
      if q.Some? {
        var c0 := CoverOf(after);
        var c1 := CoverOf(q.value);
        NewRoot(after, q.value, height);
        root := Some(Page([Branch(c0, Child(after)), Branch(c1, Child(q.value))]));
        height := height + 1;
      }
    }

    /** The branches of an orphaned page at height `rlevel` + 1 go back to pages of that height. */
    method Reinsert(pg: Page, rlevel: nat)
      requires root.Some? && Sound(root.value, height) && root.value.b != []
      requires Sound(pg, rlevel + 1) && rlevel + 1 <= height
      modifies `root, `height
      ensures root.Some? && Sound(root.value, height) && root.value.b != [] && old(height) <= height
      ensures Below(root.value.b, height) == old(Below(root.value.b, height)) + Below(pg.b, rlevel + 1)
    {
      hide Below, Of, SoundBranch;
      ghost var before := Below(root.value.b, height);
      NothingBelow(rlevel + 1);
      for i := 0 to |pg.b|
        invariant root.Some? && Sound(root.value, height) && root.value.b != [] && old(height) <= height
        invariant Below(root.value.b, height) == before + Below(pg.b[..i], rlevel + 1)
      {
        assert pg.b[..i + 1] == pg.b[..i] + [pg.b[i]];
        BelowJoin(pg.b[..i], [pg.b[i]], rlevel + 1);
        BelowOne(pg.b[i], rlevel + 1);
        InsertAtRoot(pg.b[i], height - rlevel, rlevel + 1);
      }
      assert pg.b[..|pg.b|] == pg.b;
    }

    /** All pages of the chain, the highest first. */
    method ReinsertChain(chain0: seq<Page>, rlevel: int)
      requires root.Some? && Sound(root.value, height) && (chain0 != [] ==> root.value.b != [])
      requires ChainOk(chain0) && |chain0| <= height && (chain0 != [] ==> rlevel == |chain0| - 1)
      modifies `root, `height
      ensures root.Some? && Sound(root.value, height) && old(height) <= height
      ensures chain0 == [] ==> root == old(root) && height == old(height)
      ensures chain0 != [] ==> root.value.b != []
      ensures Below(root.value.b, height) == old(Below(root.value.b, height)) + ChainBag(chain0)
    {
      hide Below, Of, SoundBranch, Sound;
      ghost var before := Below(root.value.b, height);
      var chain, level := chain0, rlevel;
      while chain != []
        invariant root.Some? && Sound(root.value, height) && old(height) <= height
        invariant chain0 != [] ==> root.value.b != []
        invariant chain0 == [] ==> root == old(root) && height == old(height)
        invariant ChainOk(chain) && |chain| <= |chain0| && (chain != [] ==> level == |chain| - 1)
        invariant Below(root.value.b, height) + ChainBag(chain) == before + ChainBag(chain0)
        decreases |chain|
      {
        NextOfChain(chain);
        ghost var now, here, rest := Below(root.value.b, height), Below(chain[0].b, |chain|), ChainBag(chain[1..]);
        Reinsert(chain[0], level);
        assert now + here + rest == now + (here + rest);
        level := level - 1;
        chain := chain[1..];
      }
      EmptyChain();
    }

    method Insert(r: Rect, obj: nat)
      requires Valid()
      modifies this
      ensures Valid() && Contents() == old(Contents()) + multiset{Entry(r, obj)}
    {
      hide Below, Sound;
      var br := Branch(r, Obj(obj));
      LeafEntry(br);
      if root.None? {
        root, height := Some(Page([br])), 1;
      } else {
        SoundHeight(root.value, height);
        InsertAtRoot(br, height, 1);
      }
      nRecords := nRecords + 1;
    }

    /** Takes one entry with object `obj` out, if one is reached where `r` overlaps the covers; one stored
        with a proper rectangle `r` is. */
    method Remove(r: Rect, obj: nat) returns (found: bool)
      requires Valid()
      modifies this
      ensures Valid()
      ensures found <==> old(root.Some? && Reaches(root.value.b, r, obj, height))
      ensures found ==> exists e :: e in old(Contents()) && e.id == obj && Contents() == old(Contents()) - multiset{e}
      ensures !found ==> Contents() == old(Contents()) && (Proper(r) ==> Entry(r, obj) !in old(Contents()))
      ensures Proper(r) && Entry(r, obj) in old(Contents()) && DistinctIds(old(Contents())) ==>
                found && Contents() == old(Contents()) - multiset{Entry(r, obj)}
    {
      hide Below, Sound, DistinctIds, Removed, Reaches;
      ghost var before := Contents();
      if root.Some? {
        SoundHeight(root.value, height);
        if Proper(r) && Entry(r, obj) in before { ProperIsReached(root.value, r, obj, height); }
      }
      if height == 0 {
        return false;
      }
      var after, chain, rlevel;
      ghost var e;
      found, after, chain, rlevel, e := RemoveFrom(root.value, r, obj, height);
      if found {
        Condense(after, chain, rlevel, e);
        OnlyOne(before, e, r, obj);
      }
    }

    /** The root has lost the entry, and pages are to be inserted again. */
    method Condense(after: Page, chain: seq<Page>, rlevel: int, ghost e: Entry)
      requires Valid() && root.Some? && Removed(root.value, after, chain, e, height)
      requires chain != [] ==> rlevel == |chain| - 1
      modifies this
      ensures Valid() && e in old(Contents()) && Contents() == old(Contents()) - multiset{e}
    {
      hide Below, Sound, ChainBag, SoundBranch;
      root := Some(after);
      ReinsertChain(chain, rlevel);
      ShrinkRoot();
      nRecords := nRecords - 1;
    }

    /** An inner root with a single branch gives way to its child. */
    method ShrinkRoot()
      requires root.Some? && Sound(root.value, height) && (height > 1 ==> root.value.b != [])
      modifies `root, `height
      ensures root.Some? && Sound(root.value, height) && (height > 1 ==> 2 <= |root.value.b|)
      ensures Below(root.value.b, height) == old(Below(root.value.b, height))
    {
      if |root.value.b| == 1 && height > 1 {
        ChildOf(root.value, 0, height);
        BelowOne(root.value.b[0], height);
        assert root.value.b == [root.value.b[0]];
        var newRoot := root.value.b[0].p.page;
        root := Some(newRoot);
        height := height - 1;
      }
    }

    /** All objects whose rectangles meet `r`, each once for every entry, and their number. */
    method Search(r: Rect) returns (buffer: seq<nat>, n: nat)
      requires Valid()
      ensures Reports(buffer, r, Contents()) && n == |buffer|
    {
      ghost var hits: seq<Entry>;
      if nRecords != 0 {
        buffer, n, hits := SearchPage(root.value, r, [], height);
      } else {
        NoRecords(Contents());
        buffer, n, hits := [], 0, [];
      }
      assert Hits(hits, r, Contents()) && buffer == Ids(hits);
    }
  }

  /** More entries than a page holds, all with one improper rectangle, are all stored, and not one of
      them is found again. */
  method StoredButNotFound(area: Rect -> int, r: Rect, obj: nat) returns (tree: RTree, found: bool)
    requires !Proper(r)
    ensures fresh(tree) && tree.Valid() && Entry(r, obj) in tree.Contents() && !found
  {
    hide Sound, Reaches;
    tree := new RTree(area);
    for i := 0 to CARD + 1
      invariant fresh(tree) && tree.Valid() && |tree.Contents()| == i
      invariant forall e :: e in tree.Contents() ==> e == Entry(r, obj)
    {
      tree.Insert(r, obj);
    }
    SoundHeight(tree.root.value, tree.height);
    OnPages(tree.root.value, tree.height);
    SwappedIsMissed(tree.root.value, r, obj, tree.height);
    found := tree.Remove(r, obj);
  }

  /** A leaf page holds its branches. */
  lemma OnPages(pg: Page, level: nat)
    requires Sound(pg, level)
    ensures level == 1 ==> |Below(pg.b, level)| <= CARD
  {
    LeafCount(pg.b, level);
  }

  lemma {:induction false} LeafCount(b: seq<Branch>, level: nat)
    ensures level == 1 ==> |Below(b, level)| <= |b|
  {
    if b != [] { LeafCount(b[1..], level); }
  }

  /** Every object is stored under one rectangle only. */
  ghost predicate DistinctIds(bag: multiset<Entry>) {
    forall e, f :: e in bag && f in bag && e.id == f.id ==> e == f
  }

  lemma OnlyOne(bag: multiset<Entry>, e: Entry, r: Rect, obj: nat)
    requires e in bag && e.id == obj
    ensures DistinctIds(bag) && Entry(r, obj) in bag ==> e == Entry(r, obj)
  {
  }

  lemma NoRecords(bag: multiset<Entry>)
    requires |bag| == 0
    ensures bag == multiset{}
  {
  }

  lemma NextOfChain(chain: seq<Page>)
    requires ChainOk(chain) && chain != []
    ensures Sound(chain[0], |chain|) && ChainOk(chain[1..])
    ensures ChainBag(chain) == Below(chain[0].b, |chain|) + ChainBag(chain[1..])
  {
  }

  /** Two pages of the same height under a new root. */
  lemma NewRoot(p: Page, q: Page, level: nat)
    requires Sound(p, level) && Sound(q, level) && MIN_FILL <= |p.b| && MIN_FILL <= |q.b|
    ensures var b := [Branch(Cover(p.b), Child(p)), Branch(Cover(q.b), Child(q))];
            Sound(Page(b), level + 1) && Below(b, level + 1) == Below(p.b, level) + Below(q.b, level)
  {
    var x, y := Branch(Cover(p.b), Child(p)), Branch(Cover(q.b), Child(q));
    BelowJoin([x], [y], level + 1);
    BelowOne(x, level + 1);
    BelowOne(y, level + 1);
    assert [x, y] == [x] + [y];
    assert SoundBranch(x, level + 1) && SoundBranch(y, level + 1);
    forall z | z in [x, y] ensures SoundBranch(z, level + 1) { assert z == x || z == y; }
  }

  lemma SoundHeight(pg: Page, level: nat)
    requires Sound(pg, level)
    ensures 1 <= level
  {
  }

  lemma LeafEntry(br: Branch)
    requires br.p.Obj?
    ensures SoundBranch(br, 1) && Of(br, 1) == multiset{Entry(br.rect, br.p.id)}
    ensures Sound(Page([br]), 1) && Below([br], 1) == Of(br, 1)
  {
    BelowOne(br, 1);
  }
}

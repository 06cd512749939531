/** What an R-tree page stands for, and the exact covers. */
module RtreePages {
  import opened RtreeSplit

  /** A stored object with its rectangle. */
  datatype Entry = Entry(rect: Rect, id: nat)

  /** The objects that branch `br` of a page at height `level` leads to; leaf pages are at height 1. */
  ghost function Of(br: Branch, level: nat): multiset<Entry>
    decreases level, 0
  {
    match br.p
    case Obj(id) => if level == 1 then multiset{Entry(br.rect, id)} else multiset{}
    case Child(pg) => if level > 1 then Below(pg.b, level - 1) else multiset{}
  }

  /** The objects below a page with branches `b` at height `level`. */
  ghost function Below(b: seq<Branch>, level: nat): multiset<Entry>
    decreases level, |b|
  {
    if b == [] then multiset{} else Of(b[0], level) + Below(b[1..], level)
  }

  lemma {:induction false} BelowJoin(a: seq<Branch>, b: seq<Branch>, level: nat)
    ensures Below(a + b, level) == Below(a, level) + Below(b, level)
  {
    if a == [] {
      assert a + b == b;
    } else {
      assert (a + b)[1..] == a[1..] + b;
      BelowJoin(a[1..], b, level);
    }
  }

  lemma BelowOne(br: Branch, level: nat)
    ensures Below([br], level) == Of(br, level)
  {
    assert [br][1..] == [];
  }

  /** Without branch `i`. */
  lemma BelowSplit(b: seq<Branch>, i: nat, level: nat)
    requires i < |b|
    ensures Below(b, level) == Below(b[..i] + b[i + 1..], level) + Of(b[i], level)
  {
    assert b == b[..i] + ([b[i]] + b[i + 1..]);
    BelowJoin(b[..i], [b[i]] + b[i + 1..], level);
    BelowJoin([b[i]], b[i + 1..], level);
    BelowOne(b[i], level);
    BelowJoin(b[..i], b[i + 1..], level);
  }

  /** The order of the branches does not matter. */
  lemma {:induction false} BelowPermuted(b: seq<Branch>, c: seq<Branch>, level: nat)
    requires multiset(b) == multiset(c)
    ensures Below(b, level) == Below(c, level)
    decreases |b|
  {
    if b == [] {
      SameSize(b, c);
    } else {
      assert b[0] in multiset(c);
      var j :| 0 <= j < |c| && c[j] == b[0];
      WithoutSame(b, c, j);
      BelowPermuted(b[1..], c[..j] + c[j + 1..], level);
      BelowSplit(c, j, level);
    }
  }

  lemma WithoutSame(b: seq<Branch>, c: seq<Branch>, j: nat)
    requires b != [] && j < |c| && b[0] == c[j] && multiset(b) == multiset(c)
    ensures multiset(b[1..]) == multiset(c[..j] + c[j + 1..])
  {
    assert b == [b[0]] + b[1..];
    assert c == c[..j] + [c[j]] + c[j + 1..];
    var l, r := multiset(b[1..]), multiset(c[..j] + c[j + 1..]);
    assert multiset(b) == multiset{b[0]} + l;
    assert multiset(c) == r + multiset{b[0]};
    forall x ensures l[x] == r[x] { assert multiset(b)[x] == multiset(c)[x]; }
  }

  lemma SameSize(b: seq<Branch>, c: seq<Branch>)
    requires multiset(b) == multiset(c)
    ensures |b| == |c|
  {
    assert |multiset(b)| == |b| && |multiset(c)| == |c|;
  }

  // ---------- Covers ----------

  /** `r` lies within `s`. */
  predicate Inside(r: Rect, s: Rect) { s.x0 <= r.x0 && s.y0 <= r.y0 && r.x1 <= s.x1 && r.y1 <= s.y1 }

  predicate Overlap(r: Rect, s: Rect) { r.x0 <= s.x1 && s.x0 <= r.x1 && r.y0 <= s.y1 && s.y0 <= r.y1 }

  /** A rectangle whose lower bounds are not above its upper ones. */
  predicate Proper(r: Rect) { r.x0 <= r.x1 && r.y0 <= r.y1 }

  /** The stretch between the two bounds, whichever comes first. */
  ghost predicate Between(v: int, lo: int, hi: int) { lo <= v <= hi || hi <= v <= lo }

  /** On one axis: two stretches meet if they have a point in common; one whose bounds are swapped meets
      just the stretches that contain all of it, and never another one that is swapped. */
  ghost predicate MeetOn(a0: int, a1: int, b0: int, b1: int) {
    if a0 <= a1 && b0 <= b1 then exists v {:trigger Between(v, a0, a1)} :: Between(v, a0, a1) && Between(v, b0, b1)
    else if a0 <= a1 then forall v {:trigger Between(v, b0, b1)} :: Between(v, b0, b1) ==> Between(v, a0, a1)
    else if b0 <= b1 then forall v {:trigger Between(v, a0, a1)} :: Between(v, a0, a1) ==> Between(v, b0, b1)
    else false
  }

  ghost predicate Meet(r: Rect, s: Rect) { MeetOn(r.x0, r.x1, s.x0, s.x1) && MeetOn(r.y0, r.y1, s.y0, s.y1) }

  lemma MeetOnBounds(a0: int, a1: int, b0: int, b1: int)
    ensures MeetOn(a0, a1, b0, b1) <==> a0 <= b1 && b0 <= a1
  {
    if a0 <= a1 && b0 <= b1 {
      var v := if a0 <= b0 then b0 else a0;
      assert a0 <= b1 && b0 <= a1 ==> Between(v, a0, a1) && Between(v, b0, b1);
    } else {
      assert Between(a0, a0, a1) && Between(a1, a0, a1) && Between(b0, b0, b1) && Between(b1, b0, b1);
    }
  }

  /** The comparison of bounds finds out whether two rectangles meet. */
  lemma OverlapIsMeet(r: Rect, s: Rect)
    ensures Overlap(r, s) <==> Meet(r, s)
  {
    hide MeetOn;
    MeetOnBounds(r.x0, r.x1, s.x0, s.x1);
    MeetOnBounds(r.y0, r.y1, s.y0, s.y1);
  }

  ghost predicate Covers(r: Rect, x: int, y: int) { r.x0 <= x <= r.x1 && r.y0 <= y <= r.y1 }

  /** Proper rectangles meet if and only if they have a point in common. */
  lemma ProperMeet(r: Rect, s: Rect)
    requires Proper(r) && Proper(s)
    ensures Meet(r, s) <==> exists x, y :: Covers(r, x, y) && Covers(s, x, y)
  {
    if Meet(r, s) {
      var x :| Between(x, r.x0, r.x1) && Between(x, s.x0, s.x1);
      var y :| Between(y, r.y0, r.y1) && Between(y, s.y0, s.y1);
      assert Covers(r, x, y) && Covers(s, x, y);
    }
    if x, y :| Covers(r, x, y) && Covers(s, x, y) {
      assert Between(x, r.x0, r.x1) && Between(x, s.x0, s.x1);
      assert Between(y, r.y0, r.y1) && Between(y, s.y0, s.y1);
    }
  }

  /** `r` contains all of `bag`, and each of its sides is that of a member. */
  ghost predicate Tight(r: Rect, bag: multiset<Entry>) {
    && (forall e :: e in bag ==> Inside(e.rect, r))
    && (exists e :: e in bag && e.rect.x0 == r.x0) && (exists e :: e in bag && e.rect.y0 == r.y0)
    && (exists e :: e in bag && e.rect.x1 == r.x1) && (exists e :: e in bag && e.rect.y1 == r.y1)
  }

  /** There is only one such rectangle. */
  lemma TightUnique(r: Rect, s: Rect, bag: multiset<Entry>)
    requires Tight(r, bag) && Tight(s, bag)
    ensures r == s
  {
  }

  lemma TightJoin(r: Rect, a: multiset<Entry>, s: Rect, b: multiset<Entry>)
    requires Tight(r, a) && Tight(s, b)
    ensures Tight(Join(r, s), a + b)
  {
    forall e | e in a + b ensures Inside(e.rect, Join(r, s)) { assert e in a || e in b; }
    var p :| p in a && p.rect.x0 == r.x0;
    var q :| q in b && q.rect.x0 == s.x0;
    assert (if r.x0 <= s.x0 then p else q) in a + b;
    p :| p in a && p.rect.y0 == r.y0;
    q :| q in b && q.rect.y0 == s.y0;
    assert (if r.y0 <= s.y0 then p else q) in a + b;
    p :| p in a && p.rect.x1 == r.x1;
    q :| q in b && q.rect.x1 == s.x1;
    assert (if r.x1 >= s.x1 then p else q) in a + b;
    p :| p in a && p.rect.y1 == r.y1;
    q :| q in b && q.rect.y1 == s.y1;
    assert (if r.y1 >= s.y1 then p else q) in a + b;
  }

  function Cover(b: seq<Branch>): Rect
    requires b != []
  {
    if |b| == 1 then b[0].rect else Join(Cover(b[..|b| - 1]), b[|b| - 1].rect)
  }

  /** The cover of a page, as the page computes it. */
  method CoverOf(pg: Page) returns (r: Rect)
    requires pg.b != []
    ensures r == Cover(pg.b)
  {
    r := pg.b[0].rect;
    assert pg.b[..1] == [pg.b[0]];
    for i := 1 to |pg.b|
      invariant r == Cover(pg.b[..i])
    {
      assert pg.b[..i + 1][..i] == pg.b[..i];
      r := Join(r, pg.b[i].rect);
    }
    assert pg.b[..|pg.b|] == pg.b;
  }

  // ---------- Sound pages ----------

  /** A branch that a page at height `level` may have: an object on a leaf page; else a page one level
      below that has enough branches, with its exact cover. */
  ghost predicate SoundBranch(br: Branch, level: nat)
    decreases level, 0
  {
    if level <= 1 then level == 1 && br.p.Obj?
    else br.p.Child? && Sound(br.p.page, level - 1) && MIN_FILL <= |br.p.page.b| && br.rect == Cover(br.p.page.b)
  }

  /** A page at height `level`: all leaves below it are at the same depth. */
  ghost predicate Sound(pg: Page, level: nat)
    decreases level, 1
  {
    1 <= level && |pg.b| <= CARD && forall x :: x in pg.b ==> SoundBranch(x, level)
  }

  /** The rectangle of a branch is the tight cover of what is below it. */
  lemma {:induction false} BranchTight(br: Branch, level: nat)
    requires SoundBranch(br, level)
    ensures Tight(br.rect, Of(br, level))
    decreases level, 0
  {
    if level > 1 {
      CoverTight(br.p.page, level - 1);
    } else {
      assert Entry(br.rect, br.p.id) in Of(br, level);
    }
  }

  lemma {:induction false} CoverTight(pg: Page, level: nat)
    requires Sound(pg, level) && pg.b != []
    ensures Tight(Cover(pg.b), Below(pg.b, level))
    decreases level, 1, |pg.b|
  {
    var n := |pg.b| - 1;
    BranchTight(pg.b[n], level);
    BelowOne(pg.b[n], level);
    if n == 0 {
      assert pg.b == [pg.b[0]];
    } else {
      var front := Page(pg.b[..n]);
      assert pg.b == front.b + [pg.b[n]];
      assert forall x :: x in front.b ==> x in pg.b;
      CoverTight(front, level);
      BelowJoin(front.b, [pg.b[n]], level);
      TightJoin(Cover(front.b), Below(front.b, level), pg.b[n].rect, Of(pg.b[n], level));
    }
  }

  /** What lies below a branch lies inside its rectangle, so nothing that overlaps a query is missed
      where the branch does not. */
  lemma OutsideBranch(br: Branch, level: nat, r: Rect, e: Entry)
    requires SoundBranch(br, level) && e in Of(br, level)
    ensures Overlap(r, e.rect) ==> Overlap(r, br.rect)
    ensures Proper(e.rect) ==> Overlap(br.rect, e.rect)
  {
    BranchTight(br, level);
  }

  lemma SoundPermuted(pg: Page, b: seq<Branch>, level: nat)
    requires Sound(pg, level) && |b| <= CARD && forall x :: x in b ==> x in pg.b
    ensures Sound(Page(b), level)
  {
  }
}

/** What the two stacks of a T-tree iterator encode: the items that a run has still to visit, and those that
    it has passed. */
module TtreeStacks {
  import opened Options
  import opened AvlTrees
  import opened TtreePages
  import opened TtreeSteps

  // ---------- What the stacks encode ----------

  ghost predicate SoundTree(t: Tree<Page>) { t.Node? && Good(t) && Filled(t.val) }

  ghost predicate SoundTrees(ts: seq<Tree<Page>>) { forall i :: 0 <= i < |ts| ==> SoundTree(ts[i]) }

  /** From position `pos` of the root of `t` on; nothing if that is behind its last item. */
  ghost function After(t: Tree<Page>, pos: int): seq<Obj>
    requires SoundTree(t)
  {
    if 0 <= pos < t.val.n then Live(t.val)[pos..] + Objs(t.right) else []
  }

  /** Up to position `pos` of the root of `t`. */
  ghost function Before(t: Tree<Page>, pos: int): seq<Obj>
    requires SoundTree(t)
  {
    if 0 <= pos < t.val.n then Objs(t.left) + Live(t.val)[..pos + 1] else []
  }

  ghost function AfterStack(ts: seq<Tree<Page>>, ps: seq<int>): seq<Obj>
    requires |ts| == |ps| && SoundTrees(ts)
  {
    if ts == [] then [] else
      After(ts[|ts| - 1], ps[|ps| - 1]) + AfterStack(ts[..|ts| - 1], ps[..|ps| - 1])
  }

  ghost function BeforeStack(ts: seq<Tree<Page>>, ps: seq<int>): seq<Obj>
    requires |ts| == |ps| && SoundTrees(ts)
  {
    if ts == [] then [] else
      BeforeStack(ts[..|ts| - 1], ps[..|ps| - 1]) + Before(ts[|ts| - 1], ps[|ps| - 1])
  }

  lemma PushAfter(ts: seq<Tree<Page>>, ps: seq<int>, t: Tree<Page>, p: int)
    requires |ts| == |ps| && SoundTrees(ts) && SoundTree(t)
    ensures AfterStack(ts + [t], ps + [p]) == After(t, p) + AfterStack(ts, ps)
    ensures BeforeStack(ts + [t], ps + [p]) == BeforeStack(ts, ps) + Before(t, p)
  {
    assert (ts + [t])[..|ts|] == ts && (ps + [p])[..|ps|] == ps;
  }

  lemma PopStack(ts: seq<Tree<Page>>, ps: seq<int>)
    requires |ts| == |ps| > 0 && SoundTrees(ts)
    ensures SoundTree(ts[|ts| - 1])
    ensures AfterStack(ts, ps) == After(ts[|ts| - 1], ps[|ps| - 1]) + AfterStack(ts[..|ts| - 1], ps[..|ps| - 1])
    ensures BeforeStack(ts, ps) == BeforeStack(ts[..|ts| - 1], ps[..|ps| - 1]) + Before(ts[|ts| - 1], ps[|ps| - 1])
  {
  }

  /** Going down to the left: the node pushed stands for its items and its right subtree. */
  lemma WholeAfter(t: Tree<Page>)
    requires SoundTree(t)
    ensures Objs(t) == Objs(t.left) + After(t, 0)
    ensures Objs(t) == Before(t, t.val.n - 1) + Objs(t.right)
    ensures |After(t, 0)| > 0 && |Before(t, t.val.n - 1)| > 0
  {
    Ends(t.val);
    assert Live(t.val)[0..] == Live(t.val) == Live(t.val)[..t.val.n];
  }

  lemma NextAfter(t: Tree<Page>, p: int)
    requires SoundTree(t) && 0 <= p < t.val.n
    ensures After(t, p) == [t.val.item[p]] + if p + 1 < t.val.n then After(t, p + 1) else Objs(t.right)
    ensures Before(t, p) == (if 0 < p then Before(t, p - 1) else Objs(t.left)) + [t.val.item[p]]
  {
    hide Sorted, Avl, Objs, Live;
    Ends(t.val);
    AroundItem(Objs(t.left), Live(t.val), Objs(t.right), p);
  }

  lemma AroundItem(a: seq<Obj>, s: seq<Obj>, b: seq<Obj>, p: nat)
    requires p < |s|
    ensures s[p..] + b == [s[p]] + (s[p + 1..] + b)
    ensures a + s[..p + 1] == (a + s[..p]) + [s[p]]
    ensures p + 1 == |s| ==> s[p + 1..] + b == b
    ensures p == 0 ==> a + s[..p] == a
  {
  }

  /** `cur` is the subtree of `t` that a run is in when it has noted position `p` of `t`. */
  predicate InSubtree(t: Tree<Page>, p: int, cur: Tree<Page>, reverse: bool) {
    && t.Node?
    && (|| (cur == t.left && p == if reverse then -1 else 0)
        || (cur == t.right && p == if reverse then t.val.n - 1 else t.val.n))
  }

  /** The trees on the stack lead from `whole` down to `cur`. */
  ghost predicate Linked(whole: Tree<Page>, ts: seq<Tree<Page>>, ps: seq<int>, cur: Tree<Page>, reverse: bool)
    requires |ts| == |ps|
    decreases |ts|
  {
    if ts == [] then cur == whole
    else
      var n := |ts| - 1;
      InSubtree(ts[n], ps[n], cur, reverse) && Linked(whole, ts[..n], ps[..n], ts[n], reverse)
  }

  lemma LinkedPush(whole: Tree<Page>, ts: seq<Tree<Page>>, ps: seq<int>, t: Tree<Page>, p: int, cur: Tree<Page>,
                   reverse: bool)
    requires |ts| == |ps| && Linked(whole, ts, ps, t, reverse) && InSubtree(t, p, cur, reverse)
    ensures Linked(whole, ts + [t], ps + [p], cur, reverse)
  {
    assert (ts + [t])[..|ts|] == ts && (ps + [p])[..|ps|] == ps;
  }

  lemma LinkedPop(whole: Tree<Page>, ts: seq<Tree<Page>>, ps: seq<int>, cur: Tree<Page>, reverse: bool)
    requires |ts| == |ps| > 0 && Linked(whole, ts, ps, cur, reverse)
    ensures Linked(whole, ts[..|ts| - 1], ps[..|ps| - 1], ts[|ts| - 1], reverse)
  {
  }

  /** What a forward run has passed of the root of `t` and before it, when it has noted position `p`. */
  ghost function Past(t: Tree<Page>, p: int): seq<Obj>
    requires SoundTree(t)
  {
    if p == 0 then [] else Objs(t.left) + Live(t.val)
  }

  /** The same for a reverse run. */
  ghost function PastBack(t: Tree<Page>, p: int): seq<Obj>
    requires SoundTree(t)
  {
    if p == -1 then Live(t.val) + Objs(t.right) else []
  }

  ghost function PastStack(ts: seq<Tree<Page>>, ps: seq<int>): seq<Obj>
    requires |ts| == |ps| && SoundTrees(ts)
  {
    if ts == [] then [] else PastStack(ts[..|ts| - 1], ps[..|ps| - 1]) + Past(ts[|ts| - 1], ps[|ps| - 1])
  }

  ghost function PastBackStack(ts: seq<Tree<Page>>, ps: seq<int>): seq<Obj>
    requires |ts| == |ps| && SoundTrees(ts)
  {
    if ts == [] then [] else PastBack(ts[|ts| - 1], ps[|ps| - 1]) + PastBackStack(ts[..|ts| - 1], ps[..|ps| - 1])
  }

  lemma OneLevel(t: Tree<Page>, p: int, cur: Tree<Page>)
    requires SoundTree(t) && SoundTree(cur)
    ensures InSubtree(t, p, cur, false) ==> Objs(t) == Past(t, p) + Objs(cur) + After(t, p)
    ensures InSubtree(t, p, cur, true) ==> Objs(t) == Before(t, p) + Objs(cur) + PastBack(t, p)
  {
    ObjsSplit(t);
    hide Objs, Sorted, Avl, Live;
    ThreeParts(Objs(t.left), Live(t.val), Objs(t.right));
  }

  lemma ObjsSplit(t: Tree<Page>)
    requires SoundTree(t)
    ensures Objs(t) == Objs(t.left) + Live(t.val) + Objs(t.right)
    ensures |Live(t.val)| == t.val.n > 0
  {
    Ends(t.val);
  }

  lemma ThreeParts(a: seq<Obj>, m: seq<Obj>, b: seq<Obj>)
    ensures a + m + b == [] + a + (m[0..] + b) == (a + m) + b + []
    ensures a + m + b == [] + a + (m + b) == (a + m[..|m|]) + b + []
  {
  }

  lemma SixParts(a: seq<Obj>, b: seq<Obj>, c: seq<Obj>, d: seq<Obj>, e: seq<Obj>)
    ensures a + (b + c + d) + e == (a + b) + c + (d + e)
  {
  }

  /** What a run has passed, the subtree it is in, and what it has still to visit make up the whole tree. */
  lemma {:induction false} WholeRun(whole: Tree<Page>, ts: seq<Tree<Page>>, ps: seq<int>, cur: Tree<Page>,
                                    reverse: bool)
    requires |ts| == |ps| && SoundTrees(ts) && SoundTree(cur) && Linked(whole, ts, ps, cur, reverse)
    ensures SoundTree(whole)
    ensures !reverse ==> Objs(whole) == PastStack(ts, ps) + Objs(cur) + AfterStack(ts, ps)
    ensures reverse ==> Objs(whole) == BeforeStack(ts, ps) + Objs(cur) + PastBackStack(ts, ps)
    decreases |ts|
  {
    hide Objs, Past, PastBack, After, Before, Sorted, Avl;
    if ts != [] {
      var n := |ts| - 1;
      var t, p := ts[n], ps[n];
      WholeRun(whole, ts[..n], ps[..n], t, reverse);
      OneLevel(t, p, cur);
      if reverse {
        SixParts(BeforeStack(ts[..n], ps[..n]), Before(t, p), Objs(cur), PastBack(t, p),
                 PastBackStack(ts[..n], ps[..n]));
      } else {
        SixParts(PastStack(ts[..n], ps[..n]), Past(t, p), Objs(cur), After(t, p), AfterStack(ts[..n], ps[..n]));
      }
    }
  }

  function Head(s: seq<Obj>): Option<Obj> { if s == [] then None else Some(s[0]) }

  function Tail(s: seq<Obj>): seq<Obj> { if s == [] then [] else s[1..] }

  function End(s: seq<Obj>): Option<Obj> { if s == [] then None else Some(s[|s| - 1]) }

  function Front(s: seq<Obj>): seq<Obj> { if s == [] then [] else s[..|s| - 1] }

  // ---------- Ends of sequences ----------

  lemma TailOf(x: Obj, a: seq<Obj>, b: seq<Obj>)
    ensures (([x] + a) + b)[1..] == a + b
  {
  }

  lemma FrontOf(a: seq<Obj>, b: seq<Obj>, x: Obj)
    ensures var s := a + (b + [x]); s[..|s| - 1] == a + b
  {
  }

  lemma EndOfPassed(a: seq<Obj>, l: seq<Obj>, m: seq<Obj>, p: nat)
    requires p <= |m|
    ensures p > 0 ==> End(a + (l + m[..p])) == Some(m[p - 1])
    ensures p == 0 && l != [] ==> End(a + (l + m[..p])) == End(l)
    ensures p == 0 && l == [] && a == [] ==> End(a + (l + m[..p])) == None
  {
  }

  lemma HeadOfPassed(b: seq<Obj>, r: seq<Obj>, m: seq<Obj>, p: nat)
    requires p <= |m|
    ensures p < |m| ==> Head((m[p..] + r) + b) == Some(m[p])
    ensures p == |m| && r != [] ==> Head((m[p..] + r) + b) == Head(r)
    ensures p == |m| && r == [] && b == [] ==> Head((m[p..] + r) + b) == None
  {
  }

  lemma HeadOfTree(t: Tree<Page>)
    requires SoundTree(t)
    ensures t.left.Node? && SoundTree(t.left) ==> Head(Objs(t)) == Head(Objs(t.left))
    ensures t.left.Leaf? ==> Head(Objs(t)) == Some(t.val.item[0])
    ensures 0 < t.val.n <= |t.val.item|
  {
    ObjsSplit(t);
    if t.left.Node? && SoundTree(t.left) { ObjsSplit(t.left); }
  }

  /** The first and the last item that the stacks have still to come, and what they have passed. */
  lemma StackEnds(ts: seq<Tree<Page>>, ps: seq<int>)
    requires |ts| == |ps| > 0 && SoundTrees(ts)
    ensures var t, p := ts[|ts| - 1], ps[|ps| - 1];
      && (p == 0 ==> AfterStack(ts, ps) != [] && 0 < |t.val.item| && AfterStack(ts, ps)[0] == t.val.item[0])
      && (0 <= p < t.val.n ==> (
            && BeforeStack(ts, ps) != [] && t.val.n <= |t.val.item|
            && BeforeStack(ts, ps)[|BeforeStack(ts, ps)| - 1] == t.val.item[p]))
      && (p == -1 ==> PastBackStack(ts, ps) != [])
  {
    hide After, Before, PastBack, AfterStack, BeforeStack, SoundTree, Objs;
    PopStack(ts, ps);
    NodeEnds(ts[|ts| - 1], ps[|ps| - 1]);
  }

  lemma NodeEnds(t: Tree<Page>, p: int)
    requires SoundTree(t)
    ensures 0 < t.val.n <= |t.val.item|
    ensures After(t, 0) != [] && After(t, 0)[0] == t.val.item[0]
    ensures 0 <= p < t.val.n ==> Before(t, p) != [] && Before(t, p)[|Before(t, p)| - 1] == t.val.item[p]
    ensures PastBack(t, -1) != []
  {
    ObjsSplit(t);
    hide Objs, Sorted, Avl;
  }

  /** A node without a subtree on one side has passed nothing when it starts there. */
  lemma WholeNode(t: Tree<Page>)
    requires SoundTree(t)
    ensures t.left.Leaf? ==> After(t, 0) == Objs(t)
    ensures t.right.Leaf? ==> Before(t, t.val.n - 1) == Objs(t)
  {
    ObjsSplit(t);
    hide Sorted, Avl;
    assert Live(t.val)[0..] == Live(t.val) == Live(t.val)[..t.val.n];
  }

  /** A reverse run at the last item of a node that has no right subtree: what the top of the stacks has to
      come, or has passed. */
  lemma BehindLast(ts: seq<Tree<Page>>, ps: seq<int>, t: Tree<Page>)
    requires |ts| == |ps| > 0 && SoundTrees(ts) && SoundTree(t) && t.right.Leaf?
    ensures var a, q := ts[|ts| - 1], ps[|ps| - 1];
            var back := BeforeStack(ts, ps) + Before(t, t.val.n - 1);
      && (q == -1 ==> (Live(t.val)[t.val.n..] + Objs(t.right)) + PastBackStack(ts, ps) != [])
      && (0 <= q < a.val.n <= |a.val.item| ==> (
            |Objs(t)| < |back| && back[|back| - 1 - |Objs(t)|] == a.val.item[q]))
  {
    ObjsSplit(t);
    hide Objs, Live, Before, BeforeStack, PastBackStack, SoundTree;
    StackEnds(ts, ps);
    WholeNode(t);
    BeforeLast(BeforeStack(ts, ps), Objs(t));
  }

  /** A forward run at the first item of a node that has no left subtree. */
  lemma AheadOfFirst(ts: seq<Tree<Page>>, ps: seq<int>, t: Tree<Page>)
    requires |ts| == |ps| > 0 && SoundTrees(ts) && SoundTree(t) && t.left.Leaf?
    ensures var a, ahead := ts[|ts| - 1], After(t, 0) + AfterStack(ts, ps);
            ps[|ps| - 1] == 0 && 0 < |a.val.item| ==> |Objs(t)| < |ahead| && ahead[|Objs(t)|] == a.val.item[0]
  {
    ObjsSplit(t);
    hide Objs, Live, After, AfterStack, SoundTree;
    StackEnds(ts, ps);
    WholeNode(t);
  }

  lemma BeforeLast(a: seq<Obj>, b: seq<Obj>)
    ensures a != [] ==> |a + b| - 1 - |b| == |a| - 1 && (a + b)[|a| - 1] == a[|a| - 1]
  {
  }

  lemma EndOfTree(t: Tree<Page>)
    requires SoundTree(t)
    ensures t.right.Node? && SoundTree(t.right) ==> End(Objs(t)) == End(Objs(t.right))
    ensures t.right.Leaf? ==> End(Objs(t)) == Some(t.val.item[t.val.n - 1])
    ensures 0 < t.val.n <= |t.val.item|
  {
    ObjsSplit(t);
    if t.right.Node? && SoundTree(t.right) { ObjsSplit(t.right); }
  }

  lemma Around(t: Tree<Page>, p: int, a: seq<Obj>, b: seq<Obj>)
    requires SoundTree(t) && 0 <= p < t.val.n
    ensures a + Objs(t) + b == (a + (Objs(t.left) + Live(t.val)[..p])) + (After(t, p) + b)
    ensures a + Objs(t) + b == (a + Before(t, p)) + ((Live(t.val)[p + 1..] + Objs(t.right)) + b)
  {
    ObjsSplit(t);
    hide Objs, Sorted, Avl, Live;
    CutAt(Objs(t.left), Live(t.val), Objs(t.right), p, a, b);
    CutAt(Objs(t.left), Live(t.val), Objs(t.right), p + 1, a, b);
  }

  lemma CutAt(l: seq<Obj>, m: seq<Obj>, r: seq<Obj>, p: nat, a: seq<Obj>, b: seq<Obj>)
    requires p <= |m|
    ensures a + (l + m + r) + b == (a + (l + m[..p])) + ((m[p..] + r) + b)
  {
    assert m == m[..p] + m[p..];
  }

  lemma NothingAt(t: Tree<Page>, p: int)
    requires SoundTree(t)
    ensures p >= t.val.n ==> After(t, p) == []
    ensures p < 0 ==> Before(t, p) == []
  {
  }
}

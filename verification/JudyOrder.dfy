/** The indexes of a Judy array come in ascending order, whatever forms its branches and leaves have. */
module JudyOrder {
  import opened JudyArrays
  import JudyByCount

  function Value(index: seq<Digit>): nat {
    if index == [] then 0 else 256 * Value(index[..|index| - 1]) + index[|index| - 1]
  }

  /** The first digit that differs decides which of two numbers is less. */
  lemma {:induction false} BeforeIsLess(a: seq<Digit>, b: seq<Digit>)
    requires |a| == |b|
    ensures Before(a, b) <==> Value(a) < Value(b)
    ensures a == b <==> Value(a) == Value(b)
  {
    if a != [] {
      var n := |a| - 1;
      var p, q := a[..n], b[..n];
      BeforeIsLess(p, q);
      assert a == p + [a[n]] && b == q + [b[n]];
      BeforeByInit(a, b, n);
    }
  }

  lemma BeforeByInit(a: seq<Digit>, b: seq<Digit>, n: nat)
    requires |a| == |b| == n + 1
    ensures Before(a, b) <==> Before(a[..n], b[..n]) || (a[..n] == b[..n] && a[n] < b[n])
  {
    var p, q := a[..n], b[..n];
    if Before(a, b) {
      var k :| 0 <= k < |a| && a[..k] == b[..k] && a[k] < b[k];
      if k < n { assert p[..k] == a[..k] && q[..k] == b[..k] && p[k] < q[k]; }
    }
    if Before(p, q) {
      var k :| 0 <= k < |p| && p[..k] == q[..k] && p[k] < q[k];
      assert a[..k] == p[..k] && b[..k] == q[..k] && a[k] < b[k];
    }
  }

  lemma BeforeWithin(base: seq<Digit>, a: seq<Digit>, b: seq<Digit>)
    requires Before(a, b)
    ensures Before(base + a, base + b)
  {
    var k :| 0 <= k < |a| && a[..k] == b[..k] && a[k] < b[k];
    var x, y := base + a, base + b;
    var m := |base| + k;
    assert x[..m] == base + a[..k] && y[..m] == base + b[..k] && x[m] < y[m];
  }

  lemma BeforeAtDigit(a: seq<Digit>, b: seq<Digit>, base: seq<Digit>)
    requires |a| == |b| && base <= a && base <= b && |base| < |a| && a[|base|] < b[|base|]
    ensures Before(a, b)
  {
    assert a[..|base|] == b[..|base|];
  }

  lemma AscendingAppend(s: seq<seq<Digit>>, t: seq<seq<Digit>>)
    requires Ascending(s) && Ascending(t)
    requires forall i, j :: 0 <= i < |s| && 0 <= j < |t| ==> Before(s[i], t[j])
    ensures Ascending(s + t)
  {
    hide Before;
  }

  /** Complete indexes that start with `base`. */
  ghost predicate Within(s: seq<Index>, base: seq<Digit>) {
    forall i :: 0 <= i < |s| ==> |s[i]| == ROOT && base <= s[i]
  }

  /** Those of a branch up to a digit. */
  ghost predicate WithinUpTo(s: seq<Index>, base: seq<Digit>, d: nat) {
    forall i :: 0 <= i < |s| ==> |s[i]| == ROOT && |base| < ROOT && base <= s[i] && s[i][|base|] < d
  }

  lemma PrefixedAscend(base: seq<Digit>, indexes: seq<seq<Digit>>)
    requires |base| <= ROOT && Ascending(indexes) && AllOfLength(indexes, ROOT - |base|)
    ensures Ascending(Prefixed(base, indexes)) && Within(Prefixed(base, indexes), base)
  {
    hide Before;
    var s := Prefixed(base, indexes);
    forall i, j | 0 <= i < j < |s| ensures Before(s[i], s[j]) { BeforeWithin(base, indexes[i], indexes[j]); }
  }

  lemma {:induction false} BitKeysAscend(bitmaps: seq<seq<bool>>, base: seq<Digit>, d: nat)
    requires d <= 256 && |base| == ROOT - 1
    ensures Ascending(BitKeys(bitmaps, base, d)) && WithinUpTo(BitKeys(bitmaps, base, d), base, d)
  {
    hide Before, BitAt;
    if d > 0 {
      BitKeysAscend(bitmaps, base, d - 1);
      UpToNext(BitKeys(bitmaps, base, d - 1), if BitAt(bitmaps, d - 1) then [base + [d - 1]] else [], base, d - 1);
    }
  }

  /** Below the next digit come only greater indexes. */
  lemma UpToNext(s: seq<Index>, t: seq<Index>, base: seq<Digit>, d: Digit)
    requires Ascending(s) && WithinUpTo(s, base, d) && Ascending(t) && Within(t, base + [d]) && |base| < ROOT
    ensures Ascending(s + t) && WithinUpTo(s + t, base, d + 1)
  {
    hide Before;
    forall i, j | 0 <= i < |s| && 0 <= j < |t| ensures Before(s[i], t[j]) {
      assert (base + [d])[|base|] == d;
      assert base <= base + [d] <= t[j];
      BeforeAtDigit(s[i], t[j], base);
    }
    AscendingAppend(s, t);
    forall j | 0 <= j < |t| ensures base <= t[j] && t[j][|base|] == d {
      assert (base + [d])[|base|] == d;
      assert base <= base + [d] <= t[j];
    }
  }

  lemma FullAscend(base: seq<Digit>, s: seq<Index>)
    requires |base| == ROOT - 1 && |s| == 256 && forall d :: 0 <= d < 256 ==> s[d] == base + [d]
    ensures Ascending(s) && Within(s, base)
  {
    forall i, j | 0 <= i < j < |s| ensures Before(s[i], s[j]) { BeforeAtDigit(s[i], s[j], base); }
  }

  lemma {:induction false} KeysAscend(jp: JP, prefix: seq<Digit>)
    requires Valid(jp, prefix)
    ensures Ascending(Keys(jp, prefix)) && Within(Keys(jp, prefix), prefix)
    decreases jp, 257
  {
    hide Ascending, Before, At, Shaped, AllOfLength;
    if IsBranch(jp) {
      var base := Base(prefix, jp.state, jp.dcd);
      JudyByCount.BranchParts(jp, prefix);
      KeysUpToAscend(jp, base, 256);
      WithinBase(Keys(jp, prefix), prefix, base, 256);
    } else {
      LeafKeysAscend(jp, prefix);
    }
  }

  lemma WithinBase(s: seq<Index>, prefix: seq<Digit>, base: seq<Digit>, d: nat)
    requires (Within(s, base) || WithinUpTo(s, base, d)) && prefix <= base
    ensures Within(s, prefix)
  {
  }

  lemma {:induction false} KeysUpToAscend(jp: JP, base: seq<Digit>, d: nat)
    requires Branching(jp, base) && d <= 256 && |base| < ROOT
    ensures Ascending(KeysUpTo(jp, base, d)) && WithinUpTo(KeysUpTo(jp, base, d), base, d)
    decreases jp, d
  {
    hide Ascending, Before, At, Shaped, Valid, Within, WithinUpTo, Keys;
    if d == 0 {
      NoneAscend(base);
    } else {
      KeysUpToAscend(jp, base, d - 1);
      if At(jp, d - 1).Null? { NoneAscend(base + [d - 1]); } else { KeysAscend(At(jp, d - 1), base + [d - 1]); }
      UpToNext(KeysUpTo(jp, base, d - 1), ChildKeys(jp, base, d - 1), base, d - 1);
    }
  }

  lemma NoneAscend(base: seq<Digit>)
    ensures Ascending([]) && Within([], base) && WithinUpTo([], base, 0)
  {
  }

  lemma LeafKeysAscend(jp: JP, prefix: seq<Digit>)
    requires Valid(jp, prefix) && !IsBranch(jp)
    ensures Ascending(Keys(jp, prefix)) && Within(Keys(jp, prefix), prefix)
  {
    hide Before, At, Shaped, AllOfLength, BitKeys;
    var s := Keys(jp, prefix);
    match jp
    case Null =>
    case Leaf(state, dcd, _, indexes) =>
      PrefixedAscend(Base(prefix, state, dcd), indexes);
      WithinBase(s, prefix, Base(prefix, state, dcd), 0);
    case LeafB1(dcd, _, bitmaps) =>
      BitKeysAscend(bitmaps, Base(prefix, 1, dcd), 256);
      WithinBase(s, prefix, Base(prefix, 1, dcd), 256);
    case FullPopU1(dcd) =>
      FullAscend(Base(prefix, 1, dcd), s);
      WithinBase(s, prefix, Base(prefix, 1, dcd), 0);
    case Immed01(_, _) =>
    case Immed(_, indexes) => PrefixedAscend(prefix, indexes);
  }

  /** The index with ordinal `j` is the one that has `j` lesser indexes in the array. */
  lemma OrdinalIsRank(a: Array, i: nat, j: nat)
    requires ValidArray(a) && i < |AllKeys(a)| && j < |AllKeys(a)|
    ensures |AllKeys(a)[i]| == ROOT
    ensures i < j <==> Value(AllKeys(a)[i]) < Value(AllKeys(a)[j])
  {
    hide Before, Valid, Keys;
    if a.Jpm? { KeysAscend(a.jp, []); }
    var s := AllKeys(a);
    if i < j { assert Before(s[i], s[j]); }
    if j < i { assert Before(s[j], s[i]); }
    BeforeIsLess(s[i], s[j]);
    BeforeIsLess(s[j], s[i]);
  }
}

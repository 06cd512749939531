/** Looking an index up in a Judy array: going down from the root by its digits. */
module JudyGet {
  import opened JudyArrays
  import opened JudyOrder
  import JudyByCount

  const LEAFW_MAXPOP1: nat := 31

  // ---------- Where the digits of an index lead ----------

  /** The index agrees with the digits decoded at a pointer; the first is never among these. */
  predicate Passes(state: nat, dcd: seq<Digit>, index: Index)
    requires |index| == ROOT
  {
    state < ROOT - 1 ==> dcd == index[1..ROOT - state]
  }

  ghost function SetBits(bitmap: seq<bool>, k: nat): set<nat> { set j: nat | j < k && j < |bitmap| && bitmap[j] }

  /** The index is found from a pointer on, by comparing the digits that the pointer has not yet decoded. */
  ghost predicate Leads(jp: JP, index: Index)
    requires |index| == ROOT
    decreases jp
  {
    match jp
    case Null => false
    case BranchL(state, dcd, _, expanse, jps) =>
      && 0 < state <= ROOT && Passes(state, dcd, index)
      && exists i: nat :: i < |expanse| && i < |jps| && expanse[i] == index[ROOT - state] && Leads(jps[i], index)
    case BranchB(state, dcd, _, subexps) =>
      && 0 < state <= ROOT && Passes(state, dcd, index) && |subexps| == 8
      && LeadsBit(jp, index[ROOT - state] / 32, index[ROOT - state] % 32, index)
    case BranchU(state, dcd, _, jps) =>
      && 0 < state <= ROOT && Passes(state, dcd, index) && |jps| == 256 && Leads(jps[index[ROOT - state]], index)
    case Leaf(state, dcd, _, indexes) => state <= ROOT && Passes(state, dcd, index) && index[ROOT - state..] in indexes
    case LeafB1(dcd, _, bitmaps) => Passes(1, dcd, index) && BitSet(bitmaps, index[7])
    case FullPopU1(dcd) => Passes(1, dcd, index)
    case Immed01(state, least) =>
      state < ROOT && |least| == ROOT - 1 && least[ROOT - 1 - state..] == index[ROOT - state..]
    case Immed(state, indexes) => state <= ROOT && index[ROOT - state..] in indexes
  }

  /** The pointer for a set bit is the one with as many before it as there are lesser bits set. */
  ghost predicate LeadsBit(jp: JP, s: nat, bit: nat, index: Index)
    requires |index| == ROOT && jp.BranchB? && s < |jp.subexps|
    decreases jp, 0
  {
    var sub := jp.subexps[s];
    assert sub in jp.subexps;
    var n := |SetBits(sub.bitmap, bit)|;
    bit < |sub.bitmap| && sub.bitmap[bit] && n < |sub.jps| && Leads(sub.jps[n], index)
  }

  ghost predicate BitSet(bitmaps: seq<seq<bool>>, d: Digit) {
    |bitmaps| == 8 && |bitmaps[d / 32]| == 32 && bitmaps[d / 32][d % 32]
  }

  /** The index is found from the root on. */
  ghost predicate LeadsTo(a: Array, index: Index)
    requires |index| == ROOT
  {
    match a
    case Empty => false
    case LeafW(_, indexes) => index in indexes
    case Jpm(_, jp) => Leads(jp, index)
  }

  // ---------- An array has just the indexes that its digits lead to ----------

  lemma {:induction false} BitsAreCounted(bitmap: seq<bool>, k: nat)
    requires k <= |bitmap|
    ensures CountBits(bitmap, k) == |SetBits(bitmap, k)|
  {
    if k == 0 {
      assert SetBits(bitmap, 0) == {};
    } else {
      BitsAreCounted(bitmap, k - 1);
      var rest := SetBits(bitmap, k - 1);
      assert SetBits(bitmap, k) == if bitmap[k - 1] then rest + {k - 1} else rest;
    }
  }

  lemma PassesIsBase(prefix: seq<Digit>, state: nat, dcd: seq<Digit>, index: Index)
    requires Decoded(prefix, state, dcd) && |index| == ROOT && prefix <= index && (prefix == [] ==> state == ROOT)
    ensures Passes(state, dcd, index) <==> Base(prefix, state, dcd) <= index
  {
    var base := Base(prefix, state, dcd);
    if 0 < |prefix| && state < ROOT - 1 {
      assert base == prefix[..1] + dcd;
      assert index[..ROOT - state] == prefix[..1] + index[1..ROOT - state] by {
        assert index[..1] == prefix[..1];
      }
      if base <= index { assert dcd == base[1..] == index[1..ROOT - state]; }
    }
  }

  /** The way from a branch goes on at what it has for the next digit. */
  lemma LeadsOn(jp: JP, index: Index)
    requires IsBranch(jp) && Shaped(jp) && |index| == ROOT && 0 < jp.state <= ROOT
    ensures var child := At(jp, index[ROOT - jp.state]);
            Leads(jp, index) <==> Passes(jp.state, jp.dcd, index) && Leads(child, index)
  {
    hide Passes;
    var d := index[ROOT - jp.state];
    if jp.BranchL? {
      LinearLeadsOn(jp, index);
    } else if jp.BranchB? {
      BitmapAt(jp, d / 32, d % 32);
      BitsAreCounted(jp.subexps[d / 32].bitmap, d % 32);
    }
  }

  lemma LinearLeadsOn(jp: JP, index: Index)
    requires jp.BranchL? && Shaped(jp) && |index| == ROOT && 0 < jp.state <= ROOT
    ensures Leads(jp, index) <==> Passes(jp.state, jp.dcd, index) && Leads(At(jp, index[ROOT - jp.state]), index)
  {
    hide Passes, LinearAt;
    var d := index[ROOT - jp.state];
    if i: nat :| i < |jp.expanse| && jp.expanse[i] == d {
      LinearAtIs(jp.expanse, jp.jps, d, i, 0);
    } else {
      LinearAtIs(jp.expanse, jp.jps, d, |jp.jps|, 0);
    }
  }

  /** Among the indexes of a branch are those of the child for their own digit, and no others. */
  lemma {:induction false} InKeysUpTo(jp: JP, base: seq<Digit>, d: nat, index: Index)
    requires Branching(jp, base) && d <= 256 && |base| < ROOT && |index| == ROOT
    ensures index in KeysUpTo(jp, base, d)
            <==> base <= index && index[|base|] < d && index in ChildKeys(jp, base, index[|base|])
  {
    hide At, Shaped, Keys, Valid;
    if d > 0 {
      InKeysUpTo(jp, base, d - 1, index);
      if index in ChildKeys(jp, base, d - 1) {
        KeysStart(At(jp, d - 1), base + [d - 1], index);
        assert (base + [d - 1])[|base|] == d - 1;
        assert base <= base + [d - 1] <= index;
      }
    }
  }

  lemma KeysStart(jp: JP, prefix: seq<Digit>, index: Index)
    requires Valid(jp, prefix) && index in Keys(jp, prefix)
    ensures |index| == ROOT && prefix <= index
  {
    hide Valid, Keys, Ascending;
    KeysAscend(jp, prefix);
  }

  /** One step down keeps whether the index is there. */
  lemma InBranch(jp: JP, prefix: seq<Digit>, index: Index)
    requires IsBranch(jp) && Valid(jp, prefix) && |index| == ROOT && prefix <= index
    ensures var base, d := Base(prefix, jp.state, jp.dcd), index[ROOT - jp.state];
            && 0 < jp.state <= ROOT && (Passes(jp.state, jp.dcd, index) ==> base + [d] <= index)
            && (At(jp, d).Null? || Valid(At(jp, d), base + [d]))
            && (index in Keys(jp, prefix)
                <==> Passes(jp.state, jp.dcd, index) && index in Keys(At(jp, d), base + [d]))
  {
    hide At, Shaped, Passes, KeysUpTo;
    JudyByCount.BranchParts(jp, prefix);
    var base, d := Base(prefix, jp.state, jp.dcd), index[ROOT - jp.state];
    PassesIsBase(prefix, jp.state, jp.dcd, index);
    InKeysUpTo(jp, base, 256, index);
    if base <= index { assert index[..|base| + 1] == base + [d]; }
  }

  lemma InPrefixed(base: seq<Digit>, indexes: seq<seq<Digit>>, index: Index)
    requires |base| <= |index| && AllOfLength(indexes, |index| - |base|)
    ensures index in Prefixed(base, indexes) <==> base <= index && index[|base|..] in indexes
  {
    var s := Prefixed(base, indexes);
    if index in s {
      var i :| 0 <= i < |s| && s[i] == index;
      assert index[|base|..] == indexes[i];
    }
    if base <= index && index[|base|..] in indexes {
      var i :| 0 <= i < |indexes| && indexes[i] == index[|base|..];
      assert s[i] == index;
    }
  }

  lemma {:induction false} InBitKeys(bitmaps: seq<seq<bool>>, base: seq<Digit>, d: nat, index: Index)
    requires |base| == ROOT - 1 && |index| == ROOT && d <= 256
    ensures index in BitKeys(bitmaps, base, d) <==> base <= index && index[7] < d && BitAt(bitmaps, index[7])
  {
    hide BitAt;
    if d > 0 {
      InBitKeys(bitmaps, base, d - 1, index);
      if base <= index && index[7] == d - 1 { assert index == base + [d - 1]; }
    }
  }

  lemma InFull(dcd: seq<Digit>, prefix: seq<Digit>, index: Index)
    requires |Base(prefix, 1, dcd)| == ROOT - 1 && |index| == ROOT
    ensures index in Keys(FullPopU1(dcd), prefix) <==> Base(prefix, 1, dcd) <= index
  {
    var base := Base(prefix, 1, dcd);
    var s := Keys(FullPopU1(dcd), prefix);
    if base <= index { assert s[index[7]] == index; }
  }

  lemma KeyInLeaf(jp: JP, prefix: seq<Digit>, index: Index)
    requires !IsBranch(jp) && Valid(jp, prefix) && |index| == ROOT && prefix <= index
    ensures index in Keys(jp, prefix) <==> Leads(jp, index)
  {
    hide Passes, BitKeys, AllOfLength, Ascending;
    match jp
    case Null =>
    case Leaf(state, dcd, _, indexes) =>
      PassesIsBase(prefix, state, dcd, index);
      InPrefixed(Base(prefix, state, dcd), indexes, index);
    case LeafB1(dcd, _, bitmaps) =>
      PassesIsBase(prefix, 1, dcd, index);
      InBitKeys(bitmaps, Base(prefix, 1, dcd), 256, index);
    case FullPopU1(dcd) =>
      PassesIsBase(prefix, 1, dcd, index);
      InFull(dcd, prefix, index);
    case Immed01(state, least) =>
      assert index == prefix + index[ROOT - state..];
      assert (prefix + least[ROOT - 1 - state..])[|prefix|..] == least[ROOT - 1 - state..];
    case Immed(state, indexes) => InPrefixed(prefix, indexes, index);
  }

  lemma {:induction false} KeyLeads(jp: JP, prefix: seq<Digit>, index: Index)
    requires Valid(jp, prefix) && |index| == ROOT && prefix <= index
    ensures index in Keys(jp, prefix) <==> Leads(jp, index)
    decreases jp
  {
    hide Keys, At, Passes, Leads;
    if IsBranch(jp) {
      JudyByCount.BranchParts(jp, prefix);
      InBranch(jp, prefix, index);
      LeadsOn(jp, index);
      if Passes(jp.state, jp.dcd, index) {
        var child, below := At(jp, index[ROOT - jp.state]), Base(prefix, jp.state, jp.dcd) + [index[ROOT - jp.state]];
        if child.Null? { KeyInLeaf(child, below, index); } else { KeyLeads(child, below, index); }
      }
    } else {
      KeyInLeaf(jp, prefix, index);
    }
  }

  /** The indexes of an array are those to which their own digits lead, from the root down. */
  lemma IndexesAreLedTo(a: Array, index: Index)
    requires ValidArray(a)
    ensures index in AllKeys(a) <==> |index| == ROOT && LeadsTo(a, index)
  {
    hide Valid, Keys, Leads, Ascending;
    if a.Jpm? {
      if |index| == ROOT { KeyLeads(a.jp, [], index); }
      if index in AllKeys(a) { KeysStart(a.jp, [], index); }
    }
  }

  /** A single immediate index that keeps all its digits but the first is these behind the first of the way. */
  lemma LeastIsIndex(jp: JP, prefix: seq<Digit>)
    requires jp.Immed01? && Valid(jp, prefix) && jp.least[..|prefix| - 1] == prefix[1..]
    ensures Keys(jp, prefix) == [prefix[..1] + jp.least]
  {
    var n := |prefix| - 1;
    assert jp.least == jp.least[..n] + jp.least[n..];
    assert prefix == prefix[..1] + prefix[1..];
    assert prefix + jp.least[n..] == prefix[..1] + jp.least;
  }

  // ---------- Searching a leaf ----------

  function Power256(n: nat): nat { if n == 0 then 1 else 256 * Power256(n - 1) }

  lemma {:induction false} ValueFits(digits: seq<Digit>)
    ensures Value(digits) < Power256(|digits|)
  {
    if digits != [] { ValueFits(digits[..|digits| - 1]); }
  }

  /** A leaf has no more indexes than there are values for their digits. */
  lemma {:induction false} RanksFit(s: seq<seq<Digit>>, n: nat, i: nat)
    requires Ascending(s) && AllOfLength(s, n) && i < |s|
    ensures i <= Value(s[i]) < Power256(n)
  {
    hide Before;
    ValueFits(s[i]);
    if i > 0 {
      RanksFit(s, n, i - 1);
      assert Before(s[i - 1], s[i]);
      BeforeIsLess(s[i - 1], s[i]);
    }
  }

  lemma LeafFits(s: seq<seq<Digit>>, n: nat)
    requires Ascending(s) && AllOfLength(s, n) && n < ROOT
    ensures 2 * |s| < WORD
  {
    hide Ascending, AllOfLength;
    if s != [] { RanksFit(s, n, |s| - 1); }
    assert Power256(7) == 0x100_0000_0000_0000;
    PowerGrows(n, 7);
  }

  lemma {:induction false} PowerGrows(n: nat, m: nat)
    requires n <= m
    ensures Power256(n) <= Power256(m)
  {
    if n < m { PowerGrows(n, m - 1); }
  }

  lemma ValuesAscend(s: seq<seq<Digit>>, i: nat, j: nat)
    requires Ascending(s) && i <= j < |s|
    ensures i < j ==> Value(s[i]) < Value(s[j])
  {
    if i < j {
      assert Before(s[i], s[j]);
      BeforeIsLess(s[i], s[j]);
    }
  }

  lemma SoughtLies(leaf: seq<seq<Digit>>, sought: seq<Digit>, high: nat)
    requires Ascending(leaf) && AllOfLength(leaf, |sought|) && high <= |leaf|
    requires (high > 0 ==> Value(leaf[high - 1]) <= Value(sought))
             && (high < |leaf| ==> Value(sought) < Value(leaf[high]))
    ensures sought in leaf <==> high > 0 && leaf[high - 1] == sought
    ensures sought !in leaf ==> forall i :: 0 <= i < |leaf| ==> (Value(leaf[i]) < Value(sought) <==> i < high)
  {
    hide Ascending, AllOfLength, Value;
    forall i | 0 <= i < |leaf|
      ensures (leaf[i] == sought ==> i == high - 1) && (i < high ==> Value(leaf[i]) <= Value(sought))
      ensures high <= i ==> Value(sought) < Value(leaf[i])
      ensures Value(leaf[i]) == Value(sought) ==> leaf[i] == sought
    {
      SameLength(leaf, |sought|, i);
      BeforeIsLess(leaf[i], sought);
      if i < high { ValuesAscend(leaf, i, high - 1); } else { ValuesAscend(leaf, high, i); }
    }
  }

  lemma SameLength(s: seq<seq<Digit>>, n: nat, i: nat)
    requires AllOfLength(s, n) && i < |s|
    ensures |s[i]| == n
  {
  }

  /** The greatest word stands for the place before the first. */
  lemma Midway(low: Word, high: Word)
    requires (low == WORD - 1 || low < high) && 2 * high < WORD
    ensures (high - low) % WORD == if low == WORD - 1 then high + 1 else high - low
    ensures (high - low) % WORD > 1 ==>
              var mid := (high + low) % WORD / 2; mid < high && (low == WORD - 1 || low < mid)
  {
    if low == WORD - 1 {
      WrapsOnce(high + 1, high - low);
      if high > 0 { WrapsOnce(high - 1, high + low); }
    }
  }

  lemma WrapsOnce(a: Word, b: int)
    requires b == a - WORD || b == a + WORD
    ensures b % WORD == a
  {
  }

  /** The number of the sought digits in a leaf; the complement of where they belong if they are not there. */
  method SearchLeaf(leaf: seq<seq<Digit>>, sought: seq<Digit>) returns (pos: int)
    requires Ascending(leaf) && AllOfLength(leaf, |sought|) && 2 * |leaf| < WORD
    ensures pos >= 0 ==> pos < |leaf| && leaf[pos] == sought
    ensures pos < 0 ==> sought !in leaf && -pos - 1 <= |leaf|
    ensures pos < 0 ==> forall i :: 0 <= i < |leaf| ==> (Value(leaf[i]) < Value(sought) <==> i < -pos - 1)
  {
    hide Ascending, AllOfLength, Value;
    var low: Word, high: Word := WORD - 1, |leaf|;
    Midway(low, high);
    while (high - low) % WORD > 1
      invariant high <= |leaf| && (low == WORD - 1 || low < high)
      invariant (high - low) % WORD == if low == WORD - 1 then high + 1 else high - low
      invariant (high - low) % WORD > 1 ==>
                  var mid := (high + low) % WORD / 2; mid < high && (low == WORD - 1 || low < mid)
      invariant low < WORD - 1 ==> Value(leaf[low]) <= Value(sought)
      invariant high < |leaf| ==> Value(sought) < Value(leaf[high])
      decreases (high - low) % WORD
    {
      var mid: Word := (high + low) % WORD / 2;
      if Value(leaf[mid]) > Value(sought) { high := mid; } else { low := mid; }
      Midway(low, high);
    }
    assert low == WORD - 1 ==> high == 0;
    SoughtLies(leaf, sought, high);
    if low == WORD - 1 || leaf[low] != sought { return -1 - high; }
    return low;
  }

  // ---------- The way down ----------

  /** As the insertions store them, immediate indexes have all their digits but the first at the pointer. */
  ghost predicate Kept(jp: JP, prefix: seq<Digit>)
    decreases jp
  {
    match jp
    case Immed01(_, least) => 0 < |prefix| <= |least| + 1 && least[..|prefix| - 1] == prefix[1..]
    case BranchL(_, _, _, _, _) => KeptBelow(jp, Base(prefix, jp.state, jp.dcd))
    case BranchB(_, _, _, _) => KeptBelow(jp, Base(prefix, jp.state, jp.dcd))
    case BranchU(_, _, _, _) => KeptBelow(jp, Base(prefix, jp.state, jp.dcd))
    case _ => true
  }

  ghost predicate KeptBelow(jp: JP, base: seq<Digit>)
    requires IsBranch(jp)
    decreases jp, 0
  {
    forall d: nat {:trigger At(jp, d)} :: d < 256 && !At(jp, d).Null? ==> Kept(At(jp, d), base + [d])
  }

  lemma KeptOn(jp: JP, prefix: seq<Digit>, d: Digit)
    requires IsBranch(jp) && Kept(jp, prefix) && !At(jp, d).Null?
    ensures Kept(At(jp, d), Base(prefix, jp.state, jp.dcd) + [d])
  {
    hide At, Base;
  }

  /** What a branch has for a digit. */
  method Follow(jp: JP, digit: Digit) returns (child: JP)
    requires IsBranch(jp) && Shaped(jp) && (jp.BranchL? ==> jp.expanse != [])
    ensures child == At(jp, digit)
  {
    if jp.BranchL? {
      var posidx := 0;
      while jp.expanse[posidx] != digit
        invariant posidx < |jp.expanse| && forall k :: 0 <= k < posidx ==> jp.expanse[k] != digit
        decreases |jp.expanse| - posidx
      {
        posidx := posidx + 1;
        if posidx == |jp.expanse| {
          LinearAtIs(jp.expanse, jp.jps, digit, posidx, 0);
          return Null;
        }
      }
      LinearAtIs(jp.expanse, jp.jps, digit, posidx, 0);
      return jp.jps[posidx];
    } else if jp.BranchB? {
      var sub := jp.subexps[digit / 32];
      BitmapAt(jp, digit / 32, digit % 32);
      if !sub.bitmap[digit % 32] { return Null; }
      return sub.jps[CountBits(sub.bitmap, digit % 32)];
    } else {
      return jp.jps[digit];
    }
  }

  lemma BranchHasSome(jp: JP, prefix: seq<Digit>)
    requires jp.BranchL? && Valid(jp, prefix) && |Keys(jp, prefix)| > 0
    ensures jp.expanse != []
  {
    hide At;
    if jp.expanse == [] { LinearBelow(jp, Base(prefix, jp.state, jp.dcd), 256, 0); }
  }

  /** Whether an immediate has the digits, the last one looked at first. */
  method TestImmed(indexes: seq<seq<Digit>>, sought: seq<Digit>) returns (found: bool)
    ensures found <==> sought in indexes
  {
    var idx: nat := |indexes|;
    while idx > 0
      invariant idx <= |indexes| && sought !in indexes[idx..]
    {
      if indexes[idx - 1] == sought { return true; }
      idx := idx - 1;
    }
    return false;
  }

  method TestLeaf(jp: JP, index: Index, ghost prefix: seq<Digit>) returns (found: bool)
    requires !IsBranch(jp) && Valid(jp, prefix) && |index| == ROOT && prefix <= index
    ensures found ==> Leads(jp, index)
    ensures Kept(jp, prefix) ==> (found <==> Leads(jp, index))
  {
    hide Ascending, AllOfLength, BitKeys;
    match jp
    case Null => return false;
    case Leaf(state, dcd, _, indexes) =>
      if !Passes(state, dcd, index) { return false; }
      LeafFits(indexes, state);
      var pos := SearchLeaf(indexes, index[ROOT - state..]);
      return pos >= 0;
    case LeafB1(dcd, _, bitmaps) =>
      if !Passes(1, dcd, index) { return false; }
      return bitmaps[index[ROOT - 1] / 32][index[ROOT - 1] % 32];
    case FullPopU1(dcd) => return Passes(1, dcd, index);
    case Immed01(state, least) =>
      LeastAgrees(least, prefix, index);
      return least == index[1..];
    case Immed(state, indexes) =>
      found := TestImmed(indexes, index[ROOT - state..]);
  }

  lemma LeastAgrees(least: seq<Digit>, prefix: seq<Digit>, index: Index)
    requires prefix != [] && prefix <= index && |least| == ROOT - 1 && |index| == ROOT
    ensures least == index[1..] <==> least[..|prefix| - 1] == prefix[1..] && least[|prefix| - 1..] == index[|prefix|..]
  {
    assert index[1..] == prefix[1..] + index[|prefix|..];
    assert least == least[..|prefix| - 1] + least[|prefix| - 1..];
    if least == index[1..] { assert least[|prefix| - 1..] == index[|prefix|..]; }
  }

  lemma HasSome(jp: JP, prefix: seq<Digit>)
    requires IsBranch(jp) && Valid(jp, prefix) && prefix != []
    ensures |Keys(jp, prefix)| > 0
  {
    JudyByCount.BranchParts(jp, prefix);
  }

  lemma NullIsKept(prefix: seq<Digit>)
    ensures Kept(Null, prefix) && Valid(Null, prefix)
  {
  }

  /** What has been found so far decides whether the index is in the array. */
  ghost predicate StillToFind(a: Array, jp: JP, prefix: seq<Digit>, index: Index) {
    && a.Jpm? && Valid(jp, prefix) && |index| == ROOT && prefix <= index
    && (index in AllKeys(a) <==> Leads(jp, index))
    && (Kept(a.jp, []) ==> Kept(jp, prefix))
    && (IsBranch(jp) ==> |Keys(jp, prefix)| > 0)
  }

  lemma StepDown(a: Array, jp: JP, prefix: seq<Digit>, index: Index)
    requires StillToFind(a, jp, prefix, index) && IsBranch(jp)
    ensures 0 < jp.state <= ROOT && Shaped(jp) && (jp.BranchL? ==> jp.expanse != [])
    ensures !Passes(jp.state, jp.dcd, index) ==> index !in AllKeys(a)
    ensures Passes(jp.state, jp.dcd, index) ==>
              StillToFind(a, At(jp, index[ROOT - jp.state]),
                          Base(prefix, jp.state, jp.dcd) + [index[ROOT - jp.state]], index)
  {
    hide Keys, At, Passes, Leads, Kept, KeysUpTo, Base;
    JudyByCount.BranchParts(jp, prefix);
    if jp.BranchL? { BranchHasSome(jp, prefix); }
    InBranch(jp, prefix, index);
    LeadsOn(jp, index);
    var d := index[ROOT - jp.state];
    if !At(jp, d).Null? {
      var child, below := At(jp, d), Base(prefix, jp.state, jp.dcd) + [d];
      if Kept(jp, prefix) { KeptOn(jp, prefix, d); }
      if IsBranch(child) { HasSome(child, below); }
    } else {
      NullIsKept(Base(prefix, jp.state, jp.dcd) + [d]);
    }
  }

  /** Whether an index is in an array. */
  method Test(a: Array, index: Index) returns (found: bool)
    requires ValidArray(a) && |index| == ROOT && (a.LeafW? ==> a.pop0 < LEAFW_MAXPOP1)
    ensures found ==> index in AllKeys(a)
    ensures (a.Jpm? ==> Kept(a.jp, [])) ==> (found <==> index in AllKeys(a))
  {
    hide Valid, Ascending, AllOfLength, Keys, Shaped, Passes, Leads, Kept, Base;
    if a.Empty? { return false; }
    if a.LeafW? {
      var pos := SearchLeaf(a.indexes, index);
      return pos >= 0;
    }
    var jp := a.jp;
    ghost var prefix: seq<Digit> := [];
    KeyLeads(jp, prefix, index);
    while IsBranch(jp)
      invariant StillToFind(a, jp, prefix, index)
      decreases IsBranch(jp), jp
    {
      StepDown(a, jp, prefix, index);
      if !Passes(jp.state, jp.dcd, index) { return false; }
      ghost var base := Base(prefix, jp.state, jp.dcd);
      var digit := index[ROOT - jp.state];
      jp := Follow(jp, digit);
      prefix := base + [digit];
    }
    found := TestLeaf(jp, index, prefix);
  }
}

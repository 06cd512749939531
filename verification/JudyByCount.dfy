/** Finding the index with a given ordinal in a Judy array. */
module JudyByCount {
  import opened JudyArrays

  // ---------- Parts of an index ----------

  function SetDigit(index: Index, digit: Digit, state: nat): Index
    requires |index| == ROOT && 0 < state <= ROOT
  {
    index[ROOT - state := digit]
  }

  /** Copies the decoded digits of a pointer, all but the first. */
  function SetDcd(index: Index, dcd: seq<Digit>, state: nat): Index
    requires |index| == ROOT && state <= ROOT - 1
  {
    index[..1] + dcd + index[ROOT - state..]
  }

  /** Replaces the least significant digits. */
  function SetDigits(index: Index, digits: seq<Digit>, state: nat): Index
    requires |index| == ROOT && state <= |digits| && state <= ROOT
  {
    index[..ROOT - state] + digits[|digits| - state..]
  }

  /** The digit for the `offset`-th bit set. */
  method BitmapDigit(subexp: nat, bitmap: seq<bool>, offset: nat) returns (digit: Digit)
    requires subexp < 8 && |bitmap| == 32 && offset < CountBits(bitmap, 32)
    ensures 32 * subexp <= digit < 32 * subexp + 32
    ensures bitmap[digit - 32 * subexp] && CountBits(bitmap, digit - 32 * subexp) == offset
  {
    var p: nat := 0;
    var remain: int := offset - if bitmap[0] then 1 else 0;
    while remain >= 0
      invariant p < 32 && remain == offset - CountBits(bitmap, p + 1) && CountBits(bitmap, p) <= offset
      decreases 32 - p
    {
      p := p + 1;
      remain := remain - if bitmap[p] then 1 else 0;
    }
    digit := 32 * subexp + p;
  }

  // ---------- Choosing an expanse ----------

  predicate LowerHalf(count0: Word, pop1lower: Word, pop1: Word) { count0 - pop1lower < pop1 / 2 }

  /** The wanted ordinal is in the branch, and all of the branch can be counted in a word. */
  ghost predicate InBranch(jp: JP, base: seq<Digit>, count0: Word, start: Word) {
    Branching(jp, base) && start <= count0 < start + Below(jp, base, 256) < WORD
  }

  /** The ordinal is below `d`, and `pop1lower` has counted what comes before. */
  ghost predicate Chosen(jp: JP, base: seq<Digit>, d: Digit, count0: Word, start: Word, pop1lower: Word)
    requires IsBranch(jp)
  {
    pop1lower == start + Below(jp, base, d) <= count0 < start + Below(jp, base, d + 1)
  }

  method LinearExpanse(jp: JP, count0: Word, start: Word, ghost base: seq<Digit>)
      returns (digit: Digit, child: JP, pop1lower: Word)
    requires jp.BranchL? && InBranch(jp, base, count0, start)
    ensures child == At(jp, digit) && Chosen(jp, base, digit, count0, start, pop1lower)
  {
    hide Valid, Below, At, KeysUpTo, Pop1;
    pop1lower := start;
    LinearBelow(jp, base, 256, |jp.jps|);
    for jpnum := 0 to |jp.jps|
      invariant pop1lower == start + PopSum(jp.jps, jpnum) <= count0
    {
      PopSumMono(jp.jps, jpnum + 1, |jp.jps|);
      var upper: Word := pop1lower + Pop1(jp.jps[jpnum]);
      if upper > count0 {
        digit, child := jp.expanse[jpnum], jp.jps[jpnum];
        LinearChosen(jp, base, jpnum);
        return;
      }
      pop1lower := upper;
    }
    assert false;
  }

  lemma LinearChosen(jp: JP, base: seq<Digit>, jpnum: nat)
    requires Branching(jp, base) && jp.BranchL? && jpnum < |jp.jps| == |jp.expanse|
    ensures At(jp, jp.expanse[jpnum]) == jp.jps[jpnum]
    ensures var d: nat := jp.expanse[jpnum];
            && Below(jp, base, d) == PopSum(jp.jps, jpnum)
            && Below(jp, base, d + 1) == PopSum(jp.jps, jpnum) + Pop1(jp.jps[jpnum])
  {
    hide Valid, Below, KeysUpTo, LinearAt, Pop1, Shaped, Branching, At, PopSum;
    PopSumNext(jp.jps, jpnum);
    var d: nat := jp.expanse[jpnum];
    assert Shaped(jp) by { BranchingShaped(jp, base); }
    OwnPointer(jp, jpnum);
    LinearBelow(jp, base, d, jpnum);
    LinearBelow(jp, base, d + 1, jpnum + 1);
  }

  lemma PopSumNext(jps: seq<JP>, i: nat)
    requires i < |jps|
    ensures PopSum(jps, i + 1) == PopSum(jps, i) + Pop1(jps[i])
  {
  }

  lemma BranchingShaped(jp: JP, base: seq<Digit>)
    requires Branching(jp, base)
    ensures Shaped(jp)
  {
  }

  lemma OwnPointer(jp: JP, i: nat)
    requires jp.BranchL? && Shaped(jp) && i < |jp.jps|
    ensures At(jp, jp.expanse[i]) == jp.jps[i]
    ensures i > 0 ==> jp.expanse[i - 1] < jp.expanse[i]
    ensures i + 1 < |jp.jps| ==> jp.expanse[i] < jp.expanse[i + 1]
  {
    hide LinearAt;
    LinearAtIs(jp.expanse, jp.jps, jp.expanse[i], i, 0);
  }

  /** The ordinal is below a pointer of a bitmap branch. */
  ghost predicate ChosenBit(jp: JP, base: seq<Digit>, subexp: nat, jpnum: nat, count0: Word, start: Word,
                            pop1lower: Word)
    requires jp.BranchB? && |jp.subexps| == 8
  {
    && subexp < 8 && jpnum < |jp.subexps[subexp].jps|
    && pop1lower == start + Below(jp, base, 32 * subexp) + PopSum(jp.subexps[subexp].jps, jpnum) <= count0
    && count0 < pop1lower + Pop1(jp.subexps[subexp].jps[jpnum])
  }

  lemma SubexpanseFits(jp: JP, base: seq<Digit>, s: nat, jpnum: nat)
    requires Branching(jp, base) && jp.BranchB? && s < 8 && jpnum <= |jp.subexps[s].jps|
    ensures |jp.subexps[s].bitmap| == 32 && |jp.subexps[s].jps| == CountBits(jp.subexps[s].bitmap, 32)
    ensures Below(jp, base, 32 * s + 32) == Below(jp, base, 32 * s) + PopSum(jp.subexps[s].jps, |jp.subexps[s].jps|)
    ensures Below(jp, base, 32 * s) + PopSum(jp.subexps[s].jps, jpnum) <= Below(jp, base, 256)
  {
    hide Valid, Below, PopSum;
    BitmapBelow(jp, base, s, 32);
    BelowMono(jp, base, 32 * s + 32, 256);
    PopSumMono(jp.subexps[s].jps, jpnum, |jp.subexps[s].jps|);
  }

  method CountBitmapUp(jp: JP, count0: Word, start: Word, ghost base: seq<Digit>)
      returns (subexp: nat, jpnum: nat, pop1lower: Word)
    requires jp.BranchB? && InBranch(jp, base, count0, start) && |jp.subexps| == 8
    ensures ChosenBit(jp, base, subexp, jpnum, count0, start, pop1lower)
  {
    hide Branching, Below, Pop1;
    assert Below(jp, base, 0) == 0 by { NoneBelow(jp, base); }
    pop1lower, subexp := start, 0;
    while subexp < 8
      invariant subexp <= 8 && pop1lower == start + Below(jp, base, 32 * subexp) <= count0
    {
      var sub := jp.subexps[subexp];
      SubexpanseFits(jp, base, subexp, 0);
      var jpcount := CountBits(sub.bitmap, 32);
      jpnum := 0;
      while jpnum < jpcount
        invariant jpnum <= jpcount
        invariant pop1lower == start + Below(jp, base, 32 * subexp) + PopSum(sub.jps, jpnum) <= count0
      {
        SubexpanseFits(jp, base, subexp, jpnum + 1);
        var upper: Word := pop1lower + Pop1(sub.jps[jpnum]);
        if upper > count0 { return; }
        pop1lower, jpnum := upper, jpnum + 1;
      }
      subexp := subexp + 1;
    }
    assert false;
  }

  method CountBitmapDown(jp: JP, count0: Word, start: Word, pop1: Word, ghost base: seq<Digit>)
      returns (subexp: nat, jpnum: nat, pop1lower: Word)
    requires jp.BranchB? && InBranch(jp, base, count0, start) && |jp.subexps| == 8 && pop1 == Below(jp, base, 256)
    ensures ChosenBit(jp, base, subexp, jpnum, count0, start, pop1lower)
  {
    hide Branching, Below, Pop1;
    assert Below(jp, base, 0) == 0 by { NoneBelow(jp, base); }
    pop1lower := start + pop1;
    var i: int := 7;
    while i >= 0
      invariant -1 <= i < 8 && pop1lower == start + Below(jp, base, 32 * (i + 1)) > count0
    {
      subexp := i;
      var sub := jp.subexps[subexp];
      SubexpanseFits(jp, base, subexp, 0);
      var k: int := CountBits(sub.bitmap, 32) - 1;
      while k >= 0
        invariant -1 <= k < |sub.jps|
        invariant pop1lower == start + Below(jp, base, 32 * subexp) + PopSum(sub.jps, k + 1) > count0
      {
        jpnum := k;
        pop1lower := pop1lower - Pop1(sub.jps[jpnum]);
        if pop1lower == 0 || pop1lower - 1 < count0 { return; }
        k := k - 1;
      }
      i := i - 1;
    }
    assert false;
  }

  lemma NoneBelow(jp: JP, base: seq<Digit>)
    requires IsBranch(jp)
    ensures Below(jp, base, 0) == 0
  {
  }

  method BitmapExpanse(jp: JP, count0: Word, start: Word, pop1: Word, ghost base: seq<Digit>)
      returns (digit: Digit, child: JP, pop1lower: Word)
    requires jp.BranchB? && InBranch(jp, base, count0, start) && pop1 == Below(jp, base, 256)
    ensures child == At(jp, digit) && Chosen(jp, base, digit, count0, start, pop1lower)
  {
    hide Valid, Below, Pop1, PopSum, At, KeysUpTo;
    var subexp, jpnum;
    if LowerHalf(count0, start, pop1) {
      subexp, jpnum, pop1lower := CountBitmapUp(jp, count0, start, base);
    } else {
      subexp, jpnum, pop1lower := CountBitmapDown(jp, count0, start, pop1, base);
    }
    var sub := jp.subexps[subexp];
    digit := BitmapDigit(subexp, sub.bitmap, jpnum);
    child := sub.jps[jpnum];
    BitChosen(jp, base, subexp, digit);
  }

  lemma BitChosen(jp: JP, base: seq<Digit>, subexp: nat, digit: Digit)
    requires Branching(jp, base) && jp.BranchB? && subexp < 8 && 32 * subexp <= digit < 32 * subexp + 32
    requires |jp.subexps| == 8 && |jp.subexps[subexp].bitmap| == 32 && jp.subexps[subexp].bitmap[digit - 32 * subexp]
    ensures var sub, jpnum := jp.subexps[subexp], CountBits(jp.subexps[subexp].bitmap, digit - 32 * subexp);
            && jpnum < |sub.jps| && At(jp, digit) == sub.jps[jpnum]
            && Below(jp, base, digit) == Below(jp, base, 32 * subexp) + PopSum(sub.jps, jpnum)
            && Below(jp, base, digit + 1) == Below(jp, base, digit) + Pop1(sub.jps[jpnum])
  {
    hide Valid, Below, KeysUpTo, Pop1, PopSum, At;
    BitmapAt(jp, subexp, digit - 32 * subexp);
    BitmapBelow(jp, base, subexp, digit - 32 * subexp);
    BelowNext(jp, base, digit);
  }

  method UncompressedExpanse(jp: JP, count0: Word, start: Word, pop1: Word, ghost base: seq<Digit>)
      returns (digit: Digit, child: JP, pop1lower: Word)
    requires jp.BranchU? && InBranch(jp, base, count0, start) && pop1 == Below(jp, base, 256)
    ensures child == At(jp, digit) && Chosen(jp, base, digit, count0, start, pop1lower)
  {
    hide Valid, Below;
    assert Below(jp, base, 0) == 0 by { NoneBelow(jp, base); }
    pop1lower := start;
    if LowerHalf(count0, start, pop1) {
      for jpnum := 0 to 256
        invariant pop1lower == start + Below(jp, base, jpnum) <= count0
      {
        BelowNext(jp, base, jpnum);
        if jp.jps[jpnum].Null? { continue; }
        BelowMono(jp, base, jpnum + 1, 256);
        var upper: Word := pop1lower + Pop1(jp.jps[jpnum]);
        if upper > count0 {
          digit, child := jpnum, jp.jps[jpnum];
          return;
        }
        pop1lower := upper;
      }
    } else {
      pop1lower := pop1lower + pop1;
      for jpnum := 256 downto 0
        invariant pop1lower == start + Below(jp, base, jpnum) > count0
      {
        BelowNext(jp, base, jpnum);
        if jp.jps[jpnum].Null? { continue; }
        pop1lower := pop1lower - Pop1(jp.jps[jpnum]);
        if pop1lower == 0 || pop1lower - 1 < count0 {
          digit, child := jpnum, jp.jps[jpnum];
          return;
        }
      }
    }
    assert false;
  }

  // ---------- Leaves ----------

  /** The part of a bitmap leaf with the wanted ordinal. */
  method LeafSubexpanse(bitmaps: seq<seq<bool>>, count0: Word, start: Word, pop1: Word, ghost base: seq<Digit>)
      returns (subexp: nat, pop1lower: Word)
    requires |bitmaps| == 8 && forall s :: 0 <= s < 8 ==> |bitmaps[s]| == 32
    requires pop1 == |BitKeys(bitmaps, base, 256)| && start <= count0 < start + pop1 < WORD
    ensures subexp < 8 && pop1lower == start + |BitKeys(bitmaps, base, 32 * subexp)| <= count0
    ensures count0 < pop1lower + CountBits(bitmaps[subexp], 32)
  {
    hide BitAt;
    pop1lower := start;
    if LowerHalf(count0, start, pop1) {
      subexp := 0;
      while subexp < 8
        invariant subexp <= 8 && pop1lower == start + |BitKeys(bitmaps, base, 32 * subexp)| <= count0
      {
        BitKeysBelow(bitmaps, base, subexp, 32);
        BitKeysMono(bitmaps, base, 32 * subexp + 32, 256);
        var upper: Word := pop1lower + CountBits(bitmaps[subexp], 32);
        if upper > count0 { return; }
        pop1lower, subexp := upper, subexp + 1;
      }
    } else {
      pop1lower := pop1lower + pop1;
      var i: int := 7;
      while i >= 0
        invariant -1 <= i < 8 && pop1lower == start + |BitKeys(bitmaps, base, 32 * (i + 1))| > count0
      {
        subexp := i;
        BitKeysBelow(bitmaps, base, subexp, 32);
        pop1lower := pop1lower - CountBits(bitmaps[subexp], 32);
        if pop1lower == 0 || pop1lower - 1 < count0 { return; }
        i := i - 1;
      }
    }
    assert false;
  }

  lemma BitKeyAt(bitmaps: seq<seq<bool>>, base: seq<Digit>, d: Digit)
    requires |bitmaps| == 8 && |bitmaps[d / 32]| == 32 && bitmaps[d / 32][d % 32]
    ensures |BitKeys(bitmaps, base, d)| == |BitKeys(bitmaps, base, 32 * (d / 32))| + CountBits(bitmaps[d / 32], d % 32)
    ensures |BitKeys(bitmaps, base, d)| < |BitKeys(bitmaps, base, 256)|
    ensures BitKeys(bitmaps, base, 256)[|BitKeys(bitmaps, base, d)|] == base + [d]
  {
    BitKeysBelow(bitmaps, base, d / 32, d % 32);
    BitKeysMono(bitmaps, base, d + 1, 256);
  }

  /** The index at the end of the way down. */
  method LeafIndex(jp: JP, count0: Word, pop1lower: Word, given: Index, ghost prefix: seq<Digit>) returns (index: Index)
    requires !IsBranch(jp) && Valid(jp, prefix) && |given| == ROOT && prefix <= given
    requires pop1lower <= count0 < pop1lower + |Keys(jp, prefix)| < WORD
    ensures index == Keys(jp, prefix)[count0 - pop1lower]
  {
    hide Ascending, BitKeys, AllOfLength, KeysUpTo;
    index := given;
    var offset := count0 - pop1lower;
    if jp.Leaf? {
      index := LinearLeafIndex(jp, offset, given, prefix);
    } else if jp.LeafB1? {
      index := BitmapLeafIndex(jp, count0, pop1lower, given, prefix);
    } else if jp.FullPopU1? {
      index := SetDcd(index, jp.dcd, 1);
      index := SetDigit(index, offset, 1);
    } else if jp.Immed01? {
      index := SetDigits(index, jp.least, jp.state);
    } else {
      LeafParts(jp, prefix, offset);
      index := SetDigits(index, jp.indexes[offset], jp.state);
    }
  }

  lemma LeafParts(jp: JP, prefix: seq<Digit>, offset: nat)
    requires (jp.Leaf? || jp.Immed?) && Valid(jp, prefix) && offset < |jp.indexes|
    ensures |jp.indexes[offset]| == jp.state
  {
    hide Ascending;
  }

  method LinearLeafIndex(jp: JP, offset: nat, given: Index, ghost prefix: seq<Digit>) returns (index: Index)
    requires jp.Leaf? && Valid(jp, prefix) && |given| == ROOT && prefix <= given && offset < |jp.indexes|
    ensures index == Keys(jp, prefix)[offset]
  {
    hide Ascending, AllOfLength;
    index := given;
    LeafParts(jp, prefix, offset);
    if jp.state < ROOT - 1 { index := SetDcd(index, jp.dcd, jp.state); }
    index := SetDigits(index, jp.indexes[offset], jp.state);
  }

  method BitmapLeafIndex(jp: JP, count0: Word, pop1lower: Word, given: Index, ghost prefix: seq<Digit>)
      returns (index: Index)
    requires jp.LeafB1? && Valid(jp, prefix) && |given| == ROOT && prefix <= given
    requires pop1lower <= count0 < pop1lower + |Keys(jp, prefix)| < WORD
    ensures index == Keys(jp, prefix)[count0 - pop1lower]
  {
    hide BitKeys;
    index := SetDcd(given, jp.dcd, 1);
    ghost var base := Base(prefix, 1, jp.dcd);
    var subexp, lower := LeafSubexpanse(jp.bitmaps, count0, pop1lower, jp.pop0 + 1, base);
    var digit := BitmapDigit(subexp, jp.bitmaps[subexp], count0 - lower);
    SubexpanseOf(subexp, digit - 32 * subexp);
    BitKeyAt(jp.bitmaps, base, digit);
    index := SetDigit(index, digit, 1);
  }

  // ---------- The whole search ----------

  /** One index of a branch is an index of a child. */
  lemma KeyInChild(jp: JP, base: seq<Digit>, d: Digit, k: nat)
    requires IsBranch(jp) && Below(jp, base, d) <= k < Below(jp, base, d + 1)
    ensures !At(jp, d).Null? && k - Below(jp, base, d) < |Keys(At(jp, d), base + [d])|
    ensures k < Below(jp, base, 256) && Below(jp, base, d) + |Keys(At(jp, d), base + [d])| <= Below(jp, base, 256)
    ensures KeysUpTo(jp, base, 256)[k] == Keys(At(jp, d), base + [d])[k - Below(jp, base, d)]
  {
    hide At, Keys;
    BelowMono(jp, base, d + 1, 256);
  }

  /** The pointer reached so far still has the index looked for. */
  ghost predicate OnTheWay(a: Array, jp: JP, prefix: seq<Digit>, count0: Word, pop1lower: Word) {
    && Valid(jp, prefix) && count0 < |AllKeys(a)| && pop1lower + |Keys(jp, prefix)| < WORD
    && pop1lower <= count0 < pop1lower + |Keys(jp, prefix)|
    && Keys(jp, prefix)[count0 - pop1lower] == AllKeys(a)[count0]
  }

  /** Decodes the next digit: the child whose expanse has the ordinal. */
  method Expanse(jp: JP, count0: Word, start: Word, pop1: Word, ghost base: seq<Digit>)
      returns (digit: Digit, child: JP, pop1lower: Word)
    requires InBranch(jp, base, count0, start) && pop1 == Below(jp, base, 256)
    ensures child == At(jp, digit) && Chosen(jp, base, digit, count0, start, pop1lower)
  {
    hide Valid, Below;
    if jp.BranchL? {
      digit, child, pop1lower := LinearExpanse(jp, count0, start, base);
    } else if jp.BranchB? {
      digit, child, pop1lower := BitmapExpanse(jp, count0, start, pop1, base);
    } else {
      digit, child, pop1lower := UncompressedExpanse(jp, count0, start, pop1, base);
    }
  }

  /** The `count`-th index of an array, if it has that many. */
  method ByCount(a: Array, count: Word, given: Index) returns (found: bool, index: Index)
    requires ValidArray(a) && |given| == ROOT
    ensures found <==> 1 <= count <= |AllKeys(a)|
    ensures index == if found then AllKeys(a)[count - 1] else given
  {
    hide Valid, Ascending, AllOfLength, KeysUpTo, Shaped, Keys;
    found, index := false, given;
    if a.Empty? { return; }
    var count0: Word := if count == 0 then WORD - 1 else count - 1;
    if count0 > a.pop0 { return; }
    found := true;
    if a.LeafW? {
      index := a.indexes[count - 1];
      return;
    }
    var jp, pop1lower, pop1 := a.jp, 0, a.pop0 + 1;
    ghost var prefix: seq<Digit> := [];
    while IsBranch(jp)
      invariant |index| == ROOT && prefix <= index && OnTheWay(a, jp, prefix, count0, pop1lower)
      invariant prefix == [] ==> pop1 == |Keys(jp, prefix)|
      decreases jp
    {
      ghost var base := Base(prefix, jp.state, jp.dcd);
      BranchParts(jp, prefix);
      if jp.state < ROOT - 1 { index := SetDcd(index, jp.dcd, jp.state); }
      if jp.state < ROOT { pop1 := jp.pop0 + 1; }
      assert base <= index;
      var start := pop1lower;
      var digit, child;
      digit, child, pop1lower := Expanse(jp, count0, start, pop1, base);
      KeyInChild(jp, base, digit, count0 - start);
      index := SetDigit(index, digit, jp.state);
      jp, prefix := child, base + [digit];
    }
    index := LeafIndex(jp, count0, pop1lower, index, prefix);
  }

  lemma BranchParts(jp: JP, prefix: seq<Digit>)
    requires IsBranch(jp) && Valid(jp, prefix)
    ensures var base := Base(prefix, jp.state, jp.dcd);
            && 0 < jp.state <= ROOT && prefix <= base && |base| == ROOT - jp.state && Branching(jp, base)
            && (jp.state == ROOT <==> prefix == [])
            && Keys(jp, prefix) == KeysUpTo(jp, base, 256)
            && (jp.state < ROOT ==> jp.pop0 + 1 == Below(jp, base, 256))
  {
    hide At, Shaped, KeysUpTo;
  }
}

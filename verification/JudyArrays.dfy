/** Judy arrays: sets of word-sized indexes in a 256-way digital tree whose branches and leaves come in
    several forms.  An index is the sequence of its bytes ("digits"), the most significant one first. */
module JudyArrays {

  type Digit = d: int | 0 <= d < 256
  type Index = seq<Digit>

  const ROOT: nat := 8              // digits of an index
  const WORD := 0x1_0000_0000_0000_0000
  type Word = w: int | 0 <= w < WORD

  /** One of the eight parts of a bitmap branch: a bit for each populated digit, a pointer for each bit. */
  datatype Subexpanse = Subexpanse(bitmap: seq<bool>, jps: seq<JP>)

  /** A Judy pointer.  `state` is how many digits are still undecoded at what it points to; `dcd` holds the
      decoded ones but for the first, including those of branches left out on the way ("narrow" pointers). */
  datatype JP =
    | Null
    | BranchL(state: nat, dcd: seq<Digit>, pop0: nat, expanse: seq<Digit>, jps: seq<JP>)
    | BranchB(state: nat, dcd: seq<Digit>, pop0: nat, subexps: seq<Subexpanse>)
    | BranchU(state: nat, dcd: seq<Digit>, pop0: nat, jps: seq<JP>)
    | Leaf(state: nat, dcd: seq<Digit>, pop0: nat, indexes: seq<seq<Digit>>)
    | LeafB1(dcd: seq<Digit>, pop0: nat, bitmaps: seq<seq<bool>>)
    | FullPopU1(dcd: seq<Digit>)
    | Immed01(state: nat, least: seq<Digit>)
    | Immed(state: nat, indexes: seq<seq<Digit>>)

  datatype Array = Empty | LeafW(pop0: nat, indexes: seq<Index>) | Jpm(pop0: nat, jp: JP)

  predicate IsBranch(jp: JP) { jp.BranchL? || jp.BranchB? || jp.BranchU? }

  // ---------- Bitmaps ----------

  /** Set bits among the first `k`. */
  function CountBits(bitmap: seq<bool>, k: nat): (n: nat)
    requires k <= |bitmap|
    ensures n <= k
  {
    if k == 0 then 0 else CountBits(bitmap, k - 1) + if bitmap[k - 1] then 1 else 0
  }

  lemma {:induction false} CountMono(bitmap: seq<bool>, j: nat, k: nat)
    requires j <= k <= |bitmap|
    ensures CountBits(bitmap, j) <= CountBits(bitmap, k)
    ensures j < k && bitmap[j] ==> CountBits(bitmap, j) < CountBits(bitmap, k)
  {
    if j < k { CountMono(bitmap, j, k - 1); }
  }

  // ---------- Looking a digit up ----------

  function LinearAt(expanse: seq<Digit>, jps: seq<JP>, d: nat, i: nat): (child: JP)
    ensures child.Null? || child in jps
    decreases |expanse| - i
  {
    if i >= |expanse| || i >= |jps| then Null
    else if expanse[i] == d then jps[i]
    else LinearAt(expanse, jps, d, i + 1)
  }

  function SubAt(sub: Subexpanse, bit: nat): (child: JP)
    ensures child.Null? || child in sub.jps
  {
    if bit < |sub.bitmap| && sub.bitmap[bit] && CountBits(sub.bitmap, bit) < |sub.jps|
    then sub.jps[CountBits(sub.bitmap, bit)] else Null
  }

  /** What a branch has for a digit, whatever its form. */
  function At(jp: JP, d: nat): (child: JP)
    requires IsBranch(jp)
    ensures child.Null? || child < jp
  {
    match jp
    case BranchL(_, _, _, expanse, jps) => LinearAt(expanse, jps, d, 0)
    case BranchB(_, _, _, subexps) =>
      if d / 32 < |subexps| then
        assert subexps[d / 32] in subexps;
        SubAt(subexps[d / 32], d % 32)
      else Null
    case BranchU(_, _, _, jps) => if d < |jps| then jps[d] else Null
  }

  function BitAt(bitmaps: seq<seq<bool>>, d: nat): bool {
    d / 32 < |bitmaps| && d % 32 < |bitmaps[d / 32]| && bitmaps[d / 32][d % 32]
  }

  // ---------- The indexes of an array ----------

  /** The digits decoded where a pointer leads, given those decoded on the way to it. */
  function Base(prefix: seq<Digit>, state: nat, dcd: seq<Digit>): seq<Digit> {
    if 0 < |prefix| && state < ROOT - 1 then prefix[..1] + dcd else prefix
  }

  function WithDigit(base: seq<Digit>, d: Digit): Index { base + [d] }

  function Prefixed(base: seq<Digit>, indexes: seq<seq<Digit>>): seq<Index> {
    seq(|indexes|, i requires 0 <= i < |indexes| => base + indexes[i])
  }

  /** The indexes below a pointer, in ascending order. */
  function Keys(jp: JP, prefix: seq<Digit>): seq<Index>
    decreases jp, 257
  {
    match jp
    case Null => []
    case Leaf(state, dcd, _, indexes) => Prefixed(Base(prefix, state, dcd), indexes)
    case LeafB1(dcd, _, bitmaps) => BitKeys(bitmaps, Base(prefix, 1, dcd), 256)
    case FullPopU1(dcd) => seq(256, d requires 0 <= d < 256 => WithDigit(Base(prefix, 1, dcd), d))
    case Immed01(state, least) => if state < |least| then [prefix + least[|least| - state..]] else [prefix + least]
    case Immed(state, indexes) => Prefixed(prefix, indexes)
    case _ => KeysUpTo(jp, Base(prefix, jp.state, jp.dcd), 256)
  }

  /** The indexes of a branch whose digit is less than `d`. */
  function KeysUpTo(jp: JP, base: seq<Digit>, d: nat): seq<Index>
    requires IsBranch(jp) && d <= 256
    decreases jp, d
  {
    if d == 0 then [] else KeysUpTo(jp, base, d - 1) + ChildKeys(jp, base, d - 1)
  }

  function ChildKeys(jp: JP, base: seq<Digit>, d: Digit): seq<Index>
    requires IsBranch(jp)
    decreases jp, 0
  {
    if At(jp, d).Null? then [] else Keys(At(jp, d), base + [d])
  }

  function BitKeys(bitmaps: seq<seq<bool>>, base: seq<Digit>, d: nat): seq<Index>
    requires d <= 256
  {
    if d == 0 then [] else BitKeys(bitmaps, base, d - 1) + if BitAt(bitmaps, d - 1) then [base + [d - 1]] else []
  }

  function AllKeys(a: Array): seq<Index> {
    match a
    case Empty => []
    case LeafW(_, indexes) => indexes
    case Jpm(_, jp) => Keys(jp, [])
  }

  // ---------- Well-formed arrays ----------

  /** Comes first: at the first digit in which they differ. */
  ghost predicate Before(a: seq<Digit>, b: seq<Digit>) {
    |a| == |b| && exists k :: 0 <= k < |a| && a[..k] == b[..k] && a[k] < b[k]
  }

  ghost predicate Ascending(s: seq<seq<Digit>>) {
    forall i, j :: 0 <= i < j < |s| ==> Before(s[i], s[j])
  }

  ghost predicate AllOfLength(s: seq<seq<Digit>>, n: nat) {
    forall i :: 0 <= i < |s| ==> |s[i]| == n
  }

  predicate Shaped(jp: JP)
    requires IsBranch(jp)
  {
    match jp
    case BranchL(_, _, _, expanse, jps) =>
      && |expanse| == |jps|
      && (forall i, j :: 0 <= i < j < |expanse| ==> expanse[i] < expanse[j])
      && forall i :: 0 <= i < |jps| ==> !jps[i].Null?
    case BranchB(_, _, _, subexps) => |subexps| == 8 && forall s :: 0 <= s < 8 ==> ShapedSub(subexps[s])
    case BranchU(_, _, _, jps) => |jps| == 256
  }

  predicate ShapedSub(sub: Subexpanse) {
    |sub.bitmap| == 32 && |sub.jps| == CountBits(sub.bitmap, 32) && forall i :: 0 <= i < |sub.jps| ==> !sub.jps[i].Null?
  }

  /** The decoded digits agree with those on the way. */
  predicate Decoded(prefix: seq<Digit>, state: nat, dcd: seq<Digit>) {
    && state <= ROOT - |prefix| && prefix <= Base(prefix, state, dcd) && |Base(prefix, state, dcd)| == ROOT - state
  }

  ghost predicate Valid(jp: JP, prefix: seq<Digit>)
    decreases jp
  {
    match jp
    case Null => true
    case Leaf(state, dcd, pop0, indexes) =>
      && 0 < state && prefix != [] && Decoded(prefix, state, dcd)
      && |indexes| == pop0 + 1 && AllOfLength(indexes, state) && Ascending(indexes)
    case LeafB1(dcd, pop0, bitmaps) =>
      && prefix != [] && Decoded(prefix, 1, dcd) && |bitmaps| == 8 && (forall s :: 0 <= s < 8 ==> |bitmaps[s]| == 32)
      && |Keys(jp, prefix)| == pop0 + 1
    case FullPopU1(dcd) => prefix != [] && Decoded(prefix, 1, dcd)
    case Immed01(state, least) => prefix != [] && 0 < state == ROOT - |prefix| && |least| == ROOT - 1
    case Immed(state, indexes) =>
      && prefix != [] && 0 < state == ROOT - |prefix| && |indexes| >= 2
      && AllOfLength(indexes, state) && Ascending(indexes)
    case _ =>
      && 1 < jp.state && (jp.state == ROOT <==> prefix == []) && Decoded(prefix, jp.state, jp.dcd) && Shaped(jp)
      && (jp.state < ROOT ==> |Keys(jp, prefix)| == jp.pop0 + 1)
      && forall d: nat {:trigger At(jp, d)} :: d < 256 && !At(jp, d).Null? ==>
           Valid(At(jp, d), Base(prefix, jp.state, jp.dcd) + [d])
  }

  /** An array of less than all the indexes there are. */
  ghost predicate ValidArray(a: Array) {
    match a
    case Empty => true
    case LeafW(pop0, indexes) => |indexes| == pop0 + 1 < WORD && AllOfLength(indexes, ROOT) && Ascending(indexes)
    case Jpm(pop0, jp) => IsBranch(jp) && Valid(jp, []) && |Keys(jp, [])| == pop0 + 1 < WORD
  }

  /** The population of a pointer, from what the pointer itself holds. */
  function Pop1(jp: JP): nat {
    match jp
    case Null => 0
    case FullPopU1(_) => 256
    case Immed01(_, _) => 1
    case Immed(_, indexes) => |indexes|
    case _ => jp.pop0 + 1
  }

  lemma PopIsCount(jp: JP, prefix: seq<Digit>)
    requires Valid(jp, prefix) && prefix != []
    ensures Pop1(jp) == |Keys(jp, prefix)|
  {
    hide At, KeysUpTo, BitKeys, Ascending, AllOfLength, Shaped;
  }

  // ---------- Counting in a branch ----------

  function PopSum(jps: seq<JP>, i: nat): nat
    requires i <= |jps|
  {
    if i == 0 then 0 else PopSum(jps, i - 1) + Pop1(jps[i - 1])
  }

  /** How many indexes of a branch have a digit less than `d`. */
  function Below(jp: JP, base: seq<Digit>, d: nat): nat
    requires IsBranch(jp) && d <= 256
  {
    |KeysUpTo(jp, base, d)|
  }

  /** A branch as the counting sees it: well-formed children below the given digits. */
  ghost predicate Branching(jp: JP, base: seq<Digit>) {
    && IsBranch(jp) && Shaped(jp)
    && forall d: nat {:trigger At(jp, d)} :: d < 256 && !At(jp, d).Null? ==> Valid(At(jp, d), base + [d])
  }

  lemma BelowNext(jp: JP, base: seq<Digit>, d: Digit)
    requires Branching(jp, base)
    ensures Below(jp, base, d + 1) == Below(jp, base, d) + Pop1(At(jp, d))
    ensures |ChildKeys(jp, base, d)| == Pop1(At(jp, d))
  {
    hide At, Shaped, Valid, Keys;
    if !At(jp, d).Null? { PopIsCount(At(jp, d), base + [d]); }
    assert |ChildKeys(jp, base, d)| == Pop1(At(jp, d));
  }

  lemma {:induction false} BelowMono(jp: JP, base: seq<Digit>, d: nat, e: nat)
    requires IsBranch(jp) && d <= e <= 256
    ensures Below(jp, base, d) <= Below(jp, base, e)
    ensures KeysUpTo(jp, base, d) <= KeysUpTo(jp, base, e)
  {
    if d < e { BelowMono(jp, base, d, e - 1); }
  }

  /** Wherever the counting comes from, only one digit has the wanted ordinal below it. */
  lemma OneExpanse(jp: JP, base: seq<Digit>, d: Digit, e: Digit, rank: nat)
    requires IsBranch(jp)
    requires Below(jp, base, d) <= rank < Below(jp, base, d + 1)
    requires Below(jp, base, e) <= rank < Below(jp, base, e + 1)
    ensures d == e
  {
    hide KeysUpTo, Below;
    if d < e { BelowMono(jp, base, d + 1, e); }
    if e < d { BelowMono(jp, base, e + 1, d); }
  }

  lemma {:induction false} LinearAtIs(expanse: seq<Digit>, jps: seq<JP>, d: nat, i: nat, from: nat)
    requires |expanse| == |jps| && from <= i <= |jps|
    requires forall k :: from <= k < i ==> expanse[k] != d
    requires i < |jps| ==> expanse[i] == d
    ensures LinearAt(expanse, jps, d, from) == if i < |jps| then jps[i] else Null
    decreases i - from
  {
    if from < i { LinearAtIs(expanse, jps, d, i, from + 1); }
  }

  /** Below the digits of the first `i` pointers of a linear branch are the indexes of these pointers. */
  lemma {:induction false} LinearBelow(jp: JP, base: seq<Digit>, d: nat, i: nat)
    requires Branching(jp, base) && jp.BranchL? && d <= 256 && i <= |jp.jps|
    requires (i > 0 ==> jp.expanse[i - 1] < d) && (i < |jp.jps| ==> d <= jp.expanse[i])
    ensures Below(jp, base, d) == PopSum(jp.jps, i)
  {
    hide Valid, Keys, ChildKeys, LinearAt;
    if d > 0 {
      BelowNext(jp, base, d - 1);
      if i > 0 && jp.expanse[i - 1] == d - 1 {
        LinearAtIs(jp.expanse, jp.jps, d - 1, i - 1, 0);
        LinearBelow(jp, base, d - 1, i - 1);
      } else {
        LinearAtIs(jp.expanse, jp.jps, d - 1, |jp.jps|, 0);
        LinearBelow(jp, base, d - 1, i);
      }
    }
  }

  /** The first `p` digits of a part of a bitmap branch have the indexes of as many pointers as bits are set. */
  lemma {:induction false} BitmapBelow(jp: JP, base: seq<Digit>, s: nat, p: nat)
    requires Branching(jp, base) && jp.BranchB? && s < 8 && p <= 32
    ensures CountBits(jp.subexps[s].bitmap, p) <= |jp.subexps[s].jps|
    ensures Below(jp, base, 32 * s + p)
            == Below(jp, base, 32 * s) + PopSum(jp.subexps[s].jps, CountBits(jp.subexps[s].bitmap, p))
  {
    hide Valid, Keys, ChildKeys, KeysUpTo, At, Below;
    var sub := jp.subexps[s];
    CountMono(sub.bitmap, p, 32);
    if p > 0 {
      BitmapBelow(jp, base, s, p - 1);
      BelowNext(jp, base, 32 * s + (p - 1));
      BitmapAt(jp, s, p - 1);
    }
  }

  lemma BitmapAt(jp: JP, s: nat, p: nat)
    requires jp.BranchB? && Shaped(jp) && s < 8 && p < 32
    ensures var sub := jp.subexps[s];
            if sub.bitmap[p]
            then CountBits(sub.bitmap, p) < |sub.jps| && At(jp, 32 * s + p) == sub.jps[CountBits(sub.bitmap, p)]
            else At(jp, 32 * s + p).Null?
  {
    SubexpanseOf(s, p);
    CountMono(jp.subexps[s].bitmap, p, 32);
  }

  lemma SubexpanseOf(s: nat, p: nat)
    requires p < 32
    ensures (32 * s + p) / 32 == s && (32 * s + p) % 32 == p
  {
  }

  lemma {:induction false} PopSumMono(jps: seq<JP>, i: nat, j: nat)
    requires i <= j <= |jps|
    ensures PopSum(jps, i) <= PopSum(jps, j)
  {
    if i < j { PopSumMono(jps, i, j - 1); }
  }

  // ---------- Counting in a bitmap leaf ----------

  lemma {:induction false} BitKeysMono(bitmaps: seq<seq<bool>>, base: seq<Digit>, d: nat, e: nat)
    requires d <= e <= 256
    ensures BitKeys(bitmaps, base, d) <= BitKeys(bitmaps, base, e)
  {
    if d < e { BitKeysMono(bitmaps, base, d, e - 1); }
  }

  lemma {:induction false} BitKeysBelow(bitmaps: seq<seq<bool>>, base: seq<Digit>, s: nat, p: nat)
    requires |bitmaps| == 8 && s < 8 && |bitmaps[s]| == 32 && p <= 32
    ensures |BitKeys(bitmaps, base, 32 * s + p)| == |BitKeys(bitmaps, base, 32 * s)| + CountBits(bitmaps[s], p)
  {
    if p > 0 {
      BitKeysBelow(bitmaps, base, s, p - 1);
      SubexpanseOf(s, p - 1);
    }
  }
}

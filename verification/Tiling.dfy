/** Pages 1 .. end of the file cut into segments: first page of each segment and its length. */
module Tiling {

  type Tiles = map<nat, nat>

  /** A segment lies inside the file, no other starts in it, and one starts where it ends. */
  ghost predicate Place(seg: Tiles, end: nat, s: nat) {
    s in seg ==>
      && 1 <= s && 1 <= seg[s] && s + seg[s] <= end
      && (s + seg[s] == end || s + seg[s] in seg)
      && (forall t :: s < t < s + seg[s] ==> t !in seg)
  }

  ghost predicate Tiled(seg: Tiles, end: nat) {
    && 1 <= end
    && (end == 1 || 1 in seg)
    && (forall s {:trigger Place(seg, end, s)} :: Place(seg, end, s))
  }

  /** The last `n` pages of the segment at `f` become a segment. */
  function SplitSeg(seg: Tiles, f: nat, n: nat): Tiles
    requires f in seg && n < seg[f]
  {
    seg[f := seg[f] - n][f + seg[f] - n := n]
  }

  /** The segment at `f` swallows the one at `g`. */
  function JoinSeg(seg: Tiles, f: nat, g: nat): Tiles
    requires f in seg && g in seg
  {
    (seg - {g})[f := seg[f] + seg[g]]
  }

  lemma SplitTiled(seg: Tiles, end: nat, f: nat, n: nat)
    requires Tiled(seg, end) && f in seg && 0 < n < seg[f]
    ensures Tiled(SplitSeg(seg, f, n), end)
  {
    var k := SplitSeg(seg, f, n);
    assert Place(seg, end, f);
    forall s {:trigger Place(k, end, s)} ensures Place(k, end, s) {
      assert Place(seg, end, s);
    }
  }

  lemma JoinTiled(seg: Tiles, end: nat, f: nat)
    requires Tiled(seg, end) && f in seg && f + seg[f] in seg
    ensures Tiled(JoinSeg(seg, f, f + seg[f]), end)
  {
    var g := f + seg[f];
    var k := JoinSeg(seg, f, g);
    assert Place(seg, end, f) && Place(seg, end, g);
    forall s {:trigger Place(k, end, s)} ensures Place(k, end, s) {
      assert Place(seg, end, s);
    }
  }

  lemma ExtendTiled(seg: Tiles, end: nat, n: nat)
    requires Tiled(seg, end) && 0 < n
    ensures Tiled(seg[end := n], end + n) && end !in seg
  {
    var k := seg[end := n];
    assert Place(seg, end, end);
    forall s {:trigger Place(k, end + n, s)} ensures Place(k, end + n, s) {
      assert Place(seg, end, s);
      forall t | s in k && s < t < s + k[s] ensures t !in k { assert Place(seg, end, t); }
    }
  }

  /** Two segments do not overlap. */
  lemma SegmentsApart(seg: Tiles, end: nat, s: nat, t: nat)
    requires Tiled(seg, end) && s in seg && t in seg && s < t
    ensures s + seg[s] <= t
  {
    assert Place(seg, end, s);
  }

  /** Every page after the first lies in a segment: walking from page 1 meets it. */
  lemma {:induction false} PageIsCovered(seg: Tiles, end: nat, from: nat, p: nat) returns (s: nat)
    requires Tiled(seg, end) && from in seg && from <= p < end
    ensures s in seg && s <= p < s + seg[s]
    decreases p - from
  {
    assert Place(seg, end, from);
    if p < from + seg[from] {
      s := from;
    } else {
      s := PageIsCovered(seg, end, from + seg[from], p);
    }
  }

  /** Pages 1 .. end are exactly partitioned: each lies in one segment and no other. */
  lemma EveryPageInOneSegment(seg: Tiles, end: nat, p: nat) returns (s: nat)
    requires Tiled(seg, end) && 1 <= p < end
    ensures s in seg && s <= p < s + seg[s]
    ensures forall t :: t in seg && t <= p < t + seg[t] ==> t == s
  {
    s := PageIsCovered(seg, end, 1, p);
    forall t | t in seg && t <= p < t + seg[t] ensures t == s {
      assert Place(seg, end, s) && Place(seg, end, t);
    }
  }
}

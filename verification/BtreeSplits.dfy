/** What a split loses of a B-tree node is put back: in the parent when the halves get their entries there,
    and in the halves when they are merged. */
module BtreeSplits {
  import opened BtreeNodes

  /** The entries of a parent after the one at `pos`, whose node was split, was replaced by two. */
  function SplitInserted(entries: seq<Entry>, pos: nat, e1: Entry, e2: Entry): seq<Entry>
    requires pos < |entries|
  {
    Inserted(Inserted(entries[..pos] + entries[pos + 1..], e1, pos, false), e2, pos + 1, false)
  }

  /** A bound is the one that is asked for, or was widened. */
  predicate Meets(k: Key, outer: Key, bound: Key) { k == bound || k == outer }

  lemma SplitShape(entries: seq<Entry>, pos: nat, e1: Entry, e2: Entry)
    requires Tiles(entries, false) && pos < |entries| && e1.upper.Normal? && e2.lower.Normal?
    ensures var lower := if e1.lower == NegInf then entries[pos].lower else e1.lower;
            var upper := if e2.upper == PosInf then entries[pos].upper else e2.upper;
            SplitInserted(entries, pos, e1, e2)
            == entries[..pos] + [e1.(lower := lower), e2.(upper := upper)] + entries[pos + 1..]
  {
    var rest := entries[..pos] + entries[pos + 1..];
    var mid := Inserted(rest, e1, pos, false);
    if pos > 0 { assert entries[pos - 1].upper == entries[pos - 1 + 1].lower; }
    if pos + 1 < |entries| {
      assert entries[pos].upper == entries[pos + 1].lower;
      assert mid[pos + 1] == entries[pos + 1];
    }
  }

  /** An inner node tiles again exactly when the two new entries meet each other, and at their outer bounds
      are widened or meet what the old entry met. */
  lemma SplitTilesIff(entries: seq<Entry>, pos: nat, e1: Entry, e2: Entry)
    requires Tiles(entries, false) && pos < |entries| && e1.upper.Normal? && e2.lower.Normal?
    ensures Tiles(SplitInserted(entries, pos, e1, e2), false)
            <==> (
              && e1.upper == e2.lower
              && Meets(e1.lower, NegInf, entries[pos].lower) && Meets(e2.upper, PosInf, entries[pos].upper))
  {
    hide SplitInserted;
    SplitShape(entries, pos, e1, e2);
    var all := SplitInserted(entries, pos, e1, e2);
    if Tiles(all, false) {
      assert all[pos].upper == all[pos + 1].lower;
      if pos > 0 {
        assert all[pos - 1].upper == all[pos - 1 + 1].lower;
        assert entries[pos - 1].upper == entries[pos - 1 + 1].lower;
      }
      if pos + 1 < |entries| {
        assert all[pos + 1].upper == all[pos + 1 + 1].lower;
        assert entries[pos].upper == entries[pos + 1].lower;
      }
    }
    if e1.upper == e2.lower && Meets(e1.lower, NegInf, entries[pos].lower)
       && Meets(e2.upper, PosInf, entries[pos].upper) {
      forall i | 0 <= i < |all| - 1 ensures all[i].upper == all[i + 1].lower && all[i].upper.Normal? {
        if i < pos { assert entries[i].upper == entries[i + 1].lower; }
        if pos < i { assert entries[i - 1].upper == entries[i - 1 + 1].lower; }
      }
    }
  }

  /** The entries for the two halves of an inner node that was read from its page: their bounds are infinite
      but where they meet. */
  function HalfEntries(entries: seq<Entry>, cut: nat, p1: nat, p2: nat): (Entry, Entry)
    requires 0 < cut < |entries|
  {
    (Entry(entries[0].lower, entries[cut - 1].upper, p1), Entry(entries[cut].lower, entries[|entries| - 1].upper, p2))
  }

  /** Splitting an inner node, at any place, leaves a parent that tiles. */
  lemma SplitKeepsTiles(parent: seq<Entry>, pos: nat, entries: seq<Entry>, cut: nat, p1: nat, p2: nat)
    requires Tiles(parent, false) && pos < |parent| && Tiles(entries, false) && 0 < cut < |entries|
    ensures var (e1, e2) := HalfEntries(entries, cut, p1, p2); Tiles(SplitInserted(parent, pos, e1, e2), false)
  {
    var (e1, e2) := HalfEntries(entries, cut, p1, p2);
    assert entries[cut - 1].upper == entries[cut - 1 + 1].lower;
    SplitTilesIff(parent, pos, e1, e2);
  }

  /** Entries that are not widened below are taken over as they are. */
  lemma {:induction false} AppendedAre(entries: seq<Entry>, more: seq<Entry>, leaf: bool)
    requires leaf || forall i :: 0 <= i < |more| ==> more[i].lower != NegInf
    ensures Appended(entries, more, leaf) == entries + more
    decreases |more|
  {
    if more != [] {
      assert Adjusted(entries, more[0], |entries|, leaf) == more[0];
      assert entries + [more[0]] == Inserted(entries, more[0], |entries|, leaf);
      AppendedAre(entries + [more[0]], more[1..], leaf);
      assert entries + [more[0]] + more[1..] == entries + more;
    }
  }

  /** Merging the halves of an inner node as they come back from their pages, at the bound that their parent
      has for them, gives the node again: both bounds that were widened are put back. */
  lemma MergeRestores(entries: seq<Entry>, cut: nat)
    requires Tiles(entries, false) && 0 < cut < |entries|
    ensures Coalesced(Rebuilt(entries[..cut], false), Rebuilt(entries[cut..], false), entries[cut - 1].upper, false)
            == entries
  {
    hide Rebuilt;
    HalvesAreWidened(entries, cut);
    var l, r := Rebuilt(entries[..cut], false), Rebuilt(entries[cut..], false);
    var first := Adjusted(l, r[0], |l|, false);
    assert l + [first] == Inserted(l, r[0], |l|, false);
    forall i | 0 <= i < |r[1..]| ensures r[1..][i].lower != NegInf {
      assert r[1..][i] == entries[cut + 1 + i];
      assert entries[cut + i].upper == entries[cut + i + 1].lower;
    }
    AppendedAre(l + [first], r[1..], false);
    assert entries[cut - 1].upper == entries[cut - 1 + 1].lower;
    var all := l + [first] + r[1..];
    assert Appended(l, r, false) == all;
    var bound := entries[cut - 1].upper;
    assert all[cut - 1 := all[cut - 1].(upper := bound)][cut := all[cut].(lower := bound)] == entries;
  }

  /** On a leaf nothing is widened. */
  lemma LeafMergeRestores(entries: seq<Entry>, cut: nat)
    requires cut <= |entries|
    ensures Coalesced(entries[..cut], entries[cut..], PosInf, true) == entries
  {
    AppendedAre(entries[..cut], entries[cut..], true);
  }
}

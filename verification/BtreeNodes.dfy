/** A B-tree node of the generalized search tree in memory and on its disk page. */
module BtreeNodes {
  import opened ByteValues
  import opened GistPages

  datatype Key = NegInf | PosInf | Normal(s: seq<Byte>)

  /** An entry stands for the keys from `lower` up to `upper`; on a leaf both are the key itself. */
  datatype Entry = Entry(lower: Key, upper: Key, ptr: nat)

  function Bytes(k: Key): seq<Byte> { if k.Normal? then k.s else [] }

  /** Only the lower bound is stored, and not even that for the first entry of an inner node. */
  function Compress(e: Entry, pos: nat, leaf: bool): Compressed {
    if pos == 0 && !leaf then Compressed([], e.ptr) else Compressed(Bytes(e.lower), e.ptr)
  }

  function CompressAll(entries: seq<Entry>, leaf: bool): seq<Compressed> {
    seq(|entries|, i requires 0 <= i < |entries| => Compress(entries[i], i, leaf))
  }

  /** What is rebuilt: the upper bound of an inner entry is the lower bound of the next one. */
  function Decompress(es: seq<Compressed>, i: nat, leaf: bool): Entry
    requires i < |es|
  {
    if leaf then Entry(Normal(es[i].key), Normal(es[i].key), es[i].ptr)
    else Entry(if i == 0 then NegInf else Normal(es[i].key),
               if i == |es| - 1 then PosInf else Normal(es[i + 1].key), es[i].ptr)
  }

  function DecompressAll(es: seq<Compressed>, leaf: bool): seq<Entry> {
    seq(|es|, i requires 0 <= i < |es| => Decompress(es, i, leaf))
  }

  /** The intervals of an inner node cover everything from minus to plus infinity without gap or
      overlap; the entries of a leaf are single keys. */
  ghost predicate Tiles(entries: seq<Entry>, leaf: bool) {
    if leaf then forall i :: 0 <= i < |entries| ==> entries[i].lower.Normal? && entries[i].upper == entries[i].lower
    else
      && (entries != [] ==> entries[0].lower == NegInf && entries[|entries| - 1].upper == PosInf)
      && forall i :: 0 <= i < |entries| - 1 ==> entries[i].upper == entries[i + 1].lower && entries[i].upper.Normal?
  }

  /** Compression loses nothing exactly when the intervals tile. */
  lemma LosslessIffTiles(entries: seq<Entry>, leaf: bool)
    ensures DecompressAll(CompressAll(entries, leaf), leaf) == entries <==> Tiles(entries, leaf)
  {
    var es := CompressAll(entries, leaf);
    var back := DecompressAll(es, leaf);
    if Tiles(entries, leaf) {
      forall i | 0 <= i < |entries| ensures back[i] == entries[i] {
        if !leaf && i < |entries| - 1 { assert entries[i].upper == entries[i + 1].lower; }
        if !leaf && i > 0 { assert entries[i - 1].upper == entries[i].lower; }
      }
    }
    if back == entries && !leaf {
      forall i | 0 <= i < |entries| - 1 ensures entries[i].upper == entries[i + 1].lower && entries[i].upper.Normal? {
        assert back[i] == entries[i] && back[i + 1] == entries[i + 1];
      }
      if entries != [] { assert back[0] == entries[0] && back[|entries| - 1] == entries[|entries| - 1]; }
    }
    if back == entries && leaf {
      forall i | 0 <= i < |entries| ensures entries[i].lower.Normal? && entries[i].upper == entries[i].lower {
        assert back[i] == entries[i];
      }
    }
  }

  /** What is stored of an inner node does not depend on where its first entry begins, nor on where any entry
      ends; what is stored of a leaf is its keys and pointers. */
  lemma BoundsNotStored(entries: seq<Entry>, others: seq<Entry>)
    requires |entries| == |others| && forall i :: 0 <= i < |entries| ==> entries[i].ptr == others[i].ptr
    requires forall i :: 1 <= i < |entries| ==> entries[i].lower == others[i].lower
    ensures CompressAll(entries, false) == CompressAll(others, false)
    ensures CompressAll(entries, true) == CompressAll(others, true)
            <==> (entries != [] ==> Bytes(entries[0].lower) == Bytes(others[0].lower))
  {
    var a, b := CompressAll(entries, true), CompressAll(others, true);
    if entries != [] && a == b { assert a[0] == b[0]; }
  }

  function Rebuilt(entries: seq<Entry>, leaf: bool): seq<Entry> { DecompressAll(CompressAll(entries, leaf), leaf) }

  /** Where a tiling inner node is cut, neither half tiles, so neither is restored from its page: the outer
      bounds at the cut are widened to infinity, and nothing else changes. */
  lemma HalvesAreWidened(entries: seq<Entry>, cut: nat)
    requires Tiles(entries, false) && 0 < cut < |entries|
    ensures var l, r := entries[..cut], entries[cut..];
            && !Tiles(l, false) && !Tiles(r, false) && Rebuilt(l, false) != l && Rebuilt(r, false) != r
            && Rebuilt(l, false) == l[cut - 1 := l[cut - 1].(upper := PosInf)]
            && Rebuilt(r, false) == r[0 := r[0].(lower := NegInf)]
  {
    var l, r := entries[..cut], entries[cut..];
    assert entries[cut - 1].upper == entries[cut].lower && entries[cut - 1].upper.Normal?;
    assert l[|l| - 1] == entries[cut - 1] && r[0] == entries[cut];
    var l', r' := l[cut - 1 := l[cut - 1].(upper := PosInf)], r[0 := r[0].(lower := NegInf)];
    forall i | 0 <= i < |l| - 1 ensures l'[i].upper == l'[i + 1].lower && l'[i].upper.Normal? {
      assert entries[i].upper == entries[i + 1].lower;
    }
    forall i | 0 <= i < |r| - 1 ensures r'[i].upper == r'[i + 1].lower && r'[i].upper.Normal? {
      assert entries[cut + i].upper == entries[cut + i + 1].lower;
    }
    LosslessIffTiles(l', false);
    LosslessIffTiles(r', false);
    LosslessIffTiles(l, false);
    LosslessIffTiles(r, false);
    assert CompressAll(l', false) == CompressAll(l, false);
    assert CompressAll(r', false) == CompressAll(r, false);
  }

  // ---------- Insertion of entries ----------

  /** A bound that is infinite inside an inner node is that of a widened half: it becomes the bound of the
      neighbour. */
  function Adjusted(entries: seq<Entry>, e: Entry, index: nat, leaf: bool): Entry
    requires index <= |entries|
  {
    Entry(if !leaf && index != 0 && e.lower == NegInf then entries[index - 1].upper else e.lower,
          if !leaf && index != |entries| && e.upper == PosInf then entries[index].lower else e.upper, e.ptr)
  }

  function Inserted(entries: seq<Entry>, e: Entry, index: nat, leaf: bool): seq<Entry>
    requires index <= |entries|
  {
    entries[..index] + [Adjusted(entries, e, index, leaf)] + entries[index..]
  }

  /** The other entries are in place around the new one, which is not changed on a leaf.  In an inner node only
      an infinite bound changes, to where the neighbour on that side ends or begins, if there is one. */
  lemma InsertedIs(entries: seq<Entry>, e: Entry, index: nat, leaf: bool)
    requires index <= |entries|
    ensures var all := Inserted(entries, e, index, leaf);
            && |all| == |entries| + 1 && all[..index] == entries[..index] && all[index + 1..] == entries[index..]
            && all[index].ptr == e.ptr && (leaf ==> all[index] == e)
            && (e.lower != NegInf || index == 0 ==> all[index].lower == e.lower)
            && (e.upper != PosInf || index == |entries| ==> all[index].upper == e.upper)
            && (!leaf && e.lower == NegInf && index > 0 ==> all[index].lower == all[index - 1].upper)
            && (!leaf && e.upper == PosInf && index < |entries| ==> all[index].upper == all[index + 1].lower)
  {
    var all := Inserted(entries, e, index, leaf);
    if index > 0 { assert all[index - 1] == entries[index - 1]; }
    if index < |entries| { assert all[index + 1] == entries[index]; }
  }

  function Appended(entries: seq<Entry>, more: seq<Entry>, leaf: bool): seq<Entry>
    decreases |more|
  {
    if more == [] then entries else Appended(Inserted(entries, more[0], |entries|, leaf), more[1..], leaf)
  }

  /** The entries of a node and of its right neighbour, which meet at `bound`. */
  function Coalesced(entries: seq<Entry>, more: seq<Entry>, bound: Key, leaf: bool): seq<Entry>
    requires !leaf && entries != [] ==> more != []
  {
    if leaf || entries == [] then Appended(entries, more, leaf)
    else
      var n := |entries|;
      AppendedLength(entries, more, leaf);
      var all := Appended(entries, more, leaf);
      all[n - 1 := all[n - 1].(upper := bound)][n := all[n].(lower := bound)]
  }

  lemma {:induction false} AppendedLength(entries: seq<Entry>, more: seq<Entry>, leaf: bool)
    ensures |Appended(entries, more, leaf)| == |entries| + |more|
    decreases |more|
  {
    if more != [] { AppendedLength(Inserted(entries, more[0], |entries|, leaf), more[1..], leaf); }
  }

  /** The numbers of a node fit into their fields on the page. */
  ghost predicate InRange(level: nat, sibling: nat, es: seq<Compressed>) {
    && level < Pow(INT_SIZE) && |es| < Pow(INT_SIZE) && sibling < Pow(PTR_SIZE)
    && forall i :: 0 <= i < |es| ==> es[i].ptr < Pow(PTR_SIZE)
  }

  /** All of a node is on the page. */
  ghost predicate OnPage(page: seq<Byte>, level: nat, sibling: nat, es: seq<Compressed>, fixlen: nat) {
    && HeaderPacked(page, level, |es|, sibling)
    && EntriesPacked(page, es, fixlen, |es|) && TablePacked(page, es, fixlen)
    && Fits(es, fixlen, |page|) && InRange(level, sibling, es)
  }

  /** The entries while the gap at `index` is being closed, `j` being the next one to be moved over. */
  ghost function Closing(all: seq<Entry>, index: nat, j: nat): seq<Entry>
    requires index <= j < |all|
  {
    all[..index] + all[index + 1..j + 1] + all[j..]
  }

  lemma OneCloser(all: seq<Entry>, index: nat, j: nat)
    requires index <= j && j + 1 < |all|
    ensures |Closing(all, index, j)| == |all| && Closing(all, index, j)[j + 1] == all[j + 1]
    ensures Closing(all, index, j)[j := all[j + 1]] == Closing(all, index, j + 1)
  {
    assert all[index + 1..j + 2] == all[index + 1..j + 1] + [all[j + 1]];
    assert all[j..] == [all[j]] + all[j + 1..];
  }

  class GistNode {
    const fixlen: nat              // length of all keys, or 0
    var level: nat
    var sibling: nat
    var entries: seq<Entry>
    var packedNode: seq<Byte>

    constructor (fixlen: nat)
      ensures this.fixlen == fixlen && level == 0 && sibling == 0 && entries == []
    {
      this.fixlen := fixlen;
      level, sibling, entries, packedNode := 0, 0, [], [];
    }

    ghost function Stored(): seq<Compressed>
      reads this
    {
      CompressAll(entries, level == 0)
    }

    /** The size of a node that is not over-full is what it takes of the page. */
    predicate IsOverFull(pageSize: nat)
      reads this
    {
      Size(CompressAll(entries, level == 0), fixlen) > pageSize
    }

    /** A node is over-full just when its entries would run into the line table with its last entry. */
    lemma OverFullIff(pageSize: nat)
      requires FixedOk(Stored(), fixlen)
      ensures IsOverFull(pageSize) <==>
              Start(Stored(), |entries|) > pageSize - (Lines(|entries|, fixlen) + 1) * LTE_SIZE
    {
      SizeIsExact(Stored(), fixlen, |entries|);
    }

    method PackHeader(page: array<Byte>)
      requires HEADER_SIZE <= page.Length
      modifies page
      ensures HeaderPacked(page[..], level, |entries|, sibling)
    {
      WriteAt(page, 0, Encode(level, INT_SIZE));
      WrittenHolds(old(page[..]), 0, Encode(level, INT_SIZE));
      ghost var p1 := page[..];
      WriteAt(page, INT_SIZE, Encode(|entries|, INT_SIZE));
      WrittenHolds(p1, INT_SIZE, Encode(|entries|, INT_SIZE));
      StillHolds(p1, INT_SIZE, Encode(|entries|, INT_SIZE), 0, Encode(level, INT_SIZE));
      ghost var p2 := page[..];
      var s := Encode(sibling, PTR_SIZE);
      WriteAt(page, 2 * INT_SIZE + PTR_SIZE, s);
      WrittenHolds(p2, 2 * INT_SIZE + PTR_SIZE, s);
      StillHolds(p2, 2 * INT_SIZE + PTR_SIZE, s, 0, Encode(level, INT_SIZE));
      StillHolds(p2, 2 * INT_SIZE + PTR_SIZE, s, INT_SIZE, Encode(|entries|, INT_SIZE));
    }

    /** The entry goes behind the last one, and where it starts goes before the line table. */
    method PackEntry(page: array<Byte>, i: nat, ltptr: nat, ltable: nat) returns (ltptr': nat, ltable': nat)
      requires i < |entries| && Fits(Stored(), fixlen, page.Length)
      requires ltptr == Start(Stored(), i) && Lines(i, fixlen) * LTE_SIZE <= page.Length
      requires ltable == page.Length - Lines(i, fixlen) * LTE_SIZE
      requires EntriesPacked(page[..], Stored(), fixlen, i) && HeaderPacked(page[..], level, |entries|, sibling)
      modifies page
      ensures EntriesPacked(page[..], Stored(), fixlen, i + 1) && HeaderPacked(page[..], level, |entries|, sibling)
      ensures ltptr' == Start(Stored(), i + 1)
      ensures Lines(i + 1, fixlen) * LTE_SIZE <= page.Length && ltable' == page.Length - Lines(i + 1, fixlen) * LTE_SIZE
    {
      hide Holds, Written, HeaderPacked, EntriesPacked, Fits;
      ghost var es, n := Stored(), |entries|;
      RoomFor(es, fixlen, page.Length, i);
      RoomFor(es, fixlen, page.Length, i + 1);
      var c := Compress(entries[i], i, level == 0);
      assert c == es[i];
      ghost var p0 := page[..];
      WriteAt(page, ltptr, c.key);
      WrittenHolds(p0, ltptr, c.key);
      WrittenBetween(p0, es, fixlen, i, ltptr, c.key, level, n, sibling);
      ghost var p1 := page[..];
      var ptr := Encode(c.ptr, PTR_SIZE);
      WriteAt(page, ltptr + |c.key|, ptr);
      WrittenHolds(p1, ltptr + |c.key|, ptr);
      StillHolds(p1, ltptr + |c.key|, ptr, ltptr, c.key);
      HoldsParts(page[..], ltptr, c.key, ptr);
      WrittenBetween(p1, es, fixlen, i, ltptr + |c.key|, ptr, level, n, sibling);
      ltable' := ltable;
      if fixlen == 0 {
        ghost var p2 := page[..];
        ltable' := ltable - LTE_SIZE;
        var line := Encode(ltptr, LTE_SIZE);
        WriteAt(page, ltable', line);
        WrittenHolds(p2, ltable', line);
        StillHolds(p2, ltable', line, ltptr, EntryBytes(c));
        WrittenBetween(p2, es, fixlen, i, ltable', line, level, n, sibling);
      }
      ltptr' := ltptr + |c.key| + PTR_SIZE;
      OneMorePacked(page[..], es, fixlen, i);
    }

    /** Splits the node in the middle: the right half goes to a copy. */
    method PickSplit() returns (node: GistNode)
      modifies this
      ensures fresh(node) && node.fixlen == fixlen && node.level == level && node.sibling == sibling
      ensures level == old(level) && sibling == old(sibling)
      ensures entries == old(entries)[..|old(entries)| / 2] && node.entries == old(entries)[|old(entries)| / 2..]
    {
      node := new GistNode(fixlen);
      node.level, node.sibling, node.packedNode := level, sibling, packedNode;
      var half := |entries| / 2;
      ghost var all := entries;
      for i := 0 to |entries| - half
        invariant entries == all && level == old(level) && sibling == old(sibling)
        invariant node.level == level && node.sibling == sibling
        invariant node.entries == all[half..half + i]
      {
        node.entries := node.entries + [entries[i + half]];
      }
      entries := entries[..half];
    }

    /** Inserts an entry, and makes room by moving those behind it. */
    method InsertBefore(entry: Entry, index: nat)
      requires index <= |entries|
      modifies `entries
      ensures entries == Inserted(old(entries), entry, index, level == 0)
      ensures |entries| == |old(entries)| + 1
      ensures entries[..index] == old(entries)[..index] && entries[index + 1..] == old(entries)[index..]
      ensures entries[index].ptr == entry.ptr && (level == 0 ==> entries[index] == entry)
      ensures entry.lower != NegInf ==> entries[index].lower == entry.lower
      ensures entry.upper != PosInf ==> entries[index].upper == entry.upper
      ensures level != 0 && entry.lower == NegInf && index > 0 ==> entries[index].lower == entries[index - 1].upper
      ensures level != 0 && entry.upper == PosInf && index + 1 < |entries| ==>
                entries[index].upper == entries[index + 1].lower
    {
      InsertedIs(entries, entry, index, level == 0);
      var e := entry;
      if level != 0 {
        if index != 0 && e.lower == NegInf {
          e := e.(lower := entries[index - 1].upper);
        }
        if index != |entries| && e.upper == PosInf {
          e := e.(upper := entries[index].lower);
        }
      }
      MakeRoom(index);
      entries := entries[index := e];
    }

    /** Moves the entries from `index` on by one place. */
    method MakeRoom(index: nat)
      requires index <= |entries|
      modifies `entries
      ensures |entries| == |old(entries)| + 1
      ensures entries[..index] == old(entries)[..index] && entries[index + 1..] == old(entries)[index..]
    {
      ghost var all := entries;
      var i := |entries|;
      entries := entries + [Entry(NegInf, PosInf, 0)];
      while i > index
        invariant index <= i <= |all| && |entries| == |all| + 1
        invariant forall x :: 0 <= x < i ==> entries[x] == all[x]
        invariant forall x :: i < x <= |all| ==> entries[x] == all[x - 1]
      {
        entries := entries[i := entries[i - 1]];
        i := i - 1;
      }
    }

    /** Takes an entry out, and closes the gap. */
    method DeleteEntry(index: nat)
      requires index < |entries|
      modifies `entries
      ensures entries == old(entries)[..index] + old(entries)[index + 1..]
    {
      ghost var all := entries;
      assert all == Closing(all, index, index);
      for j := index to |entries| - 1
        invariant entries == Closing(all, index, j)
      {
        OneCloser(all, index, j);
        entries := entries[j := entries[j + 1]];
      }
      entries := entries[..|entries| - 1];
    }

    /** Takes over the entries of the right neighbour; `bound` is the upper bound of this node one level up. */
    method Coalesce(node: GistNode, bound: Key)
      requires node != this && (level != 0 && entries != [] ==> node.entries != [])
      modifies `entries
      ensures entries == Coalesced(old(entries), node.entries, bound, level == 0)
    {
      var n := |entries|;
      ghost var all := entries;
      AppendedLength(all, node.entries, level == 0);
      for i := 0 to |node.entries|
        invariant Appended(all, node.entries, level == 0) == Appended(entries, node.entries[i..], level == 0)
      {
        assert node.entries[i..][1..] == node.entries[i + 1..];
        InsertBefore(node.entries[i], |entries|);
      }
      if level != 0 && n != 0 {
        entries := entries[n - 1 := entries[n - 1].(upper := bound)];
        entries := entries[n := entries[n].(lower := bound)];
      }
    }

    /** Writes the node to its page. */
    method Pack(page: array<Byte>)
      requires Fits(Stored(), fixlen, page.Length) && InRange(level, sibling, Stored())
      modifies page
      ensures OnPage(page[..], level, sibling, Stored(), fixlen)
    {
      hide Holds, Written, HeaderPacked, EntriesPacked, Fits, InRange;
      ghost var es := Stored();
      RoomFor(es, fixlen, page.Length, 0);
      PackHeader(page);
      var ltable := page.Length;
      var ltptr := HEADER_SIZE;
      NonePacked(page[..], es, fixlen);
      for i := 0 to |entries|
        invariant EntriesPacked(page[..], es, fixlen, i) && HeaderPacked(page[..], level, |entries|, sibling)
        invariant ltptr == Start(es, i) && Lines(i, fixlen) * LTE_SIZE <= page.Length
        invariant ltable == page.Length - Lines(i, fixlen) * LTE_SIZE
      {
        ltptr, ltable := PackEntry(page, i, ltptr, ltable);
      }
      RoomFor(es, fixlen, page.Length, |es|);
      ghost var p := page[..];
      ltable := ltable - LTE_SIZE;
      WriteAt(page, ltable, Encode(ltptr, LTE_SIZE));
      WrittenHolds(p, ltable, Encode(ltptr, LTE_SIZE));
      WrittenBetween(p, es, fixlen, |es|, ltable, Encode(ltptr, LTE_SIZE), level, |entries|, sibling);
    }

    /** Reads entry `i` from the packed node. */
    method ReadEntry(i: nat, ghost level0: nat, ghost sibling0: nat, ghost es: seq<Compressed>) returns (c: Compressed)
      requires OnPage(packedNode, level0, sibling0, es, fixlen) && i < |es|
      ensures c == es[i]
    {
      hide HeaderPacked, EntriesPacked, Fits, InRange;
      var pos, nextPos;
      PositionsOf(packedNode, level0, sibling0, es, fixlen, i);
      var n := |packedNode|;
      if fixlen == 0 {
        pos := Decode(packedNode[n - (i + 1) * LTE_SIZE..n - (i + 1) * LTE_SIZE + LTE_SIZE]);
        nextPos := Decode(packedNode[n - (i + 2) * LTE_SIZE..n - (i + 2) * LTE_SIZE + LTE_SIZE]);
      } else {
        pos := HEADER_SIZE + (PTR_SIZE + fixlen) * i;
        nextPos := pos + PTR_SIZE + fixlen;
      }
      var keyLen := nextPos - pos - PTR_SIZE;
      SplitEntry(packedNode, pos, es[i]);
      c := Compressed(packedNode[pos..pos + keyLen], Decode(packedNode[pos + keyLen..pos + keyLen + PTR_SIZE]));
    }

    /** Reads the node from its page. */
    method Unpack(page: array<Byte>, ghost level0: nat, ghost sibling0: nat, ghost es: seq<Compressed>)
      requires OnPage(page[..], level0, sibling0, es, fixlen)
      modifies this
      ensures level == level0 && sibling == sibling0 && entries == DecompressAll(es, level0 == 0)
      ensures packedNode == page[..]
    {
      hide EntriesPacked, TablePacked, Fits, InRange;
      HeaderNumbers(page[..], level0, sibling0, es, fixlen);
      packedNode := page[..];
      level := Decode(page[..INT_SIZE]);
      var n := Decode(page[INT_SIZE..2 * INT_SIZE]);
      sibling := Decode(page[2 * INT_SIZE + PTR_SIZE..2 * INT_SIZE + 2 * PTR_SIZE]);
      entries := [];
      for i := 0 to n
        invariant |entries| == i && packedNode == page[..] && level == level0 && sibling == sibling0
        invariant forall x :: 0 <= x < i ==> entries[x] == Decompress(es, x, level0 == 0)
      {
        var c := ReadEntry(i, level0, sibling0, es);
        var e;
        if level != 0 {
          var lower := if i == 0 then NegInf else Normal(c.key);
          var upper := PosInf;
          if i != n - 1 {
            var next := ReadEntry(i + 1, level0, sibling0, es);
            upper := Normal(next.key);
          }
          e := Entry(lower, upper, c.ptr);
        } else {
          e := Entry(Normal(c.key), Normal(c.key), c.ptr);
        }
        entries := entries + [e];
      }
    }
  }

  lemma NonePacked(page: seq<Byte>, es: seq<Compressed>, fixlen: nat)
    ensures EntriesPacked(page, es, fixlen, 0)
  {
  }

  lemma OneMorePacked(page: seq<Byte>, es: seq<Compressed>, fixlen: nat, i: nat)
    requires i < |es| && EntriesPacked(page, es, fixlen, i) && EntryPacked(page, es, fixlen, i)
    ensures EntriesPacked(page, es, fixlen, i + 1)
  {
  }

  lemma HeaderNumbers(page: seq<Byte>, level: nat, sibling: nat, es: seq<Compressed>, fixlen: nat)
    requires OnPage(page, level, sibling, es, fixlen)
    ensures HEADER_SIZE <= |page| && Decode(page[..INT_SIZE]) == level && Decode(page[INT_SIZE..2 * INT_SIZE]) == |es|
    ensures Decode(page[2 * INT_SIZE + PTR_SIZE..2 * INT_SIZE + 2 * PTR_SIZE]) == sibling
  {
    NumberKept(level, INT_SIZE);
    NumberKept(|es|, INT_SIZE);
    NumberKept(sibling, PTR_SIZE);
  }

  /** The line table, or the arithmetic for entries of fixed length, gives where an entry is and where
      the next one starts. */
  lemma PositionsOf(page: seq<Byte>, level: nat, sibling: nat, es: seq<Compressed>, fixlen: nat, i: nat)
    requires OnPage(page, level, sibling, es, fixlen) && i < |es|
    ensures Holds(page, Start(es, i), EntryBytes(es[i])) && Start(es, i + 1) == Start(es, i) + |es[i].key| + PTR_SIZE
    ensures fixlen != 0 ==> Start(es, i) == HEADER_SIZE + (PTR_SIZE + fixlen) * i && |es[i].key| == fixlen
    ensures es[i].ptr < Pow(PTR_SIZE)
    ensures fixlen == 0 ==> (
                && (i + 2) * LTE_SIZE <= |page|
                && Decode(page[|page| - (i + 1) * LTE_SIZE..|page| - (i + 1) * LTE_SIZE + LTE_SIZE]) == Start(es, i)
                && Decode(page[|page| - (i + 2) * LTE_SIZE..|page| - (i + 2) * LTE_SIZE + LTE_SIZE])
                   == Start(es, i + 1))
  {
    hide HeaderPacked;
    assert EntryPacked(page, es, fixlen, i);
    if fixlen != 0 {
      FixedStart(es, fixlen, i);
    } else {
      RoomFor(es, fixlen, |page|, i);
      RoomFor(es, fixlen, |page|, i + 1);
      NumberKept(Start(es, i), LTE_SIZE);
      NumberKept(Start(es, i + 1), LTE_SIZE);
      if i + 1 < |es| { assert EntryPacked(page, es, fixlen, i + 1); }
    }
  }

  lemma SplitEntry(page: seq<Byte>, at: nat, c: Compressed)
    requires Holds(page, at, EntryBytes(c)) && c.ptr < Pow(PTR_SIZE)
    ensures at + |c.key| + PTR_SIZE <= |page|
    ensures page[at..at + |c.key|] == c.key && Decode(page[at + |c.key|..at + |c.key| + PTR_SIZE]) == c.ptr
  {
    NumberKept(c.ptr, PTR_SIZE);
    var s := page[at..at + |EntryBytes(c)|];
    assert s[..|c.key|] == c.key;
    assert s[|c.key|..] == Encode(c.ptr, PTR_SIZE);
  }

  /** Packing a node that is not over-full and unpacking the page gives the same node back if and only
      if its intervals tile. */
  method PackAndUnpack(node: GistNode, page: array<Byte>) returns (copy: GistNode)
    requires !node.IsOverFull(page.Length) && page.Length < Pow(LTE_SIZE) && FixedOk(node.Stored(), node.fixlen)
    requires InRange(node.level, node.sibling, node.Stored())
    modifies page
    ensures copy.level == node.level && copy.sibling == node.sibling && |copy.entries| == |node.entries|
    ensures copy.entries == node.entries <==> Tiles(node.entries, node.level == 0)
  {
    node.Pack(page);
    copy := new GistNode(node.fixlen);
    copy.Unpack(page, node.level, node.sibling, node.Stored());
    LosslessIffTiles(node.entries, node.level == 0);
  }

  /** Neither half of a tiling inner node that was split is restored from its page. */
  lemma SplitIsNotRestored(entries: seq<Entry>)
    requires Tiles(entries, false) && 2 <= |entries|
    ensures var half := |entries| / 2;
            Rebuilt(entries[..half], false) != entries[..half] && Rebuilt(entries[half..], false) != entries[half..]
  {
    HalvesAreWidened(entries, |entries| / 2);
  }
}

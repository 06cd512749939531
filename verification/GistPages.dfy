/** Disk pages of a generalized search tree node, and what B-tree compression leaves out of them. */
module GistPages {
  import opened ByteValues

  const INT_SIZE: nat := 4
  const PTR_SIZE: nat := 8       // a page number
  const LTE_SIZE: nat := 2       // an entry of the line table
  const HEADER_SIZE: nat := 2 * INT_SIZE + 2 * PTR_SIZE

  // ---------- Numbers as bytes ----------

  function Pow(w: nat): nat { if w == 0 then 1 else 256 * Pow(w - 1) }

  function Encode(n: nat, w: nat): (s: seq<Byte>)
    ensures |s| == w
  {
    if w == 0 then [] else [n % 256] + Encode(n / 256, w - 1)
  }

  function Decode(s: seq<Byte>): nat { if s == [] then 0 else s[0] + 256 * Decode(s[1..]) }

  lemma {:induction false} NumberKept(n: nat, w: nat)
    requires n < Pow(w)
    ensures Decode(Encode(n, w)) == n
  {
    if w > 0 {
      NumberKept(n / 256, w - 1);
      assert Encode(n, w)[1..] == Encode(n / 256, w - 1);
    }
  }

  // ---------- Pieces of a page ----------

  ghost predicate Holds(page: seq<Byte>, at: nat, s: seq<Byte>) {
    at + |s| <= |page| && page[at..at + |s|] == s
  }

  function Written(page: seq<Byte>, at: nat, s: seq<Byte>): seq<Byte>
    requires at + |s| <= |page|
  {
    page[..at] + s + page[at + |s|..]
  }

  lemma WrittenHolds(page: seq<Byte>, at: nat, s: seq<Byte>)
    requires at + |s| <= |page|
    ensures Holds(Written(page, at, s), at, s)
  {
  }

  /** Writing elsewhere leaves a piece alone. */
  lemma StillHolds(page: seq<Byte>, at: nat, s: seq<Byte>, x: nat, t: seq<Byte>)
    requires at + |s| <= |page| && Holds(page, x, t) && (x + |t| <= at || at + |s| <= x)
    ensures Holds(Written(page, at, s), x, t)
  {
    var p := Written(page, at, s);
    forall k | 0 <= k < |t| ensures p[x..x + |t|][k] == t[k] { assert page[x..x + |t|][k] == t[k]; }
  }

  lemma HoldsParts(page: seq<Byte>, at: nat, s: seq<Byte>, t: seq<Byte>)
    requires Holds(page, at, s) && Holds(page, at + |s|, t)
    ensures Holds(page, at, s + t)
  {
  }

  // ---------- Compressed entries ----------

  datatype Compressed = Compressed(key: seq<Byte>, ptr: nat)

  function EntryBytes(c: Compressed): seq<Byte> { c.key + Encode(c.ptr, PTR_SIZE) }

  /** Where entry `i` starts on the page. */
  function Start(es: seq<Compressed>, i: nat): nat
    requires i <= |es|
  {
    if i == 0 then HEADER_SIZE else Start(es, i - 1) + |es[i - 1].key| + PTR_SIZE
  }

  /** Bytes a node needs.  Entries of fixed length need no line table but for its last entry. */
  function Size(es: seq<Compressed>, fixlen: nat): nat {
    if fixlen != 0 then HEADER_SIZE + LTE_SIZE + |es| * (fixlen + PTR_SIZE)
    else HEADER_SIZE + LTE_SIZE + SizeOfEntries(es, |es|)
  }

  function SizeOfEntries(es: seq<Compressed>, i: nat): nat
    requires i <= |es|
  {
    if i == 0 then 0 else SizeOfEntries(es, i - 1) + LTE_SIZE + PTR_SIZE + |es[i - 1].key|
  }

  ghost predicate FixedOk(es: seq<Compressed>, fixlen: nat) {
    fixlen != 0 ==> forall i :: 0 <= i < |es| ==> |es[i].key| == fixlen
  }

  /** How many entries the line table has after `i` entries. */
  function Lines(i: nat, fixlen: nat): nat { if fixlen != 0 then 0 else i }

  /** The size is exact: it is where the entries end, and the line table up to its last entry. */
  lemma {:induction false} SizeIsExact(es: seq<Compressed>, fixlen: nat, i: nat)
    requires FixedOk(es, fixlen) && i <= |es|
    ensures Start(es, i) + (Lines(i, fixlen) + 1) * LTE_SIZE ==
              (if fixlen != 0 then HEADER_SIZE + LTE_SIZE + i * (fixlen + PTR_SIZE)
               else HEADER_SIZE + LTE_SIZE + SizeOfEntries(es, i))
  {
    if i > 0 {
      SizeIsExact(es, fixlen, i - 1);
      assert fixlen != 0 ==> i * (fixlen + PTR_SIZE) == (i - 1) * (fixlen + PTR_SIZE) + fixlen + PTR_SIZE;
    }
  }

  lemma {:induction false} StartMono(es: seq<Compressed>, i: nat, j: nat)
    requires i <= j <= |es|
    ensures Start(es, i) <= Start(es, j)
    ensures i < j ==> Start(es, i) + |es[i].key| + PTR_SIZE <= Start(es, j)
  {
    if i < j { StartMono(es, i, j - 1); }
  }

  lemma FixedStart(es: seq<Compressed>, fixlen: nat, i: nat)
    requires FixedOk(es, fixlen) && fixlen != 0 && i <= |es|
    ensures Start(es, i) == HEADER_SIZE + (PTR_SIZE + fixlen) * i
  {
    SizeIsExact(es, fixlen, i);
  }

  // ---------- A packed page ----------

  /** Entry `j` is on the page, and so is where it starts, if it is not of fixed length. */
  ghost predicate EntryPacked(page: seq<Byte>, es: seq<Compressed>, fixlen: nat, j: nat)
    requires j < |es|
  {
    && Holds(page, Start(es, j), EntryBytes(es[j]))
    && (fixlen == 0 ==> (
          && (j + 1) * LTE_SIZE <= |page|
          && Holds(page, |page| - (j + 1) * LTE_SIZE, Encode(Start(es, j), LTE_SIZE))))
  }

  ghost predicate HeaderPacked(page: seq<Byte>, level: nat, n: nat, sibling: nat) {
    && Holds(page, 0, Encode(level, INT_SIZE)) && Holds(page, INT_SIZE, Encode(n, INT_SIZE))
    && Holds(page, 2 * INT_SIZE + PTR_SIZE, Encode(sibling, PTR_SIZE))
  }

  ghost predicate EntriesPacked(page: seq<Byte>, es: seq<Compressed>, fixlen: nat, i: nat)
    requires i <= |es|
  {
    forall j: nat {:trigger EntryPacked(page, es, fixlen, j)} :: j < i ==> EntryPacked(page, es, fixlen, j)
  }

  /** The last entry of the line table says where the entries end. */
  ghost predicate TablePacked(page: seq<Byte>, es: seq<Compressed>, fixlen: nat) {
    && (Lines(|es|, fixlen) + 1) * LTE_SIZE <= |page|
    && Holds(page, |page| - (Lines(|es|, fixlen) + 1) * LTE_SIZE, Encode(Start(es, |es|), LTE_SIZE))
  }

  /** The page has room for the entries, and offsets in it fit into a line-table entry. */
  ghost predicate Fits(es: seq<Compressed>, fixlen: nat, pageSize: nat) {
    FixedOk(es, fixlen) && Size(es, fixlen) <= pageSize < Pow(LTE_SIZE)
  }

  lemma RoomFor(es: seq<Compressed>, fixlen: nat, pageSize: nat, i: nat)
    requires Fits(es, fixlen, pageSize) && i <= |es|
    ensures HEADER_SIZE <= Start(es, i) && Start(es, i) + (Lines(|es|, fixlen) + 1) * LTE_SIZE <= pageSize
    ensures Lines(i, fixlen) <= Lines(|es|, fixlen)
    ensures i < |es| ==> Start(es, i) + |EntryBytes(es[i])| == Start(es, i) + |es[i].key| + PTR_SIZE == Start(es, i + 1)
  {
    StartMono(es, i, |es|);
    StartMono(es, 0, i);
    SizeIsExact(es, fixlen, |es|);
  }

  /** Writing between the entries packed so far and the line table so far leaves all of them alone. */
  lemma WrittenBetween(page: seq<Byte>, es: seq<Compressed>, fixlen: nat, i: nat, at: nat, s: seq<Byte>, level: nat,
                       n: nat, sibling: nat)
    requires i <= |es| && at + |s| <= |page| && Start(es, i) <= at && Lines(i, fixlen) * LTE_SIZE <= |page|
    requires at + |s| <= |page| - Lines(i, fixlen) * LTE_SIZE && HEADER_SIZE <= Start(es, i)
    requires EntriesPacked(page, es, fixlen, i) && HeaderPacked(page, level, n, sibling)
    ensures EntriesPacked(Written(page, at, s), es, fixlen, i) && HeaderPacked(Written(page, at, s), level, n, sibling)
  {
    var p := Written(page, at, s);
    StillHolds(page, at, s, 0, Encode(level, INT_SIZE));
    StillHolds(page, at, s, INT_SIZE, Encode(n, INT_SIZE));
    StillHolds(page, at, s, 2 * INT_SIZE + PTR_SIZE, Encode(sibling, PTR_SIZE));
    forall j: nat | j < i ensures EntryPacked(p, es, fixlen, j) {
      assert EntryPacked(page, es, fixlen, j);
      StartMono(es, j, i);
      StillHolds(page, at, s, Start(es, j), EntryBytes(es[j]));
      if fixlen == 0 { StillHolds(page, at, s, |page| - (j + 1) * LTE_SIZE, Encode(Start(es, j), LTE_SIZE)); }
    }
  }

  /** Copies bytes onto a page. */
  method WriteAt(page: array<Byte>, at: nat, s: seq<Byte>)
    requires at + |s| <= page.Length
    modifies page
    ensures page[..] == Written(old(page[..]), at, s)
  {
    for k := 0 to |s|
      invariant forall x :: 0 <= x < page.Length ==> page[x] == if at <= x < at + k then s[x - at] else old(page[x])
    {
      page[at + k] := s[k];
    }
  }
}

/** Search of a text for any of several patterns, each compared exactly or ignoring case, with one
    table of shifts for all of them. */
module TextSearch {
  import opened ByteValues

  const MAX_PATTERNS: nat := 32

  datatype CaseTable = CaseTable(upper: Byte -> Byte, lower: Byte -> Byte)

  /** A character is the upper-case form it has, or the lower-case form of that. */
  ghost predicate TwoForms(t: CaseTable) { forall c: Byte :: c == t.upper(c) || c == t.lower(t.upper(c)) }

  /** One pattern as it is compared: in upper case unless `exact`. */
  datatype Pattern = Pattern(s: seq<Byte>, exact: bool)

  predicate Agrees(t: CaseTable, p: Pattern, k: nat, c: Byte)
    requires k < |p.s|
  {
    p.s[k] == if p.exact then c else t.upper(c)
  }

  ghost predicate AgreesAt(t: CaseTable, p: Pattern, s: seq<Byte>, start: nat, k: nat) {
    k < |p.s| ==> start + k < |s| && Agrees(t, p, k, s[start + k])
  }

  /** What was given as a pattern stands in the text at `start`, with the same characters if it is exact, or
      else with characters of the same upper case. */
  ghost predicate StandsAt(t: CaseTable, raw: seq<Byte>, exact: bool, text: seq<Byte>, start: nat) {
    && start + |raw| <= |text|
    && forall k :: 0 <= k < |raw| ==>
         if exact then text[start + k] == raw[k] else t.upper(text[start + k]) == t.upper(raw[k])
  }

  /** `p` is what `raw` is compared as. */
  ghost predicate Converted(t: CaseTable, raw: seq<Byte>, p: Pattern) {
    |p.s| == |raw| && forall k :: 0 <= k < |raw| ==> p.s[k] == if p.exact then raw[k] else t.upper(raw[k])
  }

  /** The comparisons of the code find what was given as a pattern. */
  lemma OccursIsStands(t: CaseTable, raw: seq<Byte>, p: Pattern, text: seq<Byte>, start: nat)
    requires Converted(t, raw, p)
    ensures OccursAt(t, p, text, start) <==> StandsAt(t, raw, p.exact, text, start)
  {
    if StandsAt(t, raw, p.exact, text, start) {
      forall k: nat ensures AgreesAt(t, p, text, start, k) {
        if k < |raw| { assert p.s[k] == if p.exact then raw[k] else t.upper(raw[k]); }
      }
    }
    if OccursAt(t, p, text, start) {
      forall k | 0 <= k < |raw|
        ensures if p.exact then text[start + k] == raw[k] else t.upper(text[start + k]) == t.upper(raw[k])
      {
        assert AgreesAt(t, p, text, start, k);
      }
    }
  }

  /** Pattern `p` occurs in `s` at `start`. */
  ghost predicate OccursAt(t: CaseTable, p: Pattern, s: seq<Byte>, start: nat) {
    start + |p.s| <= |s| && forall k: nat {:trigger AgreesAt(t, p, s, start, k)} :: AgreesAt(t, p, s, start, k)
  }

  /** No pattern occurs at a start below `upto`. */
  ghost predicate NoneBefore(t: CaseTable, ps: seq<Pattern>, s: seq<Byte>, upto: nat) {
    forall j: nat, start: nat {:trigger OccursAt(t, ps[j], s, start)} ::
      j < |ps| && start < upto ==> !OccursAt(t, ps[j], s, start)
  }

  ghost predicate NoneAt(t: CaseTable, ps: seq<Pattern>, s: seq<Byte>, start: nat) {
    forall j: nat {:trigger OccursAt(t, ps[j], s, start)} :: j < |ps| ==> !OccursAt(t, ps[j], s, start)
  }

  /** No pattern occurs at a start from `from` on and below `upto`. */
  ghost predicate NoneBetween(t: CaseTable, ps: seq<Pattern>, s: seq<Byte>, from: nat, upto: nat) {
    forall j: nat, start: nat {:trigger OccursAt(t, ps[j], s, start)} ::
      j < |ps| && from <= start < upto ==> !OccursAt(t, ps[j], s, start)
  }

  /** Pattern `j` is the one that is tried first of those that occur at the first start from `from` on:
      the patterns are tried from the last to the first if `down`. */
  ghost predicate IsFirst(t: CaseTable, ps: seq<Pattern>, s: seq<Byte>, from: nat, start: nat, j: nat, down: bool) {
    && j < |ps| && from <= start && OccursAt(t, ps[j], s, start) && NoneBetween(t, ps, s, from, start)
    && forall x: nat {:trigger OccursAt(t, ps[x], s, start)} ::
         x < |ps| && (if down then j < x else x < j) ==> !OccursAt(t, ps[x], s, start)
  }

  /** There is only one such place and pattern. */
  lemma FirstUnique(t: CaseTable, ps: seq<Pattern>, s: seq<Byte>, from: nat, down: bool, x: nat, i: nat, y: nat, j: nat)
    requires IsFirst(t, ps, s, from, x, i, down) && IsFirst(t, ps, s, from, y, j, down)
    ensures x == y && i == j
  {
    hide OccursAt;
    assert OccursAt(t, ps[i], s, x) && OccursAt(t, ps[j], s, y);
  }

  /** Wherever a pattern occurs, one is first. */
  lemma {:induction false} FirstExists(t: CaseTable, ps: seq<Pattern>, s: seq<Byte>, from: nat, down: bool,
                                       start: nat, j: nat)
    requires j < |ps| && from <= start && OccursAt(t, ps[j], s, start)
    ensures exists x: nat, i: nat :: IsFirst(t, ps, s, from, x, i, down)
    decreases start, if down then |ps| - j else j
  {
    hide OccursAt;
    if x: nat, i: nat :| i < |ps| && from <= x < start && OccursAt(t, ps[i], s, x) {
      FirstExists(t, ps, s, from, down, x, i);
    } else if i: nat :| i < |ps| && (if down then j < i else i < j) && OccursAt(t, ps[i], s, start) {
      FirstExists(t, ps, s, from, down, start, i);
    } else {
      assert IsFirst(t, ps, s, from, start, j, down);
    }
  }

  /** The first pattern found completes what the mask asks for, if it finds any.  When the code completes a
      match that does not, it goes on comparing before the start of the pattern. */
  ghost predicate MaskMet(t: CaseTable, ps: seq<Pattern>, needed: set<nat>, s: seq<Byte>, from: nat, down: bool) {
    forall start: nat, j: nat :: IsFirst(t, ps, s, from, start, j, down) ==> needed <= {j}
  }

  ghost predicate OccursFrom(t: CaseTable, p: Pattern, s: seq<Byte>, from: nat) {
    exists start: nat :: from <= start && OccursAt(t, p, s, start)
  }

  /** What a search is to tell: that all patterns of the mask occur, or any if the mask is empty. */
  ghost predicate Promised(t: CaseTable, ps: seq<Pattern>, needed: set<nat>, s: seq<Byte>, from: nat) {
    if needed == {} then exists j: nat :: j < |ps| && OccursFrom(t, ps[j], s, from)
    else forall j :: j in needed ==> j < |ps| && OccursFrom(t, ps[j], s, from)
  }

  /** With two patterns in the mask no search is that finds anything, even if the text has them all. */
  lemma TwoNeededAreNotMet(t: CaseTable, ps: seq<Pattern>, needed: set<nat>, a: nat, b: nat, s: seq<Byte>, from: nat,
                           down: bool)
    requires a in needed && b in needed && a != b
    ensures MaskMet(t, ps, needed, s, from, down) <==> forall j: nat :: j < |ps| ==> !OccursFrom(t, ps[j], s, from)
  {
    hide OccursAt;
    if j: nat :| j < |ps| && OccursFrom(t, ps[j], s, from) {
      var start: nat :| from <= start && OccursAt(t, ps[j], s, start);
      FirstExists(t, ps, s, from, down, start, j);
      var x: nat, i: nat :| IsFirst(t, ps, s, from, x, i, down);
      assert !(needed <= {i}) by { assert a == i ==> b !in {i}; }
    }
  }

  /** A defined search that stops at the first pattern found tells what was promised. */
  lemma FoundIsPromised(t: CaseTable, ps: seq<Pattern>, needed: set<nat>, s: seq<Byte>, from: nat, start: nat, j: nat)
    requires j < |ps| && from <= start && OccursAt(t, ps[j], s, start) && needed <= {j}
    ensures Promised(t, ps, needed, s, from)
  {
    hide OccursAt;
    assert OccursFrom(t, ps[j], s, from);
  }

  // ---------- The shift table ----------

  /** `d[c]` is no more than the distance from the end of the window of any place before it where some
      pattern has a character that agrees with `c`. */
  ghost predicate ShiftsOk(t: CaseTable, ps: seq<Pattern>, m: nat, d: seq<int>) {
    && |d| == 256 && (forall c: Byte :: 1 <= d[c] <= m + 1)
    && forall i: nat, j: nat, c: Byte :: i < |ps| && j < m && j < |ps[i].s| && Agrees(t, ps[i], j, c) ==> d[c] <= m - j
  }

  /** Shifting by the table entry of the last character of the window skips no occurrence. */
  lemma SkipsNothing(t: CaseTable, ps: seq<Pattern>, m: nat, d: seq<int>, s: seq<Byte>, i: nat)
    requires ShiftsOk(t, ps, m, d) && m <= i < |s| && forall j :: 0 <= j < |ps| ==> m < |ps[j].s|
    requires NoneBefore(t, ps, s, i - m) && NoneAt(t, ps, s, i - m)
    ensures NoneBefore(t, ps, s, i - m + d[s[i]])
  {
    forall j: nat, start: nat | j < |ps| && start < i - m + d[s[i]] ensures !OccursAt(t, ps[j], s, start) {
      if i - m < start {
        var k: nat := i - start;
        assert OccursAt(t, ps[j], s, start) ==> AgreesAt(t, ps[j], s, start, k);
      }
    }
  }

  /** Near the end of the text there is no room. */
  lemma NoRoom(t: CaseTable, ps: seq<Pattern>, m: nat, s: seq<Byte>, i: nat)
    requires |s| <= i && m <= i && NoneBefore(t, ps, s, i - m) && forall j :: 0 <= j < |ps| ==> m < |ps[j].s|
    ensures forall start: nat :: NoneBefore(t, ps, s, start)
  {
  }

  /** The part of the table that the first `i` patterns and `j` characters of the next one account for. */
  ghost predicate ShiftsSoFar(t: CaseTable, ps: seq<Pattern>, m: nat, d: seq<int>, i: nat, j: nat) {
    && |d| == 256 && (forall c: Byte :: 1 <= d[c] <= m + 1)
    && forall i': nat, j': nat, c: Byte ::
         (i' < |ps| && j' < m && j' < |ps[i'].s| && (i' < i || (i' == i && j' < j)) && Agrees(t, ps[i'], j', c)) ==>
           d[c] <= m - j'
  }

  lemma LowerOne(t: CaseTable, ps: seq<Pattern>, m: nat, d: seq<int>, d': seq<int>, i: nat, j: nat)
    requires ShiftsSoFar(t, ps, m, d, i, j) && i < |ps| && j < m && j < |ps[i].s| && |d'| == 256
    requires forall c: Byte :: 1 <= d'[c] <= d[c] && (Agrees(t, ps[i], j, c) ==> d'[c] <= m - j)
    ensures ShiftsSoFar(t, ps, m, d', i, j + 1)
  {
  }

  /** A character agrees with another one ignoring case only if it is that or its lower-case form. */
  lemma AgreesTwice(t: CaseTable, p: Pattern, k: nat, c: Byte)
    requires TwoForms(t) && k < |p.s| && Agrees(t, p, k, c)
    ensures c == p.s[k] || (!p.exact && c == t.lower(p.s[k]))
  {
  }

  /** Character `j` of pattern `i` asks for an entry of its distance for `c`. */
  ghost predicate AsksFor(t: CaseTable, ps: seq<Pattern>, m: nat, i: nat, j: nat, c: Byte) {
    i < |ps| && j < m && j < |ps[i].s| && (c == ps[i].s[j] || (!ps[i].exact && c == t.lower(ps[i].s[j])))
  }

  /** The entry for `c` is the whole window, or what some pattern asks for. */
  ghost predicate Asked(t: CaseTable, ps: seq<Pattern>, m: nat, d: seq<int>, c: Byte)
    requires |d| == 256
  {
    d[c] == m + 1 || exists i: nat, j: nat :: AsksFor(t, ps, m, i, j, c) && d[c] == m - j
  }

  ghost predicate ShiftsFar(t: CaseTable, ps: seq<Pattern>, m: nat, d: seq<int>) {
    |d| == 256 && forall c: Byte :: Asked(t, ps, m, d, c)
  }

  lemma StillFar(t: CaseTable, ps: seq<Pattern>, m: nat, d: seq<int>, i: nat, j: nat, c: Byte)
    requires ShiftsFar(t, ps, m, d) && AsksFor(t, ps, m, i, j, c)
    ensures ShiftsFar(t, ps, m, d[c := m - j])
  {
    hide AsksFor;
    var d' := d[c := m - j];
    forall x: Byte ensures Asked(t, ps, m, d', x) {
      assert Asked(t, ps, m, d, x);
      if x == c { assert AsksFor(t, ps, m, i, j, x) && d'[x] == m - j; }
    }
  }

  /** The entries of the first pattern: each later one is smaller than all before. */
  method FirstShifts(t: CaseTable, ps: seq<Pattern>, m: nat, d0: seq<int>) returns (d: seq<int>)
    requires TwoForms(t) && ps != [] && m < |ps[0].s| && |d0| == 256 && forall c: Byte :: d0[c] == m + 1
    ensures ShiftsSoFar(t, ps, m, d, 0, m) && ShiftsFar(t, ps, m, d)
  {
    hide ShiftsFar;
    d := d0;
    NoneAsked(t, ps, m, d);
    for j := 0 to m
      invariant ShiftsSoFar(t, ps, m, d, 0, j) && ShiftsFar(t, ps, m, d)
      invariant forall c: Byte :: m - j < d[c]
    {
      forall c: Byte | Agrees(t, ps[0], j, c) ensures c == ps[0].s[j] || (!ps[0].exact && c == t.lower(ps[0].s[j])) {
        AgreesTwice(t, ps[0], j, c);
      }
      ghost var before := d;
      if !ps[0].exact {
        StillFar(t, ps, m, d, 0, j, t.lower(ps[0].s[j]));
        d := d[t.lower(ps[0].s[j]) := m - j];
      }
      StillFar(t, ps, m, d, 0, j, ps[0].s[j]);
      d := d[ps[0].s[j] := m - j];
      LowerOne(t, ps, m, before, d, 0, j);
    }
  }

  /** The entries of the other patterns, as far as they are smaller. */
  method MoreShifts(t: CaseTable, ps: seq<Pattern>, m: nat, d0: seq<int>, i: nat) returns (d: seq<int>)
    requires TwoForms(t) && i < |ps| && m < |ps[i].s| && ShiftsSoFar(t, ps, m, d0, i, 0) && ShiftsFar(t, ps, m, d0)
    ensures ShiftsSoFar(t, ps, m, d, i, m) && ShiftsFar(t, ps, m, d)
  {
    hide ShiftsFar;
    d := d0;
    for j := 0 to m
      invariant ShiftsSoFar(t, ps, m, d, i, j) && ShiftsFar(t, ps, m, d)
    {
      forall c: Byte | Agrees(t, ps[i], j, c) ensures c == ps[i].s[j] || (!ps[i].exact && c == t.lower(ps[i].s[j])) {
        AgreesTwice(t, ps[i], j, c);
      }
      ghost var before := d;
      var ch := ps[i].s[j];
      if d[ch] > m - j {
        StillFar(t, ps, m, d, i, j, ch);
        d := d[ch := m - j];
      }
      if !ps[i].exact && d[t.lower(ch)] > m - j {
        StillFar(t, ps, m, d, i, j, t.lower(ch));
        d := d[t.lower(ch) := m - j];
      }
      LowerOne(t, ps, m, before, d, i, j);
    }
  }

  lemma NoneAsked(t: CaseTable, ps: seq<Pattern>, m: nat, d: seq<int>)
    requires |d| == 256 && forall c: Byte :: d[c] == m + 1
    ensures ShiftsFar(t, ps, m, d)
  {
  }

  /** The merged table: each entry is small enough for every pattern, and no smaller than one asks for. */
  method MakeShifts(t: CaseTable, ps: seq<Pattern>, m: nat) returns (d: seq<int>)
    requires TwoForms(t) && ps != [] && forall j :: 0 <= j < |ps| ==> m < |ps[j].s|
    ensures ShiftsOk(t, ps, m, d) && ShiftsFar(t, ps, m, d)
  {
    hide ShiftsFar;
    d := seq(256, c => m + 1);
    d := FirstShifts(t, ps, m, d);
    for i := 1 to |ps|
      invariant ShiftsSoFar(t, ps, m, d, i - 1, m) && ShiftsFar(t, ps, m, d)
    {
      assert ShiftsSoFar(t, ps, m, d, i, 0);
      d := MoreShifts(t, ps, m, d, i);
    }
  }

  /** The patterns as they will be compared: those to be compared ignoring case in upper case. */
  method Convert(t: CaseTable, raw: seq<seq<Byte>>, exact: seq<bool>) returns (ps: seq<Pattern>)
    requires |raw| == |exact|
    ensures |ps| == |raw|
    ensures forall i :: 0 <= i < |ps| ==> ps[i].exact == exact[i] && |ps[i].s| == |raw[i]|
    ensures forall i, j :: 0 <= i < |ps| && 0 <= j < |raw[i]| ==>
              ps[i].s[j] == if exact[i] then raw[i][j] else t.upper(raw[i][j])
  {
    ps := [];
    for i := 0 to |raw|
      invariant |ps| == i
      invariant forall x :: 0 <= x < i ==> ps[x].exact == exact[x] && |ps[x].s| == |raw[x]|
      invariant forall x, j :: 0 <= x < i && 0 <= j < |raw[x]| ==>
                  ps[x].s[j] == if exact[x] then raw[x][j] else t.upper(raw[x][j])
    {
      var s := raw[i];
      if !exact[i] {
        for j := 0 to |raw[i]|
          invariant |s| == |raw[i]|
          invariant forall x :: 0 <= x < |s| ==> s[x] == if x < j then t.upper(raw[i][x]) else raw[i][x]
        {
          s := s[j := t.upper(s[j])];
        }
      }
      ps := ps + [Pattern(s, exact[i])];
    }
  }

  /** Lengths of the shortest and of the longest pattern, less one. */
  method Lengths(ps: seq<Pattern>) returns (minLen: nat, maxLen: nat)
    requires ps != [] && forall j :: 0 <= j < |ps| ==> ps[j].s != []
    ensures forall j :: 0 <= j < |ps| ==> minLen < |ps[j].s| <= maxLen + 1
    ensures exists j :: 0 <= j < |ps| && |ps[j].s| == minLen + 1
    ensures minLen <= maxLen
  {
    minLen, maxLen := |ps[0].s| - 1, |ps[0].s| - 1;
    for i := 1 to |ps|
      invariant forall j :: 0 <= j < i ==> minLen < |ps[j].s| <= maxLen + 1
      invariant exists j :: 0 <= j < i && |ps[j].s| == minLen + 1
      invariant minLen <= maxLen
    {
      var len := |ps[i].s| - 1;
      if len < minLen {
        minLen := len;
      }
      if len > maxLen {
        maxLen := len;
      }
    }
  }

  // ---------- The search context ----------

  class SearchCtx {
    const table: CaseTable
    const patterns: seq<Pattern>
    const needed: set<nat>         // the patterns of `and_mask`
    ghost const raw: seq<seq<Byte>>  // the patterns as they were given
    const minLength: nat           // of the shortest pattern, less one
    const diff: nat                // the longest pattern is longer by that much
    var shift: seq<int>
    var position: int

    ghost predicate Valid()
      reads this
    {
      && 0 < |patterns| == |raw| <= MAX_PATTERNS
      && (forall j :: 0 <= j < |raw| ==> Converted(table, raw[j], patterns[j]))
      && (forall j :: 0 <= j < |patterns| ==> minLength < |patterns[j].s| <= minLength + diff + 1)
      && ShiftsOk(table, patterns, minLength, shift) && -1 <= position
      && (|patterns| == 1 ==> minLength == |patterns[0].s| - 1)
    }

    constructor (t: CaseTable, raw: seq<seq<Byte>>, exact: seq<bool>, andMask: set<nat>)
      requires TwoForms(t) && 0 < |raw| == |exact| <= MAX_PATTERNS && forall j :: 0 <= j < |raw| ==> raw[j] != []
      ensures Valid() && position == -1 && table == t && this.raw == raw && |patterns| == |raw| && needed == andMask
      ensures forall i :: 0 <= i < |raw| ==> patterns[i].exact == exact[i] && |patterns[i].s| == |raw[i]|
      ensures forall i, j :: 0 <= i < |raw| && 0 <= j < |raw[i]| ==>
                patterns[i].s[j] == if exact[i] then raw[i][j] else t.upper(raw[i][j])
    {
      var ps := Convert(t, raw, exact);
      var minLen, maxLen := Lengths(ps);
      var d := MakeShifts(t, ps, minLen);
      table, patterns, needed, this.raw := t, ps, andMask, raw;
      minLength, diff := minLen, maxLen - minLen;
      shift, position := d, -1;
    }

    /** Compares pattern `p` with the text from the end backwards, its last character being at `k`. */
    method Compare(p: Pattern, s: seq<Byte>, start: nat) returns (found: bool)
      requires p.s != [] && start + |p.s| <= |s|
      ensures found <==> OccursAt(table, p, s, start)
    {
      var l := |p.s| - 1;
      var k := start + l;
      while Agrees(table, p, l, s[k])
        invariant 0 <= l < |p.s| && k == start + l
        invariant forall j: nat {:trigger AgreesAt(table, p, s, start, j)} :: l < j ==> AgreesAt(table, p, s, start, j)
        decreases l
      {
        k := k - 1;
        l := l - 1;
        if l < 0 {
          return true;
        }
      }
      assert !AgreesAt(table, p, s, start, l);
      return false;
    }

    /** All patterns are compared ignoring case. */
    predicate IgnoresCase() { forall j: nat :: j < |patterns| ==> !patterns[j].exact }

    /** One pattern. */
    method SearchOne(s: seq<Byte>) returns (found: bool, start: nat)
      requires Valid() && |patterns| == 1 && minLength == |patterns[0].s| - 1
      ensures found ==> IsFirst(table, patterns, s, 0, start, 0, IgnoresCase())
      ensures !found ==> forall upto: nat :: NoneBefore(table, patterns, s, upto)
    {
      var i := minLength;
      while i < |s|
        invariant minLength <= i && NoneBefore(table, patterns, s, i - minLength)
        decreases |s| - i
      {
        found := Compare(patterns[0], s, i - minLength);
        if found {
          return true, i - minLength;
        }
        SkipsNothing(table, patterns, minLength, shift, s, i);
        i := i + shift[s[i]];
      }
      NoRoom(table, patterns, minLength, s, i);
      return false, 0;
    }

    /** The pattern with the highest number that occurs at `i` - `minLength`; `safe` says that all
        patterns fit into the rest of the text. */
    method AnyAtDown(s: seq<Byte>, i: nat, safe: bool) returns (found: bool, j: nat)
      requires Valid() && minLength <= i < |s| && (safe ==> i + diff < |s|)
      ensures found ==> j < |patterns| && OccursAt(table, patterns[j], s, i - minLength)
      ensures found ==> forall x: nat :: j < x < |patterns| ==> !OccursAt(table, patterns[x], s, i - minLength)
      ensures !found ==> NoneAt(table, patterns, s, i - minLength)
    {
      j := |patterns|;
      while j > 0
        invariant j <= |patterns|
        invariant forall x: nat :: j <= x < |patterns| ==> !OccursAt(table, patterns[x], s, i - minLength)
      {
        j := j - 1;
        var p := patterns[j];
        if Agrees(table, p, minLength, s[i]) {
          if safe || i + (|p.s| - 1) - minLength < |s| {
            found := Compare(p, s, i - minLength);
            if found {
              return;
            }
          }
        } else {
          Differs(table, p, s, i - minLength, minLength);
        }
      }
      return false, 0;
    }

    /** The pattern with the lowest number that occurs at `i` - `minLength`. */
    method AnyAtUp(s: seq<Byte>, i: nat) returns (found: bool, j: nat)
      requires Valid() && minLength <= i < |s|
      ensures found ==> j < |patterns| && OccursAt(table, patterns[j], s, i - minLength)
      ensures found ==> forall x: nat :: x < j ==> !OccursAt(table, patterns[x], s, i - minLength)
      ensures !found ==> NoneAt(table, patterns, s, i - minLength)
    {
      j := 0;
      while j < |patterns|
        invariant j <= |patterns|
        invariant forall x: nat :: x < j ==> !OccursAt(table, patterns[x], s, i - minLength)
      {
        var p := patterns[j];
        if Agrees(table, p, minLength, s[i]) {
          if i + (|p.s| - 1) - minLength < |s| {
            found := Compare(p, s, i - minLength);
            if found {
              return;
            }
          }
        } else {
          Differs(table, p, s, i - minLength, minLength);
        }
        j := j + 1;
      }
      return false, 0;
    }

    /** Several patterns, all compared ignoring case: as long as the longest one fits no check is made. */
    method SearchNoCase(s: seq<Byte>) returns (found: bool, start: nat, j: nat)
      requires Valid()
      ensures found ==> IsFirst(table, patterns, s, 0, start, j, true)
      ensures !found ==> forall upto: nat :: NoneBefore(table, patterns, s, upto)
    {
      var i := minLength;
      while i < |s| - diff
        invariant minLength <= i && NoneBefore(table, patterns, s, i - minLength)
        decreases |s| - i
      {
        found, j := AnyAtDown(s, i, true);
        if found {
          return true, i - minLength, j;
        }
        SkipsNothing(table, patterns, minLength, shift, s, i);
        i := i + shift[s[i]];
      }
      while i < |s|
        invariant minLength <= i && NoneBefore(table, patterns, s, i - minLength)
        decreases |s| - i
      {
        found, j := AnyAtDown(s, i, false);
        if found {
          return true, i - minLength, j;
        }
        SkipsNothing(table, patterns, minLength, shift, s, i);
        i := i + shift[s[i]];
      }
      NoRoom(table, patterns, minLength, s, i);
      return false, 0, 0;
    }

    /** Several patterns, some of them compared exactly. */
    method SearchMixed(s: seq<Byte>) returns (found: bool, start: nat, j: nat)
      requires Valid()
      ensures found ==> IsFirst(table, patterns, s, 0, start, j, false)
      ensures !found ==> forall upto: nat :: NoneBefore(table, patterns, s, upto)
    {
      var i := minLength;
      while i < |s|
        invariant minLength <= i && NoneBefore(table, patterns, s, i - minLength)
        decreases |s| - i
      {
        found, j := AnyAtUp(s, i);
        if found {
          return true, i - minLength, j;
        }
        SkipsNothing(table, patterns, minLength, shift, s, i);
        i := i + shift[s[i]];
      }
      NoRoom(table, patterns, minLength, s, i);
      return false, 0, 0;
    }

    /** Pattern `j`, as it was given, stands in the text at `start`. */
    ghost predicate Stands(text: seq<Byte>, j: nat, start: nat) {
      j < |raw| && j < |patterns| && StandsAt(table, raw[j], patterns[j].exact, text, start)
    }

    /** Moves `position` on to the next occurrence of any pattern, or to -1 if there is none.  With several
        patterns the first match ends the search if it completes the mask; if not, the code goes on in
        memory before the pattern, and nothing is `defined` from there on. */
    method Search(text: seq<Byte>) returns (found: bool, defined: bool)
      requires Valid()
      modifies `position
      ensures Valid()
      ensures var down := forall j: nat :: j < |patterns| ==> !patterns[j].exact;
              defined <==> |patterns| == 1 || MaskMet(table, patterns, needed, text, old(position) + 1, down)
      ensures defined ==> (
                found <==> exists j: nat :: j < |patterns| && OccursFrom(table, patterns[j], text, old(position) + 1))
      ensures defined && (|patterns| == 1 ==> needed <= {0}) ==> (
                found <==> Promised(table, patterns, needed, text, old(position) + 1))
      ensures defined && found ==> old(position) < position
      ensures defined && found ==> exists j: nat :: j < |patterns| && OccursAt(table, patterns[j], text, position)
      ensures defined && found ==> NoneBetween(table, patterns, text, old(position) + 1, position)
      ensures defined && !found ==> position == -1
      ensures defined ==> (found <==> exists j: nat, start: nat :: old(position) < start && Stands(text, j, start))
      ensures defined && found ==> exists j: nat :: Stands(text, j, position)
      ensures defined && found ==>
                forall j: nat, start: nat :: old(position) < start < position ==> !Stands(text, j, start)
    {
      hide OccursAt;
      var from := position + 1;
      var s := Rest(text, from);
      var start, j := 0, 0;
      if |patterns| == 1 {
        found, start := SearchOne(s);
      } else if IgnoresCase() {
        found, start, j := SearchNoCase(s);
      } else {
        found, start, j := SearchMixed(s);
      }
      if found {
        FirstInText(table, patterns, text, from, start, j, IgnoresCase());
        FirstDecides(table, patterns, needed, text, from, from + start, j, IgnoresCase());
      } else {
        NoneInText(table, patterns, needed, text, from, IgnoresCase());
      }
      defined := |patterns| == 1 || !found || needed <= {j};
      if defined {
        position := if found then from + start else -1;
      }
      forall i: nat, x: nat | i < |patterns| ensures OccursAt(table, patterns[i], text, x) <==> Stands(text, i, x) {
        OccursIsStands(table, raw[i], patterns[i], text, x);
      }
    }
  }

  function Rest(text: seq<Byte>, from: nat): seq<Byte> { if from <= |text| then text[from..] else [] }

  /** The first match in the rest of the text, in terms of the whole text. */
  lemma FirstInText(t: CaseTable, ps: seq<Pattern>, text: seq<Byte>, from: nat, start: nat, j: nat, down: bool)
    requires IsFirst(t, ps, Rest(text, from), 0, start, j, down) && ps[j].s != []
    ensures IsFirst(t, ps, text, from, from + start, j, down)
  {
    assert from <= |text|;
    hide OccursAt;
    forall i: nat, x: nat | i < |ps| && from <= x
      ensures OccursAt(t, ps[i], text, x) <==> OccursAt(t, ps[i], text[from..], x - from)
    {
      Shifted(t, ps[i], text, from, x);
    }
  }

  /** The first match decides whether the mask is met. */
  lemma FirstDecides(t: CaseTable, ps: seq<Pattern>, needed: set<nat>, text: seq<Byte>, from: nat, start: nat, j: nat,
                     down: bool)
    requires IsFirst(t, ps, text, from, start, j, down)
    ensures MaskMet(t, ps, needed, text, from, down) <==> needed <= {j}
    ensures OccursFrom(t, ps[j], text, from)
    ensures needed <= {j} ==> Promised(t, ps, needed, text, from)
  {
    hide OccursAt, IsFirst;
    forall x: nat, i: nat | IsFirst(t, ps, text, from, x, i, down) ensures x == start && i == j {
      FirstUnique(t, ps, text, from, down, x, i, start, j);
    }
    FirstOccurs(t, ps, text, from, start, j, down);
    if needed <= {j} { FoundIsPromised(t, ps, needed, text, from, start, j); }
  }

  lemma FirstOccurs(t: CaseTable, ps: seq<Pattern>, text: seq<Byte>, from: nat, start: nat, j: nat, down: bool)
    requires IsFirst(t, ps, text, from, start, j, down)
    ensures j < |ps| && from <= start && OccursAt(t, ps[j], text, start)
  {
  }

  /** Nothing was found: nothing occurs, and no promise is broken. */
  lemma NoneInText(t: CaseTable, ps: seq<Pattern>, needed: set<nat>, text: seq<Byte>, from: nat, down: bool)
    requires forall j :: 0 <= j < |ps| ==> ps[j].s != []
    requires forall upto: nat :: NoneBefore(t, ps, Rest(text, from), upto)
    ensures forall j: nat :: j < |ps| ==> !OccursFrom(t, ps[j], text, from)
    ensures MaskMet(t, ps, needed, text, from, down) && !Promised(t, ps, needed, text, from)
  {
    forall j: nat, x: nat | j < |ps| && from <= x ensures !OccursAt(t, ps[j], text, x) {
      if from <= |text| {
        Shifted(t, ps[j], text, from, x);
        assert NoneBefore(t, ps, Rest(text, from), x - from + 1);
      }
    }
  }

  lemma Differs(t: CaseTable, p: Pattern, s: seq<Byte>, start: nat, k: nat)
    requires k < |p.s| && start + k < |s| && !Agrees(t, p, k, s[start + k])
    ensures !OccursAt(t, p, s, start)
  {
    assert !AgreesAt(t, p, s, start, k);
  }

  lemma Shifted(t: CaseTable, p: Pattern, text: seq<Byte>, from: nat, x: nat)
    requires from <= |text| && from <= x
    ensures OccursAt(t, p, text, x) <==> OccursAt(t, p, text[from..], x - from)
  {
    var s := text[from..];
    var y: nat := x - from;
    if OccursAt(t, p, text, x) {
      forall k: nat ensures AgreesAt(t, p, s, y, k) { assert AgreesAt(t, p, text, x, k); }
    }
    if OccursAt(t, p, s, y) {
      forall k: nat ensures AgreesAt(t, p, text, x, k) { assert AgreesAt(t, p, s, y, k); }
    }
  }
}

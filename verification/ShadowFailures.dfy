/** For which files the guarantees of the shadow-page protocol hold over all runs, and runs of all other
    files that break them. */
module ShadowFailures {
  import opened ShadowPages
  import opened ShadowRuns
  import opened ShadowAtomicity
  import opened ShadowLimits

  /** A run from `s` in which the file is closed only if it was not changed since the last commit. */
  ghost predicate RunFrom(s: State, states: seq<State>, acts: seq<Action>) {
    IsRun(states, acts) && states[0] == s && ClosesSettled(states, acts)
  }

  ghost predicate ClosesSettled(states: seq<State>, acts: seq<Action>)
    requires IsRun(states, acts)
  {
    forall i :: 0 <= i < |acts| && acts[i] == Close ==> !ExposesAt(states, acts, i)
  }

  lemma Extend(s: State, states: seq<State>, acts: seq<Action>, a: Action, t: State)
    requires RunFrom(s, states, acts) && Step(states[|acts|], a, t) && a != Close
    ensures RunFrom(s, states + [t], acts + [a]) && (states + [t])[|acts + [a]|] == t
  {
    hide Step, Init;
    ExtendRun(states, acts, a, t);
    var longer, more := states + [t], acts + [a];
    forall i | 0 <= i < |more| && more[i] == Close ensures !ExposesAt(longer, more, i) {
      assert !ExposesAt(states, acts, i);
    }
  }

  // ---------- The first transaction of a file ----------

  /** The first page of a file that has one page, according to its header. */
  function OnePage(p: Page): Page { p.(fileSize := PAGE_SIZE) }

  /** A file without contents in the middle of its first session: `m` and `d` are what its first page
      holds in memory and on disk. */
  function Begun(s: State, m: Page, d: Page, size: nat, phase: Phase): State
    requires 0 < |s.disk|
  {
    s.(mem := s.disk[0 := m], disk := s.disk[0 := d], logExists := true, size := size, phase := phase,
       maxLocked := s.limit, writable := if phase.Down? then [] else seq(|s.disk|, p => true))
  }

  lemma HeaderOfOnePage(p: Page)
    ensures HeaderPages(OnePage(p)) == 1
  {
  }

  lemma InitHasPage(s: State)
    requires Init(s)
    ensures 0 < |s.disk|
  {
  }

  lemma OpenEmpty(s: State)
    requires Init(s) && s.committed == []
    ensures Step(s, Open(true), Begun(s, s.disk[0], s.disk[0], 0, Running))
  {
    assert s.disk[0 := s.disk[0]] == s.disk;
    assert ReadOnly(seq(|s.disk|, p => true), 0) == seq(|s.disk|, p => true);
  }

  lemma GrowEmpty(s: State)
    requires Init(s) && s.committed == []
    ensures Step(Begun(s, s.disk[0], s.disk[0], 0, Running), SetSize(1), Begun(s, s.disk[0], s.disk[0], 1, Running))
  {
    assert HeaderPages(s.disk[0]) == 0;
  }

  lemma WriteHeader(s: State)
    requires Init(s) && s.committed == []
    ensures Step(Begun(s, s.disk[0], s.disk[0], 1, Running), Write(0, OnePage(s.disk[0])),
                 Begun(s, OnePage(s.disk[0]), s.disk[0], 1, Running))
  {
    HeaderOfOnePage(s.disk[0]);
    EmptyHeader(s.disk[0]);
    assert HeaderPages(s.disk[0]) == 0;
  }

  lemma EmptyHeader(p: Page)
    ensures HeaderPages(p) == 0 <==> p.fileSize == 0
  {
  }

  lemma HeaderReachesDisk(s: State)
    requires Init(s)
    ensures Step(Begun(s, OnePage(s.disk[0]), s.disk[0], 1, Running), WriteBack(0),
                 Begun(s, OnePage(s.disk[0]), OnePage(s.disk[0]), 1, Running))
  {
  }

  lemma CrashBegun(s: State, p: Page)
    requires Init(s)
    ensures Step(Begun(s, p, p, 1, Running), Crash(0, false), Begun(s, p, p, 1, Down))
  {
  }

  lemma RecoveredBegun(s: State, p: Page)
    requires Init(s) && HeaderPages(p) == 1
    ensures RecoveredImage(Begun(s, p, p, 1, Down)) == [p]
  {
    assert s.disk[0 := p][..1] == [p];
  }

  /** A new file up to the point where its header is written. */
  lemma FirstHeader(s: State) returns (states: seq<State>, acts: seq<Action>)
    requires Init(s) && s.committed == []
    ensures RunFrom(s, states, acts) && Truncate !in acts
    ensures states[|acts|] == Begun(s, OnePage(s.disk[0]), s.disk[0], 1, Running)
  {
    hide Step, Init, HeaderPages;
    InitHasPage(s);
    var d := s.disk[0];
    OpenEmpty(s); GrowEmpty(s); WriteHeader(s);
    states, acts := [s], [];
    Extend(s, states, acts, Open(true), Begun(s, d, d, 0, Running));
    states, acts := states + [Begun(s, d, d, 0, Running)], acts + [Open(true)];
    Extend(s, states, acts, SetSize(1), Begun(s, d, d, 1, Running));
    states, acts := states + [Begun(s, d, d, 1, Running)], acts + [SetSize(1)];
    Extend(s, states, acts, Write(0, OnePage(d)), Begun(s, OnePage(d), d, 1, Running));
    states, acts := states + [Begun(s, OnePage(d), d, 1, Running)], acts + [Write(0, OnePage(d))];
  }

  /** On a file without contents the guarantee does not hold: nothing is protected before the first commit,
      so a header that reaches the disk early is taken for a committed one after a failure. */
  lemma FirstTransactionIsNotAtomic(s: State) returns (states: seq<State>, acts: seq<Action>)
    requires Init(s) && s.committed == []
    ensures RunFrom(s, states, acts) && Truncate !in acts
    ensures states[|acts|] == Begun(s, OnePage(s.disk[0]), OnePage(s.disk[0]), 1, Down)
    ensures RecoveredImage(states[|acts|]) != states[|acts|].committed
  {
    hide Step, Init, RecoveredImage, HeaderPages;
    InitHasPage(s);
    var h := OnePage(s.disk[0]);
    HeaderReachesDisk(s); CrashBegun(s, h);
    states, acts := FirstHeader(s);
    Extend(s, states, acts, WriteBack(0), Begun(s, h, h, 1, Running));
    states, acts := states + [Begun(s, h, h, 1, Running)], acts + [WriteBack(0)];
    Extend(s, states, acts, Crash(0, false), Begun(s, h, h, 1, Down));
    states, acts := states + [Begun(s, h, h, 1, Down)], acts + [Crash(0, false)];
    HeaderOfOnePage(s.disk[0]);
    RecoveredBegun(s, h);
  }

  // ---------- Death with a locked page ----------

  /** A session in which nothing was changed since the last commit, and all of it is on disk. */
  ghost predicate Fresh(r: State) {
    && r.phase.Running? && r.durable == [] && r.tail == [] && r.locked == [] && !r.torn && r.logExists
    && 0 < |r.mem| == |r.writable| && r.mem == r.disk
    && 0 < HeaderPages(r.mem[0]) <= |r.mem| && HeaderPages(r.mem[0]) <= r.size && !r.writable[0]
    && r.committed == r.mem[..HeaderPages(r.mem[0])]
  }

  /** The session has gone on to change its first page to `m`, or is going to. */
  function Touched(r: State, m: Page, tail: seq<Record>, locked: seq<nat>, phase: Phase): State
    requires 0 < |r.mem| == |r.writable|
  {
    r.(mem := r.mem[0 := m], tail := tail, locked := locked, phase := phase,
       writable := if phase.Down? then [] else r.writable[0 := true])
  }

  /** After power was lost: the changed page is on disk, and no record is. */
  function Ruined(r: State): State
    requires 0 < |r.mem| == |r.disk|
  {
    var disk := r.disk[0 := Other(r.mem[0])];
    r.(mem := disk, disk := disk, locked := [], writable := [], phase := Down)
  }

  lemma LockedStore(r: State)
    requires Fresh(r) && 1 <= r.maxLocked
    ensures var p := r.mem[0];
      && Step(r, Fault(0), Touched(r, p, [Record(0, p)], [], Shadowing(0)))
      && Step(Touched(r, p, [Record(0, p)], [], Shadowing(0)), Lock, Touched(r, p, [Record(0, p)], [0], Running))
      && Step(Touched(r, p, [Record(0, p)], [0], Running), Write(0, Other(p)),
              Touched(r, Other(p), [Record(0, p)], [0], Running))
  {
    OtherDiffers(r.mem[0]);
    assert r.mem[0 := r.mem[0]] == r.mem;
  }

  lemma LockedDeath(r: State)
    requires Fresh(r)
    ensures var p := r.mem[0]; var dead := Touched(r, Other(p), [Record(0, p)], [], Down);
      && Step(Touched(r, Other(p), [Record(0, p)], [0], Running), Kill, dead)
      && Step(dead, WriteBack(0), dead.(disk := r.disk[0 := Other(p)]))
      && Step(dead.(disk := r.disk[0 := Other(p)]), Crash(0, false), Ruined(r))
  {
    assert r.durable + [Record(0, r.mem[0])][..0] == [];
  }

  lemma RuinedDiffers(r: State)
    requires Fresh(r)
    ensures Ruined(r).mem[..HeaderPages(Ruined(r).mem[0])] != r.committed
    ensures RecoveredImage(Ruined(r)) != r.committed && !Recoverable(Ruined(r))
  {
    var t := Ruined(r);
    OtherDiffers(r.mem[0]);
    assert Replay(t.durable, t.disk) == t.disk;
    assert t.disk[..|r.committed|][0] != r.committed[0];
  }

  /** A page is locked and changed, the process dies, the page is written back by the kernel, and power is
      lost before its record is. */
  lemma LockedDeathFails(s: State, states0: seq<State>, acts0: seq<Action>)
      returns (states: seq<State>, acts: seq<Action>)
    requires RunFrom(s, states0, acts0) && Fresh(states0[|acts0|]) && 1 <= states0[|acts0|].maxLocked
    ensures RunFrom(s, states, acts) && states[|acts|] == Ruined(states0[|acts0|])
  {
    hide Step, Fresh;
    var r := states0[|acts0|];
    FreshShape(r);
    var p := r.mem[0];
    var log := [Record(0, p)];
    var dead := Touched(r, Other(p), log, [], Down);
    LockedStore(r);
    LockedDeath(r);
    states, acts := states0, acts0;
    Extend(s, states, acts, Fault(0), Touched(r, p, log, [], Shadowing(0)));
    states, acts := states + [Touched(r, p, log, [], Shadowing(0))], acts + [Fault(0)];
    Extend(s, states, acts, Lock, Touched(r, p, log, [0], Running));
    states, acts := states + [Touched(r, p, log, [0], Running)], acts + [Lock];
    Extend(s, states, acts, Write(0, Other(p)), Touched(r, Other(p), log, [0], Running));
    states, acts := states + [Touched(r, Other(p), log, [0], Running)], acts + [Write(0, Other(p))];
    Extend(s, states, acts, Kill, dead);
    states, acts := states + [dead], acts + [Kill];
    Extend(s, states, acts, WriteBack(0), dead.(disk := r.disk[0 := Other(p)]));
    states, acts := states + [dead.(disk := r.disk[0 := Other(p)])], acts + [WriteBack(0)];
    Extend(s, states, acts, Crash(0, false), Ruined(r));
    states, acts := states + [Ruined(r)], acts + [Crash(0, false)];
  }

  lemma FreshShape(r: State)
    requires Fresh(r)
    ensures 0 < |r.mem| == |r.writable| == |r.disk| && r.durable == [] && r.tail == []
  {
  }

  /** A file whose log is empty, and that no process has open; memory shows what is on disk. */
  ghost predicate LeftBehind(t: State) {
    && t.phase.Down? && t.durable == [] && t.tail == [] && t.mem == t.disk && 0 < |t.mem| && !t.torn && t.logExists
    && HeaderPages(t.mem[0]) <= |t.mem|
  }

  /** The first session of a file with contents. */
  function Opened(s: State): State
    requires 0 < |s.mem|
  {
    s.(size := HeaderPages(s.mem[0]), writable := ReadOnly(seq(|s.mem|, p => true), HeaderPages(s.mem[0])),
       maxLocked := s.limit, logExists := true, phase := Running)
  }

  lemma OpenContents(s: State)
    requires Init(s) && s.committed != []
    ensures 0 < |s.mem| && Step(s, Open(true), Opened(s)) && Fresh(Opened(s))
  {
    OpenStep(s, true, Opened(s));
  }

  /** The first session of a file without contents, after its first commit. */
  function Grown(s: State): State
    requires 0 < |s.disk|
  {
    var h := OnePage(s.disk[0]);
    Begun(s, h, h, 1, Running).(writable := ReadOnly(seq(|s.disk|, p => true), 1), committed := [h])
  }

  lemma CommitHeader(s: State)
    requires Init(s) && s.committed == []
    ensures var h, d := OnePage(s.disk[0]), s.disk[0];
      && Step(Begun(s, h, d, 1, Running), StartCommit, Begun(s, h, d, 1, Syncing(0, false)))
      && Step(Begun(s, h, d, 1, Syncing(0, false)), MsyncPage, Begun(s, h, h, 1, Syncing(1, false)))
      && Step(Begun(s, h, h, 1, Syncing(1, false)), Truncate, Begun(s, h, h, 1, Protecting).(committed := [h]))
      && Step(Begun(s, h, h, 1, Protecting).(committed := [h]), Protect, Grown(s))
      && Fresh(Grown(s))
  {
    HeaderOfOnePage(s.disk[0]);
    hide HeaderPages, PagesFor;
    assert s.disk[0 := OnePage(s.disk[0])][..1] == [OnePage(s.disk[0])];
  }

  lemma FirstCommit(s: State) returns (states: seq<State>, acts: seq<Action>)
    requires Init(s) && s.committed == []
    ensures RunFrom(s, states, acts) && states[|acts|] == Grown(s)
  {
    hide Step, Init, HeaderPages, Fresh;
    InitHasPage(s);
    var h, d := OnePage(s.disk[0]), s.disk[0];
    CommitHeader(s);
    states, acts := FirstHeader(s);
    Extend(s, states, acts, StartCommit, Begun(s, h, d, 1, Syncing(0, false)));
    states, acts := states + [Begun(s, h, d, 1, Syncing(0, false))], acts + [StartCommit];
    Extend(s, states, acts, MsyncPage, Begun(s, h, h, 1, Syncing(1, false)));
    states, acts := states + [Begun(s, h, h, 1, Syncing(1, false))], acts + [MsyncPage];
    Extend(s, states, acts, Truncate, Begun(s, h, h, 1, Protecting).(committed := [h]));
    states, acts := states + [Begun(s, h, h, 1, Protecting).(committed := [h])], acts + [Truncate];
    Extend(s, states, acts, Protect, Grown(s));
    states, acts := states + [Grown(s)], acts + [Protect];
  }

  /** From every file, with or without contents, of a program that locks pages: a run after which the last
      committed image cannot be recovered. */
  lemma LockingIsNotSafe(s: State) returns (states: seq<State>, acts: seq<Action>)
    requires Init(s) && 1 <= s.limit
    ensures RunFrom(s, states, acts) && !Recoverable(states[|acts|])
    ensures RecoveredImage(states[|acts|]) != states[|acts|].committed
    ensures LeftBehind(states[|acts|])
    ensures states[|acts|].mem[..HeaderPages(states[|acts|].mem[0])] != states[|acts|].committed
  {
    hide Step, Init, HeaderPages, Fresh, Replay, RecoveredImage, Recoverable;
    var r;
    if s.committed != [] {
      OpenContents(s);
      r := Opened(s);
      OneState(s);
      Extend(s, [s], [], Open(true), r);
      states, acts := [s] + [r], [] + [Open(true)];
    } else {
      InitHasPage(s);
      states, acts := FirstCommit(s);
      r := Grown(s);
      CommitHeader(s);
    }
    states, acts := LockedDeathFails(s, states, acts);
    RuinedDiffers(r);
    RuinedShape(r);
  }

  lemma OneState(s: State)
    requires Init(s)
    ensures RunFrom(s, [s], [])
  {
  }

  lemma RuinedShape(r: State)
    requires Fresh(r)
    ensures LeftBehind(Ruined(r))
  {
    OtherDiffers(r.mem[0]);
  }

  // ---------- What an opening commits ----------

  predicate Opening(s: State) { s.phase.Syncing? && s.phase.opening }

  /** Such a file while it is opened again. */
  function Reopened(t: State, phase: Phase): State
    requires 0 < |t.mem|
  {
    t.(size := HeaderPages(t.mem[0]), writable := seq(|t.mem|, p => true), maxLocked := t.limit, phase := phase)
  }

  lemma ReopenSteps(t: State, k: nat)
    requires LeftBehind(t)
    ensures Step(t, Open(true), Reopened(t, Replaying(0, true)))
    ensures Step(Reopened(t, Replaying(0, true)), FinishReplay, Reopened(t, Syncing(0, true)))
    ensures k < HeaderPages(t.mem[0]) ==>
              Step(Reopened(t, Syncing(k, true)), MsyncPage, Reopened(t, Syncing(k + 1, true)))
  {
    hide HeaderPages, PagesFor;
    if k < HeaderPages(t.mem[0]) { assert t.disk[k := t.mem[k]] == t.disk; }
  }

  lemma {:induction false} SyncReopened(s: State, states0: seq<State>, acts0: seq<Action>, t: State, k: nat)
      returns (states: seq<State>, acts: seq<Action>)
    requires LeftBehind(t) && k <= HeaderPages(t.mem[0])
    requires RunFrom(s, states0, acts0) && states0[|acts0|] == Reopened(t, Syncing(k, true))
    ensures RunFrom(s, states, acts) && states[|acts|] == Reopened(t, Syncing(HeaderPages(t.mem[0]), true))
    decreases HeaderPages(t.mem[0]) - k
  {
    hide Step, HeaderPages, Init;
    states, acts := states0, acts0;
    if k < HeaderPages(t.mem[0]) {
      ReopenSteps(t, k);
      var next := Reopened(t, Syncing(k + 1, true));
      Extend(s, states, acts, MsyncPage, next);
      states, acts := SyncReopened(s, states + [next], acts + [MsyncPage], t, k + 1);
    }
  }

  /** What lies on disk when the log is empty is what the next opening commits. */
  lemma OpeningCommits(s: State, states0: seq<State>, acts0: seq<Action>)
      returns (states: seq<State>, acts: seq<Action>, i: nat)
    requires RunFrom(s, states0, acts0) && LeftBehind(states0[|acts0|])
    ensures RunFrom(s, states, acts) && i < |acts| && acts[i] == Truncate && Opening(states[i])
    ensures var t := states0[|acts0|];
            states[i].committed == t.committed && states[i + 1].committed == t.mem[..HeaderPages(t.mem[0])]
  {
    hide Step, HeaderPages, Init;
    var t := states0[|acts0|];
    states, acts := states0, acts0;
    ReopenSteps(t, 0);
    Extend(s, states, acts, Open(true), Reopened(t, Replaying(0, true)));
    states, acts := states + [Reopened(t, Replaying(0, true))], acts + [Open(true)];
    Extend(s, states, acts, FinishReplay, Reopened(t, Syncing(0, true)));
    states, acts := states + [Reopened(t, Syncing(0, true))], acts + [FinishReplay];
    states, acts := SyncReopened(s, states, acts, t, 0);
    i := |acts|;
    var last := Reopened(t, Protecting).(committed := t.mem[..HeaderPages(t.mem[0])]);
    TruncateStep(Reopened(t, Syncing(HeaderPages(t.mem[0]), true)), last);
    Extend(s, states, acts, Truncate, last);
    states, acts := states + [last], acts + [Truncate];
  }

  /** The next session takes a header written by the first, which was never committed, for a committed one. */
  lemma OpeningCommitsFirstTransaction(s: State) returns (states: seq<State>, acts: seq<Action>, i: nat)
    requires Init(s) && s.committed == []
    ensures RunFrom(s, states, acts) && i < |acts| && acts[i] == Truncate && Opening(states[i])
    ensures states[i + 1].committed != states[i].committed
  {
    hide Step, Init, RecoveredImage, HeaderPages;
    InitHasPage(s);
    states, acts := FirstTransactionIsNotAtomic(s);
    HeaderOfOnePage(s.disk[0]);
    BegunIsLeft(s);
    states, acts, i := OpeningCommits(s, states, acts);
  }

  lemma BegunIsLeft(s: State)
    requires Init(s) && s.committed == []
    ensures 0 < |s.disk| && LeftBehind(Begun(s, OnePage(s.disk[0]), OnePage(s.disk[0]), 1, Down))
  {
    HeaderOfOnePage(s.disk[0]);
  }
}

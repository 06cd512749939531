/** Exactly which files the guarantees of the shadow-page protocol hold for, over all runs. */
module ShadowGuarantees {
  import opened ShadowPages
  import opened ShadowRuns
  import opened ShadowAtomicity
  import opened ShadowLimits
  import opened ShadowFailures

  lemma StepKeepsLimit(s: State, a: Action)
    requires Enabled(s, a)
    ensures Apply(s, a).limit == s.limit
  {
  }

  lemma NoneLocked(s: State)
    requires Inv(s) && s.limit == 0
    ensures s.locked == []
  {
  }

  /** Where no page is ever locked and only unchanged files are closed, power may be lost at any time. */
  lemma {:induction false} UnlockedInv(states: seq<State>, acts: seq<Action>, i: nat)
    requires IsRun(states, acts) && ClosesSettled(states, acts) && states[0].limit == 0 && i < |states|
    ensures Inv(states[i]) && states[i].limit == 0
    ensures forall j: nat :: j < i ==> !ExposesAt(states, acts, j)
  {
    hide Inv, Init, Enabled, Apply, Settled;
    if i == 0 {
      InitInv(states[0]);
    } else {
      UnlockedInv(states, acts, i - 1);
      assert Step(states[i - 1], acts[i - 1], states[i]);
      NoneLocked(states[i - 1]);
      StepKeepsLimit(states[i - 1], acts[i - 1]);
      StepKeepsInv(states[i - 1], acts[i - 1]);
    }
  }

  /** A run that nothing exposes is spared. */
  lemma UnlockedIsSpared(states: seq<State>, acts: seq<Action>)
    requires IsRun(states, acts) && ClosesSettled(states, acts) && states[0].limit == 0
    ensures Spared(states, acts)
    ensures forall i :: 0 <= i <= |acts| ==> !Exposed(states, acts, i)
  {
    hide Inv, Init, Enabled, Apply, ExposesAt, ClosesSettled;
    UnlockedInv(states, acts, |acts|);
  }

  // ---------- Recovery ----------

  /** In every state of every run from `s`, the last committed image can be recovered, whether power is
      lost or the process dies. */
  ghost predicate AlwaysRecoverable(s: State) {
    forall states: seq<State>, acts: seq<Action>, i: nat {:trigger RunFrom(s, states, acts), states[i]} ::
      RunFrom(s, states, acts) && i < |states| ==> Recoverable(states[i]) && RecoverableFromCache(states[i])
  }

  /** Exactly the files of programs that lock no pages can always be recovered, whatever the application,
      the kernel and failures do. */
  lemma RecoverableIffUnlocked(s: State)
    requires Init(s)
    ensures AlwaysRecoverable(s) <==> s.limit == 0
  {
    hide Init, Recoverable, RecoverableFromCache, Step, ClosesSettled, Spared, Exposed, LeftBehind;
    if s.limit == 0 {
      forall states: seq<State>, acts: seq<Action>, i: nat {:trigger RunFrom(s, states, acts), states[i]} |
          RunFrom(s, states, acts) && i < |states|
        ensures Recoverable(states[i]) && RecoverableFromCache(states[i])
      {
        UnlockedIsSpared(states, acts);
        EveryRunIsRecoverable(states, acts);
      }
    } else {
      var states, acts := LockingIsNotSafe(s);
      assert |acts| < |states|;
    }
  }

  // ---------- Atomicity ----------

  /** In every state of every run from `s`, what a recovery would publish is the last committed image. */
  ghost predicate AlwaysAtomic(s: State) {
    forall states: seq<State>, acts: seq<Action>, i: nat {:trigger RunFrom(s, states, acts), states[i]} ::
      RunFrom(s, states, acts) && i < |states| ==>
        RecoveredImage(states[i]) == states[i].committed && ShownImage(states[i]) == states[i].committed
  }

  /** Exactly the files that have contents when they are opened, by programs that lock no pages, are always
      recovered to their last committed image. */
  lemma AtomicIffUnlockedContents(s: State)
    requires Init(s)
    ensures AlwaysAtomic(s) <==> s.committed != [] && s.limit == 0
  {
    hide Init, RecoveredImage, ShownImage, Step, ClosesSettled, Spared, Exposed, LeftBehind;
    if s.limit != 0 {
      var states, acts := LockingIsNotSafe(s);
      assert |acts| < |states|;
    } else if s.committed == [] {
      var states, acts := FirstTransactionIsNotAtomic(s);
      assert |acts| < |states|;
    } else {
      forall states: seq<State>, acts: seq<Action>, i: nat {:trigger RunFrom(s, states, acts), states[i]} |
          RunFrom(s, states, acts) && i < |states|
        ensures RecoveredImage(states[i]) == states[i].committed && ShownImage(states[i]) == states[i].committed
      {
        UnlockedIsSpared(states, acts);
        SparedRunIsAtomic(states, acts, i);
      }
    }
  }

  // ---------- Opening ----------

  /** No run from `s` publishes anything new by the truncation that ends an opening. */
  ghost predicate OpeningNeverCommits(s: State) {
    forall states: seq<State>, acts: seq<Action>, i: nat {:trigger RunFrom(s, states, acts), states[i]} ::
      RunFrom(s, states, acts) && i < |acts| && acts[i] == Truncate && Opening(states[i]) ==>
        states[i + 1].committed == states[i].committed
  }

  /** The same files are those that an opening never changes. */
  lemma OpeningNeverCommitsIff(s: State)
    requires Init(s)
    ensures OpeningNeverCommits(s) <==> s.committed != [] && s.limit == 0
  {
    hide Init, RecoveredImage, Inv, Enabled, Apply, ClosesSettled, Spared, Exposed, HeaderPages;
    if s.limit != 0 {
      var states, acts := LockingIsNotSafe(s);
      var i;
      states, acts, i := OpeningCommits(s, states, acts);
      assert i < |states|;
    } else if s.committed == [] {
      var states, acts, i := OpeningCommitsFirstTransaction(s);
      assert i < |states|;
    } else {
      forall states: seq<State>, acts: seq<Action>, i: nat {:trigger RunFrom(s, states, acts), states[i]} |
          RunFrom(s, states, acts) && i < |acts| && acts[i] == Truncate && Opening(states[i])
        ensures states[i + 1].committed == states[i].committed
      {
        UnlockedIsSpared(states, acts);
        EveryStateInv(states, acts, i);
        StaysNonEmpty(states, acts, i);
        assert Step(states[i], acts[i], states[i + 1]);
        RecoveryCommitsNothing(states[i]);
      }
    }
  }

  // ---------- Closing ----------

  /** The first page has been logged, the record is durable, and the page is `m`. */
  function Changed(r: State, m: Page, phase: Phase): State
    requires 0 < |r.mem| == |r.writable|
  {
    Touched(r, m, [], [], phase).(durable := [Record(0, r.mem[0])])
  }

  function Closed(r: State): State
    requires 0 < |r.mem| == |r.writable|
  {
    var t := Changed(r, Other(r.mem[0]), Down);
    t.(durable := [], logExists := false,
       committed := t.mem[..if HeaderPages(t.mem[0]) <= |t.mem| then HeaderPages(t.mem[0]) else 0])
  }

  lemma ChangeSteps(r: State)
    requires Fresh(r)
    ensures var p := r.mem[0];
      && Step(r, Fault(0), Touched(r, p, [Record(0, p)], [], Shadowing(0)))
      && Step(Touched(r, p, [Record(0, p)], [], Shadowing(0)), Fsync, Changed(r, p, Shadowing(0)))
      && Step(Changed(r, p, Shadowing(0)), Resume, Changed(r, p, Running))
      && Step(Changed(r, p, Running), Write(0, Other(p)), Changed(r, Other(p), Running))
  {
    OtherDiffers(r.mem[0]);
    assert r.mem[0 := r.mem[0]] == r.mem;
    assert r.durable + [Record(0, r.mem[0])] == [Record(0, r.mem[0])];
  }

  lemma CloseChanged(r: State)
    requires Fresh(r)
    ensures Step(Changed(r, Other(r.mem[0]), Running), Close, Closed(r))
    ensures RecoveredImage(Closed(r)) == r.committed != Closed(r).committed
  {
    OtherDiffers(r.mem[0]);
    hide PagesFor, Enabled, Apply;
    CloseStep(Changed(r, Other(r.mem[0]), Running), Closed(r));
    var t := Closed(r);
    assert Replay(t.durable, t.disk) == t.disk;
    assert t.committed[0] != r.committed[0];
  }

  /** Closing a file does not commit it: from every file with contents a run that changes a page, closes the
      file, and leaves on disk what was there before. */
  lemma ClosingIsNotCommitting(s: State) returns (states: seq<State>, acts: seq<Action>)
    requires Init(s) && s.committed != []
    ensures IsRun(states, acts) && states[0] == s && acts != [] && acts[|acts| - 1] == Close
    ensures forall a :: a in acts ==> !a.Crash? && !a.Kill?
    ensures RecoveredImage(states[|acts|]) == s.committed != states[|acts|].committed
  {
    hide Step, Init, HeaderPages, Fresh, RecoveredImage;
    OpenContents(s);
    var r := Opened(s);
    var p := r.mem[0];
    FreshShape(r);
    ChangeSteps(r);
    CloseChanged(r);
    OneState(s);
    states, acts := [s], [];
    ExtendRun(states, acts, Open(true), r);
    states, acts := states + [r], acts + [Open(true)];
    ExtendRun(states, acts, Fault(0), Touched(r, p, [Record(0, p)], [], Shadowing(0)));
    states, acts := states + [Touched(r, p, [Record(0, p)], [], Shadowing(0))], acts + [Fault(0)];
    ExtendRun(states, acts, Fsync, Changed(r, p, Shadowing(0)));
    states, acts := states + [Changed(r, p, Shadowing(0))], acts + [Fsync];
    ExtendRun(states, acts, Resume, Changed(r, p, Running));
    states, acts := states + [Changed(r, p, Running)], acts + [Resume];
    ExtendRun(states, acts, Write(0, Other(p)), Changed(r, Other(p), Running));
    states, acts := states + [Changed(r, Other(p), Running)], acts + [Write(0, Other(p))];
    ExtendRun(states, acts, Close, Closed(r));
    states, acts := states + [Closed(r)], acts + [Close];
  }
}

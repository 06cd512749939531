/** Seen through recovery, a transaction of the shadow-page protocol happens at one instant. */
module ShadowAtomicity {
  import opened ShadowPages
  import opened ShadowRuns

  /** The pages cut at the size their own header gives. */
  function Image(pages: seq<Page>): seq<Page> {
    if pages == [] then [] else pages[..if HeaderPages(pages[0]) <= |pages| then HeaderPages(pages[0]) else |pages|]
  }

  /** What a recovery would publish if power were lost now. */
  function RecoveredImage(s: State): seq<Page> { Image(Replay(s.durable, s.disk)) }

  /** What a recovery would publish if the process died now, or the next session after it has. */
  function ShownImage(s: State): seq<Page> { Image(Replay(Log(s), s.mem)) }

  lemma ImageIs(pages: seq<Page>, c: seq<Page>)
    requires 0 < |pages| && |c| <= |pages| && pages[..|c|] == c && SelfDescribing(c)
    ensures Image(pages) == c <==> c != [] || HeaderPages(pages[0]) == 0
  {
    if c != [] { assert pages[0] == pages[..|c|][0]; }
  }

  /** In one state: the recovered image is the committed one if something was committed before, and else
      just as long as the header a recovery would read is still empty. */
  lemma RecoveredIsCommitted(s: State)
    requires Inv(s)
    ensures RecoveredImage(s) == s.committed
            <==> s.committed != [] || HeaderPages(Replay(s.durable, s.disk)[0]) == 0
  {
    hide Image, HeaderPages, TailOk, DiskOk, GoodLog, MemOk, PhaseOk;
    InvIsRecoverable(s);
    ImageIs(Replay(s.durable, s.disk), s.committed);
  }

  lemma ShownIsCommitted(s: State)
    requires CacheOk(s)
    ensures ShownImage(s) == s.committed <==> s.committed != [] || HeaderPages(Replay(Log(s), s.mem)[0]) == 0
  {
    hide Image, HeaderPages, GoodLog, MemOk, PhaseOk;
    CacheIsRecoverable(s);
    ImageIs(Replay(Log(s), s.mem), s.committed);
  }

  lemma StepCommits(s: State, a: Action)
    requires CacheOk(s) && Enabled(s, a) && s.committed != []
    ensures Apply(s, a).committed == if a.Truncate? || a.Close? then s.mem[..HeaderPages(s.mem[0])] else s.committed
    ensures Apply(s, a).committed != []
  {
    hide CacheOk, HeaderPages, Put;
    CacheHeader(s);
  }

  lemma CacheHeader(s: State)
    requires CacheOk(s)
    ensures 0 < |s.mem| && |s.committed| <= HeaderPages(s.mem[0]) <= |s.mem|
  {
  }

  /** Seen from the disk and the durable log, a transaction happens at the instant its log is
      truncated: no other action changes what recovery publishes, and the truncation makes it the
      memory image of that instant. */
  lemma CommitIsAtomic(s: State, a: Action)
    requires Inv(s) && Enabled(s, a) && s.committed != [] && (a.Close? ==> Settled(s))
    ensures a != Truncate ==> RecoveredImage(Apply(s, a)) == RecoveredImage(s)
    ensures a == Truncate ==> RecoveredImage(Apply(s, a)) == s.mem[..HeaderPages(s.mem[0])]
  {
    hide Inv, CacheOk, RecoveredImage, HeaderPages, Settled;
    InvHasCache(s);
    StepCommits(s, a);
    RecoveredIsCommitted(s);
    if a.Kill? {
      SameOnDisk(s, a);
    } else {
      if a.Close? { CloseKeepsInv(s, a); }
      StepKeepsInv(s, a);
      RecoveredIsCommitted(Apply(s, a));
    }
  }

  /** Death of the process does not touch the disk. */
  lemma SameOnDisk(s: State, a: Action)
    requires a.Kill? && Enabled(s, a)
    ensures RecoveredImage(Apply(s, a)) == RecoveredImage(s)
  {
  }

  /** The same seen through the kernel, whatever has reached the disk, as long as power is not lost.
      Closing the file publishes the memory image too. */
  lemma CommitIsAtomicInCache(s: State, a: Action)
    requires CacheOk(s) && Enabled(s, a) && s.committed != [] && !a.Crash?
    ensures a != Truncate && a != Close ==> ShownImage(Apply(s, a)) == ShownImage(s)
    ensures a == Truncate || a == Close ==> ShownImage(Apply(s, a)) == s.mem[..HeaderPages(s.mem[0])]
  {
    hide Inv, CacheOk, ShownImage, HeaderPages;
    StepKeepsCache(s, a);
    StepCommits(s, a);
    ShownIsCommitted(s);
    ShownIsCommitted(Apply(s, a));
  }

  /** In one state: the truncation that ends an opening publishes nothing new if the file had been
      committed before, and else exactly when its header is still empty. */
  lemma RecoveryCommitsNothing(s: State)
    requires CacheOk(s) && Enabled(s, Truncate) && s.phase.opening
    ensures Apply(s, Truncate).committed == s.committed
            <==> s.committed != [] || HeaderPages(s.mem[0]) == 0
  {
    if s.committed != [] {
      forall p | 0 <= p < |s.committed| ensures s.mem[p] == s.committed[p] {
        assert Logged(Log(s), p) || !Logged(Log(s), p);
      }
      assert s.mem[0] == s.committed[0];
    }
  }

  /** Once every record is replayed, memory starts with the committed image. */
  lemma ReplayedIsCommitted(s: State)
    requires CacheOk(s) && s.phase.Replaying? && s.phase.next == |Log(s)|
    ensures s.mem[..|s.committed|] == s.committed
  {
    assert Log(s)[..s.phase.next] == Log(s);
    forall p | 0 <= p < |s.committed| ensures s.mem[p] == s.committed[p] {
      assert Logged(Log(s), p) || !Logged(Log(s), p);
    }
  }

  /** A file with contents keeps having some. */
  lemma {:induction false} StaysNonEmpty(states: seq<State>, acts: seq<Action>, i: nat)
    requires IsRun(states, acts) && Spared(states, acts) && i < |states| && states[0].committed != []
    ensures states[i].committed != []
  {
    hide Inv, CacheOk, Init, Enabled, Apply, Spared, Exposed;
    if i != 0 {
      StaysNonEmpty(states, acts, i - 1);
      EveryStateInv(states, acts, i - 1);
      assert Step(states[i - 1], acts[i - 1], states[i]);
      StepCommits(states[i - 1], acts[i - 1]);
    }
  }

  /** Over a whole run of a file with contents in which power is not lost while it is exposed, what the
      next session publishes is always the last committed image, and so is what is on disk unless the
      file is exposed just then. */
  lemma SparedRunIsAtomic(states: seq<State>, acts: seq<Action>, i: nat)
    requires IsRun(states, acts) && Spared(states, acts) && i < |states| && states[0].committed != []
    ensures ShownImage(states[i]) == states[i].committed
    ensures !Exposed(states, acts, i) ==> RecoveredImage(states[i]) == states[i].committed
  {
    hide Inv, CacheOk, Init, Enabled, Apply, Spared, Exposed, ShownImage, RecoveredImage;
    EveryStateInv(states, acts, i);
    StaysNonEmpty(states, acts, i);
    ShownIsCommitted(states[i]);
    if !Exposed(states, acts, i) { RecoveredIsCommitted(states[i]); }
  }

  // ---------- What is left to the kernel ----------

  /** What can happen to a file that no process has open any more. */
  ghost predicate IsKernelRun(states: seq<State>, acts: seq<Action>) {
    && |states| == |acts| + 1
    && forall i :: 0 <= i < |acts| ==>
         (acts[i].WriteBack? || acts[i].LogWriteBack? || acts[i].Crash?) && Step(states[i], acts[i], states[i + 1])
  }

  /** Whatever the kernel writes and whenever power is lost, the last committed image can be recovered. */
  ghost predicate SafeAlone(s: State) {
    forall states: seq<State>, acts: seq<Action>, i: nat {:trigger IsKernelRun(states, acts), states[i]} ::
      IsKernelRun(states, acts) && states[0] == s && i < |states| ==> Recoverable(states[i])
  }

  lemma {:induction false} KernelKeepsInv(states: seq<State>, acts: seq<Action>, i: nat)
    requires IsKernelRun(states, acts) && Inv(states[0]) && i < |states|
    ensures Inv(states[i])
  {
    hide Inv, Enabled, Apply;
    if i != 0 {
      KernelKeepsInv(states, acts, i - 1);
      assert Step(states[i - 1], acts[i - 1], states[i]);
      StepKeepsInv(states[i - 1], acts[i - 1]);
    }
  }

  lemma InvIsSafeAlone(s: State)
    requires Inv(s)
    ensures SafeAlone(s)
  {
    hide Inv, Enabled, Apply, Recoverable;
    forall states: seq<State>, acts: seq<Action>, i: nat {:trigger IsKernelRun(states, acts), states[i]} |
        IsKernelRun(states, acts) && states[0] == s && i < |states|
      ensures Recoverable(states[i])
    {
      KernelKeepsInv(states, acts, i);
      InvIsRecoverable(states[i]);
    }
  }
}

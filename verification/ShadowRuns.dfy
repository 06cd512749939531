/** Which runs of the shadow-page protocol keep the committed image recoverable. */
module ShadowRuns {
  import opened ShadowPages

  ghost predicate Step(s: State, a: Action, t: State) { Enabled(s, a) && t == Apply(s, a) }

  // ---------- One action at a time ----------

  lemma WriteKeepsInv(s: State, a: Action)
    requires CacheOk(s) && a.Write? && Enabled(s, a)
    ensures CacheOk(Apply(s, a)) && (Inv(s) ==> Inv(Apply(s, a)))
  {
    var t := Apply(s, a);
    assert Log(t) == Log(s);
    forall i | 0 <= i < |Log(t)| ensures GoodRecord(t, Log(t)[i]) { assert GoodRecord(s, Log(s)[i]); }
  }

  lemma FaultKeepsInv(s: State, a: Action)
    requires CacheOk(s) && a.Fault? && Enabled(s, a)
    ensures CacheOk(Apply(s, a)) && (Inv(s) ==> Inv(Apply(s, a)))
  {
    var t := Apply(s, a);
    assert Log(t) == Log(s) + [Record(a.p, s.mem[a.p])];
    assert !Logged(Log(s), a.p);
    LoggedPrefix(Log(s), [Record(a.p, s.mem[a.p])]);
    forall i | 0 <= i < |Log(t)| ensures GoodRecord(t, Log(t)[i]) {
      if i < |Log(s)| { assert GoodRecord(s, Log(s)[i]); }
    }
    assert Log(t)[|Log(s)|].page == a.p;
    assert Logged(Log(t), a.p);
    forall i | 0 <= i < |t.tail| ensures Inv(s) ==> HarmlessPage(t, t.tail[i].page) {
      if i < |s.tail| { assert Inv(s) ==> HarmlessPage(s, s.tail[i].page); }
    }
  }

  lemma LogMoveKeepsInv(s: State, a: Action)
    requires CacheOk(s) && (a.Fsync? || a.LogWriteBack?) && Enabled(s, a)
    ensures CacheOk(Apply(s, a)) && (Inv(s) ==> Inv(Apply(s, a)))
  {
    hide Replay, PagesFor;
    var t := Apply(s, a);
    assert Log(t) == Log(s);
    var moved := if a.Fsync? then s.tail else [s.tail[0]];
    LoggedPrefix(s.durable, moved);
    forall i | 0 <= i < |Log(t)| ensures GoodRecord(t, Log(t)[i]) { assert GoodRecord(s, Log(s)[i]); }
    forall i | 0 <= i < |t.tail| ensures Inv(s) ==> HarmlessPage(t, t.tail[i].page) {
      assert t.tail[i] == s.tail[i + 1];
      assert Inv(s) ==> HarmlessPage(s, s.tail[i + 1].page);
    }
  }

  /** The one place where the lock on a page, or the wait before it is changed, matters. */
  lemma WriteBackDisk(s: State, a: Action)
    requires Inv(s) && a.WriteBack? && Enabled(s, a)
    ensures Shape(Apply(s, a)) && DiskOk(Apply(s, a))
  {
    LoggedConcat(s.durable, s.tail, a.p);
    if a.p < |s.committed| && !Logged(s.durable, a.p) && Logged(s.tail, a.p) {
      var i :| 0 <= i < |s.tail| && s.tail[i].page == a.p;
      assert HarmlessPage(s, s.tail[i].page);
    }
  }

  lemma WriteBackKeepsInv(s: State, a: Action)
    requires CacheOk(s) && a.WriteBack? && Enabled(s, a)
    ensures CacheOk(Apply(s, a)) && (Inv(s) ==> Inv(Apply(s, a)))
  {
    hide DiskOk, Logged, HeaderPages;
    var t := Apply(s, a);
    assert Log(t) == Log(s);
    forall i | 0 <= i < |Log(t)| ensures GoodRecord(t, Log(t)[i]) { assert GoodRecord(s, Log(s)[i]); }
    if Inv(s) { WriteBackDisk(s, a); }
  }

  lemma MsyncKeepsInv(s: State, a: Action)
    requires CacheOk(s) && a.MsyncPage? && Enabled(s, a)
    ensures CacheOk(Apply(s, a)) && (Inv(s) ==> Inv(Apply(s, a)))
  {
    var t := Apply(s, a);
    assert Log(t) == Log(s);
    forall i | 0 <= i < |Log(t)| ensures GoodRecord(t, Log(t)[i]) { assert GoodRecord(s, Log(s)[i]); }
  }

  /** Whatever is on disk before it, the truncation finds all pages of the new image there. */
  lemma TruncateKeepsInv(s: State, a: Action)
    requires CacheOk(s) && a.Truncate? && Enabled(s, a)
    ensures Inv(Apply(s, a))
  {
  }

  lemma ProtectKeepsInv(s: State, a: Action)
    requires CacheOk(s) && a.Protect? && Enabled(s, a)
    ensures CacheOk(Apply(s, a)) && (Inv(s) ==> Inv(Apply(s, a)))
  {
  }

  lemma ReplayKeepsInv(s: State, a: Action)
    requires CacheOk(s) && a.ReplayRecord? && Enabled(s, a)
    ensures CacheOk(Apply(s, a)) && (Inv(s) ==> Inv(Apply(s, a)))
  {
    hide PagesFor, HeaderPages;
    var t := Apply(s, a);
    var next := s.phase.next;
    var r := Log(s)[next];
    assert GoodRecord(s, r);
    forall i | 0 <= i < |Log(t)| ensures GoodRecord(t, Log(t)[i]) { assert GoodRecord(s, Log(s)[i]); }
    assert Logged(Log(s), r.page);
    assert Log(s)[..next + 1] == Log(s)[..next] + [r];
    forall p: nat | p < |s.committed| && Logged(Log(s)[..next + 1], p) ensures t.mem[p] == s.committed[p] {
      LoggedConcat(Log(s)[..next], [r], p);
    }
    forall i | 0 <= i < |t.tail| ensures Inv(s) ==> HarmlessPage(t, t.tail[i].page) {
      assert Inv(s) ==> HarmlessPage(s, s.tail[i].page);
    }
  }

  lemma FinishReplayKeepsInv(s: State, a: Action)
    requires CacheOk(s) && a.FinishReplay? && Enabled(s, a)
    ensures CacheOk(Apply(s, a)) && (Inv(s) ==> Inv(Apply(s, a)))
  {
    var t := Apply(s, a);
    assert Log(s)[..s.phase.next] == Log(s);
    forall i | 0 <= i < |Log(t)| ensures GoodRecord(t, Log(t)[i]) { assert GoodRecord(s, Log(s)[i]); }
    if s.committed != [] { assert s.mem[0] == s.committed[0]; }
  }

  /** Loss of power, with any prefix of the log that was not synchronized and perhaps part of a record. */
  lemma CrashKeepsInv(s: State, a: Action)
    requires Inv(s) && a.Crash? && Enabled(s, a)
    ensures Inv(Apply(s, a))
  {
    var t := Apply(s, a);
    var kept := s.tail[..a.keep];
    assert t.durable == s.durable + kept;
    assert Log(t) == t.durable;
    LoggedPrefix(s.durable, kept);
    forall i | 0 <= i < |Log(t)| ensures GoodRecord(t, Log(t)[i]) {
      assert Log(t)[i] == Log(s)[i];
      assert GoodRecord(s, Log(s)[i]);
    }
  }

  /** Death of the process changes nothing that the kernel shows; power may be lost afterwards if no page
      was locked. */
  lemma KillKeepsInv(s: State, a: Action)
    requires CacheOk(s) && a.Kill? && Enabled(s, a)
    ensures CacheOk(Apply(s, a)) && (Inv(s) && s.locked == [] ==> Inv(Apply(s, a)))
  {
    var t := Apply(s, a);
    assert Log(t) == Log(s);
    forall i | 0 <= i < |Log(t)| ensures GoodRecord(t, Log(t)[i]) { assert GoodRecord(s, Log(s)[i]); }
    forall i | 0 <= i < |t.tail| && s.locked == [] ensures Inv(s) ==> HarmlessPage(t, t.tail[i].page) {
      assert Inv(s) ==> HarmlessPage(s, s.tail[i].page);
    }
  }

  /** No page of the contents was changed since the last commit. */
  predicate Settled(s: State)
    requires 0 < |s.mem|
  {
    s.committed != [] && forall i :: 0 <= i < |Log(s)| ==> HeaderPages(s.mem[0]) <= Log(s)[i].page
  }

  /** A file closed without a change is as it was. */
  lemma CloseKeepsInv(s: State, a: Action)
    requires CacheOk(s) && a.Close? && Enabled(s, a)
    ensures CacheOk(Apply(s, a))
    ensures Settled(s) ==> Apply(s, a).committed == s.committed
    ensures Inv(s) && Settled(s) ==> Inv(Apply(s, a))
  {
    hide PagesFor;
    if Settled(s) {
      forall p: nat | p < |s.committed| ensures s.mem[p] == s.committed[p] && !Logged(s.durable, p) {
        LoggedConcat(s.durable, s.tail, p);
      }
      assert s.mem[..|s.committed|] == s.committed;
    }
  }

  lemma OpenKeepsInv(s: State, a: Action)
    requires CacheOk(s) && a.Open? && Enabled(s, a)
    ensures CacheOk(Apply(s, a)) && (Inv(s) ==> Inv(Apply(s, a)))
  {
    var t := Apply(s, a);
    assert Log(t) == Log(s);
    forall i | 0 <= i < |Log(t)| ensures GoodRecord(t, Log(t)[i]) { assert GoodRecord(s, Log(s)[i]); }
    forall i | 0 <= i < |t.tail| ensures Inv(s) ==> HarmlessPage(t, t.tail[i].page) {
      assert Inv(s) ==> HarmlessPage(s, s.tail[i].page);
    }
  }

  lemma UnlockedTailIsEmpty(s: State)
    ensures Held(s) && s.locked == [] && !s.phase.Shadowing? ==> s.tail == []
  {
    if s.tail != [] {
      var p := s.tail[0].page;
    }
  }

  lemma OtherKeepsInv(s: State, a: Action)
    requires CacheOk(s) && Enabled(s, a)
    requires a.SetSize? || a.Lock? || a.LowerLimit? || a.Resume? || a.Munlock? || a.StartCommit? || a.StartRollback?
    ensures CacheOk(Apply(s, a)) && (Inv(s) ==> Inv(Apply(s, a)))
  {
    var t := Apply(s, a);
    assert Log(t) == Log(s);
    forall i | 0 <= i < |Log(t)| ensures GoodRecord(t, Log(t)[i]) { assert GoodRecord(s, Log(s)[i]); }
    UnlockedTailIsEmpty(s);
    forall i | 0 <= i < |t.tail| ensures Inv(s) ==> HarmlessPage(t, t.tail[i].page) {
      assert Inv(s) ==> HarmlessPage(s, s.tail[i].page);
    }
  }

  // ---------- Any action ----------

  /** Afterwards a loss of power may destroy what the kernel still has: the process died with locked
      pages, or closed the file with changes that were not committed. */
  predicate Exposes(s: State, a: Action)
    requires Enabled(s, a)
  {
    (a.Kill? && s.locked != []) || (a.Close? && !Settled(s))
  }

  /** Every action but a loss of power keeps what the kernel shows recoverable. */
  lemma StepKeepsCache(s: State, a: Action)
    requires CacheOk(s) && Enabled(s, a) && !a.Crash?
    ensures CacheOk(Apply(s, a))
    ensures Inv(s) && !Exposes(s, a) ==> Inv(Apply(s, a))
  {
    hide Inv, CacheOk, Apply, Enabled, Settled;
    match a
    case Write(_, _) => WriteKeepsInv(s, a);
    case Fault(_) => FaultKeepsInv(s, a);
    case Fsync => LogMoveKeepsInv(s, a);
    case LogWriteBack => LogMoveKeepsInv(s, a);
    case WriteBack(_) => WriteBackKeepsInv(s, a);
    case MsyncPage => MsyncKeepsInv(s, a);
    case Truncate =>
      TruncateKeepsInv(s, a);
      InvHasCache(Apply(s, a));
    case Protect => ProtectKeepsInv(s, a);
    case ReplayRecord => ReplayKeepsInv(s, a);
    case FinishReplay => FinishReplayKeepsInv(s, a);
    case Kill => KillKeepsInv(s, a);
    case Close => CloseKeepsInv(s, a);
    case Open(_) => OpenKeepsInv(s, a);
    case _ => OtherKeepsInv(s, a);
  }

  lemma InvHasCache(s: State)
    ensures Inv(s) ==> CacheOk(s)
  {
  }

  /** Every action that does not expose the file keeps it recoverable from the disk, loss of power included. */
  lemma StepKeepsInv(s: State, a: Action)
    requires Inv(s) && Enabled(s, a) && !Exposes(s, a)
    ensures Inv(Apply(s, a))
  {
    hide Inv, CacheOk, Apply, Enabled, Exposes;
    InvHasCache(s);
    if a.Crash? {
      CrashKeepsInv(s, a);
    } else {
      StepKeepsCache(s, a);
    }
  }

  // ---------- Single steps ----------

  lemma CrashStep(s: State, keep: nat, tear: bool, t: State)
    requires keep <= |s.tail| && (tear ==> s.torn || keep < |s.tail|)
    requires t == s.(mem := s.disk, durable := s.durable + s.tail[..keep], tail := [], torn := tear || s.torn,
                     locked := [], writable := [], phase := Down)
    ensures Step(s, Crash(keep, tear), t)
  {
  }

  lemma KillStep(s: State, t: State)
    requires Up(s) && t == s.(locked := [], writable := [], phase := Down)
    ensures Step(s, Kill, t)
  {
  }

  lemma CloseStep(s: State, t: State)
    requires s.phase.Running? && s.locked == [] && 0 < |s.mem| && HeaderPages(s.mem[0]) <= |s.mem|
    requires t == s.(durable := [], torn := false, tail := [], logExists := false, writable := [], phase := Down,
                     committed := s.mem[..HeaderPages(s.mem[0])])
    ensures Step(s, Close, t) && Enabled(s, Close) && (Settled(s) ==> !Exposes(s, Close))
  {
  }

  lemma OpenStep(s: State, canLock: bool, t: State)
    requires s.phase.Down? && 0 < |s.mem|
    requires t == if s.logExists then
                    s.(size := HeaderPages(s.mem[0]), writable := seq(|s.mem|, p => true),
                       maxLocked := if canLock then s.limit else 0, phase := Replaying(0, true))
                  else
                    s.(size := HeaderPages(s.mem[0]),
                       writable := ReadOnly(seq(|s.mem|, p => true), HeaderPages(s.mem[0])),
                       maxLocked := if canLock then s.limit else 0, logExists := true, phase := Running)
    ensures Step(s, Open(canLock), t)
  {
  }

  lemma TruncateStep(s: State, t: State)
    requires s.phase.Syncing? && s.phase.next == s.size && 0 < |s.mem| && HeaderPages(s.mem[0]) <= |s.mem|
    requires t == s.(durable := [], torn := false, tail := [], phase := Protecting,
                     committed := s.mem[..HeaderPages(s.mem[0])])
    ensures Step(s, Truncate, t)
  {
  }

  // ---------- Whole runs ----------

  /** `states` is what a storage file goes through when `acts` happen to it one after the other. */
  ghost predicate IsRun(states: seq<State>, acts: seq<Action>) {
    && |states| == |acts| + 1
    && Init(states[0])
    && forall i :: 0 <= i < |acts| ==> Step(states[i], acts[i], states[i + 1])
  }

  lemma ExtendRun(states: seq<State>, acts: seq<Action>, a: Action, t: State)
    requires IsRun(states, acts) && Step(states[|acts|], a, t)
    ensures IsRun(states + [t], acts + [a])
  {
  }

  lemma InitInv(s: State)
    requires Init(s)
    ensures Inv(s)
  {
  }

  ghost predicate ExposesAt(states: seq<State>, acts: seq<Action>, j: nat)
    requires IsRun(states, acts) && j < |acts|
  {
    Step(states[j], acts[j], states[j + 1]) && Exposes(states[j], acts[j])
  }

  /** Some action has exposed the file, and there was no commit since. */
  ghost predicate Exposed(states: seq<State>, acts: seq<Action>, i: nat)
    requires IsRun(states, acts) && i <= |acts|
  {
    exists j: nat :: j < i && ExposesAt(states, acts, j) && forall k :: j < k < i ==> acts[k] != Truncate
  }

  /** Power is not lost while the file is exposed. */
  ghost predicate Spared(states: seq<State>, acts: seq<Action>)
    requires IsRun(states, acts)
  {
    forall i :: 0 <= i < |acts| && acts[i].Crash? ==> !Exposed(states, acts, i)
  }

  lemma ExposedNext(states: seq<State>, acts: seq<Action>, i: nat)
    requires IsRun(states, acts) && i < |acts|
    ensures ExposesAt(states, acts, i) ==> Exposed(states, acts, i + 1)
    ensures Exposed(states, acts, i) && acts[i] != Truncate ==> Exposed(states, acts, i + 1)
  {
    hide IsRun, ExposesAt;
    if Exposed(states, acts, i) && acts[i] != Truncate {
      var j: nat :| j < i && ExposesAt(states, acts, j) && forall k :: j < k < i ==> acts[k] != Truncate;
      assert forall k :: j < k < i + 1 ==> acts[k] != Truncate;
    }
  }

  /** Along a run that is spared the kernel's view is kept, and the disk is recoverable unless exposed. */
  lemma {:induction false} EveryStateInv(states: seq<State>, acts: seq<Action>, i: nat)
    requires IsRun(states, acts) && Spared(states, acts) && i < |states|
    ensures CacheOk(states[i]) && (Inv(states[i]) || Exposed(states, acts, i))
  {
    hide Inv, CacheOk, Init, Enabled, Apply, Exposes, Exposed;
    if i == 0 {
      InitInv(states[0]);
      InvHasCache(states[0]);
    } else {
      var s, a := states[i - 1], acts[i - 1];
      EveryStateInv(states, acts, i - 1);
      assert Step(s, a, states[i]);
      ExposedNext(states, acts, i - 1);
      if a.Crash? {
        CrashKeepsInv(s, a);
        InvHasCache(states[i]);
      } else {
        StepKeepsCache(s, a);
        if a.Truncate? { TruncateKeepsInv(s, a); }
      }
    }
  }

  /** As long as nothing exposes the file, power may be lost at any time. */
  lemma {:induction false} UnexposedInv(states: seq<State>, acts: seq<Action>, i: nat)
    requires IsRun(states, acts) && i < |states|
    requires forall j: nat :: j < i ==> !ExposesAt(states, acts, j)
    ensures Inv(states[i])
  {
    hide Inv, Init, Enabled, Apply, Exposes;
    if i == 0 {
      InitInv(states[0]);
    } else {
      UnexposedInv(states, acts, i - 1);
      assert Step(states[i - 1], acts[i - 1], states[i]);
      assert !ExposesAt(states, acts, i - 1);
      StepKeepsInv(states[i - 1], acts[i - 1]);
    }
  }

  /** In every run in which power is not lost while the file is exposed, in every state, failures and
      interrupted recoveries included: what the kernel shows can be recovered to the last committed image,
      and so can what is on disk, unless the file is exposed just then. */
  lemma EveryRunIsRecoverable(states: seq<State>, acts: seq<Action>)
    requires IsRun(states, acts) && Spared(states, acts)
    ensures forall i :: 0 <= i < |states| ==> RecoverableFromCache(states[i])
    ensures forall i :: 0 <= i < |states| && !Exposed(states, acts, i) ==> Recoverable(states[i])
  {
    hide Inv, CacheOk, Exposed, Spared, Recoverable, RecoverableFromCache;
    forall i | 0 <= i < |states|
      ensures RecoverableFromCache(states[i]) && (!Exposed(states, acts, i) ==> Recoverable(states[i]))
    {
      EveryStateInv(states, acts, i);
      CacheIsRecoverable(states[i]);
      if !Exposed(states, acts, i) { InvIsRecoverable(states[i]); }
    }
  }
}

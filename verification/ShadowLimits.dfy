/** Where the guarantees of the shadow-page protocol end: exact conditions, and runs that fail. */
module ShadowLimits {
  import opened ShadowPages
  import opened ShadowRuns
  import opened ShadowAtomicity

  // ---------- After the death of the process ----------

  /** Another page than `p`, with the same header. */
  function Other(p: Page): Page { p.(body := p.body + [0]) }

  lemma OtherDiffers(p: Page)
    ensures Other(p) != p && Other(p).fileSize == p.fileSize && HeaderPages(Other(p)) == HeaderPages(p)
  {
    assert |Other(p).body| == |p.body| + 1;
  }

  /** A changed page whose only record is not durable reaches the disk, and then power is lost. */
  lemma HarmfulPageFails(s: State, p: nat)
    requires CacheOk(s) && !HarmlessPage(s, p) && p < |s.mem|
    ensures !SafeAlone(s)
  {
    hide CacheOk;
    assert Shape(s) by { CacheHasShape(s); }
    var t := s.(disk := s.disk[p := s.mem[p]]);
    var states, acts := [s, t], [WriteBack(p)];
    assert IsKernelRun(states, acts);
    NotReplayed(t.durable, t.disk, p);
    assert !Recoverable(states[1]);
  }

  lemma CacheHasShape(s: State)
    requires CacheOk(s)
    ensures Shape(s)
  {
  }

  lemma {:induction false} NotReplayed(log: seq<Record>, pages: seq<Page>, p: nat)
    requires p < |pages| && !Logged(log, p)
    ensures Replay(log, pages)[p] == pages[p]
    decreases |log|
  {
    if log != [] {
      assert log[0].page != p;
      assert forall i :: 0 <= i < |log| - 1 ==> log[1..][i] == log[i + 1];
      NotReplayed(log[1..], Put(pages, log[0]), p);
    }
  }

  /** After the process has died the kernel and power can do no harm, if and only if every page whose only
      record was not durable was still unchanged. */
  lemma DeathIsSafeIff(s: State)
    requires Inv(s) && Enabled(s, Kill)
    ensures SafeAlone(Apply(s, Kill))
            <==> forall i :: 0 <= i < |s.tail| ==> (
                   var p := s.tail[i].page;
                   Logged(s.durable, p) || (p < |s.committed| ==> s.mem[p] == s.committed[p]))
  {
    hide CacheOk, SafeAlone;
    var t := Apply(s, Kill);
    InvHasCache(s);
    KillKeepsInv(s, Kill);
    CacheHasShape(t);
    if i :| 0 <= i < |s.tail| && !HarmlessPage(t, t.tail[i].page) {
      TailInRange(s, i);
      HarmfulPageFails(t, t.tail[i].page);
    } else {
      InvIsSafeAlone(t);
    }
  }

  lemma TailInRange(s: State, i: nat)
    requires CacheOk(s) && i < |s.tail|
    ensures s.tail[i].page < |s.mem|
  {
    assert s.tail[i] == Log(s)[|s.durable| + i];
    assert GoodRecord(s, Log(s)[|s.durable| + i]);
  }

  // ---------- Closing a file ----------

  /** If `disk` is what has reached the disk and the file is closed, it is safe from then on. */
  ghost predicate ClosesSafely(s: State, disk: seq<Page>)
    requires Enabled(s, Close)
  {
    Inv(s.(disk := disk)) ==> SafeAlone(Apply(s.(disk := disk), Close))
  }

  /** A page that a durable record covers may be anything on disk. */
  lemma AnyPageOnDisk(s: State, p: nat)
    requires Inv(s) && Enabled(s, Close) && s.committed != [] && Logged(Log(s), p) && p < |s.mem|
    ensures Inv(s.(disk := s.disk[p := Other(s.mem[p])]))
  {
    hide PagesFor;
    UnlockedTailIsEmpty(s);
    OtherDiffers(s.mem[p]);
    var t := s.(disk := s.disk[p := Other(s.mem[p])]);
    assert s.tail == [];
    assert Log(s) == s.durable;
    forall i | 0 <= i < |Log(t)| ensures GoodRecord(t, Log(t)[i]) { assert GoodRecord(s, Log(s)[i]); }
  }

  lemma ClosedDiffers(s: State, p: nat)
    requires Inv(s) && Enabled(s, Close) && p < HeaderPages(s.mem[0]) && |s.disk| == |s.mem|
    ensures !SafeAlone(Apply(s.(disk := s.disk[p := Other(s.mem[p])]), Close))
  {
    OtherDiffers(s.mem[p]);
    var t := Apply(s.(disk := s.disk[p := Other(s.mem[p])]), Close);
    var states: seq<State>, acts: seq<Action> := [t], [];
    assert IsKernelRun(states, acts);
    assert Replay(t.durable, t.disk) == t.disk;
    assert !Recoverable(states[0]) by {
      assert t.disk[..|t.committed|][p] != t.committed[p];
    }
  }

  /** Closing is a commit, whatever has or has not reached the disk, if and only if no page of the contents
      was changed since the last one. */
  lemma CloseIsSafeIff(s: State)
    requires Inv(s) && Enabled(s, Close) && s.committed != []
    ensures (forall disk :: ClosesSafely(s, disk)) <==> Settled(s)
  {
    hide Inv, CacheOk, SafeAlone;
    InvHasCache(s);
    CacheHasShape(s);
    if Settled(s) {
      forall disk ensures ClosesSafely(s, disk) {
        var t := s.(disk := disk);
        assert Log(t) == Log(s);
        if Inv(t) {
          InvHasCache(t);
          CloseKeepsInv(t, Close);
          InvIsSafeAlone(Apply(t, Close));
        }
      }
    } else {
      var i :| 0 <= i < |Log(s)| && Log(s)[i].page < HeaderPages(s.mem[0]);
      var p := Log(s)[i].page;
      AnyPageOnDisk(s, p);
      ClosedDiffers(s, p);
      assert !ClosesSafely(s, s.disk[p := Other(s.mem[p])]);
    }
  }
}

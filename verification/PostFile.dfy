/** The transaction code of a mapped file.  Every atomic effect of the code, and every page or log
    write the kernel slips in between two of them, extends a run of the shadow-page protocol, so
    what is proved about runs holds at each point where this code can be stopped.  A method that
    promises `Later()` keeps the file as safe from a loss of power as it was. */
module PostFiles {
  import opened ShadowPages
  import opened ShadowRuns
  import opened ShadowAtomicity

  class PostFile {
    const limit: nat
    // the mapped view, the disk and the transaction log
    var mem: seq<Page>
    var disk: seq<Page>
    var durable: seq<Record>
    var torn: bool
    var tail: seq<Record>
    var logExists: bool
    var writable: seq<bool>
    // the object's own fields
    var lockedPage: seq<nat>
    var maxLockedPages: nat
    var size: nat
    // history
    ghost var phase: Phase
    ghost var committed: seq<Page>
    ghost var states: seq<State>
    ghost var acts: seq<Action>

    ghost function Now(): State
      reads this
    {
      State(mem, disk, durable, torn, tail, logExists, writable, lockedPage, maxLockedPages, limit, size, phase,
            committed)
    }

    /** The history is a run of the protocol that ends in the present state. */
    ghost predicate History()
      reads this
    {
      |states| == |acts| + 1 && IsRun(states, acts) && states[|acts|] == Now()
    }

    /** What the kernel shows can be recovered, or is between two steps of the code that keeps it so. */
    ghost predicate Valid()
      reads this
    {
      History() && CacheOk(Now())
    }

    /** Power may be lost now. */
    ghost predicate Safe()
      reads `states
    {
      states != [] && Inv(states[|states| - 1])
    }

    /** The history has gone on, and has not exposed the file to a loss of power. */
    twostate predicate Later()
      reads `states
    {
      old(states) <= states && (old(Safe()) ==> Safe())
    }

    constructor (pages: seq<Page>, maxLocked: nat)
      requires 0 < |pages| && HeaderPages(pages[0]) <= |pages|
      ensures Valid() && Safe() && phase == Down && !logExists
      ensures disk == mem == pages && committed == pages[..HeaderPages(pages[0])] && limit == maxLocked
      ensures states == [Now()]
    {
      mem, disk, durable, torn, tail, logExists, writable := pages, pages, [], false, [], false, [];
      limit, lockedPage, maxLockedPages, size := maxLocked, [], maxLocked, 0;
      phase, committed := Down, pages[..HeaderPages(pages[0])];
      states := [State(pages, pages, [], false, [], false, [], [], maxLocked, maxLocked, 0, Down,
                       pages[..HeaderPages(pages[0])])];
      acts := [];
      new;
      InitInv(Now());
    }

    /** What the code relies on between its steps. */
    ghost predicate Basics()
      reads this
    {
      && 0 < |mem| == |disk| && |committed| <= |mem|
      && (committed != [] ==> HeaderPages(committed[0]) == |committed|)
      && (phase != Down ==> |writable| == |mem| && HeaderPages(mem[0]) <= |mem|)
      && (phase == Running ==> HeaderPages(mem[0]) <= size <= |mem| && !torn)
      && (phase.Syncing? ==> HeaderPages(mem[0]) <= size <= |mem| && lockedPage == [])
      && (maxLockedPages == 0 ==> lockedPage == [])
      && (phase == Running && lockedPage == [] ==> tail == [])
    }

    lemma ValidBasics()
      requires Valid()
      ensures Basics()
    {
      UnlockedTailIsEmpty(Now());
    }

    lemma ValidReplayed()
      requires Valid() && phase.Replaying? && phase.next == |durable + tail|
      ensures |committed| <= |mem| && mem[..|committed|] == committed
    {
      ReplayedIsCommitted(Now());
    }

    lemma ValidUnopened()
      requires Valid() && phase == Down
      ensures lockedPage == []
      ensures !logExists ==> durable == [] && tail == [] && !torn
      ensures !logExists ==> |committed| <= |mem| && mem[..|committed|] == committed
      ensures !logExists ==> 0 < |mem| && |committed| == HeaderPages(mem[0])
    {
    }

    /** If the process died now, the last committed image could be recovered; and also if power were lost
        now, as long as the file is safe. */
    lemma ValidIsRecoverable()
      requires Valid()
      ensures RecoverableFromCache(Now()) && (Safe() ==> Recoverable(Now()))
    {
      hide Inv, CacheOk, Recoverable, RecoverableFromCache;
      CacheIsRecoverable(Now());
      if Safe() { InvIsRecoverable(Now()); }
    }

    /** So it was at each point of the history, except where the file was exposed. */
    lemma HistoryIsRecoverable()
      requires History() && Spared(states, acts)
      ensures forall i :: 0 <= i < |states| ==> RecoverableFromCache(states[i])
      ensures forall i :: 0 <= i < |states| && !Exposed(states, acts, i) ==> Recoverable(states[i])
    {
      EveryRunIsRecoverable(states, acts);
    }

    ghost method Append(a: Action)
      requires IsRun(states, acts) && Step(states[|acts|], a, Now())
      modifies `states, `acts
      ensures History() && states == old(states) + [Now()] && acts == old(acts) + [a]
    {
      hide Step;
      ExtendRun(states, acts, a, Now());
      states, acts := states + [Now()], acts + [a];
    }

    ghost method Note(a: Action)
      requires IsRun(states, acts) && CacheOk(states[|acts|]) && Step(states[|acts|], a, Now()) && !a.Crash?
      modifies `states, `acts
      ensures Valid() && states == old(states) + [Now()] && acts == old(acts) + [a]
      ensures old(Safe()) && !Exposes(old(states)[|old(acts)|], a) ==> Safe()
      ensures a == Truncate ==> Safe()
    {
      hide Inv, CacheOk, Enabled, Apply, Exposes;
      ghost var s := states[|acts|];
      StepKeepsCache(s, a);
      if a == Truncate { TruncateKeepsInv(s, a); }
      Append(a);
    }

    // ---------- Single effects ----------

    /** mprotect of one page, then writev of its image to the log. */
    method LogPage(p: nat)
      requires Valid() && phase == Running && p < |mem| == |writable| && !writable[p]
      modifies `writable, `tail, `phase, `states, `acts
      ensures Valid() && phase == Shadowing(p) && writable == old(writable)[p := true]
      ensures tail == old(tail) + [Record(p, mem[p])]
      ensures Later()
    {
      hide Inv, CacheOk, IsRun;
      writable := writable[p := true];
      tail := tail + [Record(p, mem[p])];
      phase := Shadowing(p);
      Note(Fault(p));
    }

    method Mlock(p: nat)
      requires Valid() && phase == Shadowing(p) && |lockedPage| < maxLockedPages
      modifies `lockedPage, `phase, `states, `acts
      ensures Valid() && phase == Running && lockedPage == old(lockedPage) + [p]
      ensures Later()
    {
      hide Inv, CacheOk, IsRun;
      lockedPage := lockedPage + [p];
      phase := Running;
      Note(Lock);
    }

    method FsyncLog()
      requires Valid() && phase != Down
      modifies `durable, `tail, `states, `acts
      ensures Valid() && durable == old(durable + tail) && tail == []
      ensures Later()
    {
      hide Inv, CacheOk, IsRun;
      durable, tail := durable + tail, [];
      Note(Fsync);
    }

    method MunlockLast()
      requires Valid() && (phase.Running? || phase.Shadowing?) && lockedPage != [] && tail == []
      modifies `lockedPage, `states, `acts
      ensures Valid() && lockedPage == old(lockedPage)[..|old(lockedPage)| - 1]
      ensures Later()
    {
      hide Inv, CacheOk, IsRun;
      lockedPage := lockedPage[..|lockedPage| - 1];
      Note(Munlock);
    }

    method LowerLimitToLocked()
      requires Valid() && phase.Shadowing? && lockedPage != []
      modifies `maxLockedPages, `states, `acts
      ensures Valid() && maxLockedPages == |lockedPage|
      ensures Later()
    {
      hide Inv, CacheOk, IsRun;
      maxLockedPages := |lockedPage|;
      Note(LowerLimit);
    }

    ghost method LeaveHandler()
      requires Valid() && phase.Shadowing? && tail == [] && lockedPage == []
      modifies `phase, `states, `acts
      ensures Valid() && phase == Running
      ensures Later()
    {
      hide Inv, CacheOk, IsRun;
      phase := Running;
      Note(Resume);
    }

    ghost method EnterCommit()
      requires Valid() && phase == Running && lockedPage == []
      modifies `phase, `states, `acts
      ensures Valid() && phase == Syncing(0, false)
      ensures Later()
    {
      hide Inv, CacheOk, IsRun;
      phase := Syncing(0, false);
      Note(StartCommit);
    }

    ghost method EnterRollback()
      requires Valid() && phase == Running
      modifies `phase, `states, `acts
      ensures Valid() && phase == Replaying(0, false)
      ensures Later()
    {
      hide Inv, CacheOk, IsRun;
      phase := Replaying(0, false);
      Note(StartRollback);
    }

    method SyncPage(k: nat)
      requires Valid() && phase.Syncing? && phase.next == k < size <= |mem| == |disk|
      modifies `disk, `phase, `states, `acts
      ensures Valid() && phase == Syncing(k + 1, old(phase).opening) && disk == old(disk)[k := mem[k]]
      ensures Later()
    {
      hide Inv, CacheOk, IsRun;
      disk := disk[k := mem[k]];
      phase := Syncing(k + 1, phase.opening);
      Note(MsyncPage);
    }

    /** The commit point. */
    method TruncateLog()
      requires Valid() && phase.Syncing? && phase.next == size && 0 < |mem| && HeaderPages(mem[0]) <= |mem|
      modifies `durable, `torn, `tail, `phase, `committed, `states, `acts
      ensures Valid() && phase == Protecting && durable == [] && tail == [] && !torn
      ensures committed == mem[..HeaderPages(mem[0])]
      ensures Later() && Safe()
    {
      hide IsRun, Step, PagesFor, Inv, CacheOk, Apply;
      ghost var s := Now();
      durable, torn, tail := [], false, [];
      phase, committed := Protecting, mem[..HeaderPages(mem[0])];
      TruncateStep(s, Now());
      Note(Truncate);
    }

    method ProtectPages()
      requires Valid() && phase == Protecting
      modifies `writable, `phase, `states, `acts
      ensures Valid() && phase == Running && writable == ReadOnly(old(writable), size)
      ensures Later()
    {
      hide Inv, CacheOk, IsRun;
      writable := ReadOnly(writable, size);
      phase := Running;
      Note(Protect);
    }

    /** Copies record `i` of the log back into memory. */
    method ReplayOne(i: nat)
      requires Valid() && phase.Replaying? && phase.next == i < |durable + tail|
      modifies `mem, `phase, `states, `acts
      ensures Valid() && phase == Replaying(i + 1, old(phase).opening)
      ensures mem == Put(old(mem), (durable + tail)[i])
      ensures Later()
    {
      hide Inv, CacheOk, IsRun;
      mem := Put(mem, (durable + tail)[i]);
      phase := Replaying(i + 1, phase.opening);
      Note(ReplayRecord);
    }

    method TakeSizeFromHeader()
      requires Valid() && phase.Replaying? && phase.next == |durable + tail| && 0 < |mem|
      modifies `size, `phase, `states, `acts
      ensures Valid() && phase == if old(phase).opening then Syncing(0, true) else Running
      ensures size == if torn then old(size) else HeaderPages(mem[0])
      ensures Later()
    {
      hide Inv, CacheOk, IsRun;
      if !torn {
        size := HeaderPages(mem[0]);
      }
      phase := if phase.opening then Syncing(0, true) else Running;
      Note(FinishReplay);
    }

    lemma ReadOnlyFrom(n: nat, size: nat)
      ensures var r := ReadOnly(seq(n, p => true), size);
              |r| == n && forall p :: 0 <= p < n ==> r[p] == (size <= p)
    {
    }

    /** Mapping a file that has no log.  Whether pages can be locked is tried out before. */
    method MapClean(canLock: bool)
      requires Valid() && phase == Down && 0 < |mem| && !logExists
      modifies `size, `writable, `maxLockedPages, `logExists, `phase, `states, `acts
      ensures Valid() && phase == Running && size == HeaderPages(mem[0])
      ensures |writable| == |mem| && maxLockedPages == if canLock then limit else 0
      ensures forall p :: 0 <= p < |writable| ==> writable[p] == (size <= p)
      ensures Later()
    {
      hide IsRun, Step, PagesFor, Inv, CacheOk, ReadOnly, HeaderPages, Enabled;
      ghost var s := Now();
      size := HeaderPages(mem[0]);
      ReadOnlyFrom(|mem|, size);
      writable := ReadOnly(seq(|mem|, p => true), size);
      maxLockedPages := if canLock then limit else 0;
      logExists, phase := true, Running;
      OpenStep(s, canLock, Now());
      Note(Open(canLock));
    }

    /** Mapping a file whose log was left by an earlier session. */
    method MapForRecovery(canLock: bool)
      requires Valid() && phase == Down && 0 < |mem| && logExists
      modifies `size, `writable, `maxLockedPages, `phase, `states, `acts
      ensures Valid() && phase == Replaying(0, true) && size == HeaderPages(mem[0])
      ensures maxLockedPages == (if canLock then limit else 0) && writable == seq(|mem|, p => true)
      ensures Later()
    {
      hide IsRun, Step, PagesFor, Inv, CacheOk, HeaderPages, Enabled;
      ghost var s := Now();
      size := HeaderPages(mem[0]);
      writable := seq(|mem|, p => true);
      maxLockedPages := if canLock then limit else 0;
      phase := Replaying(0, true);
      OpenStep(s, canLock, Now());
      Note(Open(canLock));
    }

    /** A page that was on disk as memory has it still is. */
    static ghost predicate KeptOnDisk(before: seq<Page>, after: seq<Page>, pages: seq<Page>) {
      && |before| == |after|
      && forall p :: 0 <= p < |before| && p < |pages| && before[p] == pages[p] ==> after[p] == pages[p]
    }

    /** The first `n` pages are on disk as memory has them. */
    ghost predicate Synced(n: nat)
      reads `mem, `disk
    {
      n <= |mem| == |disk| && forall p :: 0 <= p < n ==> disk[p] == mem[p]
    }

    method KernelWritesPage(p: nat)
      requires Valid() && p < |mem| == |disk| && p !in lockedPage
      modifies `disk, `states, `acts
      ensures Valid() && disk == old(disk)[p := mem[p]]
      ensures Later()
    {
      hide Inv, CacheOk, IsRun;
      disk := disk[p := mem[p]];
      Note(WriteBack(p));
    }

    method KernelWritesRecord()
      requires Valid() && tail != []
      modifies `durable, `tail, `states, `acts
      ensures Valid() && durable + tail == old(durable + tail)
      ensures Later()
    {
      hide Inv, CacheOk, IsRun;
      durable, tail := durable + [tail[0]], tail[1..];
      Note(LogWriteBack);
    }

    /** Writes the kernel may do at any time, also after the process has died: unlocked pages to the file,
        log data to the log. */
    method Background()
      requires Valid()
      modifies `disk, `durable, `tail, `states, `acts
      ensures Valid() && durable + tail == old(durable + tail)
      ensures old(tail) == [] ==> durable == old(durable) && tail == []
      ensures |disk| == |old(disk)| && KeptOnDisk(old(disk), disk, mem)
      ensures Later()
    {
      hide Inv, CacheOk, IsRun;
      ghost var log := durable + tail;
      var n: int := *;
      while n > 0
        invariant Valid() && durable + tail == log
        invariant old(tail) == [] ==> durable == old(durable) && tail == []
        invariant |disk| == |old(disk)| && KeptOnDisk(old(disk), disk, mem)
        invariant Later()
      {
        var p: int := *;
        ValidBasics();
        if 0 <= p < |mem| && p !in lockedPage {
          KernelWritesPage(p);
        } else if tail != [] {
          KernelWritesRecord();
        }
        n := n - 1;
      }
    }

    // ---------- The code ----------

    method FlushLogBuffer()
      requires Valid() && (phase.Running? || phase.Shadowing?)
      modifies `disk, `durable, `tail, `lockedPage, `states, `acts
      ensures Valid() && tail == [] && lockedPage == []
      ensures durable == old(durable + tail)
      ensures Later()
    {
      hide Inv, IsRun, CacheOk;
      ghost var log := durable + tail;
      FsyncLog();
      Background();
      while lockedPage != []
        invariant Valid() && tail == [] && durable == log
        invariant Later()
        decreases |lockedPage|
      {
        MunlockLast();
        Background();
      }
    }

    /** Locks the page if the limit and the system allow it; if the system does not, the limit is lowered. */
    method TryLock(p: nat) returns (held: bool)
      requires Valid() && phase == Shadowing(p)
      modifies `lockedPage, `maxLockedPages, `phase, `states, `acts
      ensures Valid() && phase == if held then Running else Shadowing(p)
      ensures Later()
    {
      hide Enabled, IsRun, Inv, CacheOk;
      if |lockedPage| < maxLockedPages {
        held := *;
        if held {
          Mlock(p);
          return;
        }
        if lockedPage != [] {
          LowerLimitToLocked();
        }
      }
      return false;
    }

    /** The fault handler: after it the page may be written, and its committed image is safe. */
    method CreateShadowPage(p: nat)
      requires Valid() && phase == Running && p < |mem| == |writable| && !writable[p]
      modifies `disk, `durable, `tail, `writable, `lockedPage, `maxLockedPages, `phase, `states, `acts
      ensures Valid() && phase == Running && writable == old(writable)[p := true]
      ensures durable + tail == old(durable + tail) + [Record(p, mem[p])]
      ensures Later()
    {
      hide Enabled, IsRun, PostFile.Basics, Inv, CacheOk, PostFile.KeptOnDisk;
      ghost var log := durable + tail + [Record(p, mem[p])];
      LogPage(p);
      assert durable + tail == log;
      Background();
      if maxLockedPages == 0 {
        FsyncLog();  // the log was opened with O_SYNC
        ValidBasics();
        LeaveHandler();
        return;
      }
      var held := TryLock(p);
      if !held {
        FlushLogBuffer();
        LeaveHandler();
      }
    }

    /** A store by the application; a read-only page faults first. */
    method Store(p: nat, v: Page)
      requires Valid() && phase == Running && p < |mem|
      requires p == 0 ==> mem[0].fileSize <= v.fileSize && HeaderPages(v) <= size
      modifies `mem, `disk, `durable, `tail, `writable, `lockedPage, `maxLockedPages, `phase, `states, `acts
      ensures Valid() && phase == Running && p < |old(writable)| && mem == old(mem)[p := v]
      ensures writable == old(writable)[p := true]
      ensures durable + tail == old(durable + tail) + if old(writable)[p] then [] else [Record(p, old(mem)[p])]
      ensures Later()
    {
      hide Inv, CacheOk, IsRun;
      ValidBasics();
      if !writable[p] {
        CreateShadowPage(p);
        ValidBasics();
      }
      mem := mem[p := v];
      Note(Write(p, v));
    }

    method Resize(bytes: nat) returns (ok: bool)
      requires Valid() && phase == Running && 0 < |mem| && HeaderPages(mem[0]) <= PagesFor(bytes)
      modifies `size, `states, `acts
      ensures Valid() && ok == (bytes <= PAGE_SIZE * |mem|)
      ensures if ok then JustHold(size, bytes) else size == old(size)
      ensures Later()
    {
      hide Inv, CacheOk, IsRun;
      var n := PagesFor(bytes);
      PagesJustHold(bytes, n);
      if n > |mem| { return false; }
      size := n;
      Note(SetSize(n));
      return true;
    }

    /** msync of the mapped pages, one page after the other. */
    method SyncPages()
      requires Valid() && phase.Syncing? && phase.next == 0
      modifies `disk, `durable, `tail, `phase, `states, `acts
      ensures Valid() && phase == Syncing(size, old(phase).opening) && Synced(size)
      ensures Later()
    {
      hide Inv, CacheOk, IsRun, Step;
      ValidBasics();
      var k := 0;
      while k < size
        invariant Valid() && k <= size <= |mem| && phase == Syncing(k, old(phase).opening) && Synced(k)
        invariant Later()
      {
        ValidBasics();
        SyncPage(k);
        Background();
        k := k + 1;
      }
    }

    /** The synchronous write of the mapped pages, the truncation and the protection of a commit. */
    method SyncAndTruncate()
      requires Valid() && phase.Syncing? && phase.next == 0
      modifies `disk, `durable, `tail, `torn, `writable, `phase, `committed, `states, `acts
      ensures Valid() && phase == Running && durable == [] && tail == [] && !torn
      ensures 0 < |mem| && HeaderPages(mem[0]) <= size <= |mem| == |writable|
      ensures committed == mem[..HeaderPages(mem[0])] && Synced(size)
      ensures |writable| == |old(writable)|
      ensures forall p :: 0 <= p < |writable| ==> writable[p] == (size <= p && old(writable)[p])
      ensures Later() && Safe()
    {
      hide Inv, CacheOk, IsRun;
      SyncPages();
      ValidBasics();
      TruncateLog();
      Background();
      ProtectPages();
      ValidBasics();
    }

    /** After a commit the committed image is the memory image, as many pages as hold the bytes in its header;
        all mapped pages are on disk and read-only. */
    method Commit()
      requires Valid() && phase == Running
      modifies `disk, `durable, `tail, `torn, `writable, `lockedPage, `phase, `committed, `states, `acts
      ensures Valid() && phase == Running && durable == [] && tail == [] && lockedPage == []
      ensures 0 < |mem| && HeaderPages(mem[0]) <= |mem|
      ensures JustHold(|committed|, mem[0].fileSize) && committed == mem[..|committed|]
      ensures |committed| <= size && Synced(size) && |writable| == |old(writable)|
      ensures forall p :: 0 <= p < |writable| ==> writable[p] == (size <= p && old(writable)[p])
      ensures Later() && Safe()
    {
      hide Inv, CacheOk, IsRun;
      if lockedPage != [] {
        FlushLogBuffer();
      }
      EnterCommit();
      SyncAndTruncate();
      HeaderJustHolds(mem[0], |committed|);
    }

    lemma ReplayNext(log: seq<Record>, i: nat, pages: seq<Page>)
      requires i < |log|
      ensures Replay(log[i..], pages) == Replay(log[i + 1..], Put(pages, log[i]))
    {
      assert log[i..][1..] == log[i + 1..];
    }

    lemma ReplayNone(log: seq<Record>, pages: seq<Page>)
      ensures Replay(log[|log|..], pages) == pages && log[0..] == log
    {
    }

    /** Copies every record of the log back into memory. */
    method ReplayLog()
      requires Valid() && phase.Replaying? && phase.next == 0
      modifies `mem, `disk, `durable, `tail, `phase, `states, `acts
      ensures Valid() && durable + tail == old(durable + tail)
      ensures phase == Replaying(|durable + tail|, old(phase).opening)
      ensures mem == Replay(old(durable + tail), old(mem))
      ensures Later()
    {
      hide Apply, IsRun, Put, PostFile.Basics, Inv, CacheOk, Enabled, HeaderPages, Replay, PostFile.KeptOnDisk;
      ghost var log := durable + tail;
      var n := |durable + tail|;
      var i := 0;
      ReplayNone(log, mem);
      while i < n
        invariant Valid() && durable + tail == log && n == |log|
        invariant i <= n && phase == Replaying(i, old(phase).opening)
        invariant Replay(log[i..], mem) == Replay(log, old(mem))
        invariant Later()
      {
        ReplayNext(log, i, mem);
        ReplayOne(i);
        Background();
        i := i + 1;
      }
      ReplayNone(log, mem);
    }

    /** Undoes what the log has, and takes the size from the header unless a torn record ends the log. */
    method RecoverFile()
      requires Valid() && phase.Replaying? && phase.next == 0
      modifies `mem, `disk, `durable, `tail, `size, `phase, `states, `acts
      ensures Valid() && durable + tail == old(durable + tail)
      ensures phase == if old(phase).opening then Syncing(0, true) else Running
      ensures mem == Replay(old(durable + tail), old(mem)) && |committed| <= |mem|
      ensures committed != [] ==> mem[..|committed|] == committed
      ensures committed != [] && !torn ==> size == |committed|
      ensures 0 < |mem| && if torn then size == old(size) else JustHold(size, mem[0].fileSize)
      ensures Later()
    {
      hide Apply, IsRun, Put, Inv, CacheOk, Enabled, HeaderPages, Replay;
      ReplayLog();
      ValidReplayed();
      ValidBasics();
      TakeSizeFromHeader();
      HeaderJustHolds(mem[0], size);
    }

    /** Back to the committed image; the log stays, and stays a valid undo log. */
    method Rollback()
      requires Valid() && phase == Running
      modifies `mem, `disk, `durable, `tail, `size, `phase, `states, `acts
      ensures Valid() && phase == Running
      ensures durable + tail == old(durable + tail)
      ensures |committed| <= |mem| == |old(mem)|
      ensures committed != [] ==> mem[..|committed|] == committed && size == |committed|
      ensures mem == Replay(old(durable + tail), old(mem)) && 0 < |mem| && JustHold(size, mem[0].fileSize)
      ensures Later()
    {
      hide Inv, CacheOk, IsRun;
      ValidBasics();
      EnterRollback();
      RecoverFile();
    }

    /** Maps the file and undoes what its log has. */
    method UndoLog(canLock: bool)
      requires Valid() && phase == Down && 0 < |mem| && logExists
      modifies `mem, `disk, `durable, `tail, `size, `writable, `maxLockedPages, `phase, `states, `acts
      ensures Valid() && phase == Syncing(0, true) && writable == seq(|mem|, p => true)
      ensures mem == Replay(old(durable + tail), old(mem)) && |committed| <= |mem|
      ensures committed != [] ==> mem[..|committed|] == committed
      ensures committed != [] && !torn ==> size == |committed|
      ensures JustHold(size, if torn then old(mem)[0].fileSize else mem[0].fileSize)
      ensures Later()
    {
      hide PagesFor, Init, IsRun, Inv, CacheOk, HeaderPages, Replay, PostFile.KeptOnDisk;
      HeaderJustHolds(mem[0], HeaderPages(mem[0]));
      MapForRecovery(canLock);
      Background();
      RecoverFile();
    }

    /** Opening a file whose log was left behind: undo, then commit what was undone. */
    method OpenWithLog(canLock: bool)
      requires Valid() && phase == Down && 0 < |mem| && logExists
      modifies this
      ensures Valid() && Safe() && phase == Running && durable == [] && tail == []
      ensures old(committed) != [] ==> committed == old(committed)
      ensures old(committed) != [] && !old(torn) ==> size == |committed|
      ensures JustHold(size, if old(torn) then old(mem)[0].fileSize else mem[0].fileSize)
      ensures 0 < |mem| && JustHold(|committed|, mem[0].fileSize) && Synced(size)
      ensures |committed| <= size <= |mem| == |writable| && mem[..|committed|] == committed
      ensures forall p :: 0 <= p < |writable| ==> writable[p] == (size <= p)
      ensures mem == Replay(old(durable + tail), old(mem))
      ensures Later()
    {
      hide PagesFor, Init, IsRun, PostFile.Basics, Inv, CacheOk, HeaderPages, Replay, PostFile.KeptOnDisk;
      UndoLog(canLock);
      ValidBasics();
      SyncAndTruncate();
      HeaderJustHolds(mem[0], |committed|);
    }

    /** Mapping the file after it was closed or after any failure, one during recovery included.  If a log
        was left, the file is safe from then on. */
    method OpenFile()
      requires Valid() && phase == Down
      modifies this
      ensures Valid() && phase == Running && durable == [] && tail == []
      ensures old(committed) != [] ==> committed == old(committed)
      ensures |committed| <= size <= |mem| == |writable| && mem[..|committed|] == committed
      ensures old(committed) != [] && !old(torn) ==> size == |committed|
      ensures 0 < |mem| == |old(mem)| && JustHold(|committed|, mem[0].fileSize)
      ensures JustHold(size, if old(torn) then old(mem)[0].fileSize else mem[0].fileSize)
      ensures forall p :: 0 <= p < |writable| ==> writable[p] == (size <= p)
      ensures mem == Replay(old(durable + tail), old(mem))
      ensures Later() && (old(logExists) ==> Safe())
    {
      hide Inv, IsRun, CacheOk;
      ValidBasics();
      var canLock: bool := *;
      if logExists {
        OpenWithLog(canLock);
      } else {
        ValidUnopened();
        MapClean(canLock);
        ValidBasics();
        HeaderJustHolds(mem[0], size);
      }
    }

    /** The log is removed, without a commit. */
    method RemoveLog()
      requires Valid() && phase == Running && lockedPage == [] && 0 < |mem| && HeaderPages(mem[0]) <= |mem|
      modifies `durable, `torn, `tail, `logExists, `writable, `phase, `committed, `states, `acts
      ensures Valid() && phase == Down && !logExists && durable == [] && tail == []
      ensures committed == mem[..HeaderPages(mem[0])]
      ensures old(Settled(Now())) ==> Later()
      ensures old(states) <= states
    {
      hide IsRun, Step, PagesFor, Inv, CacheOk, Settled, Exposes, Enabled, Apply, HeaderPages;
      ghost var s := Now();
      durable, torn, tail, logExists, writable := [], false, [], false, [];
      phase, committed := Down, mem[..HeaderPages(mem[0])];
      CloseStep(s, Now());
      Note(Close);
    }

    lemma SettledStays(s: State)
      requires CacheOk(s) && Enabled(s, Close)
      ensures Settled(s) ==> s.mem[..HeaderPages(s.mem[0])] == s.committed
    {
      CloseKeepsInv(s, Close);
    }

    /** Closing the file: whatever memory holds is the contents from now on.  Only if none of it was changed
        since the last commit may power be lost afterwards. */
    method CloseFile()
      requires Valid() && phase == Running
      modifies `disk, `durable, `torn, `tail, `logExists, `writable, `lockedPage, `phase, `committed, `states, `acts
      ensures Valid() && phase == Down && !logExists
      ensures 0 < |mem| && JustHold(|committed|, mem[0].fileSize) && |committed| <= |mem|
      ensures committed == mem[..|committed|]
      ensures old(0 < |mem| && Settled(Now())) ==> Later() && committed == old(committed)
      ensures old(states) <= states
    {
      hide IsRun, Inv, CacheOk, Settled, HeaderPages;
      ghost var s := Now();
      ValidBasics();
      if lockedPage != [] {
        FlushLogBuffer();
        ValidBasics();
      }
      SameSettled(s, Now());
      SettledStays(Now());
      RemoveLog();
      HeaderJustHolds(mem[0], |committed|);
    }

    lemma SameSettled(s: State, t: State)
      requires s.mem == t.mem && 0 < |s.mem| && Log(s) == Log(t) && s.committed == t.committed
      ensures Settled(s) <==> Settled(t)
    {
    }

    method LosePower(keep: nat, tear: bool)
      requires History() && keep <= |tail| && (tear ==> torn || keep < |tail|)
      modifies `mem, `durable, `tail, `torn, `lockedPage, `writable, `phase, `states, `acts
      ensures History() && phase == Down && mem == disk
      ensures states == old(states) + [Now()] && Step(old(Now()), Crash(keep, tear), Now())
    {
      hide IsRun, Step;
      ghost var s := Now();
      var saved := durable + tail[..keep];
      ghost var t := s.(mem := disk, durable := saved, tail := [], torn := tear || torn, locked := [], writable := [],
                        phase := Down);
      CrashStep(s, keep, tear, t);
      mem, durable, tail, torn := disk, saved, [], tear || torn;
      lockedPage, writable, phase := [], [], Down;
      assert Now() == t;
      Append(Crash(keep, tear));
    }

    /** Loss of power with `keep` of the unwritten log records saved, the next one perhaps in part. */
    method PowerFails(keep: nat, tear: bool)
      requires Valid() && keep <= |tail| && (tear ==> torn || keep < |tail|)
      modifies `mem, `durable, `tail, `torn, `lockedPage, `writable, `phase, `states, `acts
      ensures History() && phase == Down && mem == disk
      ensures old(states) <= states && (old(Safe()) ==> Valid() && Safe())
    {
      hide IsRun, Step, Inv, CacheOk;
      ghost var s := Now();
      LosePower(keep, tear);
      if Inv(s) { CrashedIsSafe(s, Crash(keep, tear), Now()); }
    }

    lemma CrashedIsSafe(s: State, a: Action, t: State)
      requires Inv(s) && a.Crash? && Step(s, a, t)
      ensures Inv(t) && CacheOk(t)
    {
      hide Inv, CacheOk, Enabled, Apply;
      CrashKeepsInv(s, a);
      InvHasCache(t);
    }

    /** The kernel still has all that the process wrote; power may be lost later if no page was locked. */
    method ProcessDies()
      requires Valid() && phase != Down
      modifies `lockedPage, `writable, `phase, `states, `acts
      ensures Valid() && phase == Down
      ensures old(states) <= states && (old(Safe() && lockedPage == []) ==> Safe())
    {
      hide IsRun, Step, Inv, CacheOk;
      ghost var s := Now();
      lockedPage, writable, phase := [], [], Down;
      KillStep(s, Now());
      Note(Kill);
    }
  }
}

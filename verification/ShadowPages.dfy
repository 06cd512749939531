/** The shadow-page transaction protocol of a mapped storage file, as a state machine.

    Every action below is one atomic effect of the file code, of the operating system or of a
    failure.  The file is there twice: as the kernel shows it, in the mapped pages that are also its
    cache (`mem`), and on disk.  So is the transaction log: the part on disk is `durable`, the rest,
    which only the kernel holds, is `tail`.  When the process dies the kernel keeps all of this and
    goes on writing it; only a loss of power leaves just what is on disk.
    `committed` is a history variable: the image the last commit published, cut at the size its
    own header records. */
module ShadowPages {

  const PAGE_SIZE: nat := 4096

  /** One page of the file.  Only page 0 is read through its two leading header words. */
  datatype Page = Page(baseAddress: int, fileSize: nat, body: seq<int>)

  /** One log record: the number of a page and the image it had before its first change. */
  datatype Record = Record(page: nat, image: Page)

  datatype Phase =
    | Down                                 // not opened, or stopped by a failure
    | Running                              // application code runs
    | Shadowing(page: nat)                 // fault taken: page logged, not yet safe to change
    | Replaying(next: nat, opening: bool)  // recover_file, during open or during rollback
    | Syncing(next: nat, opening: bool)    // msync of a commit
    | Protecting                           // log truncated, pages not yet read-only again

  datatype State = State(
    mem: seq<Page>,
    disk: seq<Page>,
    durable: seq<Record>,
    torn: bool,            // a partial record follows the durable ones
    tail: seq<Record>,
    logExists: bool,
    writable: seq<bool>,   // page protection
    locked: seq<nat>,
    maxLocked: nat,
    limit: nat,            // what the program asks for as `maxLocked`
    size: nat,             // in pages
    phase: Phase,
    committed: seq<Page>)

  datatype Action =
    | Write(p: nat, v: Page)
    | SetSize(n: nat)
    | Fault(p: nat)
    | Lock
    | LowerLimit
    | Resume
    | Fsync
    | Munlock
    | StartCommit
    | MsyncPage
    | Truncate
    | Protect
    | StartRollback
    | ReplayRecord
    | FinishReplay
    | WriteBack(p: nat)
    | LogWriteBack
    | Crash(keep: nat, tear: bool)
    | Kill
    | Close
    | Open(canLock: bool)

  /** Number of pages that hold `bytes` bytes. */
  function PagesFor(bytes: nat): nat { (bytes + PAGE_SIZE - 1) / PAGE_SIZE }

  /** `n` pages hold `bytes` bytes, and the last one is needed. */
  ghost predicate JustHold(n: int, bytes: nat) { bytes <= PAGE_SIZE * n < bytes + PAGE_SIZE }

  lemma PagesJustHold(bytes: nat, n: int)
    ensures JustHold(n, bytes) <==> n == PagesFor(bytes)
  {
  }

  /** Number of pages the file has according to the header in `page`. */
  function HeaderPages(page: Page): nat { PagesFor(page.fileSize) }

  lemma HeaderJustHolds(page: Page, n: int)
    ensures JustHold(n, page.fileSize) <==> n == HeaderPages(page)
  {
  }

  /** The log as the file system shows it to the running process. */
  function Log(s: State): seq<Record> { s.durable + s.tail }

  ghost predicate Logged(log: seq<Record>, p: nat) { exists i :: 0 <= i < |log| && log[i].page == p }

  predicate Up(s: State) { !s.phase.Down? }

  predicate Enabled(s: State, a: Action) {
    match a
    case Write(p, v) =>
      // The storage layer grows the file before it grows the header, and never shrinks it.
      s.phase.Running? && p < |s.mem| == |s.writable| && s.writable[p] &&
      (p == 0 ==> s.mem[0].fileSize <= v.fileSize && HeaderPages(v) <= s.size)
    case SetSize(n) => s.phase.Running? && 0 < |s.mem| && HeaderPages(s.mem[0]) <= n <= |s.mem|
    case Fault(p) => s.phase.Running? && p < |s.mem| == |s.writable| && !s.writable[p]
    case Lock => s.phase.Shadowing? && |s.locked| < s.maxLocked
    case LowerLimit => s.phase.Shadowing? && s.locked != []
    case Resume => s.phase.Shadowing? && s.tail == [] && s.locked == []
    case Fsync => Up(s)
    case Munlock => (s.phase.Shadowing? || s.phase.Running?) && s.locked != [] && s.tail == []
    case StartCommit => s.phase.Running? && s.locked == []
    case MsyncPage => s.phase.Syncing? && s.phase.next < s.size <= |s.mem| == |s.disk|
    case Truncate => s.phase.Syncing? && s.phase.next == s.size && 0 < |s.mem| && HeaderPages(s.mem[0]) <= |s.mem|
    case Protect => s.phase.Protecting?
    case StartRollback => s.phase.Running?
    case ReplayRecord => s.phase.Replaying? && s.phase.next < |Log(s)|
    case FinishReplay => s.phase.Replaying? && s.phase.next == |Log(s)| && 0 < |s.mem|
    case WriteBack(p) => p < |s.mem| == |s.disk| && p !in s.locked
    case LogWriteBack => s.tail != []
    case Crash(keep, tear) => keep <= |s.tail| && (tear ==> s.torn || keep < |s.tail|)
    case Kill => Up(s)
    case Close => s.phase.Running? && s.locked == [] && 0 < |s.mem| && HeaderPages(s.mem[0]) <= |s.mem|
    case Open(_) => s.phase.Down? && 0 < |s.mem|
  }

  /** Protection after mprotect of the first `n` pages. */
  function ReadOnly(writable: seq<bool>, n: nat): seq<bool> {
    seq(|writable|, p requires 0 <= p < |writable| => writable[p] && n <= p)
  }

  function Put(pages: seq<Page>, r: Record): (after: seq<Page>)
    ensures |after| == |pages|
  {
    if r.page < |pages| then pages[r.page := r.image] else pages
  }

  function Apply(s: State, a: Action): (t: State)
    requires Enabled(s, a)
  {
    match a
    case Write(p, v) => s.(mem := s.mem[p := v])
    case SetSize(n) => s.(size := n)
    case Fault(p) =>
      s.(writable := s.writable[p := true], tail := s.tail + [Record(p, s.mem[p])], phase := Shadowing(p))
    case Lock => s.(locked := s.locked + [s.phase.page], phase := Running)
    case LowerLimit => s.(maxLocked := |s.locked|)
    case Resume => s.(phase := Running)
    case Fsync => s.(durable := s.durable + s.tail, tail := [])
    case Munlock => s.(locked := s.locked[..|s.locked| - 1])
    case StartCommit => s.(phase := Syncing(0, false))
    case MsyncPage =>
      var k := s.phase.next;
      s.(disk := s.disk[k := s.mem[k]], phase := Syncing(k + 1, s.phase.opening))
    case Truncate =>
      s.(durable := [], torn := false, tail := [], phase := Protecting,
         committed := s.mem[..HeaderPages(s.mem[0])])
    case Protect => s.(writable := ReadOnly(s.writable, s.size), phase := Running)
    case StartRollback => s.(phase := Replaying(0, false))
    case ReplayRecord =>
      s.(mem := Put(s.mem, Log(s)[s.phase.next]), phase := Replaying(s.phase.next + 1, s.phase.opening))
    case FinishReplay =>
      // A torn record makes recover_file fail before it resets the size; open ignores that.
      s.(size := if s.torn then s.size else HeaderPages(s.mem[0]),
         phase := if s.phase.opening then Syncing(0, true) else Running)
    case WriteBack(p) => s.(disk := s.disk[p := s.mem[p]])
    case LogWriteBack => s.(durable := s.durable + [s.tail[0]], tail := s.tail[1..])
    case Crash(keep, tear) =>
      // What was only in the kernel is gone; the next session will read what is on disk.
      s.(mem := s.disk, durable := s.durable + s.tail[..keep], tail := [], torn := tear || s.torn,
         locked := [], writable := [], phase := Down)
    case Kill =>
      // Only the process and its locks are gone: the kernel still has the cached pages and the log.
      s.(locked := [], writable := [], phase := Down)
    case Close =>
      // The log is removed, and nothing is written: whatever the kernel shows now is the contents.
      s.(durable := [], torn := false, tail := [], logExists := false, writable := [], phase := Down,
         committed := s.mem[..HeaderPages(s.mem[0])])
    case Open(canLock) =>
      var all := seq(|s.mem|, p => true);
      var size := HeaderPages(s.mem[0]);
      var maxLocked := if canLock then s.limit else 0;
      if s.logExists then
        s.(size := size, writable := all, maxLocked := maxLocked, phase := Replaying(0, true))
      else
        s.(size := size, writable := ReadOnly(all, size), maxLocked := maxLocked, logExists := true,
           phase := Running)
  }

  /** A file that was closed cleanly, or a new one: no log, and the disk holds the committed image. */
  ghost predicate Init(s: State) {
    && s.phase.Down? && !s.logExists && s.durable == [] && s.tail == [] && !s.torn && s.locked == []
    && s.maxLocked <= s.limit
    && 0 < |s.disk| && s.mem == s.disk
    && HeaderPages(s.disk[0]) <= |s.disk|
    && s.committed == s.disk[..HeaderPages(s.disk[0])]
  }

  /** What a recovery that is not interrupted makes of `pages`: the records, oldest first. */
  function Replay(log: seq<Record>, pages: seq<Page>): (after: seq<Page>)
    ensures |after| == |pages|
  {
    if log == [] then pages else Replay(log[1..], Put(pages, log[0]))
  }

  /** Record `i` is the last one of page `p`. */
  ghost predicate IsLast(log: seq<Record>, i: nat, p: nat) {
    i < |log| && log[i].page == p && forall j :: i < j < |log| ==> log[j].page != p
  }

  /** A page has the image of its last record, or what it had before if it has no record. */
  lemma {:induction false} ReplayIs(log: seq<Record>, pages: seq<Page>, p: nat)
    requires p < |pages|
    ensures forall i: nat :: IsLast(log, i, p) ==> Replay(log, pages)[p] == log[i].image
    ensures !Logged(log, p) ==> Replay(log, pages)[p] == pages[p]
    decreases |log|
  {
    if log != [] {
      var rest := log[1..];
      assert forall i :: 0 <= i < |rest| ==> rest[i] == log[i + 1];
      ReplayIs(rest, Put(pages, log[0]), p);
      forall i: nat | IsLast(log, i, p) ensures Replay(log, pages)[p] == log[i].image {
        if i > 0 { assert IsLast(rest, i - 1, p); } else { assert !Logged(rest, p); }
      }
      if !Logged(log, p) { assert log[0].page != p; }
    }
  }

  // ---------- What the kernel shows, in parts ----------

  /** The committed image carries its own length in its header. */
  ghost predicate SelfDescribing(c: seq<Page>) { c != [] ==> |c| == HeaderPages(c[0]) }

  ghost predicate Shape(s: State) {
    && 0 < |s.mem| == |s.disk|
    && |s.committed| <= |s.mem|
    && |s.locked| <= s.maxLocked <= s.limit
    && SelfDescribing(s.committed)
    && (s.phase.Down? ==> s.locked == [])
    && (s.torn ==> s.tail == [])
    && (!s.logExists ==> (
          && s.phase.Down? && s.durable == [] && s.tail == [] && !s.torn
          && |s.committed| == HeaderPages(s.mem[0])))
    && (Up(s) ==> |s.writable| == |s.mem|)
  }

  /** Every record holds the committed image of its page. */
  ghost predicate GoodRecord(s: State, r: Record) {
    && r.page < |s.mem|
    && (r.page < |s.committed| ==> r.image == s.committed[r.page])
    && (r.page == 0 && s.committed == [] ==> HeaderPages(r.image) == 0)
  }

  ghost predicate GoodLog(s: State) { forall i :: 0 <= i < |Log(s)| ==> GoodRecord(s, Log(s)[i]) }

  /** A committed page that no record covers is unchanged in memory. */
  ghost predicate MemOk(s: State)
    requires Shape(s)
  {
    forall p :: 0 <= p < |s.committed| && !Logged(Log(s), p) ==> s.mem[p] == s.committed[p]
  }

  /** While the application may run, what no record covers is read-only. */
  ghost predicate ProtectedOk(s: State)
    requires Shape(s) && Up(s) && GoodLog(s)
  {
    && (forall p :: 0 <= p < |s.committed| && !Logged(Log(s), p) ==> !s.writable[p])
    && (s.committed == [] && !s.writable[0] ==> HeaderPages(s.mem[0]) == 0)
    && (forall i :: 0 <= i < |Log(s)| ==> GoodRecord(s, Log(s)[i]) && s.writable[Log(s)[i].page])
  }

  /** During a session the page of a record that is not durable is locked, or has not been changed yet. */
  ghost predicate Held(s: State) {
    forall i :: 0 <= i < |s.tail| ==> s.tail[i].page in s.locked || s.phase == Shadowing(s.tail[i].page)
  }

  ghost predicate HeadersOk(s: State)
    requires Shape(s)
  {
    |s.committed| <= HeaderPages(s.mem[0]) <= |s.mem| && HeaderPages(s.disk[0]) <= |s.mem|
  }

  ghost predicate SizeOk(s: State)
    requires Shape(s)
  { HeaderPages(s.mem[0]) <= s.size <= |s.mem| }

  ghost predicate Restored(s: State, log: seq<Record>)
    requires Shape(s)
  {
    forall p :: 0 <= p < |s.committed| && Logged(log, p) ==> s.mem[p] == s.committed[p]
  }

  ghost predicate PhaseOk(s: State)
    requires Shape(s) && Up(s) && GoodLog(s)
  {
    match s.phase
    case Running => ProtectedOk(s) && SizeOk(s) && !s.torn && Held(s)
    case Shadowing(p) =>
      ProtectedOk(s) && SizeOk(s) && !s.torn && Held(s) && (p < |s.committed| ==> s.mem[p] == s.committed[p])
    case Replaying(next, opening) =>
      && next <= |Log(s)|
      && Restored(s, Log(s)[..next])
      && (opening ==> s.locked == [])
      && (!opening ==> ProtectedOk(s) && SizeOk(s) && !s.torn && Held(s))
      && (opening ==> |s.committed| <= s.size <= |s.mem|)
      && (opening && s.committed == [] ==> OpenSizeOk(s))
    case Syncing(next, opening) =>
      && s.locked == []
      && SizeOk(s) && next <= s.size
      && (opening ==> Restored(s, Log(s)))
      && (!opening ==> !s.torn && ProtectedOk(s) && s.tail == [])
      && (forall p :: 0 <= p < next ==> s.disk[p] == s.mem[p])
    case Protecting =>
      && s.durable == [] && s.tail == [] && s.locked == [] && !s.torn && SizeOk(s)
      && |s.committed| == HeaderPages(s.mem[0])
      && s.mem[..|s.committed|] == s.committed
  }

  /** With nothing committed, page 0 is either as it was opened or has been reset to an empty header. */
  ghost predicate OpenSizeOk(s: State)
    requires Shape(s)
  { HeaderPages(s.mem[0]) <= s.size }

  /** What the kernel shows can be recovered: the invariant as long as power is not lost. */
  ghost predicate CacheOk(s: State) {
    Shape(s) && GoodLog(s) && HeadersOk(s) && MemOk(s) && (Up(s) ==> PhaseOk(s))
  }

  // ---------- What is on disk, in parts ----------

  /** A committed page that no durable record covers is still committed on disk. */
  ghost predicate DiskOk(s: State)
    requires Shape(s)
  {
    && (forall p :: 0 <= p < |s.committed| && !Logged(s.durable, p) ==> s.disk[p] == s.committed[p])
    && |s.committed| <= HeaderPages(s.disk[0])
    && (!s.logExists ==> HeaderPages(s.disk[0]) == |s.committed|)
  }

  /** Where the only record of a page is not durable, the page cannot reach the disk or is unchanged. */
  ghost predicate TailOk(s: State)
    requires Shape(s)
  {
    forall i :: 0 <= i < |s.tail| ==> HarmlessPage(s, s.tail[i].page)
  }

  ghost predicate HarmlessPage(s: State, p: nat)
    requires Shape(s)
  {
    p in s.locked || Logged(s.durable, p) || (p < |s.committed| ==> s.mem[p] == s.committed[p])
  }

  /** The invariant with which power may be lost at any time. */
  ghost predicate Inv(s: State) { CacheOk(s) && DiskOk(s) && TailOk(s) }

  // ---------- Facts about logs ----------

  lemma LoggedConcat(a: seq<Record>, b: seq<Record>, p: nat)
    ensures Logged(a + b, p) <==> Logged(a, p) || Logged(b, p)
  {
    if Logged(a, p) {
      var i :| 0 <= i < |a| && a[i].page == p;
      assert (a + b)[i].page == p;
    }
    if Logged(b, p) {
      var i :| 0 <= i < |b| && b[i].page == p;
      assert (a + b)[|a| + i].page == p;
    }
  }

  lemma LoggedPrefix(a: seq<Record>, b: seq<Record>)
    ensures forall p: nat :: Logged(a, p) ==> Logged(a + b, p)
  {
    forall p: nat | Logged(a, p) ensures Logged(a + b, p) { LoggedConcat(a, b, p); }
  }

  /** Replaying records that all hold the committed image restores exactly the pages they cover. */
  lemma {:induction false} ReplayRestores(log: seq<Record>, pages: seq<Page>, c: seq<Page>, p: nat)
    requires p < |c| <= |pages|
    requires forall i :: 0 <= i < |log| && log[i].page == p ==> log[i].image == c[p]
    requires pages[p] == c[p] || Logged(log, p)
    ensures Replay(log, pages)[p] == c[p]
    decreases |log|
  {
    if log != [] {
      var next := Put(pages, log[0]);
      if log[0].page != p && Logged(log, p) {
        var i :| 0 <= i < |log| && log[i].page == p;
        assert log[1..][i - 1].page == p;
      }
      ReplayRestores(log[1..], next, c, p);
    }
  }

  /** A recovery from `log` and `pages` that runs to the end gives back the image `c`. */
  ghost predicate Restores(log: seq<Record>, pages: seq<Page>, c: seq<Page>) {
    |c| <= |pages| && Replay(log, pages)[..|c|] == c
  }

  /** If power were lost now, with nothing saved of what only the kernel holds, a recovery would give the
      last committed image. */
  ghost predicate Recoverable(s: State) { Restores(s.durable, s.disk, s.committed) }

  /** If the process died now, a recovery would give the last committed image. */
  ghost predicate RecoverableFromCache(s: State) { Restores(Log(s), s.mem, s.committed) }

  lemma RestoresAll(log: seq<Record>, pages: seq<Page>, c: seq<Page>)
    requires |c| <= |pages|
    requires forall i :: 0 <= i < |log| && log[i].page < |c| ==> log[i].image == c[log[i].page]
    requires forall p :: 0 <= p < |c| && !Logged(log, p) ==> pages[p] == c[p]
    ensures Restores(log, pages, c)
  {
    forall p | 0 <= p < |c| ensures Replay(log, pages)[p] == c[p] { ReplayRestores(log, pages, c, p); }
  }

  /** Main safety result, for one state: whatever the rest of the log and the disk hold, replaying
      the durable records over the disk gives back the last committed image. */
  lemma InvIsRecoverable(s: State)
    requires Inv(s)
    ensures Recoverable(s)
  {
    forall i | 0 <= i < |s.durable| && s.durable[i].page < |s.committed|
      ensures s.durable[i].image == s.committed[s.durable[i].page]
    {
      assert s.durable[i] == Log(s)[i];
      assert GoodRecord(s, Log(s)[i]);
    }
    RestoresAll(s.durable, s.disk, s.committed);
  }

  /** The same for what the kernel shows, whatever has reached the disk. */
  lemma CacheIsRecoverable(s: State)
    requires CacheOk(s)
    ensures RecoverableFromCache(s)
  {
    forall i | 0 <= i < |Log(s)| && Log(s)[i].page < |s.committed|
      ensures Log(s)[i].image == s.committed[Log(s)[i].page]
    {
      assert GoodRecord(s, Log(s)[i]);
    }
    RestoresAll(Log(s), s.mem, s.committed);
  }
}

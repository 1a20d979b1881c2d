/**
  Any number of threads sharing one reader/writer lock and one counter.  Every critical section of
  the lock is one step; the increment of the counter is two steps (a load and a store), so that an
  update can be lost unless the lock excludes other writers.
 */
module RWLockSystem {
  import opened RWLock

  /** A lock request; a thread runs a list of them, releasing after each one that is granted. */
  datatype Request = ReadLock | WriteLock | TryReadLock | TryWriteLock

  datatype Phase =
    | Idle
    | ReadWaiting | ReadSignalled | ReadHolding
    | WriteWaiting | WriteSignalled | WriteHolding
    | Loaded(value: nat)   // holds the lock for writing and has read the counter
    | Stored               // holds the lock for writing and has written the counter

  datatype Thread = Thread(phase: Phase, todo: seq<Request>)

  /**
    Two fields are history: `stores` counts the stores to the counter, which itself wraps at 64
    bits, and `granted` counts the TryWriteLock requests that succeeded.
   */
  datatype System = System(lock: LockState, threads: seq<Thread>, counter: nat, stores: nat, granted: nat)

  datatype Action =
    | Enter(i: nat)
    | Resume(i: nat)
    | Load(i: nat)
    | Store(i: nat)
    | Release(i: nat, notified: nat)  // notified: the writer that notify_one picks, if one waits
    | SpuriousWakeup(i: nat)

  const COUNTER_LIMIT: nat := 0x1_0000_0000_0000_0000

  function Starting(programs: seq<seq<Request>>): (ts: seq<Thread>)
    ensures |ts| == |programs|
    ensures forall i :: 0 <= i < |ts| ==> ts[i] == Thread(Idle, programs[i])
  {
    seq(|programs|, i requires 0 <= i < |programs| => Thread(Idle, programs[i]))
  }

  function Initial(programs: seq<seq<Request>>): System {
    System(FREE_LOCK, Starting(programs), 0, 0, 0)
  }

  // ----- steps

  predicate IsHolder(p: Phase) {
    p == ReadHolding || IsWriter(p)
  }

  predicate IsWriter(p: Phase) {
    p == WriteHolding || p.Loaded? || p == Stored
  }

  predicate CanRelease(p: Phase) {
    p == ReadHolding || p == Stored
  }

  ghost predicate SomeWriterWaits(ts: seq<Thread>) {
    exists j :: 0 <= j < |ts| && ts[j].phase == WriteWaiting
  }

  ghost predicate Enabled(s: System, a: Action) {
    && a.i < |s.threads|
    && var t := s.threads[a.i];
      match a
      case Enter(_) => t.phase == Idle && t.todo != []
      case Resume(_) => t.phase == ReadSignalled || t.phase == WriteSignalled
      case Load(_) => t.phase == WriteHolding
      case Store(_) => t.phase.Loaded?
      case Release(_, j) =>
        && CanRelease(t.phase)
        && (SomeWriterWaits(s.threads) ==> j < |s.threads| && s.threads[j].phase == WriteWaiting)
      case SpuriousWakeup(_) => t.phase == ReadWaiting || t.phase == WriteWaiting
  }

  function EntrySection(l: LockState, r: Request): (LockState, Outcome) {
    match r
    case ReadLock => ReadEntry(l, true)
    case TryReadLock => ReadEntry(l, false)
    case WriteLock => WriteEntry(l, true)
    case TryWriteLock => WriteEntry(l, false)
  }

  function PhaseAfter(r: Request, outcome: Outcome): Phase {
    match (outcome, r)
    case (Refused, _) => Idle
    case (Acquired, ReadLock) => ReadHolding
    case (Acquired, TryReadLock) => ReadHolding
    case (Acquired, _) => WriteHolding
    case (Waits, ReadLock) => ReadWaiting
    case (Waits, TryReadLock) => ReadWaiting
    case (Waits, _) => WriteWaiting
  }

  function SetPhase(ts: seq<Thread>, i: nat, p: Phase): seq<Thread>
    requires i < |ts|
  {
    ts[i := ts[i].(phase := p)]
  }

  function WokenReader(t: Thread): Thread {
    if t.phase == ReadWaiting then t.(phase := ReadSignalled) else t
  }

  function WakeReaders(ts: seq<Thread>): (r: seq<Thread>)
    ensures |r| == |ts| && forall k :: 0 <= k < |ts| ==> r[k] == WokenReader(ts[k])
  {
    seq(|ts|, k requires 0 <= k < |ts| => WokenReader(ts[k]))
  }

  function Notify(ts: seq<Thread>, n: Notification, j: nat): seq<Thread> {
    match n
    case NotifyNobody => ts
    case NotifyAllReaders => WakeReaders(ts)
    case NotifyOneWriter =>
      if j < |ts| && ts[j].phase == WriteWaiting then SetPhase(ts, j, WriteSignalled) else ts
  }

  function Apply(s: System, a: Action): System
    requires a.i < |s.threads|
  {
    var i, t := a.i, s.threads[a.i];
    match a
    case Enter(_) =>
      if t.todo == [] then s else
      var (l, outcome) := EntrySection(s.lock, t.todo[0]);
      s.(lock := l,
         threads := s.threads[i := Thread(PhaseAfter(t.todo[0], outcome), t.todo[1..])],
         granted := if t.todo[0] == TryWriteLock && outcome == Acquired then s.granted + 1 else s.granted)
    case Resume(_) =>
      if t.phase == ReadSignalled then
        var (l, outcome) := ReadResume(s.lock);
        s.(lock := l, threads := SetPhase(s.threads, i, PhaseAfter(ReadLock, outcome)))
      else
        var (l, outcome) := WriteResume(s.lock);
        s.(lock := l, threads := SetPhase(s.threads, i, PhaseAfter(WriteLock, outcome)))
    case Load(_) => s.(threads := SetPhase(s.threads, i, Loaded(s.counter)))
    case Store(_) =>
      if !t.phase.Loaded? then s else
      s.(threads := SetPhase(s.threads, i, Stored),
         counter := (t.phase.value + 1) % COUNTER_LIMIT,
         stores := s.stores + 1)
    case Release(_, j) =>
      var (l, n) := Released(s.lock);
      s.(lock := l, threads := Notify(SetPhase(s.threads, i, Idle), n, j))
    case SpuriousWakeup(_) =>
      s.(threads := SetPhase(s.threads, i, if t.phase == ReadWaiting then ReadSignalled else WriteSignalled))
  }

  /** The asserts inside the section of the lock that an action runs. */
  predicate AssertsHold(l: LockState, a: Action, t: Thread) {
    match a
    case Enter(_) =>
      t.todo != [] ==>
        var outcome := EntrySection(l, t.todo[0]).1;
        && (outcome == Acquired ==> !l.writerHolds)
        && (outcome == Acquired && t.todo[0] in {ReadLock, TryReadLock} ==> l.mode != Write)
        && (outcome == Acquired && t.todo[0] in {WriteLock, TryWriteLock} ==> l.mode == Unlocked)
    case Resume(_) =>
      if t.phase == ReadSignalled then
        0 < l.readersPending && (ReadResume(l).1 == Acquired ==> l.mode != Write && !l.writerHolds)
      else
        0 < l.writersPending && (WriteResume(l).1 == Acquired ==> l.mode == Unlocked && !l.writerHolds)
    case Release(_, _) =>
      && l.mode != Unlocked
      && (l.mode == Read ==> l.readersHolding > 0)
      && (l.mode == Write ==> l.writerHolds && l.readersHolding == 0)
      && (l.mode == Read <==> t.phase == ReadHolding)
    case _ => true
  }

  // ----- counting threads

  /** Seven sums over the threads, kept together so that one update lemma serves them all. */
  datatype Tally = Tally(
    readPending: int, readHolding: int, writePending: int, writeHolding: int,
    work: int, signalled: int, writesLeft: int)
  {
    function Plus(o: Tally): Tally {
      Tally(readPending + o.readPending, readHolding + o.readHolding, writePending + o.writePending,
            writeHolding + o.writeHolding, work + o.work, signalled + o.signalled, writesLeft + o.writesLeft)
    }

    function Minus(o: Tally): Tally {
      Tally(readPending - o.readPending, readHolding - o.readHolding, writePending - o.writePending,
            writeHolding - o.writeHolding, work - o.work, signalled - o.signalled, writesLeft - o.writesLeft)
    }

    predicate Natural() {
      && 0 <= readPending && 0 <= readHolding && 0 <= writePending && 0 <= writeHolding
      && 0 <= work && 0 <= signalled && 0 <= writesLeft
    }
  }

  const NOTHING := Tally(0, 0, 0, 0, 0, 0, 0)

  function Bit(b: bool): nat {
    if b then 1 else 0
  }

  function PhaseWork(p: Phase): nat {
    match p
    case Idle => 0
    case ReadHolding => 1
    case Stored => 2
    case Loaded(_) => 3
    case WriteHolding => 4
    case _ => 5
  }

  /** The blocking write requests in a list. */
  function WriteRequests(todo: seq<Request>): nat {
    if todo == [] then 0 else Bit(todo[0] == WriteLock) + WriteRequests(todo[1..])
  }

  function Weight(t: Thread): (w: Tally)
    ensures w.Natural() && w.signalled <= 1
  {
    var p := t.phase;
    Tally(
      Bit(p == ReadWaiting || p == ReadSignalled),
      Bit(p == ReadHolding),
      Bit(p == WriteWaiting || p == WriteSignalled),
      Bit(IsWriter(p)),
      6 * |t.todo| + PhaseWork(p),
      Bit(p == ReadSignalled || p == WriteSignalled),
      WriteRequests(t.todo) + Bit(p == WriteWaiting || p == WriteSignalled || p == WriteHolding || p.Loaded?))
  }

  function Total(ts: seq<Thread>): (w: Tally)
    ensures w.Natural() && w.signalled <= |ts|
  {
    if ts == [] then NOTHING else Weight(ts[0]).Plus(Total(ts[1..]))
  }

  lemma TallyAlgebra(a: Tally, b: Tally, c: Tally, d: Tally)
    ensures a.Plus(b.Minus(c).Plus(d)) == a.Plus(b).Minus(c).Plus(d)
    ensures d.Plus(b) == c.Plus(b).Minus(c).Plus(d)
  {
  }

  lemma {:induction false} TotalUpdate(ts: seq<Thread>, i: nat, t: Thread)
    requires i < |ts|
    ensures Total(ts[i := t]) == Total(ts).Minus(Weight(ts[i])).Plus(Weight(t))
  {
    TallyAlgebra(Weight(ts[0]), Total(ts[1..]), Weight(ts[i]), Weight(t));
    if i == 0 {
      assert ts[i := t][1..] == ts[1..];
    } else {
      TotalUpdate(ts[1..], i - 1, t);
      assert ts[i := t][1..] == ts[1..][i - 1 := t];
    }
  }

  /** Removing one thread, or two, leaves a natural tally. */
  lemma {:induction false} TotalAtLeast(ts: seq<Thread>, i: nat)
    requires i < |ts|
    ensures Total(ts).Minus(Weight(ts[i])).Natural()
  {
    if i > 0 {
      TotalAtLeast(ts[1..], i - 1);
    }
  }

  lemma {:induction false} TotalAtLeastTwo(ts: seq<Thread>, i: nat, j: nat)
    requires i < j < |ts|
    ensures Total(ts).Minus(Weight(ts[i]).Plus(Weight(ts[j]))).Natural()
  {
    if i > 0 {
      TotalAtLeastTwo(ts[1..], i - 1, j - 1);
    } else {
      TotalAtLeast(ts[1..], j - 1);
    }
  }

  lemma {:induction false} WakeReadersTotal(ts: seq<Thread>)
    ensures var w, w' := Total(ts), Total(WakeReaders(ts));
      w' == w.(signalled := w'.signalled) && w.signalled <= w'.signalled
  {
    if ts != [] {
      WakeReadersTotal(ts[1..]);
      assert WakeReaders(ts)[1..] == WakeReaders(ts[1..]);
    }
  }

  lemma {:induction false} SomePendingWriter(ts: seq<Thread>) returns (i: nat)
    requires 0 < Total(ts).writePending
    ensures i < |ts| && ts[i].phase in {WriteWaiting, WriteSignalled}
  {
    if 0 < Weight(ts[0]).writePending {
      i := 0;
    } else {
      i := SomePendingWriter(ts[1..]);
      i := i + 1;
    }
  }

  lemma {:induction false} SomeHolder(ts: seq<Thread>) returns (i: nat)
    requires 0 < Total(ts).readHolding + Total(ts).writeHolding
    ensures i < |ts| && IsHolder(ts[i].phase)
  {
    if IsHolder(ts[0].phase) {
      i := 0;
    } else {
      i := SomeHolder(ts[1..]);
      i := i + 1;
    }
  }

  // ----- the invariant

  /** The lock's counters are exact: they count the threads inside each wait and each section. */
  predicate Matches(l: LockState, w: Tally) {
    && Consistent(l)
    && l.readersPending == w.readPending
    && l.readersHolding == w.readHolding
    && l.writersPending == w.writePending
    && Bit(l.writerHolds) == w.writeHolding
    && (l.writerHolds ==> w.readHolding == 0)
  }

  ghost predicate SomeWriterSignalled(ts: seq<Thread>) {
    exists j :: 0 <= j < |ts| && ts[j].phase == WriteSignalled
  }

  ghost predicate AllReadersSignalled(ts: seq<Thread>) {
    forall j :: 0 <= j < |ts| ==> ts[j].phase != ReadWaiting
  }

  /**
    No wake-up is lost: with no writer waiting to get in, a reader stays unsignalled only while a
    writer holds the lock; and a free lock that writers wait for has a signalled writer.
   */
  ghost predicate NoLostWakeup(s: System) {
    && (s.lock.mode != Write && s.lock.writersPending == 0 ==> AllReadersSignalled(s.threads))
    && (s.lock.mode == Unlocked && 0 < s.lock.writersPending ==> SomeWriterSignalled(s.threads))
  }

  /** Loaded values are still current, so no store undoes another. */
  predicate LoadsCurrent(s: System) {
    forall i :: 0 <= i < |s.threads| && s.threads[i].phase.Loaded? ==> s.threads[i].phase.value == s.counter
  }

  /** Every granted write section stores once, and the counter is the number of stores. */
  predicate NoLostUpdate(s: System, writesLeft: int, writes: nat) {
    && s.counter == s.stores % COUNTER_LIMIT
    && s.stores + writesLeft == writes + s.granted
    && LoadsCurrent(s)
  }

  /** The invariant, with the tally of the threads given. */
  ghost predicate InvFor(s: System, w: Tally, writes: nat) {
    Matches(s.lock, w) && NoLostWakeup(s) && NoLostUpdate(s, w.writesLeft, writes)
  }

  /** `writes`: the number of blocking write requests in all the programs. */
  ghost predicate Inv(s: System, writes: nat) {
    InvFor(s, Total(s.threads), writes)
  }

  /** Safety: two threads are never in the lock together unless both are readers. */
  lemma Exclusion(s: System, writes: nat, i: nat, j: nat)
    requires Inv(s, writes)
    requires i < |s.threads| && j < |s.threads| && i != j
    requires IsWriter(s.threads[i].phase)
    ensures !IsHolder(s.threads[j].phase)
    ensures s.lock.mode == Write
  {
    TotalAtLeastTwo(s.threads, if i < j then i else j, if i < j then j else i);
  }

  /** No assert of the lock can fail when a thread takes a step it is ready for. */
  lemma LockAssertsHold(s: System, writes: nat, a: Action)
    requires Inv(s, writes) && Enabled(s, a)
    ensures AssertsHold(s.lock, a, s.threads[a.i])
  {
    TotalAtLeast(s.threads, a.i);
  }

  // ----- every step keeps the invariant

  /** The tally after thread t became t'. */
  function Moved(w: Tally, t: Thread, t': Thread): Tally {
    w.Minus(Weight(t)).Plus(Weight(t'))
  }

  lemma StillSignalled(s: System, s': System, i: nat)
    requires i < |s.threads| == |s'.threads| && s'.threads == s.threads[i := s'.threads[i]]
    requires s.threads[i].phase != WriteSignalled
    ensures SomeWriterSignalled(s.threads) ==> SomeWriterSignalled(s'.threads)
  {
    if SomeWriterSignalled(s.threads) {
      var j :| 0 <= j < |s.threads| && s.threads[j].phase == WriteSignalled;
      assert s'.threads[j].phase == WriteSignalled;
    }
  }

  lemma EntryMatches(l: LockState, w: Tally, t: Thread)
    requires Matches(l, w) && t.phase == Idle && t.todo != []
    requires w.Minus(Weight(t)).Natural()
    ensures var (l', outcome) := EntrySection(l, t.todo[0]);
      Matches(l', Moved(w, t, Thread(PhaseAfter(t.todo[0], outcome), t.todo[1..])))
  {
  }

  lemma EnterKeepsInv(s: System, w: Tally, writes: nat, i: nat)
    requires InvFor(s, w, writes) && Enabled(s, Enter(i))
    requires w.Minus(Weight(s.threads[i])).Natural()
    ensures var s' := Apply(s, Enter(i));
      InvFor(s', Moved(w, s.threads[i], s'.threads[i]), writes)
  {
    EntryMatches(s.lock, w, s.threads[i]);
    StillSignalled(s, Apply(s, Enter(i)), i);
  }

  lemma ResumeKeepsInv(s: System, w: Tally, writes: nat, i: nat)
    requires InvFor(s, w, writes) && Enabled(s, Resume(i))
    requires w.Minus(Weight(s.threads[i])).Natural()
    ensures var s' := Apply(s, Resume(i));
      InvFor(s', Moved(w, s.threads[i], s'.threads[i]), writes)
  {
    if s.threads[i].phase == ReadSignalled {
      StillSignalled(s, Apply(s, Resume(i)), i);
    }
  }

  lemma LoadKeepsInv(s: System, w: Tally, writes: nat, i: nat)
    requires InvFor(s, w, writes) && Enabled(s, Load(i))
    ensures var s' := Apply(s, Load(i));
      InvFor(s', Moved(w, s.threads[i], s'.threads[i]), writes)
  {
    StillSignalled(s, Apply(s, Load(i)), i);
  }

  lemma StoreKeepsInv(s: System, w: Tally, writes: nat, i: nat)
    requires InvFor(s, w, writes) && Enabled(s, Store(i))
    requires forall j :: 0 <= j < |s.threads| && j != i ==> !s.threads[j].phase.Loaded?
    ensures var s' := Apply(s, Store(i));
      InvFor(s', Moved(w, s.threads[i], s'.threads[i]), writes)
  {
    StillSignalled(s, Apply(s, Store(i)), i);
  }

  lemma ReleaseKeepsInv(s: System, w: Tally, w': Tally, writes: nat, i: nat, j: nat)
    requires InvFor(s, w, writes) && Enabled(s, Release(i, j))
    requires w.Minus(Weight(s.threads[i])).Natural()
    requires w' == Moved(w, s.threads[i], s.threads[i].(phase := Idle)).(signalled := w'.signalled)
    requires Released(s.lock).1 == NotifyOneWriter ==> SomeWriterSignalled(Apply(s, Release(i, j)).threads)
    requires s.lock.readersPending == 0 ==> AllReadersSignalled(s.threads)
    ensures InvFor(Apply(s, Release(i, j)), w', writes)
  {
    if Released(s.lock).1 == NotifyNobody {
      StillSignalled(s, Apply(s, Release(i, j)), i);
    }
  }

  lemma SpuriousWakeupKeepsInv(s: System, w: Tally, writes: nat, i: nat)
    requires InvFor(s, w, writes) && Enabled(s, SpuriousWakeup(i))
    ensures var s' := Apply(s, SpuriousWakeup(i));
      InvFor(s', Moved(w, s.threads[i], s'.threads[i]), writes)
  {
    StillSignalled(s, Apply(s, SpuriousWakeup(i)), i);
  }

  /** After a release that notifies one writer, some pending writer is signalled. */
  lemma ReleaseSignalsWriter(s: System, i: nat, j: nat)
    requires Matches(s.lock, Total(s.threads)) && Enabled(s, Release(i, j))
    requires Released(s.lock).1 == NotifyOneWriter
    ensures SomeWriterSignalled(Apply(s, Release(i, j)).threads)
  {
    var ts, ts' := s.threads, Apply(s, Release(i, j)).threads;
    if SomeWriterWaits(ts) {
      assert ts'[j].phase == WriteSignalled;
    } else {
      var k := SomePendingWriter(ts);
      assert ts'[k].phase == WriteSignalled;
    }
  }

  lemma SignalledWeight(t: Thread)
    requires t.phase == WriteWaiting
    ensures Weight(t.(phase := WriteSignalled)) == Weight(t).(signalled := 1)
  {
  }

  /** A notification moves threads only from waiting to signalled. */
  lemma NotifyTotal(ts: seq<Thread>, n: Notification, j: nat)
    ensures |Notify(ts, n, j)| == |ts|
    ensures var w, w' := Total(ts), Total(Notify(ts, n, j)); w' == w.(signalled := w'.signalled)
  {
    if n == NotifyAllReaders {
      WakeReadersTotal(ts);
    } else if n == NotifyOneWriter && j < |ts| && ts[j].phase == WriteWaiting {
      SignalledWeight(ts[j]);
      TotalUpdate(ts, j, ts[j].(phase := WriteSignalled));
    }
  }

  /** The tally after any action but a release. */
  lemma StepTotal(s: System, a: Action)
    requires Enabled(s, a) && !a.Release?
    ensures |Apply(s, a).threads| == |s.threads|
    ensures Total(Apply(s, a).threads) == Moved(Total(s.threads), s.threads[a.i], Apply(s, a).threads[a.i])
  {
    TotalUpdate(s.threads, a.i, Apply(s, a).threads[a.i]);
  }

  lemma ReleaseTotal(s: System, a: Action)
    requires Enabled(s, a) && a.Release?
    ensures |Apply(s, a).threads| == |s.threads|
    ensures var t, w, w' := s.threads[a.i], Total(s.threads), Total(Apply(s, a).threads);
      w' == Moved(w, t, t.(phase := Idle)).(signalled := w'.signalled)
  {
    TotalUpdate(s.threads, a.i, s.threads[a.i].(phase := Idle));
    NotifyTotal(SetPhase(s.threads, a.i, Idle), Released(s.lock).1, a.notified);
  }

  lemma StepKeepsInv(s: System, writes: nat, a: Action)
    requires Inv(s, writes) && Enabled(s, a)
    ensures Inv(Apply(s, a), writes)
  {
    var w, i := Total(s.threads), a.i;
    TotalAtLeast(s.threads, i);
    if a.Release? {
      ReleaseTotal(s, a);
      if Released(s.lock).1 == NotifyOneWriter {
        ReleaseSignalsWriter(s, i, a.notified);
      }
      forall k | s.lock.readersPending == 0 && 0 <= k < |s.threads| ensures s.threads[k].phase != ReadWaiting {
        TotalAtLeast(s.threads, k);
      }
      ReleaseKeepsInv(s, w, Total(Apply(s, a).threads), writes, i, a.notified);
    } else {
      StepTotal(s, a);
      StepKeepsInvButRelease(s, writes, a);
    }
  }

  lemma StepKeepsInvButRelease(s: System, writes: nat, a: Action)
    requires Inv(s, writes) && Enabled(s, a) && !a.Release?
    ensures InvFor(Apply(s, a), Moved(Total(s.threads), s.threads[a.i], Apply(s, a).threads[a.i]), writes)
  {
    var w := Total(s.threads);
    TotalAtLeast(s.threads, a.i);
    match a {
      case Enter(i) => EnterKeepsInv(s, w, writes, i);
      case Resume(i) => ResumeKeepsInv(s, w, writes, i);
      case Load(i) => LoadKeepsInv(s, w, writes, i);
      case SpuriousWakeup(i) => SpuriousWakeupKeepsInv(s, w, writes, i);
      case Store(i) =>
        forall j | 0 <= j < |s.threads| && j != i ensures !s.threads[j].phase.Loaded? {
          Exclusion(s, writes, i, j);
        }
        StoreKeepsInv(s, w, writes, i);
    }
  }

  // ----- no deadlock

  predicate Finished(s: System) {
    forall i :: 0 <= i < |s.threads| ==> s.threads[i] == Thread(Idle, [])
  }

  /** A step that a thread takes without a spurious wake-up. */
  ghost predicate Progress(s: System, a: Action) {
    Enabled(s, a) && !a.SpuriousWakeup?
  }

  ghost predicate CanProgress(s: System) {
    exists a :: Progress(s, a)
  }

  /** Deadlock freedom: while a thread has something left to do, some thread can take a real step. */
  lemma NoDeadlock(s: System, writes: nat) returns (a: Action)
    requires Inv(s, writes) && !Finished(s)
    ensures Progress(s, a)
  {
    var i :| 0 <= i < |s.threads| && s.threads[i] != Thread(Idle, []);
    var t := s.threads[i];
    TotalAtLeast(s.threads, i);
    if s.lock.mode != Unlocked {
      var h := SomeHolder(s.threads);
      a := HolderStep(s, h);
    } else if t.phase == Idle {
      a := Enter(i);
    } else if 0 < s.lock.writersPending {
      var j :| 0 <= j < |s.threads| && s.threads[j].phase == WriteSignalled;
      a := Resume(j);
    } else {
      a := Resume(i);
    }
  }

  lemma HolderStep(s: System, h: nat) returns (a: Action)
    requires h < |s.threads| && IsHolder(s.threads[h].phase)
    ensures Progress(s, a)
  {
    var p := s.threads[h].phase;
    if p == WriteHolding {
      a := Load(h);
    } else if p.Loaded? {
      a := Store(h);
    } else if SomeWriterWaits(s.threads) {
      var j :| 0 <= j < |s.threads| && s.threads[j].phase == WriteWaiting;
      a := Release(h, j);
    } else {
      a := Release(h, 0);
    }
  }

  // ----- termination

  /** Lexicographic: the work left, then the signalled threads. */
  predicate Smaller(s': System, s: System) {
    var w', w := Total(s'.threads), Total(s.threads);
    w'.work < w.work || (w'.work == w.work && w'.signalled < w.signalled)
  }

  /** One thread's step costs work, unless it wakes up only to wait again. */
  lemma StepWeight(s: System, a: Action)
    requires Progress(s, a) && !a.Release?
    ensures var w, w' := Weight(s.threads[a.i]), Weight(Apply(s, a).threads[a.i]);
      w'.work < w.work || (w'.work == w.work && w'.signalled < w.signalled)
  {
  }

  lemma ProgressDecreases(s: System, a: Action)
    requires Progress(s, a)
    ensures Smaller(Apply(s, a), s)
    ensures |Apply(s, a).threads| == |s.threads|
  {
    if a.Release? {
      ReleaseTotal(s, a);
    } else {
      StepTotal(s, a);
      StepWeight(s, a);
    }
  }

  /** The lexicographic order as one number: at most |threads| threads are signalled. */
  function Rank(work: nat, signalled: nat, n: nat): nat {
    work * (n + 1) + signalled
  }

  lemma SmallerRank(work': nat, signalled': nat, work: nat, signalled: nat, n: nat)
    requires signalled' <= n
    requires work' < work || (work' == work && signalled' < signalled)
    ensures Rank(work', signalled', n) < Rank(work, signalled, n)
  {
    if work' < work {
      MulMonotone(work' + 1, work, n + 1);
    }
  }

  lemma MulMonotone(a: nat, b: nat, m: nat)
    requires a <= b
    ensures a * m <= b * m
  {
  }

  function Measure(s: System): nat {
    Rank(Total(s.threads).work, Total(s.threads).signalled, |s.threads|)
  }

  // ----- whole runs

  ghost predicate CanRun(s: System, run: seq<Action>)
    decreases |run|
  {
    run == [] || (Enabled(s, run[0]) && CanRun(Apply(s, run[0]), run[1..]))
  }

  ghost function After(s: System, run: seq<Action>): System
    requires CanRun(s, run)
    decreases |run|
  {
    if run == [] then s else After(Apply(s, run[0]), run[1..])
  }

  lemma {:induction false} RunKeepsInv(s: System, writes: nat, run: seq<Action>)
    requires Inv(s, writes) && CanRun(s, run)
    ensures Inv(After(s, run), writes)
    decreases |run|
  {
    if run != [] {
      StepKeepsInv(s, writes, run[0]);
      RunKeepsInv(Apply(s, run[0]), writes, run[1..]);
    }
  }

  lemma {:induction false} RunIsBounded(s: System, writes: nat, run: seq<Action>)
    requires Inv(s, writes) && CanRun(s, run)
    requires forall k :: 0 <= k < |run| ==> !run[k].SpuriousWakeup?
    ensures |run| + Measure(After(s, run)) <= Measure(s)
    decreases |run|
  {
    if run != [] {
      StepKeepsInv(s, writes, run[0]);
      ProgressDecreases(s, run[0]);
      var w, w' := Total(s.threads), Total(Apply(s, run[0]).threads);
      SmallerRank(w'.work, w'.signalled, w.work, w.signalled, |s.threads|);
      RunIsBounded(Apply(s, run[0]), writes, run[1..]);
    }
  }

  function AllWriteRequests(programs: seq<seq<Request>>): nat {
    if programs == [] then 0 else WriteRequests(programs[0]) + AllWriteRequests(programs[1..])
  }

  lemma {:induction false} StartingTotal(programs: seq<seq<Request>>)
    ensures var w := Total(Starting(programs));
      w == NOTHING.(work := w.work, writesLeft := AllWriteRequests(programs))
  {
    if programs != [] {
      StartingTotal(programs[1..]);
      assert Starting(programs)[1..] == Starting(programs[1..]);
    }
  }

  lemma InitialInv(programs: seq<seq<Request>>)
    ensures Inv(Initial(programs), AllWriteRequests(programs))
  {
    StartingTotal(programs);
  }

  lemma {:induction false} FinishedTotal(ts: seq<Thread>)
    requires forall i :: 0 <= i < |ts| ==> ts[i] == Thread(Idle, [])
    ensures Total(ts) == NOTHING
  {
    if ts != [] {
      FinishedTotal(ts[1..]);
    }
  }

  /**
    Every interleaving, with or without spurious wake-ups, keeps the invariant; and a reachable
    state is finished or some thread can take a real step.
   */
  lemma EveryRunIsSafe(programs: seq<seq<Request>>, run: seq<Action>)
    requires CanRun(Initial(programs), run)
    ensures var s := After(Initial(programs), run);
      && Inv(s, AllWriteRequests(programs))
      && (Finished(s) || CanProgress(s))
  {
    InitialInv(programs);
    RunKeepsInv(Initial(programs), AllWriteRequests(programs), run);
    var s := After(Initial(programs), run);
    if !Finished(s) {
      var a := NoDeadlock(s, AllWriteRequests(programs));
    }
  }

  /** What the end of every run looks like. */
  lemma FinishedState(s: System, writes: nat)
    requires Inv(s, writes) && Finished(s)
    ensures s.lock == FREE_LOCK
    ensures s.counter == (writes + s.granted) % COUNTER_LIMIT
  {
    FinishedTotal(s.threads);
    QuietState(s, writes);
  }

  lemma QuietState(s: System, writes: nat)
    requires InvFor(s, NOTHING, writes)
    ensures s.lock == FREE_LOCK
    ensures s.counter == (writes + s.granted) % COUNTER_LIMIT
  {
    assert s.stores == writes + s.granted;
  }

  /** Without spurious wake-ups no run is longer than the measure of the initial state. */
  lemma EveryRunTerminates(programs: seq<seq<Request>>, run: seq<Action>)
    requires CanRun(Initial(programs), run)
    requires forall k :: 0 <= k < |run| ==> !run[k].SpuriousWakeup?
    ensures |run| <= Measure(Initial(programs))
  {
    InitialInv(programs);
    RunIsBounded(Initial(programs), AllWriteRequests(programs), run);
  }

  /**
    A run that cannot be continued has finished every thread, left the lock free with all counters
    zero, and counted every write section exactly once.
   */
  lemma EveryRunEndsWell(programs: seq<seq<Request>>, run: seq<Action>)
    requires CanRun(Initial(programs), run)
    requires !CanProgress(After(Initial(programs), run))
    ensures var s := After(Initial(programs), run);
      && Finished(s)
      && s.lock == FREE_LOCK
      && s.counter == (AllWriteRequests(programs) + s.granted) % COUNTER_LIMIT
  {
    hide Inv, Finished, CanProgress, CanRun, After, AllWriteRequests;
    EveryRunIsSafe(programs, run);
    FinishedState(After(Initial(programs), run), AllWriteRequests(programs));
  }

  // ----- the program

  function Repeat<T>(n: int, x: T): (r: seq<T>)
    ensures |r| == if n < 0 then 0 else n
    ensures forall i :: 0 <= i < |r| ==> r[i] == x
  {
    if n <= 0 then [] else [x] + Repeat(n - 1, x)
  }

  /** The threads that main starts: a negative count starts none and loops no times. */
  function MainPrograms(readers: int, writers: int, iterations: int): seq<seq<Request>> {
    Repeat(readers, Repeat(iterations, ReadLock)) + Repeat(writers, Repeat(iterations, WriteLock))
  }

  lemma {:induction false} RepeatedRequests(n: int, r: Request)
    ensures WriteRequests(Repeat(n, r)) == if r == WriteLock && 0 < n then n else 0
  {
    if 0 < n {
      RepeatedRequests(n - 1, r);
      assert Repeat(n, r)[1..] == Repeat(n - 1, r);
    }
  }

  lemma {:induction false} RepeatedPrograms(n: int, program: seq<Request>)
    ensures AllWriteRequests(Repeat(n, program)) == if 0 < n then n * WriteRequests(program) else 0
  {
    if 0 < n {
      RepeatedPrograms(n - 1, program);
      assert Repeat(n, program)[1..] == Repeat(n - 1, program);
    }
  }

  lemma {:induction false} AllWriteRequestsConcat(ps: seq<seq<Request>>, qs: seq<seq<Request>>)
    ensures AllWriteRequests(ps + qs) == AllWriteRequests(ps) + AllWriteRequests(qs)
  {
    if ps == [] {
      assert ps + qs == qs;
    } else {
      AllWriteRequestsConcat(ps[1..], qs);
      assert (ps + qs)[1..] == ps[1..] + qs;
    }
  }

  lemma MainWriteRequests(readers: int, writers: int, iterations: int)
    ensures AllWriteRequests(MainPrograms(readers, writers, iterations)) ==
      if 0 < iterations && 0 < writers then iterations * writers else 0
  {
    var rs, ws := Repeat(iterations, ReadLock), Repeat(iterations, WriteLock);
    AllWriteRequestsConcat(Repeat(readers, rs), Repeat(writers, ws));
    RepeatedPrograms(readers, rs);
    RepeatedPrograms(writers, ws);
    RepeatedRequests(iterations, ReadLock);
    RepeatedRequests(iterations, WriteLock);
  }

  /** No thread of main ever issues a TryWriteLock. */
  predicate NoTryWrites(s: System) {
    && s.granted == 0
    && forall i :: 0 <= i < |s.threads| ==> TryWriteLock !in s.threads[i].todo
  }

  lemma {:induction false} RunKeepsNoTryWrites(s: System, run: seq<Action>)
    requires NoTryWrites(s) && CanRun(s, run)
    ensures NoTryWrites(After(s, run))
    decreases |run|
  {
    if run != [] {
      assert NoTryWrites(Apply(s, run[0]));
      RunKeepsNoTryWrites(Apply(s, run[0]), run[1..]);
    }
  }

  /**
    The assert at the end of main compares the counter with iterations * nwriters.  For products
    that fit an int it holds at the end of every run, unless the product is non-zero and one of
    the two arguments is negative.
   */
  lemma MainAssertHolds(readers: int, writers: int, iterations: int, run: seq<Action>)
    requires CanRun(Initial(MainPrograms(readers, writers, iterations)), run)
    requires Finished(After(Initial(MainPrograms(readers, writers, iterations)), run))
    requires -0x8000_0000 <= iterations * writers < 0x8000_0000
    ensures var counter := After(Initial(MainPrograms(readers, writers, iterations)), run).counter;
      counter == iterations * writers % COUNTER_LIMIT
      <==> iterations * writers == 0 || (0 < iterations && 0 < writers)
  {
    var programs := MainPrograms(readers, writers, iterations);
    MainRun(programs, run);
    MainWriteRequests(readers, writers, iterations);
    MainCompare(iterations * writers, 0 < iterations && 0 < writers);
  }

  /** No readers, -1 writers and -1 iterations: no thread starts, and the assert compares 0 with 1. */
  lemma MainAssertCanFail()
    ensures var s := After(Initial(MainPrograms(0, -1, -1)), []);
      CanRun(Initial(MainPrograms(0, -1, -1)), []) && Finished(s) && s.counter != (-1 * -1) % COUNTER_LIMIT
  {
    MainAssertHolds(0, -1, -1, []);
  }

  lemma MainRun(programs: seq<seq<Request>>, run: seq<Action>)
    requires CanRun(Initial(programs), run) && Finished(After(Initial(programs), run))
    requires NoTryWrites(Initial(programs))
    ensures After(Initial(programs), run).counter == AllWriteRequests(programs) % COUNTER_LIMIT
  {
    EveryRunIsSafe(programs, run);
    FinishedState(After(Initial(programs), run), AllWriteRequests(programs));
    RunKeepsNoTryWrites(Initial(programs), run);
  }

  lemma MainCompare(product: int, counts: bool)
    requires -0x8000_0000 <= product < 0x8000_0000
    ensures (if counts then product else 0) % COUNTER_LIMIT == product % COUNTER_LIMIT
      <==> product == 0 || counts
  {
  }
}

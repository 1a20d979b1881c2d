/**
  The reader/writer lock: its five fields, and its methods cut at the points where a thread can
  lose the mutex (the two condition-variable waits).  Each section between two such points runs
  under the mutex, so it is one method here and one atomic step of the system in RWLockSystem.
 */
module RWLock {

  datatype LockType = Unlocked | Read | Write

  /** What a section tells the thread that ran it. */
  datatype Outcome = Acquired | Refused | Waits

  /** The notification a release sends. */
  datatype Notification = NotifyNobody | NotifyOneWriter | NotifyAllReaders

  /** A snapshot of the lock's fields. */
  datatype LockState = LockState(
    mode: LockType,
    readersPending: int,
    readersHolding: int,
    writersPending: int,
    writerHolds: bool)

  const FREE_LOCK := LockState(Unlocked, 0, 0, 0, false)

  /** The mode and the two holder fields agree, and no counter is negative. */
  predicate Consistent(l: LockState) {
    && 0 <= l.readersPending && 0 <= l.writersPending && 0 <= l.readersHolding
    && (l.mode == Read <==> 0 < l.readersHolding)
    && (l.mode == Write <==> l.writerHolds)
  }

  // ----- the sections, as functions of the lock's fields

  predicate ReadersMustWait(l: LockState) {
    l.writersPending != 0 || l.mode == Write
  }

  function TakeRead(l: LockState): LockState {
    l.(mode := Read, readersHolding := l.readersHolding + 1)
  }

  function TakeWrite(l: LockState): LockState {
    l.(mode := Write, writerHolds := true)
  }

  /** ReadLock(block) from its start to the first wait, the refusal or the acquisition. */
  function ReadEntry(l: LockState, block: bool): (LockState, Outcome) {
    if l.mode == Unlocked || !ReadersMustWait(l) then (TakeRead(l), Acquired)
    else if block then (l.(readersPending := l.readersPending + 1), Waits)
    else (l, Refused)
  }

  /** ReadLock from a return of the wait to the next wait or the acquisition. */
  function ReadResume(l: LockState): (LockState, Outcome) {
    if ReadersMustWait(l) then (l, Waits)
    else (TakeRead(l.(readersPending := l.readersPending - 1)), Acquired)
  }

  /** WriteLock(block) from its start. */
  function WriteEntry(l: LockState, block: bool): (LockState, Outcome) {
    if l.mode == Unlocked then (TakeWrite(l), Acquired)
    else if block then (l.(writersPending := l.writersPending + 1), Waits)
    else (l, Refused)
  }

  /** WriteLock from a return of the wait. */
  function WriteResume(l: LockState): (LockState, Outcome) {
    if l.mode != Unlocked then (l, Waits)
    else (TakeWrite(l.(writersPending := l.writersPending - 1)), Acquired)
  }

  /** The fields after Unlock, and the notification it sends. */
  function Released(l: LockState): (LockState, Notification) {
    var l' :=
      if l.mode == Write then l.(writerHolds := false, mode := Unlocked)
      else if l.readersHolding == 1 then l.(readersHolding := 0, mode := Unlocked)
      else l.(readersHolding := l.readersHolding - 1);
    if l'.mode != Unlocked then (l', NotifyNobody)
    else if l'.writersPending != 0 then (l', NotifyOneWriter)
    else if l'.readersPending != 0 then (l', NotifyAllReaders)
    else (l', NotifyNobody)
  }

  // ----- the lock object

  class Lock {
    var mode: LockType
    var readersPending: int
    var readersHolding: int
    var writersPending: int
    var writerHolds: bool

    function State(): LockState
      reads this
    {
      LockState(mode, readersPending, readersHolding, writersPending, writerHolds)
    }

    predicate Valid()
      reads this
    {
      Consistent(State())
    }

    constructor ()
      ensures Valid() && State() == FREE_LOCK
    {
      mode, readersPending, readersHolding, writersPending, writerHolds := Unlocked, 0, 0, 0, false;
    }

    /** The common end of both read sections, with the two asserts of the source. */
    method AcquireRead()
      requires Valid() && mode != Write
      modifies this
      ensures Valid() && State() == TakeRead(old(State()))
    {
      assert mode == Unlocked || mode == Read;
      assert !writerHolds;
      mode := Read;
      readersHolding := readersHolding + 1;
    }

    /** The common end of both write sections. */
    method AcquireWrite()
      requires Valid() && mode == Unlocked
      modifies this
      ensures Valid() && State() == TakeWrite(old(State()))
    {
      assert !writerHolds && mode == Unlocked;
      mode := Write;
      writerHolds := true;
    }

    method BeginReadLock(block: bool) returns (outcome: Outcome)
      requires Valid()
      modifies this
      ensures Valid() && (State(), outcome) == ReadEntry(old(State()), block)
    {
      match mode {
        case Unlocked =>
        case _ =>
          if writersPending != 0 || mode == Write {
            if !block {
              return Refused;
            }
            readersPending := readersPending + 1;
            return Waits;
          }
      }
      AcquireRead();
      outcome := Acquired;
    }

    method ResumeReadLock() returns (outcome: Outcome)
      requires Valid() && 0 < readersPending
      modifies this
      ensures Valid() && (State(), outcome) == ReadResume(old(State()))
    {
      readersPending := readersPending - 1;
      if writersPending != 0 || mode == Write {
        readersPending := readersPending + 1;
        return Waits;
      }
      AcquireRead();
      outcome := Acquired;
    }

    method BeginWriteLock(block: bool) returns (outcome: Outcome)
      requires Valid()
      modifies this
      ensures Valid() && (State(), outcome) == WriteEntry(old(State()), block)
    {
      match mode {
        case Unlocked =>
        case _ =>
          if !block {
            return Refused;
          }
          writersPending := writersPending + 1;
          return Waits;
      }
      AcquireWrite();
      outcome := Acquired;
    }

    method ResumeWriteLock() returns (outcome: Outcome)
      requires Valid() && 0 < writersPending
      modifies this
      ensures Valid() && (State(), outcome) == WriteResume(old(State()))
    {
      if mode != Unlocked {
        return Waits;
      }
      writersPending := writersPending - 1;
      AcquireWrite();
      outcome := Acquired;
    }

    /** Unlock asserts that the lock is held. */
    method Unlock() returns (notification: Notification)
      requires Valid() && mode != Unlocked
      modifies this
      ensures Valid() && (State(), notification) == Released(old(State()))
    {
      match mode {
        case Unlocked =>
          assert false;
        case Read =>
          assert readersHolding > 0;
          readersHolding := readersHolding - 1;
          if readersHolding == 0 {
            mode := Unlocked;
          }
        case Write =>
          assert writerHolds && readersHolding == 0;
          writerHolds := false;
          mode := Unlocked;
      }
      if mode != Unlocked {
        return NotifyNobody;
      }
      if writersPending != 0 {
        return NotifyOneWriter;
      } else if readersPending != 0 {
        return NotifyAllReaders;
      }
      return NotifyNobody;
    }
  }
}

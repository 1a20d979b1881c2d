/**
  Who gets the lock: each step in terms of what the other threads are doing, without the lock's counters.  A writer that
  waits keeps new readers out while anyone holds the lock, and keeps woken readers waiting in any case.
 */
module RWLockOutcomes {
  import opened RWLock
  import opened RWLockSystem

  // ----- the lock's fields, read off the threads

  lemma ModeIsWrite(s: System, writes: nat)
    requires Inv(s, writes)
    ensures s.lock.mode == Write
      <==> exists j :: 0 <= j < |s.threads| && s.threads[j].phase !in {Idle, ReadWaiting, ReadSignalled, ReadHolding,
                                                                     WriteWaiting, WriteSignalled}
  {
    if s.lock.mode == Write {
      var j := SomeHolder(s.threads);
      TotalAtLeast(s.threads, j);
    }
    forall j | 0 <= j < |s.threads| && IsWriter(s.threads[j].phase) ensures s.lock.mode == Write {
      TotalAtLeast(s.threads, j);
    }
  }

  lemma ModeIsRead(s: System, writes: nat)
    requires Inv(s, writes)
    ensures s.lock.mode == Read <==> exists j :: 0 <= j < |s.threads| && s.threads[j].phase == ReadHolding
  {
    if s.lock.mode == Read {
      var j := SomeHolder(s.threads);
      TotalAtLeast(s.threads, j);
    }
    forall j | 0 <= j < |s.threads| && s.threads[j].phase == ReadHolding ensures s.lock.mode == Read {
      TotalAtLeast(s.threads, j);
    }
  }

  lemma WritersArePending(s: System, writes: nat)
    requires Inv(s, writes)
    ensures s.lock.writersPending != 0
      <==> exists j :: 0 <= j < |s.threads| && s.threads[j].phase in {WriteWaiting, WriteSignalled}
  {
    if s.lock.writersPending != 0 {
      var j := SomePendingWriter(s.threads);
    }
    forall j | 0 <= j < |s.threads| && s.threads[j].phase in {WriteWaiting, WriteSignalled}
      ensures s.lock.writersPending != 0
    {
      TotalAtLeast(s.threads, j);
    }
  }

  // ----- asking for the lock

  /** A reader gets in when nobody holds the lock, or when readers hold it and no writer waits. */
  lemma ReaderEnters(s: System, writes: nat, i: nat)
    requires Inv(s, writes) && Enabled(s, Enter(i)) && s.threads[i].todo[0] in {ReadLock, TryReadLock}
    ensures var r, t' := s.threads[i].todo[0], Apply(s, Enter(i)).threads[i];
      var writing := exists j :: 0 <= j < |s.threads| && s.threads[j].phase !in {Idle, ReadWaiting, ReadSignalled,
                                   ReadHolding, WriteWaiting, WriteSignalled};
      var reading := exists j :: 0 <= j < |s.threads| && s.threads[j].phase == ReadHolding;
      var pending := exists j :: 0 <= j < |s.threads| && s.threads[j].phase in {WriteWaiting, WriteSignalled};
      t'.phase == if !writing && !(reading && pending) then ReadHolding else if r == ReadLock then ReadWaiting else Idle
  {
    ModeIsWrite(s, writes);
    ModeIsRead(s, writes);
    WritersArePending(s, writes);
  }

  /** Writer preference: while anyone holds the lock and a writer waits, no reader gets in. */
  lemma WritersComeFirst(s: System, writes: nat, i: nat, h: nat, j: nat)
    requires Inv(s, writes) && Enabled(s, Enter(i)) && s.threads[i].todo[0] in {ReadLock, TryReadLock}
    requires h < |s.threads| && s.threads[h].phase !in {Idle, ReadWaiting, ReadSignalled, WriteWaiting, WriteSignalled}
    requires j < |s.threads| && s.threads[j].phase in {WriteWaiting, WriteSignalled}
    ensures Apply(s, Enter(i)).threads[i].phase == if s.threads[i].todo[0] == ReadLock then ReadWaiting else Idle
  {
    TotalAtLeast(s.threads, h);
    TotalAtLeast(s.threads, j);
  }

  /** A woken reader gets in when nobody writes and no writer waits, and else waits on. */
  lemma ReaderResumes(s: System, writes: nat, i: nat)
    requires Inv(s, writes) && Enabled(s, Resume(i)) && s.threads[i].phase == ReadSignalled
    ensures var t' := Apply(s, Resume(i)).threads[i];
      var writing := exists j :: 0 <= j < |s.threads| && s.threads[j].phase !in {Idle, ReadWaiting, ReadSignalled,
                                   ReadHolding, WriteWaiting, WriteSignalled};
      var pending := exists j :: 0 <= j < |s.threads| && s.threads[j].phase in {WriteWaiting, WriteSignalled};
      t'.phase == if !writing && !pending then ReadHolding else ReadWaiting
  {
    ModeIsWrite(s, writes);
    WritersArePending(s, writes);
  }

  /** A writer gets in exactly when nobody holds the lock. */
  lemma WriterEnters(s: System, writes: nat, i: nat)
    requires Inv(s, writes) && Enabled(s, Enter(i)) && s.threads[i].todo[0] in {WriteLock, TryWriteLock}
    ensures var r, t' := s.threads[i].todo[0], Apply(s, Enter(i)).threads[i];
      var held := exists j :: 0 <= j < |s.threads| && s.threads[j].phase !in {Idle, ReadWaiting, ReadSignalled,
                                WriteWaiting, WriteSignalled};
      t'.phase == if !held then WriteHolding else if r == WriteLock then WriteWaiting else Idle
  {
    Held(s, writes);
  }

  lemma WriterResumes(s: System, writes: nat, i: nat)
    requires Inv(s, writes) && Enabled(s, Resume(i)) && s.threads[i].phase == WriteSignalled
    ensures var t' := Apply(s, Resume(i)).threads[i];
      var held := exists j :: 0 <= j < |s.threads| && s.threads[j].phase !in {Idle, ReadWaiting, ReadSignalled,
                                WriteWaiting, WriteSignalled};
      t'.phase == if !held then WriteHolding else WriteWaiting
  {
    Held(s, writes);
  }

  lemma Held(s: System, writes: nat)
    requires Inv(s, writes)
    ensures s.lock.mode != Unlocked
      <==> exists j :: 0 <= j < |s.threads| && s.threads[j].phase !in {Idle, ReadWaiting, ReadSignalled,
                                                                     WriteWaiting, WriteSignalled}
  {
    if s.lock.mode != Unlocked {
      var j := SomeHolder(s.threads);
    }
    forall j | 0 <= j < |s.threads| && IsHolder(s.threads[j].phase) ensures s.lock.mode != Unlocked {
      TotalAtLeast(s.threads, j);
    }
  }

  // ----- giving the lock back

  /** After a release the lock is free exactly when no other thread holds it. */
  lemma FreeAfterRelease(s: System, writes: nat, i: nat, n: nat)
    requires Inv(s, writes) && Enabled(s, Release(i, n))
    ensures Released(s.lock).0.mode != Unlocked
      <==> exists j :: 0 <= j < |s.threads| && j != i && s.threads[j].phase !in {Idle, ReadWaiting, ReadSignalled,
                                                                               WriteWaiting, WriteSignalled}
  {
    TotalAtLeast(s.threads, i);
    var idle := s.threads[i].(phase := Idle);
    var others := s.threads[i := idle];
    TotalUpdate(s.threads, i, idle);
    if Released(s.lock).0.mode != Unlocked {
      var j := SomeHolder(others);
      assert others[j] == s.threads[j];
    }
    forall j | 0 <= j < |s.threads| && j != i && IsHolder(s.threads[j].phase)
      ensures Released(s.lock).0.mode != Unlocked
    {
      TotalAtLeast(others, j);
      assert others[j] == s.threads[j];
    }
  }

  /**
    The last holder to leave wakes one waiting writer, or, when no writer waits, all waiting readers; nobody else's
    state changes.
   */
  lemma ReleaseWakes(s: System, writes: nat, i: nat, n: nat, k: nat)
    requires Inv(s, writes) && Enabled(s, Release(i, n)) && k < |s.threads|
    ensures var p, p' := s.threads[k].phase, Apply(s, Release(i, n)).threads[k].phase;
      var held := exists j :: 0 <= j < |s.threads| && j != i && s.threads[j].phase !in {Idle, ReadWaiting,
                                ReadSignalled, WriteWaiting, WriteSignalled};
      var pending := exists j :: 0 <= j < |s.threads| && s.threads[j].phase in {WriteWaiting, WriteSignalled};
      p' == if k == i then Idle
            else if held then p
            else if pending then (if k == n && p == WriteWaiting then WriteSignalled else p)
            else if p == ReadWaiting then ReadSignalled else p
  {
    FreeAfterRelease(s, writes, i, n);
    WritersArePending(s, writes);
    TotalAtLeast(s.threads, k);
  }
}

/** `SharedLock` of src/common/base/Lock.cpp as an object: the fields it updates under its
    mutex, and one method for each stretch of code a thread runs while owning the mutex. */
module SharedLockObject {
  import opened Common
  import opened LockProtocol

  class SharedLock {
    var readers: int
    var writers: int
    var pendingReaders: int
    var pendingWriters: seq<ThreadId>
    var locking: Option<ThreadId>
    var threadedReaders: multiset<ThreadId>
    // The condition variables: who sleeps on them, and who was woken and wants the mutex.
    var asleepReaders: set<ThreadId>
    var awakeReaders: set<ThreadId>
    var asleepWriters: set<ThreadId>
    var awakeWriters: set<ThreadId>
    const platform: Platform

    ghost function State(): Lock
      reads this
    {
      Lock(readers, writers, pendingReaders, pendingWriters, locking, threadedReaders,
           asleepReaders, awakeReaders, asleepWriters, awakeWriters)
    }

    ghost predicate Valid()
      reads this
    {
      Inv(State())
    }

    constructor (platform: Platform)
      ensures Valid() && State() == Initial && this.platform == platform
    {
      this.platform := platform;
      readers, writers, pendingReaders := 0, 0, 0;
      pendingWriters, locking, threadedReaders := [], None, multiset{};
      asleepReaders, awakeReaders, asleepWriters, awakeWriters := {}, {}, {}, {};
    }

    /** Entering `lockShared` up to the first wait or to the return. */
    method LockShared(t: ThreadId)
      requires Valid() && !Blocked(State(), t)
      modifies this
      ensures Valid() && State() == Step(platform, old(State()), Event.LockShared(t))
    {
      hide Inv;
      StepKeepsInv(platform, State(), Event.LockShared(t));
      AssertionsHoldThen(State(), Event.LockShared(t));
      if if writers > 0 then locking != Some(t) else |pendingWriters| > 0 && threadedReaders[t] == 0 {
        pendingReaders := pendingReaders + 1;
        asleepReaders := asleepReaders + {t};
      } else {
        EndLockShared(t);
      }
    }

    /** Waking up inside `lockShared`: wait again, or leave the loop. */
    method WakeReader(t: ThreadId)
      requires Valid() && t in awakeReaders
      modifies this
      ensures Valid() && State() == Step(platform, old(State()), Event.WakeReader(t))
    {
      hide Inv;
      StepKeepsInv(platform, State(), Event.WakeReader(t));
      AssertionsHoldThen(State(), Event.WakeReader(t));
      awakeReaders := awakeReaders - {t};
      if writers > 0 || |pendingWriters| > 0 {
        asleepReaders := asleepReaders + {t};
      } else {
        pendingReaders := pendingReaders - 1;
        EndLockShared(t);
      }
    }

    /** The end of `lockShared`, with the condition the source asserts there. */
    method EndLockShared(t: ThreadId)
      requires locking == Some(t) || threadedReaders[t] > 0 || writers == 0
      modifies this
      ensures State() == GrantShared(old(State()), t)
    {
      readers := readers + 1;
      threadedReaders := threadedReaders + multiset{t};
    }

    method UnlockShared(t: ThreadId)
      requires Valid() && !Blocked(State(), t)
      modifies this
      ensures Valid() && State() == Step(platform, old(State()), Event.UnlockShared(t))
    {
      hide Inv;
      StepKeepsInv(platform, State(), Event.UnlockShared(t));
      AssertionsHoldThen(State(), Event.UnlockShared(t));
      if threadedReaders[t] == 0 {
        return;
      }
      assert readers > 0;
      threadedReaders := threadedReaders - multiset{t};
      readers := readers - 1;
      if readers == 0 {
        assert threadedReaders[t] == 0;
        if writers == 0 && |pendingWriters| > 0 {
          NotifyPendingWriters();
        }
      }
    }

    method NotifyPendingWriters()
      requires |pendingWriters| > 0
      modifies this`asleepWriters, this`awakeWriters
      ensures State() == NotifyWriters(platform, old(State()))
    {
      match platform {
        case Broadcast =>
          awakeWriters, asleepWriters := awakeWriters + asleepWriters, {};
        case Targeted =>
          var front := pendingWriters[0];
          if front in asleepWriters {
            awakeWriters, asleepWriters := awakeWriters + {front}, asleepWriters - {front};
          }
      }
    }

    /** Entering `lock` up to the first wait or to the return. */
    method LockExclusive(t: ThreadId)
      requires Valid() && !Blocked(State(), t)
      modifies this
      ensures Valid() && State() == Step(platform, old(State()), Event.LockExclusive(t))
    {
      hide Inv;
      StepKeepsInv(platform, State(), Event.LockExclusive(t));
      AssertionsHoldThen(State(), Event.LockExclusive(t));
      if threadedReaders[t] > 0 {
        return;
      }
      if locking != Some(t) {
        pendingWriters := pendingWriters + [t];
        if readers > 0 || writers > 0 || pendingWriters[0] != t {
          asleepWriters := asleepWriters + {t};
          return;
        }
        pendingWriters := pendingWriters[1..];
      }
      EndLockExclusive(t);
    }

    /** Waking up inside `lock`: wait again, or leave the loop. */
    method WakeWriter(t: ThreadId)
      requires Valid() && t in awakeWriters
      modifies this
      ensures Valid() && State() == Step(platform, old(State()), Event.WakeWriter(t))
    {
      hide Inv;
      StepKeepsInv(platform, State(), Event.WakeWriter(t));
      AssertionsHoldThen(State(), Event.WakeWriter(t));
      awakeWriters := awakeWriters - {t};
      if readers > 0 || writers > 0 || pendingWriters[0] != t {
        asleepWriters := asleepWriters + {t};
      } else {
        pendingWriters := pendingWriters[1..];
        EndLockExclusive(t);
      }
    }

    /** The end of `lock`, with the condition the source asserts there. */
    method EndLockExclusive(t: ThreadId)
      requires locking == Some(t) || (writers == 0 && readers == 0)
      modifies this
      ensures State() == GrantExclusive(old(State()), t)
    {
      writers := writers + 1;
      locking := Some(t);
    }

    method Unlock(t: ThreadId)
      requires Valid() && !Blocked(State(), t)
      modifies this
      ensures Valid() && State() == Step(platform, old(State()), Event.Unlock(t))
    {
      hide Inv;
      StepKeepsInv(platform, State(), Event.Unlock(t));
      AssertionsHoldThen(State(), Event.Unlock(t));
      if threadedReaders[t] > 0 || locking != Some(t) {
        return;
      }
      assert readers == 0 && writers > 0;
      writers := writers - 1;
      if writers == 0 {
        locking := None;
        if |pendingWriters| > 0 {
          NotifyPendingWriters();
        } else if pendingReaders > 0 {
          awakeReaders, asleepReaders := awakeReaders + asleepReaders, {};
        }
      }
    }

    /** `level`, and what it tells about everybody else. */
    method GetLevel(t: ThreadId) returns (level: Level)
      requires Valid()
      ensures level == LevelWrite <==> locking == Some(t)
      ensures level == LevelWrite ==> forall u: ThreadId :: u != t ==> LevelOf(State(), u) == LevelNone
      ensures level == LevelRead ==> writers == 0 && threadedReaders[t] > 0
      ensures level == LevelNone <==> locking != Some(t) && threadedReaders[t] == 0
    {
      if locking == Some(t) {
        level := LevelWrite;
      } else if threadedReaders[t] > 0 {
        level := LevelRead;
      } else {
        level := LevelNone;
      }
    }
  }
}

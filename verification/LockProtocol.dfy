/** The reader/writer lock of src/common/base/Lock.cpp as a step system.

    One step is what one thread does while it owns the internal mutex: from
    entering a call, or from waking up inside a wait, to the next wait or to the
    return.  Any number of threads take steps in any order, and a sleeping thread
    may wake up without having been notified. */
module LockProtocol {
  import opened Common

  type ThreadId = nat

  /** How a writer is notified: `notify_all`, or one named thread. */
  datatype Platform = Broadcast | Targeted

  datatype Level = LevelNone | LevelRead | LevelWrite

  /** `threaded` holds every thread's own shared count as a multiplicity, so its
      cardinality is the sum of all per-thread counts.  The two condition variables
      are the sets of threads asleep on them, and of threads that have been woken but
      have not yet taken the mutex back. */
  datatype Lock = Lock(
    readers: int,
    writers: int,
    pendingReaders: int,
    pendingWriters: seq<ThreadId>,
    locking: Option<ThreadId>,
    threaded: multiset<ThreadId>,
    asleepReaders: set<ThreadId>,
    awakeReaders: set<ThreadId>,
    asleepWriters: set<ThreadId>,
    awakeWriters: set<ThreadId>)

  const Initial := Lock(0, 0, 0, [], None, multiset{}, {}, {}, {}, {})

  datatype Event =
    | LockShared(t: ThreadId)
    | WakeReader(t: ThreadId)
    | UnlockShared(t: ThreadId)
    | LockExclusive(t: ThreadId)
    | WakeWriter(t: ThreadId)
    | Unlock(t: ThreadId)
    | SpuriousWake(t: ThreadId)

  // ---------------------------------------------------------------- steps

  predicate Blocked(s: Lock, t: ThreadId) {
    t in s.asleepReaders || t in s.awakeReaders || t in s.asleepWriters || t in s.awakeWriters
  }

  /** A thread that is inside a wait takes no step but waking up. */
  predicate Enabled(s: Lock, e: Event) {
    match e
    case WakeReader(t) => t in s.awakeReaders
    case WakeWriter(t) => t in s.awakeWriters
    case SpuriousWake(t) => t in s.asleepReaders || t in s.asleepWriters
    case _ => !Blocked(s, e.t)
  }

  function GrantShared(s: Lock, t: ThreadId): Lock {
    s.(readers := s.readers + 1, threaded := s.threaded + multiset{t})
  }

  function GrantExclusive(s: Lock, t: ThreadId): Lock {
    s.(writers := s.writers + 1, locking := Some(t))
  }

  predicate MustWaitShared(s: Lock, t: ThreadId) {
    if s.writers > 0 then s.locking != Some(t)
    else |s.pendingWriters| > 0 && s.threaded[t] == 0
  }

  predicate MustStayShared(s: Lock) {
    s.writers > 0 || |s.pendingWriters| > 0
  }

  predicate MustWaitExclusive(s: Lock, t: ThreadId)
    requires |s.pendingWriters| > 0
  {
    s.readers > 0 || s.writers > 0 || s.pendingWriters[0] != t
  }

  function NotifyWriters(p: Platform, s: Lock): Lock
    requires |s.pendingWriters| > 0
  {
    match p
    case Broadcast => s.(asleepWriters := {}, awakeWriters := s.awakeWriters + s.asleepWriters)
    case Targeted =>
      var front := s.pendingWriters[0];
      if front in s.asleepWriters
      then s.(asleepWriters := s.asleepWriters - {front}, awakeWriters := s.awakeWriters + {front})
      else s
  }

  function NotifyReaders(s: Lock): Lock {
    s.(asleepReaders := {}, awakeReaders := s.awakeReaders + s.asleepReaders)
  }

  function StepLockShared(s: Lock, t: ThreadId): Lock {
    if MustWaitShared(s, t)
    then s.(pendingReaders := s.pendingReaders + 1, asleepReaders := s.asleepReaders + {t})
    else GrantShared(s, t)
  }

  function StepWakeReader(s: Lock, t: ThreadId): Lock {
    if MustStayShared(s)
    then s.(awakeReaders := s.awakeReaders - {t}, asleepReaders := s.asleepReaders + {t})
    else GrantShared(s.(awakeReaders := s.awakeReaders - {t}, pendingReaders := s.pendingReaders - 1), t)
  }

  function StepUnlockShared(p: Platform, s: Lock, t: ThreadId): Lock {
    if s.threaded[t] == 0 then s
    else
      var s1 := s.(threaded := s.threaded - multiset{t}, readers := s.readers - 1);
      if s1.readers == 0 && s1.writers == 0 && |s1.pendingWriters| > 0 then NotifyWriters(p, s1) else s1
  }

  function StepLockExclusive(s: Lock, t: ThreadId): Lock {
    if s.threaded[t] > 0 then s
    else if s.locking == Some(t) then GrantExclusive(s, t)
    else
      var s1 := s.(pendingWriters := s.pendingWriters + [t]);
      if MustWaitExclusive(s1, t) then s1.(asleepWriters := s1.asleepWriters + {t})
      else GrantExclusive(s1.(pendingWriters := s1.pendingWriters[1..]), t)
  }

  function StepWakeWriter(s: Lock, t: ThreadId): Lock {
    if |s.pendingWriters| == 0 || MustWaitExclusive(s, t)
    then s.(awakeWriters := s.awakeWriters - {t}, asleepWriters := s.asleepWriters + {t})
    else GrantExclusive(s.(awakeWriters := s.awakeWriters - {t}, pendingWriters := s.pendingWriters[1..]), t)
  }

  function StepUnlock(p: Platform, s: Lock, t: ThreadId): Lock {
    if s.threaded[t] > 0 || s.locking != Some(t) then s
    else
      var s1 := s.(writers := s.writers - 1);
      if s1.writers != 0 then s1
      else
        var s2 := s1.(locking := None);
        if |s2.pendingWriters| > 0 then NotifyWriters(p, s2)
        else if s2.pendingReaders > 0 then NotifyReaders(s2)
        else s2
  }

  function StepSpurious(s: Lock, t: ThreadId): Lock {
    if t in s.asleepReaders
    then s.(asleepReaders := s.asleepReaders - {t}, awakeReaders := s.awakeReaders + {t})
    else s.(asleepWriters := s.asleepWriters - {t}, awakeWriters := s.awakeWriters + {t})
  }

  function Step(p: Platform, s: Lock, e: Event): Lock {
    match e
    case LockShared(t) => StepLockShared(s, t)
    case WakeReader(t) => StepWakeReader(s, t)
    case UnlockShared(t) => StepUnlockShared(p, s, t)
    case LockExclusive(t) => StepLockExclusive(s, t)
    case WakeWriter(t) => StepWakeWriter(s, t)
    case Unlock(t) => StepUnlock(p, s, t)
    case SpuriousWake(t) => StepSpurious(s, t)
  }

  function LevelOf(s: Lock, t: ThreadId): Level {
    if s.locking == Some(t) then LevelWrite
    else if s.threaded[t] > 0 then LevelRead
    else LevelNone
  }

  // ---------------------------------------------------------------- invariant

  predicate Counted(s: Lock) {
    && s.readers == |s.threaded|
    && s.pendingReaders == |s.asleepReaders| + |s.awakeReaders|
    && s.writers >= 0
    && (s.writers > 0 <==> s.locking.Some?)
  }

  ghost predicate Queued(s: Lock) {
    && (forall t: ThreadId :: t in s.pendingWriters <==> t in s.asleepWriters || t in s.awakeWriters)
    && forall i, j :: 0 <= i < j < |s.pendingWriters| ==> s.pendingWriters[i] != s.pendingWriters[j]
  }

  predicate Separate(s: Lock) {
    && s.asleepReaders !! s.awakeReaders
    && s.asleepWriters !! s.awakeWriters
    && (s.asleepReaders + s.awakeReaders) !! (s.asleepWriters + s.awakeWriters)
  }

  /** A thread inside a wait holds nothing. */
  ghost predicate WaitersHoldNothing(s: Lock) {
    forall t: ThreadId :: Blocked(s, t) ==> s.threaded[t] == 0 && s.locking != Some(t)
  }

  /** Only the thread that owns the write lock may hold shared locks beside it. */
  ghost predicate Exclusive(s: Lock) {
    s.locking.Some? ==> forall t: ThreadId :: t in s.threaded ==> t == s.locking.value
  }

  /** Whenever the head of the writer queue could go it is awake, and whenever readers
      could go none of them is asleep. */
  predicate NoLostWakeUp(s: Lock) {
    && (|s.pendingWriters| > 0 && s.readers == 0 && s.writers == 0 ==> s.pendingWriters[0] in s.awakeWriters)
    && (|s.pendingWriters| == 0 && s.writers == 0 ==> s.asleepReaders == {})
  }

  ghost predicate Inv(s: Lock) {
    && Counted(s) && Queued(s) && Separate(s)
    && WaitersHoldNothing(s) && Exclusive(s) && NoLostWakeUp(s)
  }

  lemma NobodyReads(s: Lock)
    requires Counted(s) && s.readers == 0
    ensures s.threaded == multiset{}
  {
  }

  lemma PopFront(s: Lock)
    requires Queued(s) && |s.pendingWriters| > 0
    ensures s.pendingWriters[0] in s.asleepWriters || s.pendingWriters[0] in s.awakeWriters
    ensures forall t: ThreadId :: t in s.pendingWriters[1..] <==>
              (t in s.asleepWriters || t in s.awakeWriters) && t != s.pendingWriters[0]
  {
    var q := s.pendingWriters;
    assert q == [q[0]] + q[1..];
    assert q[0] in q;
  }

  lemma PushBack(s: Lock, t: ThreadId)
    requires Queued(s) && !Blocked(s, t)
    ensures t !in s.pendingWriters
    ensures forall u: ThreadId :: u in s.pendingWriters + [t] <==> u in s.asleepWriters || u in s.awakeWriters || u == t
  {
  }

  lemma NotifyWritersKeeps(p: Platform, s: Lock)
    requires |s.pendingWriters| > 0
    requires Counted(s) && Queued(s) && Separate(s) && WaitersHoldNothing(s) && Exclusive(s)
    ensures Inv(NotifyWriters(p, s))
  {
    PopFront(s);
    var n := NotifyWriters(p, s);
    assert forall t: ThreadId :: Blocked(n, t) ==> Blocked(s, t);
  }

  lemma KeptByLockShared(s: Lock, t: ThreadId)
    requires Inv(s) && !Blocked(s, t)
    ensures Inv(StepLockShared(s, t))
  {
    var n := StepLockShared(s, t);
    assert forall u: ThreadId :: Blocked(n, u) ==> Blocked(s, u) || (u == t && MustWaitShared(s, t));
    if MustWaitShared(s, t) && s.writers > 0 {
      assert s.threaded[t] == 0;
    }
  }

  lemma KeptByWakeReader(s: Lock, t: ThreadId)
    requires Inv(s) && t in s.awakeReaders
    ensures Inv(StepWakeReader(s, t))
  {
    var n := StepWakeReader(s, t);
    assert Blocked(s, t);
    assert forall u: ThreadId :: Blocked(n, u) ==> Blocked(s, u);
  }

  lemma KeptByUnlockShared(p: Platform, s: Lock, t: ThreadId)
    requires Inv(s) && !Blocked(s, t)
    ensures Inv(StepUnlockShared(p, s, t))
  {
    if s.threaded[t] > 0 {
      var s1 := s.(threaded := s.threaded - multiset{t}, readers := s.readers - 1);
      assert forall u: ThreadId :: Blocked(s1, u) ==> Blocked(s, u);
      if s1.readers == 0 && s1.writers == 0 && |s1.pendingWriters| > 0 {
        NotifyWritersKeeps(p, s1);
      }
    }
  }

  lemma KeptByLockExclusive(s: Lock, t: ThreadId)
    requires Inv(s) && !Blocked(s, t)
    ensures Inv(StepLockExclusive(s, t))
  {
    var n := StepLockExclusive(s, t);
    if s.threaded[t] > 0 || s.locking == Some(t) {
      assert forall u: ThreadId :: Blocked(n, u) ==> Blocked(s, u);
    } else {
      PushBack(s, t);
      var s1 := s.(pendingWriters := s.pendingWriters + [t]);
      if MustWaitExclusive(s1, t) {
        assert forall u: ThreadId :: Blocked(n, u) ==> Blocked(s, u) || u == t;
      } else {
        NobodyReads(s);
        assert n.pendingWriters == s.pendingWriters == [];
        assert forall u: ThreadId :: Blocked(n, u) ==> Blocked(s, u);
      }
    }
  }

  lemma KeptByWakeWriter(s: Lock, t: ThreadId)
    requires Inv(s) && t in s.awakeWriters
    ensures Inv(StepWakeWriter(s, t))
  {
    var n := StepWakeWriter(s, t);
    assert t in s.pendingWriters;
    assert |s.pendingWriters| > 0;
    assert Blocked(s, t);
    PopFront(s);
    assert forall u: ThreadId :: Blocked(n, u) ==> Blocked(s, u);
    if !MustWaitExclusive(s, t) {
      NobodyReads(s);
      assert n.asleepWriters == s.asleepWriters - {t};
    }
  }

  lemma KeptByUnlock(p: Platform, s: Lock, t: ThreadId)
    requires Inv(s) && !Blocked(s, t)
    ensures Inv(StepUnlock(p, s, t))
  {
    if s.threaded[t] == 0 && s.locking == Some(t) {
      var s1 := s.(writers := s.writers - 1);
      assert forall u: ThreadId :: Blocked(s1, u) ==> Blocked(s, u);
      if s1.writers == 0 {
        var s2 := s1.(locking := None);
        assert forall u: ThreadId :: Blocked(s2, u) ==> Blocked(s, u);
        if |s2.pendingWriters| > 0 {
          NotifyWritersKeeps(p, s2);
        } else if s2.pendingReaders > 0 {
          var n := NotifyReaders(s2);
          assert forall u: ThreadId :: Blocked(n, u) ==> Blocked(s, u);
        }
      }
    }
  }

  lemma KeptBySpurious(s: Lock, t: ThreadId)
    requires Inv(s) && (t in s.asleepReaders || t in s.asleepWriters)
    ensures Inv(StepSpurious(s, t))
  {
    if t in s.asleepReaders {
      ReaderWakes(s, t);
    } else {
      WriterWakes(s, t);
    }
    var n := StepSpurious(s, t);
    assert forall u: ThreadId :: Blocked(n, u) ==> Blocked(s, u);
    hide Counted, Queued, Separate;
  }

  lemma ReaderWakes(s: Lock, t: ThreadId)
    requires Counted(s) && Queued(s) && Separate(s) && t in s.asleepReaders
    ensures var n := s.(asleepReaders := s.asleepReaders - {t}, awakeReaders := s.awakeReaders + {t});
      Counted(n) && Queued(n) && Separate(n)
  {
  }

  lemma WriterWakes(s: Lock, t: ThreadId)
    requires Counted(s) && Queued(s) && Separate(s) && t in s.asleepWriters
    ensures var n := s.(asleepWriters := s.asleepWriters - {t}, awakeWriters := s.awakeWriters + {t});
      Counted(n) && Queued(n) && Separate(n)
  {
  }

  /** Every step of every thread keeps the invariant, on both platforms. */
  lemma StepKeepsInv(p: Platform, s: Lock, e: Event)
    requires Inv(s) && Enabled(s, e)
    ensures Inv(Step(p, s, e))
  {
    match e
    case LockShared(t) => KeptByLockShared(s, t);
    case WakeReader(t) => KeptByWakeReader(s, t);
    case UnlockShared(t) => KeptByUnlockShared(p, s, t);
    case LockExclusive(t) => KeptByLockExclusive(s, t);
    case WakeWriter(t) => KeptByWakeWriter(s, t);
    case Unlock(t) => KeptByUnlock(p, s, t);
    case SpuriousWake(t) => KeptBySpurious(s, t);
  }

  // ---------------------------------------------------------------- runs

  /** Each event is enabled in the state the earlier ones lead to. */
  predicate Feasible(p: Platform, s: Lock, es: seq<Event>)
    decreases |es|
  {
    es == [] || (Enabled(s, es[0]) && Feasible(p, Step(p, s, es[0]), es[1..]))
  }

  function Run(p: Platform, s: Lock, es: seq<Event>): Lock
    decreases |es|
  {
    if es == [] then s else Run(p, Step(p, s, es[0]), es[1..])
  }

  /** The thread, if any, that joins the writer queue at this event. */
  function Joins(s: Lock, e: Event): seq<ThreadId> {
    if e.LockExclusive? && s.threaded[e.t] == 0 && s.locking != Some(e.t) then [e.t] else []
  }

  function JoinLog(p: Platform, s: Lock, es: seq<Event>): seq<ThreadId>
    decreases |es|
  {
    if es == [] then [] else Joins(s, es[0]) + JoinLog(p, Step(p, s, es[0]), es[1..])
  }

  /** The thread, if any, that comes to own the write lock at this event. */
  function Grants(p: Platform, s: Lock, e: Event): seq<ThreadId> {
    var n := Step(p, s, e);
    if n.locking.Some? && n.locking != s.locking then [n.locking.value] else []
  }

  function GrantLog(p: Platform, s: Lock, es: seq<Event>): seq<ThreadId>
    decreases |es|
  {
    if es == [] then [] else Grants(p, s, es[0]) + GrantLog(p, Step(p, s, es[0]), es[1..])
  }

  lemma {:induction false} RunKeepsInv(p: Platform, s: Lock, es: seq<Event>)
    requires Inv(s) && Feasible(p, s, es)
    ensures Inv(Run(p, s, es))
    decreases |es|
  {
    if es != [] {
      StepKeepsInv(p, s, es[0]);
      RunKeepsInv(p, Step(p, s, es[0]), es[1..]);
    }
  }

  ghost predicate Reachable(p: Platform, s: Lock) {
    exists es: seq<Event> :: Feasible(p, Initial, es) && Run(p, Initial, es) == s
  }

  lemma ReachableInv(p: Platform, s: Lock)
    requires Reachable(p, s)
    ensures Inv(s)
  {
    var es: seq<Event> :| Feasible(p, Initial, es) && Run(p, Initial, es) == s;
    assert Inv(Initial);
    RunKeepsInv(p, Initial, es);
  }

  // ---------------------------------------------------------------- main results

  /** Mutual exclusion with re-entrancy: a writer excludes every other thread, and the
      shared counters agree with what the threads hold. */
  lemma MutualExclusion(p: Platform, s: Lock, t: ThreadId, u: ThreadId)
    requires Reachable(p, s)
    requires t != u && LevelOf(s, t) == LevelWrite
    ensures LevelOf(s, u) == LevelNone
    ensures s.readers == |s.threaded| && s.readers == s.threaded[t]
    ensures s.writers > 0
  {
    ReachableInv(p, s);
    assert forall v: ThreadId :: v != t ==> s.threaded[v] == 0;
    assert s.threaded == multiset{}[t := s.threaded[t]];
  }

  /** The conditions the source asserts on the way through each call. */
  predicate AssertionsHold(s: Lock, e: Event) {
    match e
    case LockShared(t) =>
      !MustWaitShared(s, t) ==> s.locking == Some(t) || s.threaded[t] > 0 || s.writers == 0
    case WakeReader(t) =>
      !MustStayShared(s) ==> s.locking == Some(t) || s.threaded[t] > 0 || s.writers == 0
    case UnlockShared(t) =>
      s.threaded[t] > 0 ==> s.readers > 0 && (s.readers - 1 == 0 ==> s.threaded[t] - 1 == 0)
    case LockExclusive(t) =>
      var queue := s.pendingWriters + [t];
      var again := s.locking == Some(t);
      s.threaded[t] == 0 && (again || !(s.readers > 0 || s.writers > 0 || queue[0] != t)) ==>
        && (!again ==> queue[0] == t && s.pendingWriters == [])
        && (again || (s.writers == 0 && s.readers == 0))
    case WakeWriter(t) =>
      |s.pendingWriters| > 0 && (!MustWaitExclusive(s, t) ==> s.pendingWriters[0] == t && s.writers == 0 && s.readers == 0)
    case Unlock(t) =>
      s.threaded[t] == 0 && s.locking == Some(t) ==> s.readers == 0 && s.writers > 0
    case SpuriousWake(_) => true
  }

  lemma AssertionsAlwaysHold(p: Platform, s: Lock, e: Event)
    requires Reachable(p, s) && Enabled(s, e)
    ensures AssertionsHold(s, e)
  {
    ReachableInv(p, s);
    AssertionsHoldThen(s, e);
  }

  lemma AssertionsHoldThen(s: Lock, e: Event)
    requires Inv(s) && Enabled(s, e)
    ensures AssertionsHold(s, e)
  {
    match e
    case UnlockShared(t) =>
      if s.threaded[t] > 0 && s.readers == 1 {
        assert s.threaded[t] <= |s.threaded| by {
          assert s.threaded == s.threaded[t := 0] + multiset{}[t := s.threaded[t]];
        }
      }
    case LockExclusive(t) =>
      if |s.pendingWriters| > 0 && s.pendingWriters[0] == t { PushBack(s, t); }
    case WakeWriter(t) =>
      assert t in s.pendingWriters;
    case Unlock(t) =>
      if s.threaded[t] == 0 && s.locking == Some(t) {
        assert s.threaded == multiset{};
      }
    case _ =>
  }

  /** The thread can take a step that makes progress: it is outside any wait and gives up
      one of its locks, or it has been woken and its step gains the lock. */
  predicate CanMove(p: Platform, s: Lock, t: ThreadId) {
    || (!Blocked(s, t) && Step(p, s, UnlockShared(t)).readers < s.readers)
    || (!Blocked(s, t) && Step(p, s, Unlock(t)).writers < s.writers)
    || (t in s.awakeReaders && LevelOf(Step(p, s, WakeReader(t)), t) == LevelRead)
    || (t in s.awakeWriters && LevelOf(Step(p, s, WakeWriter(t)), t) == LevelWrite)
  }

  /** No lost wake-up: as long as some thread waits, the lock is either held by a thread
      that does not wait, or a woken thread gets it at its next step; in the second case
      nobody has to be notified again. */
  lemma SomeoneCanMove(p: Platform, s: Lock, waiter: ThreadId)
    requires Reachable(p, s) && Blocked(s, waiter)
    ensures exists t: ThreadId :: CanMove(p, s, t)
    ensures s.readers == 0 && s.writers == 0 ==>
              exists t: ThreadId :: (t in s.awakeReaders || t in s.awakeWriters) && CanMove(p, s, t)
  {
    ReachableInv(p, s);
    if s.locking.Some? || s.readers > 0 {
      HolderCanMove(p, s);
    } else {
      WokenCanMove(p, s, waiter);
    }
  }

  lemma HolderCanMove(p: Platform, s: Lock)
    requires Inv(s) && (s.locking.Some? || s.readers > 0)
    ensures exists t: ThreadId :: CanMove(p, s, t)
  {
    if s.readers > 0 {
      var t :| t in s.threaded;
      assert CanMove(p, s, t);
    } else {
      NobodyReads(s);
      assert CanMove(p, s, s.locking.value);
    }
  }

  lemma WokenCanMove(p: Platform, s: Lock, waiter: ThreadId)
    requires Inv(s) && s.readers == 0 && s.locking.None? && Blocked(s, waiter)
    ensures exists t: ThreadId :: (t in s.awakeReaders || t in s.awakeWriters) && CanMove(p, s, t)
  {
    if |s.pendingWriters| > 0 {
      assert CanMove(p, s, s.pendingWriters[0]);
    } else {
      assert waiter !in s.pendingWriters;
      assert CanMove(p, s, waiter);
    }
  }

  /** Nobody holds the lock and nobody waits for it. */
  predicate Idle(s: Lock) {
    s.readers == 0 && s.writers == 0 && s.pendingReaders == 0 && s.pendingWriters == []
  }

  /** What is left to do: one release for each hold, a grant and a release for each wait. */
  function Outstanding(s: Lock): int {
    s.readers + s.writers + 2 * s.pendingReaders + 2 * |s.pendingWriters|
  }

  lemma NextMove(p: Platform, s: Lock) returns (e: Event)
    requires Inv(s) && !Idle(s)
    ensures Enabled(s, e) && Outstanding(Step(p, s, e)) == Outstanding(s) - 1
  {
    if s.readers > 0 {
      var t :| t in s.threaded;
      e := UnlockShared(t);
    } else if s.locking.Some? {
      NobodyReads(s);
      e := Unlock(s.locking.value);
    } else if |s.pendingWriters| > 0 {
      e := WakeWriter(s.pendingWriters[0]);
    } else {
      var t :| t in s.awakeReaders;
      e := WakeReader(t);
    }
  }

  /** No deadlock: from every reachable state some schedule, with nobody else interfering,
      gives every waiting thread the lock and every holder its release, and it needs exactly
      one step for each hold and two for each wait. */
  lemma {:induction false} CanAlwaysDrain(p: Platform, s: Lock) returns (es: seq<Event>)
    requires Inv(s)
    ensures Feasible(p, s, es) && Idle(Run(p, s, es)) && |es| == Outstanding(s)
    decreases Outstanding(s)
  {
    if Idle(s) {
      es := [];
    } else {
      var e := NextMove(p, s);
      StepKeepsInv(p, s, e);
      var rest := CanAlwaysDrain(p, Step(p, s, e));
      es := [e] + rest;
      assert es[0] == e && es[1..] == rest;
    }
  }

  /** When no writer owns or queues for the lock, every waiting reader gets in at its
      next step. */
  lemma ReadersAllAwake(p: Platform, s: Lock, reader: ThreadId)
    requires Reachable(p, s) && (reader in s.asleepReaders || reader in s.awakeReaders)
    requires s.writers == 0 && s.pendingWriters == []
    ensures reader in s.awakeReaders && LevelOf(Step(p, s, WakeReader(reader)), reader) == LevelRead
  {
    ReachableInv(p, s);
  }

  lemma QueueJoin(p: Platform, s: Lock, t: ThreadId)
    requires Inv(s) && !Blocked(s, t) && s.threaded[t] == 0 && s.locking != Some(t)
    ensures Grants(p, s, LockExclusive(t)) + StepLockExclusive(s, t).pendingWriters == s.pendingWriters + [t]
  {
    PushBack(s, t);
    var s1 := s.(pendingWriters := s.pendingWriters + [t]);
    if !MustWaitExclusive(s1, t) {
      assert s.pendingWriters == [];
    }
  }

  lemma QueueServe(p: Platform, s: Lock, t: ThreadId)
    requires Inv(s) && t in s.awakeWriters
    ensures Grants(p, s, WakeWriter(t)) + StepWakeWriter(s, t).pendingWriters == s.pendingWriters
  {
    PopFront(s) by { assert t in s.pendingWriters; }
    assert Blocked(s, t);
  }

  lemma QueueStep(p: Platform, s: Lock, e: Event)
    requires Inv(s) && Enabled(s, e)
    ensures Grants(p, s, e) + Step(p, s, e).pendingWriters == s.pendingWriters + Joins(s, e)
  {
    match e
    case LockExclusive(t) =>
      if s.threaded[t] == 0 && s.locking != Some(t) { QueueJoin(p, s, t); }
    case WakeWriter(t) =>
      QueueServe(p, s, t);
    case _ =>
      hide Inv;
      QueueStays(p, s, e);
  }

  lemma QueueStays(p: Platform, s: Lock, e: Event)
    requires !e.LockExclusive? && !e.WakeWriter?
    ensures Joins(s, e) == [] && Grants(p, s, e) == [] && Step(p, s, e).pendingWriters == s.pendingWriters
  {
  }

  /** First in, first out: over any run, the write lock goes to the threads in exactly the
      order in which they joined the queue, and whoever joined and has not been served is
      still queued, in that order. */
  lemma {:induction false} WritersServedInOrder(p: Platform, s: Lock, es: seq<Event>)
    requires Inv(s) && Feasible(p, s, es)
    ensures GrantLog(p, s, es) + Run(p, s, es).pendingWriters == s.pendingWriters + JoinLog(p, s, es)
    decreases |es|
  {
    if es != [] {
      var n := Step(p, s, es[0]);
      StepKeepsInv(p, s, es[0]);
      QueueStep(p, s, es[0]);
      WritersServedInOrder(p, n, es[1..]);
      Regroup(Grants(p, s, es[0]), GrantLog(p, n, es[1..]), Run(p, n, es[1..]).pendingWriters,
              n.pendingWriters, JoinLog(p, n, es[1..]), s.pendingWriters, Joins(s, es[0]));
    }
  }

  lemma Regroup(g: seq<ThreadId>, gs: seq<ThreadId>, end: seq<ThreadId>, mid: seq<ThreadId>,
                js: seq<ThreadId>, start: seq<ThreadId>, j: seq<ThreadId>)
    requires gs + end == mid + js && g + mid == start + j
    ensures (g + gs) + end == start + (j + js)
  {
    assert (g + gs) + end == g + (gs + end);
    assert g + (mid + js) == (g + mid) + js;
    assert (start + j) + js == start + (j + js);
  }

  /** From the fresh lock: the grants are a prefix of the arrivals. */
  lemma GrantsFollowArrivals(p: Platform, es: seq<Event>)
    requires Feasible(p, Initial, es)
    ensures GrantLog(p, Initial, es) <= JoinLog(p, Initial, es)
  {
    WritersServedInOrder(p, Initial, es);
    assert Initial.pendingWriters + JoinLog(p, Initial, es) == JoinLog(p, Initial, es);
  }

  /** The writer stays in the queue through the whole run. */
  predicate QueuedThroughout(p: Platform, s: Lock, es: seq<Event>, w: ThreadId)
    decreases |es|
  {
    w in s.pendingWriters && (es == [] || QueuedThroughout(p, Step(p, s, es[0]), es[1..], w))
  }

  lemma NoOvertakingStep(p: Platform, s: Lock, e: Event, u: ThreadId)
    requires Inv(s) && Enabled(s, e) && s.pendingWriters != []
    requires LevelOf(s, u) == LevelNone
    ensures LevelOf(Step(p, s, e), u) != LevelRead
    ensures Step(p, s, e).threaded[u] > 0 ==> LevelOf(Step(p, s, e), u) == LevelWrite
  {
    if e.t != u {
      OthersUntouched(p, s, e, u);
      hide Step, Inv;
    } else if e.LockShared? {
      LockSharedGives(p, s, u);
      hide Step, Inv;
    } else if e.LockExclusive? {
      LockGives(p, s, u);
      hide Step, Inv;
    } else if e.UnlockShared? || e.Unlock? {
      UnlockSharedTakes(p, s, u);
      UnlockTakes(p, s, u);
      hide Step, Inv;
    } else {
      hide Queued, WaitersHoldNothing, Exclusive, NoLostWakeUp, Separate;
    }
  }

  /** No overtaking: while a writer is queued, a thread that holds a shared lock at the end
      held one, or the write lock, at the start, or was served as a writer in between. */
  lemma {:induction false} NoOvertaking(p: Platform, s: Lock, es: seq<Event>, w: ThreadId, u: ThreadId)
    requires Inv(s) && Feasible(p, s, es) && QueuedThroughout(p, s, es, w)
    requires LevelOf(s, u) == LevelNone && u !in GrantLog(p, s, es)
    ensures LevelOf(Run(p, s, es), u) == LevelNone
    decreases |es|
  {
    if es != [] {
      var n := Step(p, s, es[0]);
      StepKeepsInv(p, s, es[0]);
      assert u !in Grants(p, s, es[0]) && u !in GrantLog(p, n, es[1..]);
      NoOvertakingStep(p, s, es[0], u);
      NoOvertaking(p, n, es[1..], w, u);
    }
  }

  // ---------------------------------------------------------------- what each call gives

  predicate WaitsShared(s: Lock, t: ThreadId) {
    t in s.asleepReaders || t in s.awakeReaders
  }

  predicate WaitsExclusive(s: Lock, t: ThreadId) {
    t in s.asleepWriters || t in s.awakeWriters
  }

  /** How many write locks a thread holds. */
  function Writes(s: Lock, t: ThreadId): int {
    if s.locking == Some(t) then s.writers else 0
  }

  /** What a thread holds and waits for is the same in both states. */
  predicate SameFor(s: Lock, n: Lock, u: ThreadId) {
    && n.threaded[u] == s.threaded[u] && Writes(n, u) == Writes(s, u) && LevelOf(n, u) == LevelOf(s, u)
    && (WaitsShared(n, u) <==> WaitsShared(s, u)) && (WaitsExclusive(n, u) <==> WaitsExclusive(s, u))
  }

  /** `lockShared` gives one more shared lock or makes the caller wait, and it waits exactly when another
      thread owns the write lock, or nobody does, a writer is queued and the caller holds nothing. */
  lemma LockSharedGives(p: Platform, s: Lock, t: ThreadId)
    requires Inv(s) && !Blocked(s, t)
    ensures var n := Step(p, s, LockShared(t));
      && n.threaded[t] == s.threaded[t] + (if WaitsShared(n, t) then 0 else 1)
      && (WaitsShared(n, t) <==>
            || (s.locking.Some? && s.locking != Some(t))
            || (s.locking.None? && s.pendingWriters != [] && s.threaded[t] == 0))
      && Writes(n, t) == Writes(s, t) && !WaitsExclusive(n, t)
  {
  }

  /** `lock` is refused to a reader; otherwise it gives one more write lock or makes the caller wait, and
      it waits exactly when the caller does not own it and it is held or queued for. */
  lemma LockGives(p: Platform, s: Lock, t: ThreadId)
    requires Inv(s) && !Blocked(s, t)
    ensures var n := Step(p, s, LockExclusive(t));
      && (s.threaded[t] > 0 ==> n == s)
      && (s.threaded[t] == 0 ==> Writes(n, t) == Writes(s, t) + if WaitsExclusive(n, t) then 0 else 1)
      && (WaitsExclusive(n, t) <==>
            s.threaded[t] == 0 && s.locking != Some(t) && (s.readers > 0 || s.locking.Some? || s.pendingWriters != []))
      && n.threaded[t] == s.threaded[t] && !WaitsShared(n, t)
  {
    PushBack(s, t);
  }

  /** `unlockShared` gives back one shared lock, if the caller has one. */
  lemma UnlockSharedTakes(p: Platform, s: Lock, t: ThreadId)
    requires Inv(s) && !Blocked(s, t)
    ensures var n := Step(p, s, UnlockShared(t));
      && n.threaded[t] == s.threaded[t] - (if s.threaded[t] > 0 then 1 else 0)
      && Writes(n, t) == Writes(s, t) && !Blocked(n, t)
  {
  }

  /** `unlock` gives back one write lock of its owner, unless the owner also reads. */
  lemma UnlockTakes(p: Platform, s: Lock, t: ThreadId)
    requires Inv(s) && !Blocked(s, t)
    ensures var n := Step(p, s, Unlock(t));
      && n.threaded[t] == s.threaded[t]
      && Writes(n, t) == Writes(s, t) - (if s.threaded[t] == 0 && s.locking == Some(t) then 1 else 0)
      && !Blocked(n, t)
  {
  }

  /** A woken reader leaves the wait, with its lock, exactly when nobody owns or waits for the write lock; a
      woken writer exactly when it heads the queue and nobody holds anything. */
  lemma WakingGives(p: Platform, s: Lock, e: Event)
    requires Inv(s) && Enabled(s, e) && (e.WakeReader? || e.WakeWriter?)
    ensures var n := Step(p, s, e);
      && (Blocked(n, e.t) <==> LevelOf(n, e.t) == LevelNone)
      && (e.WakeReader? ==> (n.threaded[e.t] == 1 <==> s.locking.None? && s.pendingWriters == []))
      && (e.WakeWriter? ==> (Writes(n, e.t) == 1 <==>
            s.readers == 0 && s.locking.None? && s.pendingWriters[0] == e.t))
  {
    assert Blocked(s, e.t);
    assert e.WakeWriter? ==> e.t in s.pendingWriters;
    hide Exclusive, NoLostWakeUp;
  }

  /** Waking threads up changes nobody's locks and ends nobody's wait. */
  lemma NotifyUntouched(p: Platform, s: Lock, u: ThreadId)
    ensures SameFor(s, NotifyReaders(s), u)
    ensures |s.pendingWriters| > 0 ==> SameFor(s, NotifyWriters(p, s), u)
  {
  }

  lemma OthersUntouchedByUnlock(p: Platform, s: Lock, e: Event, u: ThreadId)
    requires (e.UnlockShared? || e.Unlock?) && u != e.t
    ensures SameFor(s, Step(p, s, e), u)
  {
    var s1 := s.(threaded := s.threaded - multiset{e.t}, readers := s.readers - 1);
    var s2 := s.(writers := s.writers - 1, locking := None);
    NotifyUntouched(p, s1, u);
    NotifyUntouched(p, s2, u);
    hide NotifyReaders, NotifyWriters;
  }

  lemma OthersAtLockShared(s: Lock, t: ThreadId, u: ThreadId)
    requires u != t && Counted(s)
    ensures SameFor(s, StepLockShared(s, t), u)
  {
    hide MustWaitShared;
  }

  lemma OthersAtLockExclusive(s: Lock, t: ThreadId, u: ThreadId)
    requires u != t && Counted(s)
    ensures SameFor(s, StepLockExclusive(s, t), u)
  {
  }

  lemma OthersAtWakeReader(s: Lock, t: ThreadId, u: ThreadId)
    requires u != t && Counted(s)
    ensures SameFor(s, StepWakeReader(s, t), u)
  {
    hide MustStayShared;
  }

  lemma OthersAtWakeWriter(s: Lock, t: ThreadId, u: ThreadId)
    requires u != t && Counted(s)
    ensures SameFor(s, StepWakeWriter(s, t), u)
  {
  }

  lemma OthersAtSpurious(s: Lock, t: ThreadId, u: ThreadId)
    requires u != t && Counted(s)
    ensures SameFor(s, StepSpurious(s, t), u)
  {
  }

  /** Whatever a thread does, nobody else's locks or waits change. */
  lemma OthersUntouched(p: Platform, s: Lock, e: Event, u: ThreadId)
    requires Inv(s) && Enabled(s, e) && u != e.t
    ensures SameFor(s, Step(p, s, e), u)
  {
    hide SameFor, Counted, Queued, WaitersHoldNothing, Exclusive, NoLostWakeUp, Separate;
    hide StepLockShared, StepLockExclusive, StepWakeReader, StepWakeWriter, StepSpurious, StepUnlock, StepUnlockShared;
    match e
    case LockShared(t) => OthersAtLockShared(s, t, u);
    case LockExclusive(t) => OthersAtLockExclusive(s, t, u);
    case WakeReader(t) => OthersAtWakeReader(s, t, u);
    case WakeWriter(t) => OthersAtWakeWriter(s, t, u);
    case SpuriousWake(t) => OthersAtSpurious(s, t, u);
    case _ => OthersUntouchedByUnlock(p, s, e, u);
  }

  // ---------------------------------------------------------------- the balance of calls

  function SharedGain(s: Lock, e: Event, t: ThreadId): int {
    if e == LockShared(t) then 1 else if e == UnlockShared(t) && s.threaded[t] > 0 then -1 else 0
  }

  function ExclusiveGain(s: Lock, e: Event, t: ThreadId): int {
    if s.threaded[t] > 0 then 0
    else if e == LockExclusive(t) then 1
    else if e == Unlock(t) && s.locking == Some(t) then -1
    else 0
  }

  function SharedGains(p: Platform, s: Lock, es: seq<Event>, t: ThreadId): int
    decreases |es|
  {
    if es == [] then 0 else SharedGain(s, es[0], t) + SharedGains(p, Step(p, s, es[0]), es[1..], t)
  }

  function ExclusiveGains(p: Platform, s: Lock, es: seq<Event>, t: ThreadId): int
    decreases |es|
  {
    if es == [] then 0 else ExclusiveGain(s, es[0], t) + ExclusiveGains(p, Step(p, s, es[0]), es[1..], t)
  }

  /** The shared locks a thread has or waits for. */
  function SharedDue(s: Lock, t: ThreadId): int {
    s.threaded[t] + if WaitsShared(s, t) then 1 else 0
  }

  function ExclusiveDue(s: Lock, t: ThreadId): int {
    Writes(s, t) + if WaitsExclusive(s, t) then 1 else 0
  }

  lemma SharedBalanceStep(p: Platform, s: Lock, e: Event, t: ThreadId)
    requires Inv(s) && Enabled(s, e)
    ensures SharedDue(Step(p, s, e), t) == SharedDue(s, t) + SharedGain(s, e, t)
  {
    if e.t != t {
      OthersUntouched(p, s, e, t);
      hide Step, Inv;
    } else if e.UnlockShared? || e.Unlock? {
      UnlockSharedTakes(p, s, t);
      UnlockTakes(p, s, t);
      hide Step, Inv;
    } else {
      hide NoLostWakeUp, Queued, Exclusive;
    }
  }

  lemma ExclusiveBalanceStep(p: Platform, s: Lock, e: Event, t: ThreadId)
    requires Inv(s) && Enabled(s, e)
    ensures ExclusiveDue(Step(p, s, e), t) == ExclusiveDue(s, t) + ExclusiveGain(s, e, t)
  {
    if e.t != t {
      OthersUntouched(p, s, e, t);
      hide Step, Inv;
    } else if e.LockExclusive? {
      LockGives(p, s, t);
      hide Step, Inv;
    } else if e.UnlockShared? || e.Unlock? {
      UnlockSharedTakes(p, s, t);
      UnlockTakes(p, s, t);
      hide Step, Inv;
    } else if e.LockShared? {
      LockSharedGives(p, s, t);
      hide Step, Inv;
    } else {
      hide NoLostWakeUp, Exclusive;
    }
  }

  /** Over every run: the shared locks a thread holds, and the one it may wait for, are its calls of
      `lockShared` less its paired calls of `unlockShared`; and likewise for the write lock, where calls
      of a thread that reads count for nothing. */
  lemma {:induction false} CallsBalance(p: Platform, s: Lock, es: seq<Event>, t: ThreadId)
    requires Inv(s) && Feasible(p, s, es)
    ensures SharedDue(Run(p, s, es), t) == SharedDue(s, t) + SharedGains(p, s, es, t)
    ensures ExclusiveDue(Run(p, s, es), t) == ExclusiveDue(s, t) + ExclusiveGains(p, s, es, t)
    decreases |es|
  {
    if es != [] {
      StepKeepsInv(p, s, es[0]);
      SharedBalanceStep(p, s, es[0], t);
      ExclusiveBalanceStep(p, s, es[0], t);
      hide Inv, Step, SharedDue, ExclusiveDue, SharedGain, ExclusiveGain;
      CallsBalance(p, Step(p, s, es[0]), es[1..], t);
    }
  }
}

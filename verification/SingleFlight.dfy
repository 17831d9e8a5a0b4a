/**
 Any number of tasks asking a cache of hub answers for any keys at once
 (server/src/hub/cache.rs, `get_or_fetch_dated`).

 A step is one atomic section of one task; between its steps any others may come. A task
 may be dropped where it waits for something: for the lock, or for the hub's answer.
 */
module SingleFlight {
  import opened Options
  import opened TtlCache

  type TaskId = nat

  datatype HubError = Unauthorized | NotFound | Invalid | RateLimited | OtherError

  /** Where a task is. All but the first hold the key's lock, in the sense that they refer to it. */
  datatype Task =
    | Missed(key: string, ttl: nat)                              // found nothing young enough
    | Waiting(key: string, ttl: nat, lock: LockId)               // has the lock, not locked it
    | Locked(key: string, ttl: nat, lock: LockId)
    | Fetching(key: string, ttl: nat, lock: LockId)              // a request is with the hub
    | Fetched(key: string, lock: LockId, answer: Result<Value, HubError>)
    | Released(key: string, lock: LockId, answer: Result<Value, HubError>)  // looked whether the table may forget the lock
    | Returning(key: string, lock: LockId)                       // has what it returns, and still locks
    | Leaving(key: string, lock: LockId)                         // has unlocked

  /** A value a task returned: how old it said it was, and how old it might have been. */
  datatype Served = Served(key: string, value: Value, age: nat, limit: nat, at: nat)

  /** That the hub gave a value for a key. */
  datatype Answer = Answer(key: string, value: Value, at: nat)

  datatype State = State(
    now: nat,
    entries: Entries,
    inFlight: InFlight,
    nextLock: LockId,
    lockedBy: map<LockId, TaskId>,
    tasks: map<TaskId, Task>,
    answers: set<Answer>,
    served: seq<Served>)

  const INIT := State(0, map[], map[], 0, map[], map[], {}, [])

  datatype Step =
    | Tick(ms: nat)
    | Begin(id: TaskId, key: string, ttl: nat)
    | Take(id: TaskId)
    | Lock(id: TaskId)
    | LookAgain(id: TaskId)
    | Receive(id: TaskId, answer: Result<Value, HubError>)
    | Release(id: TaskId)
    | Settle(id: TaskId)
    | Unlock(id: TaskId)
    | Leave(id: TaskId)
    | Cancel(id: TaskId)

  predicate Refers(task: Task, lock: LockId) {
    !task.Missed? && task.lock == lock
  }

  /** The tasks that refer to a lock. */
  function Referring(s: State, lock: LockId): set<TaskId> {
    set id | id in s.tasks && Refers(s.tasks[id], lock)
  }

  /** How many refer to a lock: the table, if it has it for that key, and the tasks. */
  function StrongCount(s: State, key: string, lock: LockId): nat {
    |Referring(s, lock)| + if key in s.inFlight && s.inFlight[key] == lock then 1 else 0
  }

  predicate Enabled(s: State, step: Step) {
    match step
    case Tick(_) => true
    case Begin(id, _, _) => id !in s.tasks
    case Take(id) => id in s.tasks && s.tasks[id].Missed?
    case Lock(id) => id in s.tasks && s.tasks[id].Waiting? && s.tasks[id].lock !in s.lockedBy
    case LookAgain(id) => id in s.tasks && s.tasks[id].Locked?
    case Receive(id, _) => id in s.tasks && s.tasks[id].Fetching?
    case Release(id) => id in s.tasks && s.tasks[id].Fetched?
    case Settle(id) => id in s.tasks && s.tasks[id].Released?
    case Unlock(id) => id in s.tasks && s.tasks[id].Returning?
    case Leave(id) => id in s.tasks && s.tasks[id].Leaving?
    case Cancel(id) => id in s.tasks && (s.tasks[id].Waiting? || s.tasks[id].Fetching?)
  }

  function Serve(s: State, key: string, found: Found, limit: nat): State {
    s.(served := s.served + [Served(key, found.value, found.age, limit, s.now)])
  }

  function Move(s: State, id: TaskId, task: Task): State {
    s.(tasks := s.tasks[id := task])
  }

  function Apply(s: State, step: Step): State
    requires Enabled(s, step)
  {
    match step
    case Tick(ms) => s.(now := s.now + ms)
    case Begin(id, key, ttl) =>
      (match Lookup(s.entries, key, ttl, s.now)
       case Some(found) => Serve(s, key, found, ttl)
       case None => Move(s, id, Missed(key, ttl)))
    case Take(id) =>
      var Missed(key, ttl) := s.tasks[id];
      var Taken(lock, inFlight, nextLock) := TakenFrom(s.inFlight, s.nextLock, key);
      Move(s.(inFlight := inFlight, nextLock := nextLock), id, Waiting(key, ttl, lock))
    case Lock(id) =>
      var Waiting(key, ttl, lock) := s.tasks[id];
      Move(s.(lockedBy := s.lockedBy[lock := id]), id, Locked(key, ttl, lock))
    case LookAgain(id) =>
      var Locked(key, ttl, lock) := s.tasks[id];
      (match Lookup(s.entries, key, ttl, s.now)
       case Some(found) => Move(Serve(s, key, found, ttl), id, Returning(key, lock))
       case None => Move(s, id, Fetching(key, ttl, lock)))
    case Receive(id, answer) =>
      var Fetching(key, _, lock) := s.tasks[id];
      var answers := if answer.Ok? then s.answers + {Answer(key, answer.value, s.now)} else s.answers;
      Move(s.(answers := answers), id, Fetched(key, lock, answer))
    case Release(id) =>
      var Fetched(key, lock, answer) := s.tasks[id];
      Move(s.(inFlight := Kept(s.inFlight, key, StrongCount(s, key, lock))), id, Released(key, lock, answer))
    case Settle(id) =>
      var Released(key, lock, answer) := s.tasks[id];
      (match answer
       case Ok(value) =>
         Move(Serve(s.(entries := Stored(s.entries, key, value, s.now)), key, Found(value, 0), 1), id, Returning(key, lock))
       case Err(error) =>
         var stale := Lookup(s.entries, key, MAX_STALE, s.now);
         if (error.RateLimited? || error.OtherError?) && stale.Some? then
           Move(Serve(s, key, stale.value, MAX_STALE), id, Returning(key, lock))
         else
           Move(s, id, Returning(key, lock)))
    case Unlock(id) =>
      var Returning(key, lock) := s.tasks[id];
      Move(s.(lockedBy := s.lockedBy - {lock}), id, Leaving(key, lock))
    case Leave(id) => s.(tasks := s.tasks - {id})
    case Cancel(id) =>
      if s.tasks[id].Waiting? then Move(s, id, Leaving(s.tasks[id].key, s.tasks[id].lock))
      else Move(s, id, Returning(s.tasks[id].key, s.tasks[id].lock))
  }

  /** Whether the steps can be taken one after the other. */
  predicate CanRun(s: State, steps: seq<Step>)
    decreases |steps|
  {
    steps == [] || (Enabled(s, steps[0]) && CanRun(Apply(s, steps[0]), steps[1..]))
  }

  function Run(s: State, steps: seq<Step>): State
    requires CanRun(s, steps)
    decreases |steps|
  {
    if steps == [] then s else Run(Apply(s, steps[0]), steps[1..])
  }

  // ----- What every step keeps -----

  /** From taking the lock until looking whether the table may forget it, a task's lock is the table's. */
  predicate NeedsTable(task: Task) {
    task.Waiting? || task.Locked? || task.Fetching? || task.Fetched?
  }

  predicate HasLocked(task: Task) {
    task.Locked? || task.Fetching? || task.Fetched? || task.Released? || task.Returning?
  }

  ghost predicate LocksAgree(s: State) {
    && OwnLocks(s.inFlight, s.nextLock)
    && (forall id | id in s.tasks && !s.tasks[id].Missed? :: s.tasks[id].lock < s.nextLock)
    && (forall id, k | id in s.tasks && k in s.inFlight && Refers(s.tasks[id], s.inFlight[k]) :: s.tasks[id].key == k)
  }

  ghost predicate TableKept(s: State) {
    forall id | id in s.tasks && NeedsTable(s.tasks[id]) ::
      s.tasks[id].key in s.inFlight && s.inFlight[s.tasks[id].key] == s.tasks[id].lock
  }

  ghost predicate MutexesKept(s: State) {
    && (forall id | id in s.tasks && HasLocked(s.tasks[id]) ::
          s.tasks[id].lock in s.lockedBy && s.lockedBy[s.tasks[id].lock] == id)
    && (forall lock | lock in s.lockedBy ::
          var id := s.lockedBy[lock];
          id in s.tasks && HasLocked(s.tasks[id]) && s.tasks[id].lock == lock)
  }

  ghost predicate LocksKept(s: State) {
    LocksAgree(s) && TableKept(s) && MutexesKept(s)
  }

  /** Whether the hub gave the value for the key no later than `latest`. */
  ghost predicate Given(answers: set<Answer>, key: string, value: Value, latest: nat) {
    exists a :: a in answers && a.key == key && a.value == value && a.at <= latest
  }

  ghost predicate ValuesKept(s: State) {
    && |s.entries| <= MAX_ENTRIES
    && (forall k | k in s.entries :: s.entries[k].storedAt <= s.now && Given(s.answers, k, s.entries[k].value, s.entries[k].storedAt))
    && (forall id | id in s.tasks && (s.tasks[id].Fetched? || s.tasks[id].Released?) && s.tasks[id].answer.Ok? ::
          Given(s.answers, s.tasks[id].key, s.tasks[id].answer.value, s.now))
    && (forall i | 0 <= i < |s.served| ::
          var r := s.served[i];
          r.age < r.limit && r.age <= r.at <= s.now && Given(s.answers, r.key, r.value, r.at - r.age))
  }

  // The lock table can be forgotten only when it is of no more use.

  lemma TwoReferring(s: State, lock: LockId, a: TaskId, b: TaskId)
    requires a != b && {a, b} <= Referring(s, lock)
    ensures |Referring(s, lock)| >= 2
  {
    var rest := Referring(s, lock) - {a, b};
    assert Referring(s, lock) == {a, b} + rest;
    assert |Referring(s, lock)| == |{a, b}| + |rest|;
  }

  /** A lock is forgotten exactly when its remover is the only task that refers to it. */
  lemma ForgottenWhenAlone(s: State, id: TaskId)
    requires LocksKept(s) && Enabled(s, Release(id))
    ensures var (key, lock) := (s.tasks[id].key, s.tasks[id].lock);
            key !in Apply(s, Release(id)).inFlight <==> Referring(s, lock) == {id}
  {
    var (key, lock) := (s.tasks[id].key, s.tasks[id].lock);
    assert id in Referring(s, lock);
    if Referring(s, lock) != {id} {
      var other :| other in Referring(s, lock) && other != id;
      TwoReferring(s, lock, id, other);
    }
  }

  lemma ReleaseKeepsLocks(s: State, id: TaskId)
    requires LocksKept(s) && Enabled(s, Release(id))
    ensures LocksKept(Apply(s, Release(id)))
  {
    var (key, lock) := (s.tasks[id].key, s.tasks[id].lock);
    var t := Apply(s, Release(id));
    ForgottenWhenAlone(s, id);
    forall other | other in t.tasks && NeedsTable(t.tasks[other])
      ensures t.tasks[other].key in t.inFlight && t.inFlight[t.tasks[other].key] == t.tasks[other].lock
    {
      assert other != id && other in s.tasks;
      if s.tasks[other].key == key {
        assert other in Referring(s, lock);
      }
    }
  }

  /** A task that comes to the table's lock of its key. */
  lemma JoiningKeepsLocks(s: State, t: State, id: TaskId, task: Task)
    requires LocksKept(s) && id in s.tasks && s.tasks[id].Missed? && t.tasks == s.tasks[id := task]
    requires t.inFlight == s.inFlight && t.nextLock == s.nextLock && t.lockedBy == s.lockedBy
    requires task.Waiting? && task.key in s.inFlight && task.lock == s.inFlight[task.key]
    ensures LocksKept(t)
  {
  }

  /** A task that puts a new lock of its key in the table. */
  lemma NewLockKeepsLocks(s: State, t: State, id: TaskId, task: Task)
    requires LocksKept(s) && id in s.tasks && s.tasks[id].Missed? && t.tasks == s.tasks[id := task]
    requires task.Waiting? && task.key !in s.inFlight && task.lock == s.nextLock
    requires t.inFlight == s.inFlight[task.key := s.nextLock] && t.nextLock == s.nextLock + 1 && t.lockedBy == s.lockedBy
    ensures LocksKept(t)
  {
    assert LocksAgree(t);
    assert TableKept(t);
    assert MutexesKept(t);
  }

  lemma TakeKeepsLocks(s: State, id: TaskId)
    requires LocksKept(s) && Enabled(s, Take(id))
    ensures LocksKept(Apply(s, Take(id)))
  {
    var t := Apply(s, Take(id));
    if s.tasks[id].key in s.inFlight {
      JoiningKeepsLocks(s, t, id, t.tasks[id]);
    } else {
      NewLockKeepsLocks(s, t, id, t.tasks[id]);
    }
  }

  lemma LockKeepsLocks(s: State, id: TaskId)
    requires LocksKept(s) && Enabled(s, Lock(id))
    ensures LocksKept(Apply(s, Lock(id)))
  {
  }

  lemma UnlockKeepsLocks(s: State, id: TaskId)
    requires LocksKept(s) && Enabled(s, Unlock(id))
    ensures LocksKept(Apply(s, Unlock(id)))
  {
  }

  /** A task that goes on without taking, locking, releasing or unlocking anything. */
  lemma GoingOnKeepsLocks(s: State, t: State, id: TaskId, task: Task)
    requires LocksKept(s) && id in s.tasks && t.tasks == s.tasks[id := task]
    requires t.inFlight == s.inFlight && t.nextLock == s.nextLock && t.lockedBy == s.lockedBy
    requires !task.Missed? && !s.tasks[id].Missed? && task.key == s.tasks[id].key && task.lock == s.tasks[id].lock
    requires NeedsTable(task) ==> NeedsTable(s.tasks[id])
    requires HasLocked(task) <==> HasLocked(s.tasks[id])
    ensures LocksKept(t)
  {
  }

  lemma ComingKeepsLocks(s: State, t: State, id: TaskId, task: Task)
    requires LocksKept(s) && id !in s.tasks && t.tasks == s.tasks[id := task] && task.Missed?
    requires t.inFlight == s.inFlight && t.nextLock == s.nextLock && t.lockedBy == s.lockedBy
    ensures LocksKept(t)
  {
  }

  lemma LeavingKeepsLocks(s: State, t: State, id: TaskId)
    requires LocksKept(s) && id in s.tasks && s.tasks[id].Leaving? && t.tasks == s.tasks - {id}
    requires t.inFlight == s.inFlight && t.nextLock == s.nextLock && t.lockedBy == s.lockedBy
    ensures LocksKept(t)
  {
  }

  lemma BeginKeepsLocks(s: State, id: TaskId, key: string, ttl: nat)
    requires LocksKept(s) && Enabled(s, Begin(id, key, ttl))
    ensures LocksKept(Apply(s, Begin(id, key, ttl)))
  {
    var t := Apply(s, Begin(id, key, ttl));
    if id in t.tasks {
      ComingKeepsLocks(s, t, id, t.tasks[id]);
    }
  }

  lemma SettleKeepsTable(s: State, id: TaskId)
    requires Enabled(s, Settle(id))
    ensures var t := Apply(s, Settle(id));
            && t.tasks == s.tasks[id := Returning(s.tasks[id].key, s.tasks[id].lock)]
            && t.inFlight == s.inFlight && t.nextLock == s.nextLock && t.lockedBy == s.lockedBy
  {
  }

  lemma SettleKeepsLocks(s: State, id: TaskId)
    requires LocksKept(s) && Enabled(s, Settle(id))
    ensures LocksKept(Apply(s, Settle(id)))
  {
    var t := Apply(s, Settle(id));
    SettleKeepsTable(s, id);
    GoingOnKeepsLocks(s, t, id, Returning(s.tasks[id].key, s.tasks[id].lock));
  }

  lemma GoesOn(s: State, step: Step)
    requires LocksKept(s) && Enabled(s, step)
    requires step.LookAgain? || step.Receive? || step.Cancel?
    ensures LocksKept(Apply(s, step))
  {
    var t := Apply(s, step);
    GoingOnKeepsLocks(s, t, step.id, t.tasks[step.id]);
  }

  lemma StepKeepsLocks(s: State, step: Step)
    requires LocksKept(s) && Enabled(s, step)
    ensures LocksKept(Apply(s, step))
  {
    match step
    case Tick(_) =>
    case Begin(id, key, ttl) => BeginKeepsLocks(s, id, key, ttl);
    case Take(id) => TakeKeepsLocks(s, id);
    case Lock(id) => LockKeepsLocks(s, id);
    case Release(id) => ReleaseKeepsLocks(s, id);
    case Unlock(id) => UnlockKeepsLocks(s, id);
    case Settle(id) => SettleKeepsLocks(s, id);
    case Leave(id) => LeavingKeepsLocks(s, Apply(s, step), id);
    case _ => GoesOn(s, step);
  }

  lemma {:induction false} RunKeepsLocks(s: State, steps: seq<Step>)
    requires LocksKept(s) && CanRun(s, steps)
    ensures LocksKept(Run(s, steps))
    decreases |steps|
  {
    if steps != [] {
      StepKeepsLocks(s, steps[0]);
      RunKeepsLocks(Apply(s, steps[0]), steps[1..]);
    }
  }

  /** Over every interleaving of any number of tasks, at most one fetch of a key is outstanding. */
  lemma OneFetchPerKey(steps: seq<Step>, a: TaskId, b: TaskId)
    requires CanRun(INIT, steps)
    requires var s := Run(INIT, steps);
             && a in s.tasks && s.tasks[a].Fetching?
             && b in s.tasks && s.tasks[b].Fetching?
             && s.tasks[a].key == s.tasks[b].key
    ensures a == b
  {
    RunKeepsLocks(INIT, steps);
  }

  /**
   What "one fetch per time to live" would need: a fetch can begin while the answer of an
   earlier one is not stored yet only when the table has forgotten the earlier one's lock.
   */
  lemma SecondFetchAfterForgetting(steps: seq<Step>, a: TaskId, b: TaskId)
    requires CanRun(INIT, steps)
    requires var s := Run(INIT, steps);
             && a in s.tasks && (s.tasks[a].Fetched? || s.tasks[a].Released?)
             && b in s.tasks && s.tasks[b].Fetching?
             && s.tasks[a].key == s.tasks[b].key
    ensures var s := Run(INIT, steps);
            s.tasks[a].Released? && s.tasks[b].key in s.inFlight && s.inFlight[s.tasks[b].key] != s.tasks[a].lock
  {
    RunKeepsLocks(INIT, steps);
  }

  /** And it does happen: without any time passing, a second fetch of a key begins after the first one was answered. */
  lemma TwoFetchesWithinOneTtl(key: string, ttl: nat, value: Value) returns (steps: seq<Step>)
    ensures CanRun(INIT, steps)
    ensures var s := Run(INIT, steps);
            && s.now == 0 && s.answers == {Answer(key, value, 0)}
            && 0 in s.tasks && s.tasks[0].Released? && s.tasks[0].key == key && s.tasks[0].answer == Ok(value)
            && 1 in s.tasks && s.tasks[1] == Fetching(key, ttl, 1)
  {
    var s := FetchingState(key, ttl);
    var t := Apply(s, Receive(0, Ok(value)));
    assert Referring(t, 0) == {0};
    var u := Apply(t, Release(0));
    assert u == State(0, map[], map[], 1, map[0 := 0], map[0 := Released(key, 0, Ok(value))], {Answer(key, value, 0)}, []);
    steps := SecondFetch(u, key, ttl);
    steps := Prepend(t, Release(0), steps);
    steps := Prepend(s, Receive(0, Ok(value)), steps);
    steps := FirstFetch(key, ttl, steps);
  }

  /** The first task, asking the hub. */
  function FetchingState(key: string, ttl: nat): State {
    State(0, map[], map[key := 0], 1, map[0 := 0], map[0 := Fetching(key, ttl, 0)], {}, [])
  }

  lemma FirstFetch(key: string, ttl: nat, rest: seq<Step>) returns (steps: seq<Step>)
    requires CanRun(FetchingState(key, ttl), rest)
    ensures CanRun(INIT, steps) && Run(INIT, steps) == Run(FetchingState(key, ttl), rest)
  {
    var s := Apply(INIT, Begin(0, key, ttl));
    var t := Apply(s, Take(0));
    var u := Apply(t, Lock(0));
    assert Apply(u, LookAgain(0)) == FetchingState(key, ttl);
    steps := Prepend(u, LookAgain(0), rest);
    steps := Prepend(t, Lock(0), steps);
    steps := Prepend(s, Take(0), steps);
    steps := Prepend(INIT, Begin(0, key, ttl), steps);
  }

  lemma SecondFetch(s: State, key: string, ttl: nat) returns (steps: seq<Step>)
    requires s.entries == map[] && s.inFlight == map[] && s.nextLock == 1 && s.lockedBy == map[0 := 0] && 1 !in s.tasks
    requires s.tasks.Keys == {0} && s.tasks[0].Released? && s.tasks[0].key == key && s.tasks[0].lock == 0
    ensures CanRun(s, steps)
    ensures var t := Run(s, steps); t.now == s.now && t.answers == s.answers && t.tasks == s.tasks[1 := Fetching(key, ttl, 1)]
  {
    var t := Apply(s, Begin(1, key, ttl));
    var u := Apply(t, Take(1));
    var v := Apply(u, Lock(1));
    assert Apply(v, LookAgain(1)).tasks == s.tasks[1 := Fetching(key, ttl, 1)];
    steps := Prepend(v, LookAgain(1), []);
    steps := Prepend(u, Lock(1), steps);
    steps := Prepend(t, Take(1), steps);
    steps := Prepend(s, Begin(1, key, ttl), steps);
  }

  /** Whether, in some steps in which a task's answer is not stored yet, another with this time to live comes to ask the hub for its key. */
  ghost predicate AsksAgain(s: State, steps: seq<Step>, id: TaskId, ttl: nat) {
    && id in s.tasks && s.tasks[id].Released? && CanRun(s, steps) && Settle(id) !in steps
    && exists b :: b in Run(s, steps).tasks && Run(s, steps).tasks[b].Fetching?
                   && Run(s, steps).tasks[b].key == s.tasks[id].key && Run(s, steps).tasks[b].ttl == ttl
  }

  /** Once a lock is forgotten, a task that comes with nothing young enough to find asks the hub at once. */
  lemma ForgottenLetsAskAgain(s: State, id: TaskId, b: TaskId, ttl: nat) returns (steps: seq<Step>)
    requires LocksKept(s) && id in s.tasks && s.tasks[id].Released? && s.tasks[id].key !in s.inFlight && b !in s.tasks
    requires Lookup(s.entries, s.tasks[id].key, ttl, s.now).None?
    ensures AsksAgain(s, steps, id, ttl)
    ensures var t := Run(s, steps);
            && t.now == s.now && t.tasks == s.tasks[b := Fetching(s.tasks[id].key, ttl, s.nextLock)]
  {
    var key := s.tasks[id].key;
    var s1 := Apply(s, Begin(b, key, ttl));
    var s2 := Apply(s1, Take(b));
    assert s.nextLock !in s.lockedBy;
    var s3 := Apply(s2, Lock(b));
    var s4 := Apply(s3, LookAgain(b));
    assert s4.tasks == s.tasks[b := Fetching(key, ttl, s.nextLock)];
    steps := Prepend(s3, LookAgain(b), []);
    steps := Prepend(s2, Lock(b), steps);
    steps := Prepend(s1, Take(b), steps);
    steps := Prepend(s, Begin(b, key, ttl), steps);
    assert Run(s, steps) == s4 && s4.tasks[b].Fetching?;
  }

  /** Whether a task that has looked after its lock still is in the table's way. */
  ghost predicate StillHeld(s: State, id: TaskId, task: Task) {
    && id in s.tasks && s.tasks[id] == task && task.Released?
    && task.key in s.inFlight && s.inFlight[task.key] == task.lock
  }

  lemma StepKeepsHeld(s: State, step: Step, id: TaskId, task: Task)
    requires LocksKept(s) && Enabled(s, step) && step != Settle(id) && StillHeld(s, id, task)
    ensures StillHeld(Apply(s, step), id, task)
  {
    assert s.lockedBy[task.lock] == id;
    match step
    case Settle(other) => SettleKeepsTable(s, other);
    case Release(other) => assert s.tasks[other].lock in s.lockedBy && s.lockedBy[s.tasks[other].lock] == other;
    case _ =>
  }

  lemma {:induction false} RunKeepsHeld(s: State, steps: seq<Step>, id: TaskId, task: Task)
    requires LocksKept(s) && CanRun(s, steps) && Settle(id) !in steps && StillHeld(s, id, task)
    ensures StillHeld(Run(s, steps), id, task)
    decreases |steps|
  {
    if steps != [] {
      assert steps[0] in steps;
      StepKeepsLocks(s, steps[0]);
      StepKeepsHeld(s, steps[0], id, task);
      RunKeepsHeld(Apply(s, steps[0]), steps[1..], id, task);
    }
  }

  lemma HeldLetsNobodyAsk(s: State, steps: seq<Step>, id: TaskId, ttl: nat)
    requires LocksKept(s) && id in s.tasks && StillHeld(s, id, s.tasks[id])
    ensures !AsksAgain(s, steps, id, ttl)
  {
    if CanRun(s, steps) && Settle(id) !in steps {
      var t := Run(s, steps);
      RunKeepsHeld(s, steps, id, s.tasks[id]);
      RunKeepsLocks(s, steps);
      assert forall b | b in t.tasks && t.tasks[b].Fetching? :: t.tasks[b].lock in t.lockedBy && t.lockedBy[t.tasks[b].lock] == b;
    }
  }

  /** Some number that no task has. */
  lemma {:induction false} FreeId(tasks: set<TaskId>) returns (id: TaskId)
    ensures id !in tasks && forall other | other in tasks :: other < id
    decreases |tasks|
  {
    if tasks == {} {
      id := 0;
    } else {
      if forall some :: some !in tasks {
        assert false;
      }
      var some :| some in tasks;
      var rest := FreeId(tasks - {some});
      assert forall other | other in tasks :: other == some || other in tasks - {some};
      id := if rest <= some then some + 1 else rest;
    }
  }

  /** The same once what is stored is too old for the task that comes. */
  lemma ForgottenLetsAskLater(s: State, id: TaskId, ttl: nat) returns (steps: seq<Step>)
    requires LocksKept(s) && id in s.tasks && s.tasks[id].Released? && s.tasks[id].key !in s.inFlight
    ensures AsksAgain(s, steps, id, ttl)
  {
    var key := s.tasks[id].key;
    var wait := Tick(if key in s.entries then s.entries[key].storedAt + ttl else 0);
    var t := Apply(s, wait);
    var b := FreeId(s.tasks.Keys);
    steps := ForgottenLetsAskAgain(t, id, b, ttl);
    assert Run(t, steps).tasks[b] == Fetching(key, ttl, t.nextLock);
    steps := Prepend(s, wait, steps);
  }

  /**
   Exactly when "one fetch per time to live" fails, for any time to live: when a task looks
   after its lock, another may ask the hub for the same key, before the first one's answer is
   stored, exactly if no task but the first refers to the lock then.
   */
  lemma AsksAgainWhenAlone(s: State, id: TaskId, ttl: nat)
    requires LocksKept(s) && Enabled(s, Release(id))
    ensures (exists steps :: AsksAgain(Apply(s, Release(id)), steps, id, ttl)) <==> Referring(s, s.tasks[id].lock) == {id}
  {
    var t := Apply(s, Release(id));
    ReleaseKeepsLocks(s, id);
    ForgottenWhenAlone(s, id);
    if Referring(s, s.tasks[id].lock) == {id} {
      var steps := ForgottenLetsAskLater(t, id, ttl);
    } else {
      assert StillHeld(t, id, t.tasks[id]);
      forall steps
        ensures !AsksAgain(t, steps, id, ttl)
      {
        HeldLetsNobodyAsk(t, steps, id, ttl);
      }
    }
  }

  /** A key's lock leaves the table with no other step than the look after it of the only task that refers to it. */
  lemma LocksLeaveOnlyThen(s: State, step: Step, key: string)
    requires LocksKept(s) && Enabled(s, step) && key in s.inFlight
    ensures key !in Apply(s, step).inFlight <==>
            step.Release? && s.tasks[step.id].key == key && Referring(s, s.inFlight[key]) == {step.id}
  {
    if step.Release? {
      ForgottenWhenAlone(s, step.id);
    }
  }

  /**
   So a lock may stay in the table when all tasks have left: one waited for it while another
   fetched, and found the entry stored when its turn came, so that it never looked after the lock.
   */
  lemma LockStaysBehind(key: string, ttl: nat, value: Value) returns (steps: seq<Step>)
    requires ttl > 0
    ensures CanRun(INIT, steps)
    ensures var s := Run(INIT, steps); s.tasks == map[] && key in s.inFlight
  {
    var s := Apply(Apply(INIT, Begin(0, key, ttl)), Begin(1, key, ttl));
    var t := Apply(Apply(Apply(s, Take(0)), Take(1)), Lock(0));
    var u := Apply(Apply(t, LookAgain(0)), Receive(0, Ok(value)));
    assert u.tasks == map[0 := Fetched(key, 0, Ok(value)), 1 := Waiting(key, ttl, 0)];
    var rest := SecondFindsEntry(u, key, ttl, value);
    steps := Prepend(Apply(t, LookAgain(0)), Receive(0, Ok(value)), rest);
    steps := Prepend(t, LookAgain(0), steps);
    steps := Prepend(Apply(Apply(s, Take(0)), Take(1)), Lock(0), steps);
    steps := Prepend(Apply(s, Take(0)), Take(1), steps);
    steps := Prepend(s, Take(0), steps);
    steps := Prepend(Apply(INIT, Begin(0, key, ttl)), Begin(1, key, ttl), steps);
    steps := Prepend(INIT, Begin(0, key, ttl), steps);
  }

  lemma SecondFindsEntry(u: State, key: string, ttl: nat, value: Value) returns (steps: seq<Step>)
    requires ttl > 0 && key in u.inFlight && u.inFlight[key] == 0 && u.lockedBy == map[0 := 0]
    requires u.tasks == map[0 := Fetched(key, 0, Ok(value)), 1 := Waiting(key, ttl, 0)]
    ensures CanRun(u, steps) && Run(u, steps).tasks == map[] && key in Run(u, steps).inFlight
  {
    TwoReferring(u, 0, 0, 1);
    var v := Apply(u, Release(0));
    assert v.inFlight == u.inFlight && v.tasks == map[0 := Released(key, 0, Ok(value)), 1 := Waiting(key, ttl, 0)];
    steps := FetcherLeaves(v, key, ttl, value);
    steps := Prepend(u, Release(0), steps);
  }

  lemma FetcherLeaves(s: State, key: string, ttl: nat, value: Value) returns (steps: seq<Step>)
    requires ttl > 0 && key in s.inFlight && s.lockedBy == map[0 := 0]
    requires s.tasks == map[0 := Released(key, 0, Ok(value)), 1 := Waiting(key, ttl, 0)]
    ensures CanRun(s, steps) && Run(s, steps).tasks == map[] && key in Run(s, steps).inFlight
  {
    var t := Apply(s, Settle(0));
    assert t.tasks == map[0 := Returning(key, 0), 1 := Waiting(key, ttl, 0)];
    assert Lookup(t.entries, key, ttl, t.now).Some?;
    steps := ServedLeaves(t, key, ttl);
    steps := Prepend(s, Settle(0), steps);
  }

  lemma ServedLeaves(s: State, key: string, ttl: nat) returns (steps: seq<Step>)
    requires key in s.inFlight && s.lockedBy == map[0 := 0]
    requires s.tasks == map[0 := Returning(key, 0), 1 := Waiting(key, ttl, 0)]
    requires Lookup(s.entries, key, ttl, s.now).Some?
    ensures CanRun(s, steps) && Run(s, steps).tasks == map[] && key in Run(s, steps).inFlight
  {
    var t := Apply(s, Unlock(0));
    var u := Apply(t, Leave(0));
    assert u.tasks == map[1 := Waiting(key, ttl, 0)] && u.lockedBy == map[];
    steps := WaiterLeaves(u, key, ttl);
    steps := Prepend(t, Leave(0), steps);
    steps := Prepend(s, Unlock(0), steps);
  }

  lemma WaiterLeaves(s: State, key: string, ttl: nat) returns (steps: seq<Step>)
    requires key in s.inFlight && s.tasks == map[1 := Waiting(key, ttl, 0)] && s.lockedBy == map[]
    requires Lookup(s.entries, key, ttl, s.now).Some?
    ensures CanRun(s, steps) && Run(s, steps).tasks == map[] && key in Run(s, steps).inFlight
  {
    var t := Apply(s, Lock(1));
    var u := Apply(t, LookAgain(1));
    var v := Apply(u, Unlock(1));
    assert Apply(v, Leave(1)).tasks == map[];
    steps := Prepend(v, Leave(1), []);
    steps := Prepend(u, Unlock(1), steps);
    steps := Prepend(t, LookAgain(1), steps);
    steps := Prepend(s, Lock(1), steps);
  }

  lemma Prepend(s: State, step: Step, rest: seq<Step>) returns (steps: seq<Step>)
    requires Enabled(s, step) && CanRun(Apply(s, step), rest)
    ensures steps == [step] + rest && CanRun(s, steps) && Run(s, steps) == Run(Apply(s, step), rest)
  {
    steps := [step] + rest;
    assert steps[1..] == rest;
  }

  // ----- What is served -----

  lemma FoundWasGiven(s: State, key: string, maxAge: nat)
    requires ValuesKept(s)
    ensures match Lookup(s.entries, key, maxAge, s.now)
      case None => true
      case Some(found) => found.age < maxAge && found.age <= s.now && Given(s.answers, key, found.value, s.now - found.age)
  {
  }

  /** Serving something true keeps what was served true. */
  lemma ServeKeepsValues(s: State, key: string, found: Found, limit: nat)
    requires ValuesKept(s) && found.age < limit && found.age <= s.now && Given(s.answers, key, found.value, s.now - found.age)
    ensures ValuesKept(Serve(s, key, found, limit))
  {
  }

  /** A task that goes on with no answer, or one it had. */
  lemma MoveKeepsValues(s: State, id: TaskId, task: Task)
    requires ValuesKept(s)
    requires (task.Fetched? || task.Released?) && task.answer.Ok? ==> Given(s.answers, task.key, task.answer.value, s.now)
    ensures ValuesKept(Move(s, id, task))
  {
  }

  lemma StoreKeepsValues(s: State, key: string, value: Value)
    requires ValuesKept(s) && Given(s.answers, key, value, s.now)
    ensures ValuesKept(s.(entries := Stored(s.entries, key, value, s.now)))
  {
    StoredFits(s.entries, key, value, s.now);
  }

  lemma SettleKeepsValues(s: State, id: TaskId)
    requires ValuesKept(s) && Enabled(s, Settle(id))
    ensures ValuesKept(Apply(s, Settle(id)))
  {
    var Released(key, lock, answer) := s.tasks[id];
    FoundWasGiven(s, key, MAX_STALE);
    match answer
    case Ok(value) =>
      StoreKeepsValues(s, key, value);
      var stored := s.(entries := Stored(s.entries, key, value, s.now));
      ServeKeepsValues(stored, key, Found(value, 0), 1);
      MoveKeepsValues(Serve(stored, key, Found(value, 0), 1), id, Returning(key, lock));
    case Err(_) =>
      var stale := Lookup(s.entries, key, MAX_STALE, s.now);
      MoveKeepsValues(s, id, Returning(key, lock));
      if stale.Some? {
        ServeKeepsValues(s, key, stale.value, MAX_STALE);
        MoveKeepsValues(Serve(s, key, stale.value, MAX_STALE), id, Returning(key, lock));
      }
  }

  lemma LookingKeepsValues(s: State, step: Step)
    requires ValuesKept(s) && Enabled(s, step) && (step.Begin? || step.LookAgain?)
    ensures ValuesKept(Apply(s, step))
  {
    var (key, ttl) := if step.Begin? then (step.key, step.ttl) else (s.tasks[step.id].key, s.tasks[step.id].ttl);
    FoundWasGiven(s, key, ttl);
    var found := Lookup(s.entries, key, ttl, s.now);
    if found.Some? {
      ServeKeepsValues(s, key, found.value, ttl);
      if step.LookAgain? {
        MoveKeepsValues(Serve(s, key, found.value, ttl), step.id, Returning(key, s.tasks[step.id].lock));
      }
    } else {
      MoveKeepsValues(s, step.id, if step.Begin? then Missed(key, ttl) else Fetching(key, ttl, s.tasks[step.id].lock));
    }
  }

  lemma ReceiveKeepsValues(s: State, id: TaskId, answer: Result<Value, HubError>)
    requires ValuesKept(s) && Enabled(s, Receive(id, answer))
    ensures ValuesKept(Apply(s, Receive(id, answer)))
  {
    var Fetching(key, _, lock) := s.tasks[id];
    if answer.Ok? {
      var given := s.(answers := s.answers + {Answer(key, answer.value, s.now)});
      assert ValuesKept(given);
      assert Answer(key, answer.value, s.now) in given.answers;
      MoveKeepsValues(given, id, Fetched(key, lock, answer));
    } else {
      MoveKeepsValues(s, id, Fetched(key, lock, answer));
    }
  }

  lemma TimeKeepsValues(s: State, ms: nat)
    requires ValuesKept(s)
    ensures ValuesKept(s.(now := s.now + ms))
  {
  }

  /** Whether nothing is stored, served or answered, and no task comes by an answer. */
  ghost predicate Quiet(s: State, t: State) {
    && t.now == s.now && t.entries == s.entries && t.answers == s.answers && t.served == s.served
    && forall id | id in t.tasks && (t.tasks[id].Fetched? || t.tasks[id].Released?) ::
         id in s.tasks && (s.tasks[id].Fetched? || s.tasks[id].Released?)
         && t.tasks[id].key == s.tasks[id].key && t.tasks[id].answer == s.tasks[id].answer
  }

  lemma QuietKeepsValues(s: State, t: State)
    requires ValuesKept(s) && Quiet(s, t)
    ensures ValuesKept(t)
  {
  }

  lemma OthersAreQuiet(s: State, step: Step)
    requires Enabled(s, step) && !step.Settle? && !step.Begin? && !step.LookAgain? && !step.Receive? && !step.Tick?
    ensures Quiet(s, Apply(s, step))
  {
  }

  lemma ClockGoesOn(s: State, step: Step)
    requires Enabled(s, step)
    ensures s.now <= Apply(s, step).now
  {
  }

  lemma StepKeepsValues(s: State, step: Step)
    requires ValuesKept(s) && Enabled(s, step)
    ensures ValuesKept(Apply(s, step)) && s.now <= Apply(s, step).now
  {
    ClockGoesOn(s, step);
    if step.Settle? {
      SettleKeepsValues(s, step.id);
    } else if step.Begin? || step.LookAgain? {
      LookingKeepsValues(s, step);
    } else if step.Receive? {
      ReceiveKeepsValues(s, step.id, step.answer);
    } else if step.Tick? {
      TimeKeepsValues(s, step.ms);
    } else {
      OthersAreQuiet(s, step);
      QuietKeepsValues(s, Apply(s, step));
    }
  }

  lemma {:induction false} RunKeepsValues(s: State, steps: seq<Step>)
    requires ValuesKept(s) && CanRun(s, steps)
    ensures ValuesKept(Run(s, steps))
    decreases |steps|
  {
    if steps != [] {
      StepKeepsValues(s, steps[0]);
      RunKeepsValues(Apply(s, steps[0]), steps[1..]);
    }
  }

  /**
   Whatever is served was given by the hub for that key, at least as long ago as it is
   said to be old and less long ago than it may be: the time to live, or an hour when the
   hub could not be asked. And the cache never has too many entries.
   */
  lemma ServedIsTrue(steps: seq<Step>, i: nat)
    requires CanRun(INIT, steps) && i < |Run(INIT, steps).served|
    ensures var s := Run(INIT, steps);
            var r := s.served[i];
            && r.age < r.limit && r.age <= r.at <= s.now
            && Given(s.answers, r.key, r.value, r.at - r.age)
            && |s.entries| <= MAX_ENTRIES
  {
    RunKeepsValues(INIT, steps);
  }

  // ----- What is stored stays -----

  /** The keys some steps ask for. */
  function Asked(steps: seq<Step>): set<string> {
    set step | step in steps && step.Begin? :: step.key
  }

  ghost predicate OnlyAsked(s: State, keys: set<string>) {
    s.entries.Keys <= keys && forall id | id in s.tasks :: s.tasks[id].key in keys
  }

  /** Whether a key has an entry that was stored at some time or later. */
  ghost predicate StoredSince(s: State, key: string, since: nat) {
    key in s.entries && since <= s.entries[key].storedAt
  }

  lemma FewKeys(s: State, keys: set<string>)
    requires OnlyAsked(s, keys)
    ensures |s.entries| <= |keys|
  {
    SubsetIsSmaller(s.entries.Keys, keys);
    assert |s.entries| == |s.entries.Keys|;
  }

  lemma SubsetIsSmaller(a: set<string>, b: set<string>)
    requires a <= b
    ensures |a| <= |b|
  {
    assert b == a + (b - a);
  }

  lemma StepAsksOnly(s: State, step: Step, keys: set<string>)
    requires Enabled(s, step) && OnlyAsked(s, keys) && (step.Begin? ==> step.key in keys)
    ensures OnlyAsked(Apply(s, step), keys)
  {
    if step.Settle? && s.tasks[step.id].answer.Ok? {
      StoredFits(s.entries, s.tasks[step.id].key, s.tasks[step.id].answer.value, s.now);
    }
  }

  lemma StepKeepsStored(s: State, step: Step, key: string, since: nat)
    requires Enabled(s, step) && |s.entries| < MAX_ENTRIES && StoredSince(s, key, since) && since <= s.now
    ensures StoredSince(Apply(s, step), key, since) && s.now <= Apply(s, step).now
  {
    if step.Settle? && s.tasks[step.id].answer.Ok? && s.tasks[step.id].key != key {
      StoredFits(s.entries, s.tasks[step.id].key, s.tasks[step.id].answer.value, s.now);
      StoredKeeps(s.entries, s.tasks[step.id].key, s.tasks[step.id].answer.value, s.now, key);
    }
  }

  lemma {:induction false} RunAsksOnly(s: State, steps: seq<Step>, keys: set<string>)
    requires CanRun(s, steps) && OnlyAsked(s, keys) && Asked(steps) <= keys
    ensures OnlyAsked(Run(s, steps), keys)
    decreases |steps|
  {
    if steps != [] {
      assert steps[0].Begin? ==> steps[0].key in Asked(steps);
      StepAsksOnly(s, steps[0], keys);
      assert Asked(steps[1..]) <= Asked(steps);
      RunAsksOnly(Apply(s, steps[0]), steps[1..], keys);
    }
  }

  lemma {:induction false} RunKeepsStored(s: State, steps: seq<Step>, keys: set<string>, key: string, since: nat)
    requires CanRun(s, steps) && OnlyAsked(s, keys) && Asked(steps) <= keys && |keys| < MAX_ENTRIES
    requires StoredSince(s, key, since) && since <= s.now
    ensures StoredSince(Run(s, steps), key, since) && since <= Run(s, steps).now
    decreases |steps|
  {
    if steps != [] {
      FewKeys(s, keys);
      StepKeepsStored(s, steps[0], key, since);
      assert steps[0].Begin? ==> steps[0].key in Asked(steps);
      StepAsksOnly(s, steps[0], keys);
      assert Asked(steps[1..]) <= Asked(steps);
      RunKeepsStored(Apply(s, steps[0]), steps[1..], keys, key, since);
    }
  }

  /** Whether a step serves a key's value, of no more than some age, and no task asks the hub, or will, that did not before. */
  ghost predicate ServesYoung(s: State, step: Step, key: string, age: nat)
    requires Enabled(s, step)
  {
    var t := Apply(s, step);
    && |t.served| == |s.served| + 1 && t.served[..|s.served|] == s.served
    && t.served[|s.served|].key == key && t.served[|s.served|].age <= age && t.served[|s.served|].at == s.now
    && (forall id | id in t.tasks :: t.tasks[id].Returning? || (id in s.tasks && t.tasks[id] == s.tasks[id]))
  }

  /** Whether an answer for a key, as old as that, is one a step of a task can do with. */
  predicate AnswerWillDo(s: State, step: Step, key: string, age: nat)
    requires Enabled(s, step)
  {
    match step
    case Begin(_, asked, ttl) => asked == key && age < ttl
    case LookAgain(id) => s.tasks[id].key == key && age < s.tasks[id].ttl
    case Settle(id) =>
      && s.tasks[id].key == key && age < MAX_STALE
      && s.tasks[id].answer.Err? && (s.tasks[id].answer.error.RateLimited? || s.tasks[id].answer.error.OtherError?)
    case _ => false
  }

  /** Whether a step serves an answer no older than from some time on, if that will do. */
  ghost predicate ServesWhoComes(s: State, step: Step, key: string, since: nat) {
    since <= s.now && (Enabled(s, step) && AnswerWillDo(s, step, key, s.now - since) ==> ServesYoung(s, step, key, s.now - since))
  }

  lemma StoredServes(s: State, step: Step, key: string, since: nat)
    requires ValuesKept(s) && StoredSince(s, key, since)
    ensures ServesWhoComes(s, step, key, since)
  {
  }

  lemma SettleStores(s: State, id: TaskId)
    requires Enabled(s, Settle(id)) && s.tasks[id].answer.Ok?
    ensures StoredSince(Apply(s, Settle(id)), s.tasks[id].key, s.now) && Apply(s, Settle(id)).now == s.now
  {
  }

  /** Whether a run of fewer keys than there may be entries gets to a state in which a task's answer is to be stored. */
  ghost predicate ToStore(steps: seq<Step>, s: State, id: TaskId, later: seq<Step>) {
    && CanRun(INIT, steps) && Run(INIT, steps) == s
    && Enabled(s, Settle(id)) && s.tasks[id].answer.Ok? && CanRun(Apply(s, Settle(id)), later)
    && |Asked(steps) + Asked(later)| < MAX_ENTRIES
  }

  lemma StaysStored(steps: seq<Step>, s: State, id: TaskId, later: seq<Step>)
    requires ToStore(steps, s, id, later)
    ensures var t := Run(Apply(s, Settle(id)), later);
            ValuesKept(t) && StoredSince(t, s.tasks[id].key, s.now) && s.now <= t.now
  {
    var keys := Asked(steps) + Asked(later);
    RunAsksOnly(INIT, steps, keys);
    RunKeepsValues(INIT, steps);
    var stored := Apply(s, Settle(id));
    StepAsksOnly(s, Settle(id), keys);
    StepKeepsValues(s, Settle(id));
    SettleStores(s, id);
    RunKeepsStored(stored, later, keys, s.tasks[id].key, s.now);
    RunKeepsValues(stored, later);
  }

  /**
   Over any run that asks for fewer keys than there may be entries: from when an answer is
   stored on, whatever other tasks do, a task for its key that comes, or that has waited, less
   than its time to live later is served and does not ask the hub; and so is one within an
   hour that the hub refused for its rate, or failed.
   */
  lemma ServedFromThenOn(steps: seq<Step>, s: State, id: TaskId, later: seq<Step>, step: Step)
    requires ToStore(steps, s, id, later)
    ensures ServesWhoComes(Run(Apply(s, Settle(id)), later), step, s.tasks[id].key, s.now)
  {
    StaysStored(steps, s, id, later);
    StoredServes(Run(Apply(s, Settle(id)), later), step, s.tasks[id].key, s.now);
  }

  /** What the hub refuses for any other reason is never answered from the cache. */
  lemma OtherFailuresAreNotMasked(s: State, id: TaskId)
    requires Enabled(s, Settle(id)) && s.tasks[id].answer.Err?
    requires s.tasks[id].answer.error.Unauthorized? || s.tasks[id].answer.error.NotFound? || s.tasks[id].answer.error.Invalid?
    ensures Apply(s, Settle(id)).served == s.served && Apply(s, Settle(id)).entries == s.entries
  {
  }
}

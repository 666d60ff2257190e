/** A bounded queue in a ring, shared by any number of threads through two semaphores and a mutex. The
    steps are the single operations on shared memory, so every interleaving is a run of `Move`. The
    thread pool has one slot more than its capacity, the producers and consumers have as many. */
module TaskQueue {
  import opened Arithmetic

  type Item = int

  /** Where a thread is in its program, with the item it carries. */
  datatype Thread =
    | Idle
    // enqueue
    | WantVacancy(x: Item) | InsertWantLock(x: Item) | InsertLocked(x: Item) | InsertWritten(x: Item)
    | InsertAdvanced | InsertUnlocked
    // dequeue
    | WantOccupied | RemoveWantLock | RemoveLocked | RemoveRead(x: Item) | RemoveAdvanced(x: Item) | RemoveUnlocked(x: Item)
    // the look at the queue before a submission
    | SubmitWantLock(x: Item) | SubmitLocked(x: Item) | SubmitAccepted(x: Item) | SubmitRefused

  /** What an idle thread may begin. */
  datatype Task = Enqueue(x: Item) | Dequeue | Submit(x: Item)

  /** Shared memory, the threads, and the history: all items inserted and removed so far, in order. */
  datatype State = State(threads: seq<Thread>, slots: seq<Item>, front: nat, rear: nat, occupied: nat, vacancy: nat,
                         locked: bool, capacity: nat, inserted: seq<Item>, removed: seq<Item>)

  function Start(threads: nat, slots: seq<Item>, capacity: nat): State {
    State(seq(threads, _ => Idle), slots, 0, 0, 0, capacity, false, capacity, [], [])
  }

  predicate Enabled(s: State, i: nat) {
    i < |s.threads| &&
    match s.threads[i]
    case WantVacancy(_) => s.vacancy > 0
    case WantOccupied => s.occupied > 0
    case InsertWantLock(_) => !s.locked
    case RemoveWantLock => !s.locked
    case SubmitWantLock(_) => !s.locked
    case _ => true
  }

  /** One step of thread `i`; a blocked thread stays where it is. */
  function Move(s: State, i: nat, task: Task): State
    requires |s.slots| > 0 && s.front < |s.slots| && s.rear < |s.slots|
  {
    if !Enabled(s, i) then s
    else
      match s.threads[i]
      case Idle =>
        s.(threads := s.threads[i := match task case Enqueue(x) => WantVacancy(x) case Dequeue => WantOccupied case Submit(x) => SubmitWantLock(x)])
      case WantVacancy(x) => s.(threads := s.threads[i := InsertWantLock(x)], vacancy := s.vacancy - 1)
      case InsertWantLock(x) => s.(threads := s.threads[i := InsertLocked(x)], locked := true)
      case InsertLocked(x) => s.(threads := s.threads[i := InsertWritten(x)], slots := s.slots[s.rear := x])
      case InsertWritten(x) =>
        s.(threads := s.threads[i := InsertAdvanced], rear := (s.rear + 1) % |s.slots|, inserted := s.inserted + [x])
      case InsertAdvanced => s.(threads := s.threads[i := InsertUnlocked], locked := false)
      case InsertUnlocked => s.(threads := s.threads[i := Idle], occupied := s.occupied + 1)
      case WantOccupied => s.(threads := s.threads[i := RemoveWantLock], occupied := s.occupied - 1)
      case RemoveWantLock => s.(threads := s.threads[i := RemoveLocked], locked := true)
      case RemoveLocked => s.(threads := s.threads[i := RemoveRead(s.slots[s.front])])
      case RemoveRead(x) =>
        s.(threads := s.threads[i := RemoveAdvanced(x)], front := (s.front + 1) % |s.slots|, removed := s.removed + [x])
      case RemoveAdvanced(x) => s.(threads := s.threads[i := RemoveUnlocked(x)], locked := false)
      case RemoveUnlocked(x) => s.(threads := s.threads[i := Idle], vacancy := s.vacancy + 1)
      case SubmitWantLock(x) => s.(threads := s.threads[i := SubmitLocked(x)], locked := true)
      case SubmitLocked(x) =>
        s.(threads := s.threads[i := if (s.rear + 1) % |s.slots| == s.front then SubmitRefused else SubmitAccepted(x)])
      case SubmitAccepted(x) => s.(threads := s.threads[i := WantVacancy(x)], locked := false)
      case SubmitRefused => s.(threads := s.threads[i := Idle], locked := false)
  }

  // ----- counting threads

  predicate Holds(t: Thread) {
    t.InsertLocked? || t.InsertWritten? || t.InsertAdvanced? || t.RemoveLocked? || t.RemoveRead? || t.RemoveAdvanced?
    || t.SubmitLocked? || t.SubmitAccepted? || t.SubmitRefused?
  }

  /** Has taken a vacancy, but inserted nothing yet. */
  predicate Reserves(t: Thread) { t.InsertWantLock? || t.InsertLocked? || t.InsertWritten? }

  /** Has inserted, but not posted it yet. */
  predicate PostsItem(t: Thread) { t.InsertAdvanced? || t.InsertUnlocked? }

  /** Has taken an occupied place, but removed nothing yet. */
  predicate Claims(t: Thread) { t.RemoveWantLock? || t.RemoveLocked? || t.RemoveRead? }

  /** Has removed, but not posted the vacancy yet. */
  predicate PostsVacancy(t: Thread) { t.RemoveAdvanced? || t.RemoveUnlocked? }

  ghost function Count(threads: seq<Thread>, p: Thread -> bool): nat {
    if threads == [] then 0 else Count(threads[..|threads| - 1], p) + if p(threads[|threads| - 1]) then 1 else 0
  }

  lemma {:induction false} CountUpdate(threads: seq<Thread>, p: Thread -> bool, i: nat, t: Thread)
    requires i < |threads|
    ensures Count(threads[i := t], p) == Count(threads, p) - (if p(threads[i]) then 1 else 0) + (if p(t) then 1 else 0)
  {
    var last := |threads| - 1;
    if i == last {
      assert threads[i := t][..last] == threads[..last];
    } else {
      CountUpdate(threads[..last], p, i, t);
      assert threads[i := t][..last] == threads[..last][i := t];
    }
  }

  lemma {:induction false} CountSome(threads: seq<Thread>, p: Thread -> bool, i: nat)
    requires i < |threads| && p(threads[i])
    ensures Count(threads, p) >= 1
  {
    if i < |threads| - 1 { CountSome(threads[..|threads| - 1], p, i); }
  }

  lemma {:induction false} CountTwo(threads: seq<Thread>, p: Thread -> bool, i: nat, j: nat)
    requires i < j < |threads| && p(threads[i]) && p(threads[j])
    ensures Count(threads, p) >= 2
  {
    if j < |threads| - 1 {
      CountTwo(threads[..|threads| - 1], p, i, j);
    } else {
      CountSome(threads[..|threads| - 1], p, i);
    }
  }

  lemma {:induction false} CountNone(threads: seq<Thread>, p: Thread -> bool)
    requires forall i :: 0 <= i < |threads| ==> !p(threads[i])
    ensures Count(threads, p) == 0
  {
    if threads != [] { CountNone(threads[..|threads| - 1], p); }
  }

  // ----- the invariant

  ghost function Length(s: State): int { |s.inserted| - |s.removed| }

  /** The ring shows the items that are in, and the history is that of a queue. */
  ghost predicate Ring(s: State) {
    && 0 < s.capacity <= |s.slots| && 0 <= Length(s) <= s.capacity
    && s.rear == |s.inserted| % |s.slots| && s.front == |s.removed| % |s.slots|
    && (forall k :: |s.removed| <= k < |s.inserted| ==> s.slots[k % |s.slots|] == s.inserted[k])
    && forall k :: 0 <= k < |s.removed| ==> s.removed[k] == s.inserted[k]
  }

  /** The semaphores and the mutex account for every place and every thread. */
  ghost predicate Accounts(s: State) {
    && s.vacancy + Count(s.threads, Reserves) + Length(s) + Count(s.threads, PostsVacancy) == s.capacity
    && s.occupied + Count(s.threads, Claims) + Count(s.threads, PostsItem) == Length(s)
    && Count(s.threads, Holds) == if s.locked then 1 else 0
  }

  /** What a thread in the middle of its work can rely on. */
  ghost predicate Relies(s: State, t: Thread) {
    && (t.InsertWritten? ==> s.rear < |s.slots| && s.slots[s.rear] == t.x)
    && (t.RemoveRead? ==> |s.removed| < |s.inserted| && t.x == s.inserted[|s.removed|])
  }

  ghost predicate Inv(s: State) {
    Ring(s) && Accounts(s) && forall i :: 0 <= i < |s.threads| ==> Relies(s, s.threads[i])
  }

  lemma {:induction false} StartInv(threads: nat, slots: seq<Item>, capacity: nat)
    requires 0 < capacity <= |slots|
    ensures Inv(Start(threads, slots, capacity))
  {
    var s := Start(threads, slots, capacity);
    CountNone(s.threads, Reserves);
    CountNone(s.threads, PostsVacancy);
    CountNone(s.threads, Claims);
    CountNone(s.threads, PostsItem);
    CountNone(s.threads, Holds);
  }

  // ----- every step keeps the invariant

  lemma {:induction false} MoveThreads(s: State, i: nat, task: Task)
    requires |s.slots| > 0 && s.front < |s.slots| && s.rear < |s.slots| && Enabled(s, i)
    ensures var s' := Move(s, i, task);
      i < |s'.threads| && s'.threads == s.threads[i := s'.threads[i]] && |s'.slots| == |s.slots| && s'.capacity == s.capacity
  {
  }

  lemma {:induction false} AccountsMove(s: State, i: nat, task: Task)
    requires Ring(s) && Accounts(s) && Enabled(s, i)
    ensures Accounts(Move(s, i, task))
  {
    hide Ring, Count;
    RingBounds(s);
    MoveThreads(s, i, task);
    var t' := Move(s, i, task).threads[i];
    CountUpdate(s.threads, Reserves, i, t');
    CountUpdate(s.threads, PostsVacancy, i, t');
    CountUpdate(s.threads, Claims, i, t');
    CountUpdate(s.threads, PostsItem, i, t');
    CountUpdate(s.threads, Holds, i, t');
  }

  lemma {:induction false} RingBounds(s: State)
    requires Ring(s)
    ensures |s.slots| > 0 && s.front < |s.slots| && s.rear < |s.slots| && 0 <= Length(s) <= s.capacity <= |s.slots|
  {
  }

  /** A writer has a vacancy to itself, so the slot it writes holds no item that is still in. */
  lemma {:induction false} RingWrite(s: State, i: nat, x: Item)
    requires Ring(s) && Accounts(s) && i < |s.threads| && s.threads[i] == InsertLocked(x)
    ensures Ring(s.(threads := s.threads[i := InsertWritten(x)], slots := s.slots[s.rear := x]))
  {
    CountSome(s.threads, Reserves, i);
    forall k | |s.removed| <= k < |s.inserted|
      ensures s.slots[s.rear := x][k % |s.slots|] == s.inserted[k]
    {
      ModDistinct(k, |s.inserted|, |s.slots|);
    }
  }

  lemma {:induction false} RingInsert(s: State, i: nat, x: Item)
    requires Ring(s) && Accounts(s) && i < |s.threads| && s.threads[i] == InsertWritten(x) && s.slots[s.rear] == x
    ensures Ring(s.(threads := s.threads[i := InsertAdvanced], rear := (s.rear + 1) % |s.slots|, inserted := s.inserted + [x]))
  {
    CountSome(s.threads, Reserves, i);
    ModNext(|s.inserted|, |s.slots|);
  }

  lemma {:induction false} RingRemove(s: State, i: nat, x: Item)
    requires Ring(s) && Accounts(s) && i < |s.threads| && s.threads[i] == RemoveRead(x)
    requires |s.removed| < |s.inserted| && x == s.inserted[|s.removed|]
    ensures Ring(s.(threads := s.threads[i := RemoveAdvanced(x)], front := (s.front + 1) % |s.slots|, removed := s.removed + [x]))
  {
    ModNext(|s.removed|, |s.slots|);
  }

  lemma {:induction false} RingMove(s: State, i: nat, task: Task)
    requires Ring(s) && Accounts(s) && Enabled(s, i) && Relies(s, s.threads[i])
    ensures Ring(Move(s, i, task))
  {
    hide Accounts;
    match s.threads[i]
    case InsertLocked(x) => RingWrite(s, i, x);
    case InsertWritten(x) => RingInsert(s, i, x);
    case RemoveRead(x) => RingRemove(s, i, x);
    case _ =>
  }

  /** The mutex keeps other threads from disturbing what a thread relies on. */
  lemma {:induction false} ReliesMove(s: State, i: nat, task: Task, j: nat)
    requires Inv(s) && Enabled(s, i) && j < |s.threads|
    ensures Relies(Move(s, i, task), Move(s, i, task).threads[j])
  {
    hide Count;
    MoveThreads(s, i, task);
    if i != j && Holds(s.threads[i]) && Holds(s.threads[j]) {
      if i < j { CountTwo(s.threads, Holds, i, j); } else { CountTwo(s.threads, Holds, j, i); }
    }
    if i == j && s.threads[i].RemoveLocked? {
      CountSome(s.threads, Claims, i);
    }
  }

  lemma {:induction false} MoveInv(s: State, i: nat, task: Task)
    requires Inv(s)
    ensures Inv(Move(s, i, task))
  {
    hide Relies;
    if Enabled(s, i) {
      AccountsMove(s, i, task);
      RingMove(s, i, task);
      MoveThreads(s, i, task);
      forall j | 0 <= j < |s.threads|
        ensures Relies(Move(s, i, task), Move(s, i, task).threads[j])
      {
        ReliesMove(s, i, task, j);
      }
    }
  }

  // ----- whole runs

  datatype Step = Step(thread: nat, task: Task)

  ghost function Run(s: State, steps: seq<Step>): (r: State)
    requires Inv(s)
    ensures Inv(r)
    decreases |steps|
  {
    if steps == [] then s
    else
      MoveInv(s, steps[0].thread, steps[0].task);
      Run(Move(s, steps[0].thread, steps[0].task), steps[1..])
  }

  /** In every interleaving the items removed are a prefix of the items inserted: none is lost, doubled or
      overwritten, and never more than the capacity are in. */
  lemma {:induction false} RemovedIsPrefix(threads: nat, slots: seq<Item>, capacity: nat, steps: seq<Step>)
    requires 0 < capacity <= |slots|
    ensures Inv(Start(threads, slots, capacity))
    ensures var s := Run(Start(threads, slots, capacity), steps);
      s.removed <= s.inserted && |s.inserted| - |s.removed| <= capacity
  {
    StartInv(threads, slots, capacity);
    var s := Run(Start(threads, slots, capacity), steps);
    RunCapacity(Start(threads, slots, capacity), steps);
    assert s.removed == s.inserted[..|s.removed|];
  }

  lemma {:induction false} RunCapacity(s: State, steps: seq<Step>)
    requires Inv(s)
    ensures Run(s, steps).capacity == s.capacity && |Run(s, steps).slots| == |s.slots|
    decreases |steps|
  {
    hide Inv, Move, Enabled;
    if steps != [] {
      MoveInv(s, steps[0].thread, steps[0].task);
      InvRing(s);
      RingBounds(s);
      ThreadsStay(s, steps[0].thread, steps[0].task);
      RunCapacity(Move(s, steps[0].thread, steps[0].task), steps[1..]);
    }
  }

  /** The items in the queue, oldest first. */
  ghost function Contents(s: State): seq<Item>
    requires Ring(s)
  {
    s.inserted[|s.removed|..]
  }

  /** A step appends the item it carries, hands out the oldest item, or leaves the queue alone. */
  lemma {:induction false} MoveRefines(s: State, i: nat, task: Task)
    requires Inv(s) && Enabled(s, i)
    ensures Inv(Move(s, i, task))
    ensures var q, q' := Contents(s), Contents(Move(s, i, task));
      match s.threads[i]
      case InsertWritten(x) => |q| < s.capacity && q' == q + [x]
      case RemoveRead(x) => q != [] && q == [x] + q'
      case _ => q' == q
  {
    hide Inv, Count, Accounts, Relies, Ring;
    MoveInv(s, i, task);
    InvRing(s);
    InvRing(Move(s, i, task));
    RingBounds(s);
    if s.threads[i].InsertWritten? { HasVacancy(s, i); }
    if s.threads[i].RemoveRead? { ReadsOldest(s, i); }
  }

  lemma {:induction false} HasVacancy(s: State, i: nat)
    requires Inv(s) && i < |s.threads| && Reserves(s.threads[i])
    ensures Length(s) < s.capacity
  {
    hide Relies, Ring;
    CountSome(s.threads, Reserves, i);
  }

  lemma {:induction false} ReadsOldest(s: State, i: nat)
    requires Inv(s) && i < |s.threads| && s.threads[i].RemoveRead?
    ensures |s.removed| < |s.inserted| && s.threads[i].x == s.inserted[|s.removed|]
  {
    hide Count, Accounts, Ring;
  }

  /** With one slot more than the capacity, a submission is refused only when the queue is full. */
  lemma {:induction false} RefusedWhenFull(s: State, i: nat, task: Task)
    requires Inv(s) && |s.slots| == s.capacity + 1 && i < |s.threads| && s.threads[i].SubmitLocked?
    ensures Move(s, i, task).threads[i] == SubmitRefused <==> |Contents(s)| == s.capacity
  {
    var n, m, r := |s.inserted|, |s.removed|, |s.slots|;
    ModNext(n, r);
    if n - m == s.capacity {
      Remainder(n + 1, r, m / r + 1, m % r);
    } else {
      ModDistinct(m, n + 1, r);
    }
  }

  // ----- no deadlock

  /** If some thread is about to insert and some thread is about to remove, not all threads are blocked. */
  lemma {:induction false} NotAllBlocked(s: State, p: nat, c: nat)
    requires Inv(s) && p < |s.threads| && c < |s.threads| && s.threads[p].WantVacancy? && s.threads[c].WantOccupied?
    ensures exists i :: 0 <= i < |s.threads| && Enabled(s, i)
  {
    if forall i :: 0 <= i < |s.threads| ==> !Enabled(s, i) {
      AllAtSemaphores(s);
      assert s.occupied == Length(s) && s.vacancy + Length(s) == s.capacity;
      assert Enabled(s, p) || Enabled(s, c);
    }
  }

  /** When nobody can move, nobody is inside and the semaphores count exactly the items and the vacancies. */
  lemma {:induction false} AllAtSemaphores(s: State)
    requires Inv(s) && forall i :: 0 <= i < |s.threads| ==> !Enabled(s, i)
    ensures s.occupied == Length(s) && s.vacancy + Length(s) == s.capacity
    ensures forall i :: 0 <= i < |s.threads| ==> s.threads[i].WantVacancy? || s.threads[i].WantOccupied?
  {
    forall i | 0 <= i < |s.threads|
      ensures !Holds(s.threads[i])
    {
      assert !Enabled(s, i);
    }
    CountNone(s.threads, Holds);
    forall i | 0 <= i < |s.threads|
      ensures s.threads[i].WantVacancy? || s.threads[i].WantOccupied?
    {
      assert !Enabled(s, i);
    }
    CountNone(s.threads, Reserves);
    CountNone(s.threads, PostsVacancy);
    CountNone(s.threads, Claims);
    CountNone(s.threads, PostsItem);
  }

  /** Nobody can move exactly when all wait to insert into a full queue or all wait to remove from an empty one. */
  lemma {:induction false} AllBlockedIff(s: State)
    requires Inv(s) && s.threads != []
    ensures (forall i :: 0 <= i < |s.threads| ==> !Enabled(s, i)) <==>
      || (s.vacancy == 0 && forall i :: 0 <= i < |s.threads| ==> s.threads[i].WantVacancy?)
      || (s.occupied == 0 && forall i :: 0 <= i < |s.threads| ==> s.threads[i].WantOccupied?)
    ensures (forall i :: 0 <= i < |s.threads| ==> !Enabled(s, i)) ==>
      s.occupied == |Contents(s)| && s.vacancy + |Contents(s)| == s.capacity
  {
    if forall i :: 0 <= i < |s.threads| ==> !Enabled(s, i) {
      AllAtSemaphores(s);
      forall i, j | 0 <= i < |s.threads| && 0 <= j < |s.threads| && s.threads[i].WantVacancy?
        ensures s.threads[j].WantVacancy?
      {
        assert !Enabled(s, i) && !Enabled(s, j);
      }
      assert !Enabled(s, 0);
    }
  }

  /** What a producer does, and what a consumer does. */
  predicate InRole(t: Thread, producer: bool) {
    if producer then
      t.Idle? || t.WantVacancy? || t.InsertWantLock? || t.InsertLocked? || t.InsertWritten? || t.InsertAdvanced? || t.InsertUnlocked?
      || t.SubmitWantLock? || t.SubmitLocked? || t.SubmitAccepted? || t.SubmitRefused?
    else
      t.Idle? || t.WantOccupied? || t.RemoveWantLock? || t.RemoveLocked? || t.RemoveRead? || t.RemoveAdvanced? || t.RemoveUnlocked?
  }

  ghost predicate Roles(s: State, producers: set<nat>) {
    forall i: nat :: i < |s.threads| ==> InRole(s.threads[i], i in producers)
  }

  /** The steps give every thread only the work of its role. */
  ghost predicate Assigned(steps: seq<Step>, producers: set<nat>) {
    forall k :: 0 <= k < |steps| ==> (steps[k].task.Dequeue? <==> steps[k].thread !in producers)
  }

  lemma {:induction false} RolesMove(s: State, i: nat, task: Task, producers: set<nat>)
    requires Inv(s) && Roles(s, producers) && (task.Dequeue? <==> i !in producers)
    ensures Roles(Move(s, i, task), producers)
  {
    hide Inv;
    RingBounds(s) by { InvRing(s); }
    if Enabled(s, i) { MoveThreads(s, i, task); }
  }

  lemma {:induction false} InvRing(s: State)
    requires Inv(s)
    ensures Ring(s)
  {
  }

  lemma {:induction false} RolesRun(s: State, steps: seq<Step>, producers: set<nat>)
    requires Inv(s) && Roles(s, producers) && Assigned(steps, producers)
    ensures Roles(Run(s, steps), producers) && |Run(s, steps).threads| == |s.threads|
    decreases |steps|
  {
    hide Roles, Inv, Move, Enabled;
    if steps != [] {
      var i, task := steps[0].thread, steps[0].task;
      RolesMove(s, i, task, producers);
      MoveInv(s, i, task);
      InvRing(s);
      RingBounds(s);
      ThreadsStay(s, i, task);
      RolesRun(Move(s, i, task), steps[1..], producers);
    }
  }

  lemma {:induction false} ThreadsStay(s: State, i: nat, task: Task)
    requires Inv(s) && |s.slots| > 0 && s.front < |s.slots| && s.rear < |s.slots|
    ensures var r := Move(s, i, task); |r.threads| == |s.threads| && |r.slots| == |s.slots| && r.capacity == s.capacity
  {
    if Enabled(s, i) { MoveThreads(s, i, task); }
  }

  /** With at least one producer and at least one consumer some thread can move in every reachable state. */
  lemma {:induction false} NeverAllBlocked(threads: nat, slots: seq<Item>, capacity: nat, steps: seq<Step>, producers: set<nat>, p: nat, c: nat)
    requires 0 < capacity <= |slots| && Assigned(steps, producers)
    requires p < threads && p in producers && c < threads && c !in producers
    ensures Inv(Start(threads, slots, capacity))
    ensures var s := Run(Start(threads, slots, capacity), steps); exists i :: 0 <= i < |s.threads| && Enabled(s, i)
  {
    hide Inv, Run, Enabled;
    StartInv(threads, slots, capacity);
    var start := Start(threads, slots, capacity);
    RolesRun(start, steps, producers);
    var s := Run(start, steps);
    if forall i :: 0 <= i < |s.threads| ==> !Enabled(s, i) {
      AllAtSemaphores(s);
      assert s.threads[p].WantVacancy? && s.threads[c].WantOccupied?;
      NotAllBlocked(s, p, c);
    }
  }

  // ----- the items that threads set out with are the items that arrive

  /** How many steps of a run are of a kind that is read off the thread before the step, its task, and the thread after it. */
  ghost function Times(s: State, steps: seq<Step>, kind: (Thread, Task, Thread) -> bool): nat
    requires Inv(s)
    decreases |steps|
  {
    if steps == [] then 0
    else
      var i, task := steps[0].thread, steps[0].task;
      MoveInv(s, i, task);
      var s' := Move(s, i, task);
      (if i < |s.threads| && i < |s'.threads| && kind(s.threads[i], task, s'.threads[i]) then 1 else 0) + Times(s', steps[1..], kind)
  }

  /** A thread sets out to enqueue `x`. */
  ghost function Begun(x: Item): (Thread, Task, Thread) -> bool {
    (t: Thread, task: Task, t': Thread) => t == Idle && task == Enqueue(x)
  }

  /** A thread sets out to submit `x`. */
  ghost function Offered(x: Item): (Thread, Task, Thread) -> bool {
    (t: Thread, task: Task, t': Thread) => t == Idle && task == Submit(x)
  }

  ghost function Accepted(x: Item): (Thread, Task, Thread) -> bool {
    (t: Thread, task: Task, t': Thread) => t == SubmitLocked(x) && t' != SubmitRefused
  }

  ghost function TurnedAway(x: Item): (Thread, Task, Thread) -> bool {
    (t: Thread, task: Task, t': Thread) => t == SubmitLocked(x) && t' == SubmitRefused
  }

  /** A thread returns from dequeuing with `x`. */
  ghost function Returned(x: Item): (Thread, Task, Thread) -> bool {
    (t: Thread, task: Task, t': Thread) => t == RemoveUnlocked(x)
  }

  /** A thread is on its way to insert `x`. */
  predicate Inserting(t: Thread, x: Item) {
    t == SubmitAccepted(x) || t == WantVacancy(x) || t == InsertWantLock(x) || t == InsertLocked(x) || t == InsertWritten(x)
  }

  /** A thread would submit `x` if it is not refused. */
  predicate Undecided(t: Thread, x: Item) { t == SubmitWantLock(x) || t == SubmitLocked(x) }

  /** A thread has removed `x` and not returned it yet. */
  predicate Returning(t: Thread, x: Item) { t == RemoveAdvanced(x) || t == RemoveUnlocked(x) }

  lemma {:induction false} ItemOnceMore(s: seq<Item>, y: Item, x: Item)
    ensures multiset(s + [y])[x] == multiset(s)[x] + One(x == y)
  {
  }

  lemma {:induction false} HistoryMove(s: State, i: nat, task: Task)
    requires |s.slots| > 0 && s.front < |s.slots| && s.rear < |s.slots| && Enabled(s, i)
    ensures Move(s, i, task).inserted == if s.threads[i].InsertWritten? then s.inserted + [s.threads[i].x] else s.inserted
    ensures Move(s, i, task).removed == if s.threads[i].RemoveRead? then s.removed + [s.threads[i].x] else s.removed
  {
  }

  /** Where a step may lead a thread. */
  predicate Successor(t: Thread, task: Task, t': Thread) {
    match t
    case Idle => t' == (match task case Enqueue(x) => WantVacancy(x) case Dequeue => WantOccupied case Submit(x) => SubmitWantLock(x))
    case WantVacancy(x) => t' == InsertWantLock(x)
    case InsertWantLock(x) => t' == InsertLocked(x)
    case InsertLocked(x) => t' == InsertWritten(x)
    case InsertWritten(_) => t' == InsertAdvanced
    case InsertAdvanced => t' == InsertUnlocked
    case InsertUnlocked => t' == Idle
    case WantOccupied => t' == RemoveWantLock
    case RemoveWantLock => t' == RemoveLocked
    case RemoveLocked => t'.RemoveRead?
    case RemoveRead(x) => t' == RemoveAdvanced(x)
    case RemoveAdvanced(x) => t' == RemoveUnlocked(x)
    case RemoveUnlocked(_) => t' == Idle
    case SubmitWantLock(x) => t' == SubmitLocked(x)
    case SubmitLocked(x) => t' == SubmitAccepted(x) || t' == SubmitRefused
    case SubmitAccepted(x) => t' == WantVacancy(x)
    case SubmitRefused => t' == Idle
  }

  lemma {:induction false} MoveSuccessor(s: State, i: nat, task: Task)
    requires |s.slots| > 0 && s.front < |s.slots| && s.rear < |s.slots| && Enabled(s, i)
    ensures i < |Move(s, i, task).threads| && Successor(s.threads[i], task, Move(s, i, task).threads[i])
  {
  }

  /** What one step of a thread does to an item it carries. */
  lemma {:induction false} ItemCarried(t: Thread, task: Task, t': Thread, x: Item)
    requires Successor(t, task, t')
    ensures One(Begun(x)(t, task, t')) + One(Accepted(x)(t, task, t')) + One(Inserting(t, x)) == One(t == InsertWritten(x)) + One(Inserting(t', x))
    ensures One(Offered(x)(t, task, t')) + One(Undecided(t, x))
            == One(Accepted(x)(t, task, t')) + One(TurnedAway(x)(t, task, t')) + One(Undecided(t', x))
    ensures One(t == RemoveRead(x)) + One(Returning(t, x)) == One(Returning(t', x)) + One(Returned(x)(t, task, t'))
  {
    match t
    case Idle =>
    case _ =>
  }

  lemma {:induction false} ItemMove(s: State, i: nat, task: Task, x: Item)
    requires |s.slots| > 0 && s.front < |s.slots| && s.rear < |s.slots| && Enabled(s, i)
    ensures multiset(Move(s, i, task).inserted)[x] == multiset(s.inserted)[x] + One(s.threads[i] == InsertWritten(x))
    ensures multiset(Move(s, i, task).removed)[x] == multiset(s.removed)[x] + One(s.threads[i] == RemoveRead(x))
  {
    hide Move;
    HistoryMove(s, i, task);
    if s.threads[i].InsertWritten? { ItemOnceMore(s.inserted, s.threads[i].x, x); }
    if s.threads[i].RemoveRead? { ItemOnceMore(s.removed, s.threads[i].x, x); }
  }

  function One(b: bool): nat { if b then 1 else 0 }

  lemma {:induction false} BlockedStays(s: State, i: nat, task: Task, x: Item)
    requires |s.slots| > 0 && s.front < |s.slots| && s.rear < |s.slots| && !Enabled(s, i)
    ensures Move(s, i, task) == s
    ensures i < |s.threads| ==> var t := s.threads[i];
      !Begun(x)(t, task, t) && !Accepted(x)(t, task, t) && !Offered(x)(t, task, t) && !TurnedAway(x)(t, task, t) && !Returned(x)(t, task, t)
  {
  }

  lemma {:induction false} EnabledInside(s: State, i: nat)
    requires Enabled(s, i)
    ensures i < |s.threads|
  {
  }

  lemma {:induction false} TimesFirst(s: State, steps: seq<Step>, kind: (Thread, Task, Thread) -> bool)
    requires Inv(s) && steps != [] && Inv(Move(s, steps[0].thread, steps[0].task))
    ensures var i, s' := steps[0].thread, Move(s, steps[0].thread, steps[0].task);
      Times(s, steps, kind) == Times(s', steps[1..], kind)
        + One(i < |s.threads| && i < |s'.threads| && kind(s.threads[i], steps[0].task, s'.threads[i]))
  {
    hide Inv, Move;
  }

  /** From any state: what is begun or accepted, and was there or on its way before, is there or on its way after. */
  lemma {:induction false} ItemKept(s: State, steps: seq<Step>, x: Item)
    requires Inv(s)
    ensures var r := Run(s, steps);
      Times(s, steps, Begun(x)) + Times(s, steps, Accepted(x)) + multiset(s.inserted)[x] + Count(s.threads, t => Inserting(t, x))
      == multiset(r.inserted)[x] + Count(r.threads, t => Inserting(t, x))
    ensures var r := Run(s, steps);
      Times(s, steps, Offered(x)) + Count(s.threads, t => Undecided(t, x))
      == Times(s, steps, Accepted(x)) + Times(s, steps, TurnedAway(x)) + Count(r.threads, t => Undecided(t, x))
    ensures var r := Run(s, steps);
      multiset(r.removed)[x] + Count(s.threads, t => Returning(t, x))
      == multiset(s.removed)[x] + Times(s, steps, Returned(x)) + Count(r.threads, t => Returning(t, x))
    decreases |steps|
  {
    hide Inv, Move, Enabled, Successor, Begun, Accepted, Offered, TurnedAway, Returned, Inserting, Undecided, Returning, Count, Times;
    if steps == [] {
      NoSteps(s, x);
    } else {
      var i, task := steps[0].thread, steps[0].task;
      MoveInv(s, i, task);
      InvRing(s);
      RingBounds(s);
      var s' := Move(s, i, task);
      ItemKept(s', steps[1..], x);
      TimesFirst(s, steps, Begun(x));
      TimesFirst(s, steps, Accepted(x));
      TimesFirst(s, steps, Offered(x));
      TimesFirst(s, steps, TurnedAway(x));
      TimesFirst(s, steps, Returned(x));
      if Enabled(s, i) {
        EnabledInside(s, i);
        MoveThreads(s, i, task);
        MoveSuccessor(s, i, task);
        ItemCarried(s.threads[i], task, s'.threads[i], x);
        ItemMove(s, i, task, x);
        CountUpdate(s.threads, t => Inserting(t, x), i, s'.threads[i]);
        CountUpdate(s.threads, t => Undecided(t, x), i, s'.threads[i]);
        CountUpdate(s.threads, t => Returning(t, x), i, s'.threads[i]);
      } else {
        BlockedStays(s, i, task, x);
      }
    }
  }

  lemma {:induction false} NoSteps(s: State, x: Item)
    requires Inv(s)
    ensures Run(s, []) == s && forall kind :: Times(s, [], kind) == 0
  {
  }

  /** In every interleaving, for every item: the times threads set out to enqueue it, and the times it was submitted and
      not refused, are the times it was inserted and the threads still on their way to insert it; the times it was
      offered are those it was accepted, refused or is undecided; the times it was removed are the times it was returned
      from dequeuing and the threads still on their way to return it. */
  lemma {:induction false} NothingLost(threads: nat, slots: seq<Item>, capacity: nat, steps: seq<Step>, x: Item)
    requires 0 < capacity <= |slots|
    ensures Inv(Start(threads, slots, capacity))
    ensures var start := Start(threads, slots, capacity); var s := Run(start, steps);
      && Times(start, steps, Begun(x)) + Times(start, steps, Accepted(x)) == multiset(s.inserted)[x] + Count(s.threads, t => Inserting(t, x))
      && Times(start, steps, Offered(x))
         == Times(start, steps, Accepted(x)) + Times(start, steps, TurnedAway(x)) + Count(s.threads, t => Undecided(t, x))
      && multiset(s.removed)[x] == Times(start, steps, Returned(x)) + Count(s.threads, t => Returning(t, x))
  {
    hide Inv, Times, Run;
    StartInv(threads, slots, capacity);
    var start := Start(threads, slots, capacity);
    CountNone(start.threads, t => Inserting(t, x));
    CountNone(start.threads, t => Undecided(t, x));
    CountNone(start.threads, t => Returning(t, x));
    ItemKept(start, steps, x);
  }

  // ----- what a thread has begun it completes before it is idle again

  /** The state after the first `k` steps. */
  ghost function After(s: State, steps: seq<Step>, k: nat): State
    requires Inv(s) && k <= |steps|
  {
    Run(s, steps[..k])
  }

  lemma {:induction false} MoveBounds(s: State)
    requires Inv(s)
    ensures |s.slots| > 0 && s.front < |s.slots| && s.rear < |s.slots|
  {
    RingBounds(s);
  }

  lemma {:induction false} AfterFirst(s: State, steps: seq<Step>, k: nat)
    requires Inv(s) && k < |steps|
    ensures Inv(Move(s, steps[0].thread, steps[0].task))
    ensures After(s, steps, k + 1) == After(Move(s, steps[0].thread, steps[0].task), steps[1..], k) && After(s, steps, 0) == s
  {
    MoveInv(s, steps[0].thread, steps[0].task);
    assert steps[..k + 1][1..] == steps[1..][..k];
  }

  /** Step `k` is one of thread `i`, which was at `t` and then is at `t'`. */
  ghost predicate Goes(s: State, steps: seq<Step>, k: int, i: nat, t: Thread, t': Thread)
    requires Inv(s)
  {
    && 0 <= k < |steps| && steps[k].thread == i
    && i < |After(s, steps, k).threads| && After(s, steps, k).threads[i] == t
    && i < |After(s, steps, k + 1).threads| && After(s, steps, k + 1).threads[i] == t'
  }

  /** With step `k` thread `i` inserts `x`. */
  ghost predicate Inserts(s: State, steps: seq<Step>, k: int, i: nat, x: Item)
    requires Inv(s)
  {
    Goes(s, steps, k, i, InsertWritten(x), InsertAdvanced) && After(s, steps, k + 1).inserted == After(s, steps, k).inserted + [x]
  }

  /** With step `k` thread `i` removes `x`. */
  ghost predicate Removes(s: State, steps: seq<Step>, k: int, i: nat, x: Item)
    requires Inv(s)
  {
    Goes(s, steps, k, i, RemoveRead(x), RemoveAdvanced(x)) && After(s, steps, k + 1).removed == After(s, steps, k).removed + [x]
  }

  /** With step `k` thread `i` returns `x`. */
  ghost predicate Returns(s: State, steps: seq<Step>, k: int, i: nat, x: Item)
    requires Inv(s)
  {
    Goes(s, steps, k, i, RemoveUnlocked(x), Idle)
  }

  /** With step `k` thread `i` looks whether it may submit `x`. */
  ghost predicate Looks(s: State, steps: seq<Step>, k: int, i: nat, x: Item, accepted: bool)
    requires Inv(s)
  {
    Goes(s, steps, k, i, SubmitLocked(x), if accepted then SubmitAccepted(x) else SubmitRefused)
  }

  lemma {:induction false} GoesFirst(s: State, steps: seq<Step>, i: nat)
    requires Inv(s) && steps != [] && steps[0].thread == i && i < |s.threads|
    requires Inv(Move(s, i, steps[0].task)) && i < |Move(s, i, steps[0].task).threads|
    ensures Goes(s, steps, 0, i, s.threads[i], Move(s, i, steps[0].task).threads[i])
    ensures After(s, steps, 0) == s && After(s, steps, 1) == Move(s, i, steps[0].task)
  {
    hide Inv, Move;
    MoveBounds(s);
    AfterFirst(s, steps, 0);
    NoSteps(s, 0);
    NoSteps(Move(s, i, steps[0].task), 0);
    assert steps[1..][..0] == [];
  }

  lemma {:induction false} GoesLater(s: State, steps: seq<Step>, k: nat, i: nat)
    requires Inv(s) && k < |steps| - 1
    ensures Inv(Move(s, steps[0].thread, steps[0].task))
    ensures var s', rest := Move(s, steps[0].thread, steps[0].task), steps[1..];
      && (forall t, t' :: Goes(s', rest, k, i, t, t') ==> Goes(s, steps, k + 1, i, t, t'))
      && (forall x :: Inserts(s', rest, k, i, x) ==> Inserts(s, steps, k + 1, i, x))
      && (forall x :: Removes(s', rest, k, i, x) ==> Removes(s, steps, k + 1, i, x))
      && (forall x :: Returns(s', rest, k, i, x) ==> Returns(s, steps, k + 1, i, x))
      && (forall x, accepted :: Looks(s', rest, k, i, x, accepted) ==> Looks(s, steps, k + 1, i, x, accepted))
  {
    hide Inv, Move, Run, After;
    AfterFirst(s, steps, k);
    AfterFirst(s, steps, k + 1);
  }

  lemma {:induction false} InsertingMove(s: State, j: nat, task: Task, i: nat, x: Item)
    requires Inv(s) && i < |s.threads| && Inserting(s.threads[i], x)
    ensures |Move(s, j, task).threads| == |s.threads|
    ensures var s' := Move(s, j, task);
      (if j == i && s.threads[i].InsertWritten? then s'.threads[i] == InsertAdvanced && s'.inserted == s.inserted + [x]
       else Inserting(s'.threads[i], x))
  {
    RingBounds(s);
    if Enabled(s, j) { MoveThreads(s, j, task); }
  }

  /** A thread on its way to insert an item is not idle before it has inserted that item. */
  lemma {:induction false} InsertsOwn(s: State, steps: seq<Step>, i: nat, x: Item) returns (k: nat)
    requires Inv(s) && i < |s.threads| && Inserting(s.threads[i], x)
    requires i < |Run(s, steps).threads| && Run(s, steps).threads[i].Idle?
    ensures k < |steps| && Inserts(s, steps, k, i, x)
    decreases |steps|
  {
    hide After, Enabled, Inv, Move;
    var j, task := steps[0].thread, steps[0].task;
    MoveBounds(s);
    InsertingMove(s, j, task, i, x);
    AfterFirst(s, steps, 0);
    if j == i && s.threads[i].InsertWritten? {
      GoesFirst(s, steps, i);
      k := 0;
    } else {
      var later := InsertsOwn(Move(s, j, task), steps[1..], i, x);
      GoesLater(s, steps, later, i);
      k := later + 1;
    }
  }

  /** About to remove something. */
  predicate Removing(t: Thread) { t.WantOccupied? || t.RemoveWantLock? || t.RemoveLocked? || t.RemoveRead? }

  lemma {:induction false} RemovingMove(s: State, j: nat, task: Task, i: nat)
    requires Inv(s) && i < |s.threads| && Removing(s.threads[i])
    ensures |Move(s, j, task).threads| == |s.threads|
    ensures var s' := Move(s, j, task);
      (if j == i && s.threads[i].RemoveRead? then s'.threads[i] == RemoveAdvanced(s.threads[i].x) && s'.removed == s.removed + [s.threads[i].x]
       else Removing(s'.threads[i]))
  {
    RingBounds(s);
    if Enabled(s, j) { MoveThreads(s, j, task); }
  }

  lemma {:induction false} ReturningMove(s: State, j: nat, task: Task, i: nat, x: Item)
    requires Inv(s) && i < |s.threads| && Returning(s.threads[i], x)
    ensures |Move(s, j, task).threads| == |s.threads|
    ensures var s' := Move(s, j, task);
      (if j == i then s'.threads[i] == (if s.threads[i].RemoveAdvanced? then RemoveUnlocked(x) else Idle) else s'.threads[i] == s.threads[i])
  {
    RingBounds(s);
    if Enabled(s, j) { MoveThreads(s, j, task); }
  }

  /** A thread that has removed an item is not idle before it returns that item. */
  lemma {:induction false} ReturnsOwn(s: State, steps: seq<Step>, i: nat, x: Item) returns (k: nat)
    requires Inv(s) && i < |s.threads| && Returning(s.threads[i], x)
    requires i < |Run(s, steps).threads| && Run(s, steps).threads[i].Idle?
    ensures k < |steps| && Returns(s, steps, k, i, x)
    decreases |steps|
  {
    hide After, Enabled, Inv, Move;
    var j, task := steps[0].thread, steps[0].task;
    MoveBounds(s);
    ReturningMove(s, j, task, i, x);
    AfterFirst(s, steps, 0);
    if j == i && s.threads[i].RemoveUnlocked? {
      GoesFirst(s, steps, i);
      k := 0;
    } else {
      var later := ReturnsOwn(Move(s, j, task), steps[1..], i, x);
      GoesLater(s, steps, later, i);
      k := later + 1;
    }
  }

  lemma {:induction false} RemovesNow(s: State, steps: seq<Step>, i: nat)
    requires Inv(s) && i < |s.threads| && s.threads[i].RemoveRead? && steps != [] && steps[0].thread == i
    ensures var s', x := Move(s, i, steps[0].task), s.threads[i].x;
      Removes(s, steps, 0, i, x) && Inv(s') && i < |s'.threads| && s'.threads[i] == RemoveAdvanced(x)
  {
    hide Inv, Move, After, Goes;
    MoveBounds(s);
    MoveInv(s, i, steps[0].task);
    RemovingMove(s, i, steps[0].task, i);
    GoesFirst(s, steps, i);
  }

  /** A thread on its way to remove is not idle before it has removed an item and returned that item. */
  lemma {:induction false} RemovesAndReturns(s: State, steps: seq<Step>, i: nat) returns (k: nat, l: nat, x: Item)
    requires Inv(s) && i < |s.threads| && Removing(s.threads[i])
    requires i < |Run(s, steps).threads| && Run(s, steps).threads[i].Idle?
    ensures k < l < |steps| && Removes(s, steps, k, i, x) && Returns(s, steps, l, i, x)
    decreases |steps|
  {
    hide After, Enabled, Inv, Move, Removes, Returns, Goes;
    var j, task := steps[0].thread, steps[0].task;
    MoveBounds(s);
    AfterFirst(s, steps, 0);
    if j == i && s.threads[i].RemoveRead? {
      k, x := 0, s.threads[i].x;
      RemovesNow(s, steps, i);
      var later := ReturnsOwn(Move(s, j, task), steps[1..], i, x);
      GoesLater(s, steps, later, i);
      l := later + 1;
    } else {
      RemovingMove(s, j, task, i);
      var first, second;
      first, second, x := RemovesAndReturns(Move(s, j, task), steps[1..], i);
      GoesLater(s, steps, first, i);
      GoesLater(s, steps, second, i);
      k, l := first + 1, second + 1;
    }
  }

  lemma {:induction false} SubmittingMove(s: State, j: nat, task: Task, i: nat, x: Item)
    requires Inv(s) && i < |s.threads| && Undecided(s.threads[i], x)
    ensures |Move(s, j, task).threads| == |s.threads|
    ensures var s' := Move(s, j, task);
      (if j == i && s.threads[i].SubmitLocked? then s'.threads[i] == SubmitRefused || s'.threads[i] == SubmitAccepted(x)
       else Undecided(s'.threads[i], x))
  {
    RingBounds(s);
    if Enabled(s, j) { MoveThreads(s, j, task); }
  }

  /** A thread on its way to submit an item looks at the queue, and if it is accepted inserts that item, before it is idle. */
  lemma {:induction false} LooksAndInserts(s: State, steps: seq<Step>, i: nat, x: Item) returns (k: nat, l: nat, accepted: bool)
    requires Inv(s) && i < |s.threads| && Undecided(s.threads[i], x)
    requires i < |Run(s, steps).threads| && Run(s, steps).threads[i].Idle?
    ensures k < |steps| && Looks(s, steps, k, i, x, accepted) && (accepted ==> k < l < |steps| && Inserts(s, steps, l, i, x))
    decreases |steps|
  {
    hide After, Enabled, Inv, Move, Inserts;
    var j, task := steps[0].thread, steps[0].task;
    MoveBounds(s);
    SubmittingMove(s, j, task, i, x);
    AfterFirst(s, steps, 0);
    if j == i && s.threads[i].SubmitLocked? {
      k, l, accepted := 0, 0, Move(s, j, task).threads[i].SubmitAccepted?;
      GoesFirst(s, steps, i);
      if accepted {
        var later := InsertsOwn(Move(s, j, task), steps[1..], i, x);
        GoesLater(s, steps, later, i);
        l := later + 1;
      }
    } else {
      var first, second;
      first, second, accepted := LooksAndInserts(Move(s, j, task), steps[1..], i, x);
      GoesLater(s, steps, first, i);
      k, l := first + 1, second + 1;
      if accepted { GoesLater(s, steps, second, i); }
    }
  }

  /** What an idle thread begins with the first step is done by the time it is idle again: enqueuing inserts the item,
      dequeuing removes an item and returns the same one, submitting looks at the queue and then inserts the item unless
      it was refused. */
  lemma {:induction false} TaskCompleted(s: State, steps: seq<Step>, i: nat)
    requires Inv(s) && i < |s.threads| && s.threads[i].Idle? && steps != [] && steps[0].thread == i
    requires i < |Run(s, steps).threads| && Run(s, steps).threads[i].Idle?
    ensures match steps[0].task
      case Enqueue(x) => exists k :: Inserts(s, steps, k, i, x)
      case Dequeue => exists k, l, x :: k < l && Removes(s, steps, k, i, x) && Returns(s, steps, l, i, x)
      case Submit(x) => exists k ::
        Looks(s, steps, k, i, x, false) || (Looks(s, steps, k, i, x, true) && exists l :: k < l && Inserts(s, steps, l, i, x))
  {
    hide Inv, Move, Inserts, Removes, Returns, Looks, Goes;
    MoveBounds(s);
    var task := steps[0].task;
    var s' := Move(s, i, task);
    AfterFirst(s, steps, 0);
    BeginsAs(s, i, task);
    match task {
      case Enqueue(x) =>
        var k := InsertsOwn(s', steps[1..], i, x);
        GoesLater(s, steps, k, i);
      case Dequeue =>
        var k, l, x := RemovesAndReturns(s', steps[1..], i);
        GoesLater(s, steps, k, i);
        GoesLater(s, steps, l, i);
        assert Removes(s, steps, k + 1, i, x) && Returns(s, steps, l + 1, i, x);
      case Submit(x) =>
        var k, l, accepted := LooksAndInserts(s', steps[1..], i, x);
        GoesLater(s, steps, k, i);
        assert Looks(s, steps, k + 1, i, x, accepted);
        if accepted { GoesLater(s, steps, l, i); }
    }
  }

  lemma {:induction false} BeginsAs(s: State, i: nat, task: Task)
    requires Inv(s) && i < |s.threads| && s.threads[i].Idle?
    ensures |Move(s, i, task).threads| == |s.threads|
    ensures var s' := Move(s, i, task);
      match task
      case Enqueue(x) => Inserting(s'.threads[i], x)
      case Dequeue => Removing(s'.threads[i])
      case Submit(x) => s'.threads[i] == SubmitWantLock(x)
  {
    RingBounds(s);
    MoveThreads(s, i, task);
  }
}

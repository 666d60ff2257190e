/** Shortest job first on values: the order in which the scheduler runs its tasks, when it runs each of
    them once, and why no order waits less. */
module ShortestFirst {

  datatype Task = Task(name: string, tid: nat, burst: int)

  // ----- the order the scheduler runs

  /** The first task with the shortest burst. */
  ghost predicate IsShortest(tasks: seq<Task>, k: int) {
    && 0 <= k < |tasks|
    && (forall i :: 0 <= i < k ==> tasks[i].burst > tasks[k].burst)
    && forall i :: k <= i < |tasks| ==> tasks[i].burst >= tasks[k].burst
  }

  function Shortest(tasks: seq<Task>): (k: nat)
    requires tasks != []
    ensures IsShortest(tasks, k)
  {
    if |tasks| == 1 then 0
    else
      var k := Shortest(tasks[..|tasks| - 1]);
      if tasks[|tasks| - 1].burst < tasks[k].burst then |tasks| - 1 else k
  }

  /** The first task with this name. */
  function Named(tasks: seq<Task>, name: string): (k: nat)
    requires exists i :: 0 <= i < |tasks| && tasks[i].name == name
    ensures k < |tasks| && tasks[k].name == name && forall i :: 0 <= i < k ==> tasks[i].name != name
  {
    if tasks[0].name == name then 0 else
      var i :| 0 <= i < |tasks| && tasks[i].name == name;
      assert tasks[1..][i - 1] == tasks[i];
      1 + Named(tasks[1..], name)
  }

  function Removed(tasks: seq<Task>, k: nat): seq<Task>
    requires k < |tasks|
  {
    tasks[..k] + tasks[k + 1..]
  }

  /** The tasks in the order they are run: always the shortest is run, and the first task with its name leaves the list. */
  ghost function Order(tasks: seq<Task>): seq<Task>
    decreases |tasks|
  {
    if tasks == [] then []
    else
      var k := Shortest(tasks);
      [tasks[k]] + Order(Removed(tasks, Named(tasks, tasks[k].name)))
  }

  /** No later task with the same name is shorter. */
  ghost predicate NamesInOrder(tasks: seq<Task>) {
    forall i, j :: 0 <= i < j < |tasks| && tasks[i].name == tasks[j].name ==> tasks[i].burst <= tasks[j].burst
  }

  ghost predicate TidsDiffer(tasks: seq<Task>) {
    forall i, j :: 0 <= i < j < |tasks| ==> tasks[i].tid != tasks[j].tid
  }

  lemma {:induction false} RemovedMultiset(tasks: seq<Task>, k: nat)
    requires k < |tasks|
    ensures multiset(tasks) == multiset(Removed(tasks, k)) + multiset{tasks[k]}
  {
    assert tasks == tasks[..k] + [tasks[k]] + tasks[k + 1..];
  }

  /** With names in order the task that leaves the list is the one that was run. */
  lemma {:induction false} RunsEachOnce(tasks: seq<Task>)
    requires NamesInOrder(tasks)
    ensures multiset(Order(tasks)) == multiset(tasks)
    decreases |tasks|
  {
    if tasks != [] {
      var k := Shortest(tasks);
      assert Named(tasks, tasks[k].name) == k;
      RemovedMultiset(tasks, k);
      RemovedInOrder(tasks, k);
      RunsEachOnce(Removed(tasks, k));
    }
  }

  lemma {:induction false} RemovedInOrder(tasks: seq<Task>, k: nat)
    requires NamesInOrder(tasks) && k < |tasks|
    ensures NamesInOrder(Removed(tasks, k))
  {
    var less := Removed(tasks, k);
    assert forall i :: 0 <= i < |less| ==> less[i] == tasks[if i < k then i else i + 1];
  }

  /** Tasks that are run are tasks of the list. */
  lemma {:induction false} OrderWithin(tasks: seq<Task>)
    ensures forall t :: t in Order(tasks) ==> t in tasks
    decreases |tasks|
  {
    if tasks != [] {
      var n := Named(tasks, tasks[Shortest(tasks)].name);
      OrderWithin(Removed(tasks, n));
    }
  }

  /** Every task is run once exactly when no later task with the same name is shorter. */
  lemma {:induction false} RunsEachOnceIff(tasks: seq<Task>)
    requires TidsDiffer(tasks)
    ensures multiset(Order(tasks)) == multiset(tasks) <==> NamesInOrder(tasks)
    decreases |tasks|
  {
    if NamesInOrder(tasks) {
      RunsEachOnce(tasks);
    } else {
      var k := Shortest(tasks);
      var n := Named(tasks, tasks[k].name);
      RemovedTids(tasks, n);
      if n == k {
        StillOutOfOrder(tasks, k);
        RunsEachOnceIff(Removed(tasks, k));
        RightTaskLeaves(tasks, k);
      } else {
        OrderWithin(Removed(tasks, n));
        WrongTaskLeaves(tasks, k, n);
      }
    }
  }

  lemma {:induction false} RightTaskLeaves(tasks: seq<Task>, k: nat)
    requires tasks != [] && k == Shortest(tasks) == Named(tasks, tasks[k].name)
    ensures multiset(Order(tasks)) == multiset(tasks) ==> multiset(Order(Removed(tasks, k))) == multiset(Removed(tasks, k))
  {
    var less := Removed(tasks, k);
    assert Order(tasks) == [tasks[k]] + Order(less);
    RemovedMultiset(tasks, k);
    if multiset(Order(tasks)) == multiset(tasks) {
      Cancel(multiset(Order(less)), multiset(less), tasks[k]);
    }
  }

  /** A task that leaves the list although another one was run is never run. */
  lemma {:induction false} WrongTaskLeaves(tasks: seq<Task>, k: nat, n: nat)
    requires tasks != [] && k == Shortest(tasks) && n == Named(tasks, tasks[k].name) && n != k && TidsDiffer(tasks)
    requires tasks[n] !in Order(Removed(tasks, n))
    ensures multiset(Order(tasks)) != multiset(tasks)
  {
    assert Order(tasks) == [tasks[k]] + Order(Removed(tasks, n));
    assert tasks[n] != tasks[k];
    assert tasks[n] !in Order(tasks);
    assert tasks[n] in multiset(tasks) && tasks[n] !in multiset(Order(tasks));
  }

  lemma {:induction false} RemovedTids(tasks: seq<Task>, k: nat)
    requires TidsDiffer(tasks) && k < |tasks|
    ensures TidsDiffer(Removed(tasks, k)) && tasks[k] !in Removed(tasks, k)
  {
    var less := Removed(tasks, k);
    assert forall i :: 0 <= i < |less| ==> less[i] == tasks[if i < k then i else i + 1];
  }

  /** Running the shortest task first does not mend the order of the names. */
  lemma {:induction false} StillOutOfOrder(tasks: seq<Task>, k: nat)
    requires !NamesInOrder(tasks) && IsShortest(tasks, k) && forall i :: 0 <= i < k ==> tasks[i].name != tasks[k].name
    ensures !NamesInOrder(Removed(tasks, k))
  {
    var i, j :| 0 <= i < j < |tasks| && tasks[i].name == tasks[j].name && tasks[i].burst > tasks[j].burst;
    var less := Removed(tasks, k);
    var i', j' := if i < k then i else i - 1, if j < k then j else j - 1;
    assert less[i'] == tasks[i] && less[j'] == tasks[j];
  }

  /** Two tasks of one name, the longer one first: the shorter one is run twice, the longer one never. */
  lemma {:induction false} SameNameTwice()
    ensures var long, short := Task("a", 0, 2), Task("a", 1, 1);
      Order([long, short]) == [short, short]
  {
    var long, short := Task("a", 0, 2), Task("a", 1, 1);
    var tasks := [long, short];
    assert Shortest(tasks) == 1;
    assert Named(tasks, "a") == 0;
    assert Removed(tasks, 0) == [short];
    assert Shortest([short]) == 0 && Named([short], "a") == 0;
    assert Removed([short], 0) == [];
    assert Order([short]) == [short] + Order([]);
    assert Order(tasks) == [short] + Order([short]);
  }

  // ----- waiting

  ghost function Work(order: seq<Task>): int {
    if order == [] then 0 else order[0].burst + Work(order[1..])
  }

  /** The sum of the times the tasks of an order wait before they start, from time `t` on. */
  ghost function Waiting(order: seq<Task>, t: int): int {
    if order == [] then 0 else t + Waiting(order[1..], t + order[0].burst)
  }

  /** The sum of the times at which they finish. */
  ghost function Turnaround(order: seq<Task>, t: int): int {
    if order == [] then 0 else t + order[0].burst + Turnaround(order[1..], t + order[0].burst)
  }

  lemma {:induction false} WaitingAppend(a: seq<Task>, b: seq<Task>, t: int)
    ensures Waiting(a + b, t) == Waiting(a, t) + Waiting(b, t + Work(a))
    ensures Work(a + b) == Work(a) + Work(b)
  {
    if a == [] {
      assert a + b == b;
    } else {
      assert (a + b)[1..] == a[1..] + b;
      WaitingAppend(a[1..], b, t + a[0].burst);
    }
  }

  lemma {:induction false} WaitingLater(a: seq<Task>, t: int, d: int)
    ensures Waiting(a, t + d) == Waiting(a, t) + |a| * d
  {
    if a != [] {
      WaitingLater(a[1..], t + a[0].burst, d);
      assert |a| * d == d + |a[1..]| * d;
    }
  }

  lemma {:induction false} WorkAtLeast(a: seq<Task>, d: int)
    requires forall i :: 0 <= i < |a| ==> a[i].burst >= d
    ensures Work(a) >= |a| * d
  {
    if a != [] {
      WorkAtLeast(a[1..], d);
      assert |a| * d == d + |a[1..]| * d;
    }
  }

  /** The exchange: bringing a shortest task to the front lets nobody wait more in all. */
  lemma {:induction false} ShortestToFront(a: seq<Task>, m: Task, b: seq<Task>, t: int)
    requires forall i :: 0 <= i < |a| ==> a[i].burst >= m.burst
    ensures Waiting([m] + (a + b), t) <= Waiting(a + ([m] + b), t)
  {
    WaitingAppend(a, [m] + b, t);
    WaitingAppend([m], b, t + Work(a));
    WaitingAppend([m], a + b, t);
    WaitingAppend(a, b, t + m.burst);
    WaitingLater(a, t, m.burst);
    WorkAtLeast(a, m.burst);
    assert [m][1..] == [];
  }

  ghost predicate Ascending(order: seq<Task>) {
    forall i, j :: 0 <= i < j < |order| ==> order[i].burst <= order[j].burst
  }

  /** The first task of one order, found in another order of the same tasks. */
  lemma {:induction false} Extract(order: seq<Task>, other: seq<Task>) returns (a: seq<Task>, b: seq<Task>)
    requires order != [] && multiset(order) == multiset(other)
    ensures other == a + ([order[0]] + b) && multiset(order[1..]) == multiset(a + b)
  {
    var m := order[0];
    assert m in multiset(order);
    var k :| 0 <= k < |other| && other[k] == m;
    a, b := other[..k], other[k + 1..];
    assert other == a + ([m] + b);
    RemovedMultiset(order, 0);
    RemovedMultiset(other, k);
    assert Removed(order, 0) == order[1..];
    Cancel(multiset(order[1..]), multiset(a + b), m);
  }

  lemma {:induction false} Cancel(a: multiset<Task>, b: multiset<Task>, m: Task)
    requires a + multiset{m} == b + multiset{m}
    ensures a == b
  {
    forall t
      ensures a[t] == b[t]
    {
      assert (a + multiset{m})[t] == (b + multiset{m})[t];
    }
  }

  /** An ascending order waits no longer than any other order of the same tasks. */
  lemma {:induction false} AscendingIsBest(order: seq<Task>, other: seq<Task>, t: int)
    requires Ascending(order) && multiset(order) == multiset(other)
    ensures Waiting(order, t) <= Waiting(other, t)
    decreases |order|
  {
    if order == [] {
      assert |multiset(order)| == |other|;
    } else {
      var m := order[0];
      var a, b := Extract(order, other);
      forall i | 0 <= i < |a|
        ensures a[i].burst >= m.burst
      {
        assert a[i] in multiset(other);
        var j :| 0 <= j < |order| && order[j] == a[i];
      }
      ShortestToFront(a, m, b, t);
      AscendingIsBest(order[1..], a + b, t + m.burst);
      assert ([m] + (a + b))[1..] == a + b;
    }
  }

  lemma {:induction false} TurnaroundIs(order: seq<Task>, t: int)
    ensures Turnaround(order, t) == Waiting(order, t) + Work(order)
  {
    if order != [] { TurnaroundIs(order[1..], t + order[0].burst); }
  }

  lemma {:induction false} WorkSame(order: seq<Task>, other: seq<Task>)
    requires multiset(order) == multiset(other)
    ensures Work(order) == Work(other)
    decreases |order|
  {
    if order == [] {
      assert |multiset(order)| == |other|;
    } else {
      var m := order[0];
      var a, b := Extract(order, other);
      WorkSame(order[1..], a + b);
      WaitingAppend(a, [m] + b, 0);
      WaitingAppend(a, b, 0);
      WaitingAppend([m], b, 0);
      assert [m][1..] == [];
    }
  }

  lemma {:induction false} OrderFirst(tasks: seq<Task>)
    requires tasks != []
    ensures var t := tasks[Shortest(tasks)]; Order(tasks) == [t] + Order(Removed(tasks, Named(tasks, t.name)))
  {
  }

  /** The scheduler's order is ascending when each task is run once. */
  lemma {:induction false} OrderAscending(tasks: seq<Task>)
    requires NamesInOrder(tasks)
    ensures Ascending(Order(tasks))
    decreases |tasks|
  {
    hide Order, Ascending;
    if tasks == [] {
      NothingAscends();
    } else {
      var k := Shortest(tasks);
      assert Named(tasks, tasks[k].name) == k;
      var less := Removed(tasks, k);
      RemovedInOrder(tasks, k);
      OrderFirst(tasks);
      OrderAscending(less);
      OrderWithin(less);
      forall x | x in Order(less)
        ensures tasks[k].burst <= x.burst
      {
        assert x in less;
        assert x in tasks;
      }
      AscendingCons(tasks[k], Order(less));
    }
  }

  lemma {:induction false} NothingAscends()
    ensures Ascending(Order([]))
  {
  }

  lemma {:induction false} AscendingCons(t: Task, order: seq<Task>)
    requires Ascending(order) && forall x :: x in order ==> t.burst <= x.burst
    ensures Ascending([t] + order)
  {
  }

  /** In the order of their numbers. */
  ghost predicate TidsAscend(tasks: seq<Task>) {
    forall i, j :: 0 <= i < j < |tasks| ==> tasks[i].tid < tasks[j].tid
  }

  /** Shorter, or equally long and earlier in the list. */
  predicate Sooner(t: Task, x: Task) { t.burst < x.burst || (t.burst == x.burst && t.tid <= x.tid) }

  ghost predicate Stable(order: seq<Task>) {
    forall i, j :: 0 <= i < j < |order| ==> Sooner(order[i], order[j])
  }

  lemma {:induction false} StableCons(t: Task, order: seq<Task>)
    requires Stable(order) && forall x :: x in order ==> Sooner(t, x)
    ensures Stable([t] + order)
  {
  }

  lemma {:induction false} RemovedAscend(tasks: seq<Task>, k: nat)
    requires TidsAscend(tasks) && k < |tasks|
    ensures TidsAscend(Removed(tasks, k)) && forall x :: x in Removed(tasks, k) ==> x in tasks
  {
    var less := Removed(tasks, k);
    assert forall i :: 0 <= i < |less| ==> less[i] == tasks[if i < k then i else i + 1];
  }

  lemma {:induction false} ShortestIsSoonest(tasks: seq<Task>, x: Task)
    requires TidsAscend(tasks) && x in tasks
    ensures Sooner(tasks[Shortest(tasks)], x)
  {
    var i :| 0 <= i < |tasks| && tasks[i] == x;
  }

  /** Whatever their names, the tasks are run by their length, and equally long ones in the order of the list. */
  lemma {:induction false} OrderStable(tasks: seq<Task>)
    requires TidsAscend(tasks)
    ensures Stable(Order(tasks))
    decreases |tasks|
  {
    hide Order, Stable, TidsAscend, Sooner;
    if tasks == [] {
      NothingStable();
    } else {
      OrderFirst(tasks);
      var t := tasks[Shortest(tasks)];
      var less := Removed(tasks, Named(tasks, t.name));
      RemovedAscend(tasks, Named(tasks, t.name));
      OrderStable(less);
      OrderWithin(less);
      forall x | x in Order(less)
        ensures Sooner(t, x)
      {
        ShortestIsSoonest(tasks, x);
      }
      StableCons(t, Order(less));
    }
  }

  lemma {:induction false} NothingStable()
    ensures Stable(Order([]))
  {
  }

  /** Shortest job first is optimal: no order of the same tasks has a smaller sum of waiting or turnaround times. */
  lemma {:induction false} ShortestFirstIsBest(tasks: seq<Task>, other: seq<Task>, t: int)
    requires NamesInOrder(tasks) && multiset(other) == multiset(tasks)
    ensures Waiting(Order(tasks), t) <= Waiting(other, t)
    ensures Turnaround(Order(tasks), t) <= Turnaround(other, t)
  {
    RunsEachOnce(tasks);
    OrderAscending(tasks);
    AscendingIsBest(Order(tasks), other, t);
    TurnaroundIs(Order(tasks), t);
    TurnaroundIs(other, t);
    WorkSame(Order(tasks), other);
  }
}

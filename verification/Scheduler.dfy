/** The scheduler's task list and the processor's clock and statistics. */
module Scheduler {
  import opened Arithmetic
  import opened LinkedList
  import opened ShortestFirst

  /** The statistics after an order has been run from time `t` on: each run overwrites its task's entry. */
  ghost function Started(order: seq<Task>, t: int, stats: seq<int>): (s: seq<int>)
    requires forall i :: 0 <= i < |order| ==> order[i].tid < |stats|
    ensures |s| == |stats|
  {
    if order == [] then stats else Started(order[1..], t + order[0].burst, stats[order[0].tid := t])
  }

  ghost function Ended(order: seq<Task>, t: int, stats: seq<int>): (s: seq<int>)
    requires forall i :: 0 <= i < |order| ==> order[i].tid < |stats|
    ensures |s| == |stats|
  {
    if order == [] then stats else Ended(order[1..], t + order[0].burst, stats[order[0].tid := t + order[0].burst])
  }

  /** The entries that are only made when a task is run for the first time: the time, or the burst. */
  ghost function Noted(order: seq<Task>, t: int, stats: seq<int>, flags: seq<bool>, times: bool): (s: seq<int>)
    requires |flags| == |stats| && forall i :: 0 <= i < |order| ==> order[i].tid < |stats|
    ensures |s| == |stats|
  {
    if order == [] then stats
    else
      var tid := order[0].tid;
      var entry := if times then t else order[0].burst;
      Noted(order[1..], t + order[0].burst, if flags[tid] then stats else stats[tid := entry], flags[tid := true], times)
  }

  ghost function Flagged(order: seq<Task>, flags: seq<bool>): (r: seq<bool>)
    requires forall i :: 0 <= i < |order| ==> order[i].tid < |flags|
    ensures |r| == |flags|
  {
    if order == [] then flags else Flagged(order[1..], flags[order[0].tid := true])
  }

  /** When every task is run once, it responds when it starts. */
  lemma {:induction false} NotedOnce(order: seq<Task>, t: int, stats: seq<int>, flags: seq<bool>)
    requires TidsDiffer(order) && |flags| == |stats|
    requires forall i :: 0 <= i < |order| ==> order[i].tid < |stats| && !flags[order[i].tid]
    ensures Noted(order, t, stats, flags, true) == Started(order, t, stats)
    decreases |order|
  {
    if order != [] {
      NotedOnce(order[1..], t + order[0].burst, stats[order[0].tid := t], flags[order[0].tid := true]);
    }
  }

  lemma {:induction false} NoteAppend(order: seq<Task>, task: Task, t: int, stats: seq<int>, flags: seq<bool>, times: bool)
    requires |flags| == |stats| && (forall i :: 0 <= i < |order| ==> order[i].tid < |stats|) && task.tid < |stats|
    ensures Flagged(order + [task], flags) == Flagged(order, flags)[task.tid := true]
    ensures Noted(order + [task], t, stats, flags, times) ==
            var before := Noted(order, t, stats, flags, times);
            if Flagged(order, flags)[task.tid] then before else before[task.tid := if times then t + Work(order) else task.burst]
    decreases |order|
  {
    var more := order + [task];
    if order == [] {
      assert more[1..] == [];
    } else {
      assert more[1..] == order[1..] + [task];
      var tid := order[0].tid;
      var entry := if times then t else order[0].burst;
      NoteAppend(order[1..], task, t + order[0].burst, if flags[tid] then stats else stats[tid := entry], flags[tid := true], times);
    }
  }

  /** When every task is run once, the entries add up to the waiting and turnaround times of the order. */
  lemma {:induction false} StartedSum(order: seq<Task>, t: int, stats: seq<int>)
    requires TidsDiffer(order) && forall i :: 0 <= i < |order| ==> order[i].tid < |stats| && stats[order[i].tid] == 0
    ensures Sum(Started(order, t, stats)) == Sum(stats) + Waiting(order, t)
    ensures Sum(Ended(order, t, stats)) == Sum(stats) + Turnaround(order, t)
    decreases |order|
  {
    if order != [] {
      SumUpdate(stats, order[0].tid, t);
      SumUpdate(stats, order[0].tid, t + order[0].burst);
      StartedSum(order[1..], t + order[0].burst, stats[order[0].tid := t]);
      StartedSum(order[1..], t + order[0].burst, stats[order[0].tid := t + order[0].burst]);
    }
  }

  lemma {:induction false} RunAppend(order: seq<Task>, task: Task, t: int, stats: seq<int>)
    requires (forall i :: 0 <= i < |order| ==> order[i].tid < |stats|) && task.tid < |stats|
    ensures Started(order + [task], t, stats) == Started(order, t, stats)[task.tid := t + Work(order)]
    ensures Ended(order + [task], t, stats) == Ended(order, t, stats)[task.tid := t + Work(order) + task.burst]
    ensures Work(order + [task]) == Work(order) + task.burst
    decreases |order|
  {
    var more := order + [task];
    if order == [] {
      assert more[1..] == [];
    } else {
      assert more[1..] == order[1..] + [task];
      RunAppend(order[1..], task, t + order[0].burst, stats[order[0].tid := t]);
      RunAppend(order[1..], task, t + order[0].burst, stats[order[0].tid := t + order[0].burst]);
    }
  }

  /** The virtual processor: its clock, and what it has noted of every task. */
  class Cpu {
    var time: int
    const burst: array<int>
    const turnaround: array<int>
    const waiting: array<int>
    const response: array<int>
    const responded: array<bool>

    /** One entry per task in each statistic. */
    ghost predicate Valid() {
      && burst.Length == turnaround.Length == waiting.Length == response.Length == responded.Length
      && burst != turnaround && burst != waiting && burst != response && turnaround != waiting && turnaround != response && waiting != response
    }

    constructor (tasks: nat)
      ensures Valid() && time == 0 && fresh(burst) && fresh(turnaround) && fresh(waiting) && fresh(response) && fresh(responded)
      ensures burst[..] == turnaround[..] == waiting[..] == response[..] == seq(tasks, _ => 0)
      ensures responded[..] == seq(tasks, _ => false)
    {
      time := 0;
      burst := new int[tasks](_ => 0);
      turnaround := new int[tasks](_ => 0);
      waiting := new int[tasks](_ => 0);
      response := new int[tasks](_ => 0);
      responded := new bool[tasks](_ => false);
    }

    /** Runs a task for `slice` units; the first run is noted, and a task that is finished has its times recorded. */
    method Run(task: Task, slice: int)
      requires Valid() && task.tid < waiting.Length
      modifies this`time, burst, turnaround, waiting, response, responded
      ensures time == old(time) + slice
      ensures burst[..] == if old(responded[task.tid]) then old(burst[..]) else old(burst[..])[task.tid := task.burst]
      ensures response[..] == if old(responded[task.tid]) then old(response[..]) else old(response[..])[task.tid := old(time)]
      ensures responded[..] == old(responded[..])[task.tid := true]
      ensures turnaround[..] == if task.burst == slice then old(turnaround[..])[task.tid := old(time) + slice] else old(turnaround[..])
      ensures waiting[..] == if task.burst == slice then old(waiting[..])[task.tid := old(time)] else old(waiting[..])
    {
      if !responded[task.tid] {
        burst[task.tid] := task.burst;
        response[task.tid] := time;
        responded[task.tid] := true;
      }
      time := time + slice;
      if task.burst - slice == 0 {
        turnaround[task.tid] := time;
        waiting[task.tid] := time - task.burst;
      }
    }

    /** What has been noted so far. */
    ghost function Notes(): Statistics
      reads this, burst, turnaround, waiting, response, responded
    {
      Statistics(time, burst[..], turnaround[..], waiting[..], response[..], responded[..])
    }
  }

  datatype Statistics = Statistics(time: int, burst: seq<int>, turnaround: seq<int>, waiting: seq<int>, response: seq<int>, responded: seq<bool>)

  function Reversed<T>(s: seq<T>): (r: seq<T>)
    ensures |r| == |s|
  {
    seq(|s|, i requires 0 <= i < |s| => s[|s| - 1 - i])
  }

  /** The links turned round. */
  lemma {:induction false} ChainReversed(nodes: seq<Node<Task>>)
    requires forall i, j :: 0 <= i < j < |nodes| ==> nodes[i] != nodes[j]
    requires forall i :: 0 <= i < |nodes| ==> nodes[i].next == Nth(nodes, i - 1)
    ensures Chain(Nth(nodes, |nodes| - 1), Reversed(nodes))
  {
    var r := Reversed(nodes);
    forall i | 0 <= i < |r|
      ensures r[i].next == Nth(r, i + 1)
    {
      assert r[i] == nodes[|nodes| - 1 - i];
    }
  }

  lemma {:induction false} ShortestStep(tasks: seq<Task>, i: nat, k: nat)
    requires i < |tasks| && if i == 0 then k == 0 else IsShortest(tasks[..i], k)
    ensures k < |tasks| && IsShortest(tasks[..i + 1], if tasks[i].burst < tasks[k].burst then i else k)
  {
    assert forall j :: 0 <= j < i ==> tasks[..i][j] == tasks[..i + 1][j];
  }

  lemma {:induction false} ShortestUnique(tasks: seq<Task>, k: int, l: int)
    requires IsShortest(tasks, k) && IsShortest(tasks, l)
    ensures k == l
  {
    var a, b := tasks[k].burst, tasks[l].burst;
  }

  /** The list of tasks, most recently added first. */
  class TaskList {
    var head: Node?<Task>
    var taskCount: nat
    ghost var nodes: seq<Node<Task>>
    ghost var tasks: seq<Task>

    ghost predicate Valid()
      reads this, nodes
    {
      Chain(head, nodes) && Carries(nodes, tasks)
    }

    constructor ()
      ensures Valid() && tasks == [] && taskCount == 0 && nodes == []
    {
      head, taskCount, nodes, tasks := null, 0, [], [];
    }

    /** Submits a task; its number is the count of tasks before it. */
    method Add(name: string, burst: int)
      requires Valid()
      modifies this
      ensures Valid() && taskCount == old(taskCount) + 1 && tasks == [Task(name, old(taskCount), burst)] + old(tasks)
      ensures nodes == [nodes[0]] + old(nodes) && fresh(nodes[0])
    {
      var task := Task(name, taskCount, burst);
      var node := new Node<Task>(task);
      node.next := head;
      head := node;
      ghost var was := nodes;
      CarriesInsert(nodes, tasks, 0, node);
      nodes, tasks, taskCount := nodes[..0] + [node] + nodes[0..], tasks[..0] + [task] + tasks[0..], taskCount + 1;
      ChainInsert(was, nodes, 0, node);
    }

    /** Turns every link round. */
    method TurnLinks() returns (prev: Node?<Task>)
      requires Chain(head, nodes)
      modifies nodes`next
      ensures prev == Nth(nodes, |nodes| - 1) && forall i :: 0 <= i < |nodes| ==> nodes[i].next == Nth(nodes, i - 1)
    {
      var current := head;
      prev := null;
      ghost var k := 0;
      while current != null
        invariant k <= |nodes| && prev == Nth(nodes, k - 1) && current == Nth(nodes, k)
        invariant forall i :: 0 <= i < k ==> nodes[i].next == Nth(nodes, i - 1)
        invariant forall i :: k <= i < |nodes| ==> nodes[i].next == Nth(nodes, i + 1)
        decreases |nodes| - k
      {
        var next := current.next;
        current.next := prev;
        prev, current, k := current, next, k + 1;
      }
    }

    /** Turns the list round. */
    method Reverse()
      requires Valid()
      modifies this`head, this`nodes, this`tasks, nodes`next
      ensures Valid() && tasks == Reversed(old(tasks)) && nodes == Reversed(old(nodes))
    {
      hide Carries;
      CarriesReversed(nodes, tasks);
      head := TurnLinks();
      ChainReversed(nodes);
      nodes, tasks := Reversed(nodes), Reversed(tasks);
    }

    /** The first node with the shortest burst. */
    method FindShortest() returns (shortest: Node<Task>, ghost k: nat)
      requires Valid() && tasks != []
      ensures k == Shortest(tasks) && k < |nodes| && shortest == nodes[k] && shortest.data == tasks[k]
    {
      hide Carries, IsShortest;
      CarriesLength(nodes, tasks);
      var task := head;
      shortest, k := head, 0;
      DataAt(nodes, tasks, 0);
      ghost var i := 0;
      while task != null
        invariant i <= |nodes| && task == Nth(nodes, i) && k < |nodes| && shortest == nodes[k] && shortest.data == tasks[k]
        invariant if i == 0 then k == 0 else IsShortest(tasks[..i], k)
        decreases |nodes| - i
      {
        DataAt(nodes, tasks, i);
        ShortestStep(tasks, i, k);
        if task.data.burst < shortest.data.burst {
          shortest, k := task, i;
        }
        task, i := task.next, i + 1;
      }
      assert tasks[..i] == tasks;
      ShortestUnique(tasks, k, Shortest(tasks));
    }

    /** Links past the node at `k`. */
    method Unlink(prev: Node?<Task>, node: Node<Task>, ghost k: nat)
      requires Chain(head, nodes) && k < |nodes| && node == nodes[k] && prev == Nth(nodes, k - 1)
      modifies this`head, nodes`next
      ensures Chain(head, nodes[..k] + nodes[k + 1..])
    {
      if prev == null { head := node.next; } else { prev.next := node.next; }
      ChainRemove(nodes, nodes[..k] + nodes[k + 1..], k);
    }

    /** Removes the first task with this name. */
    method Delete(name: string)
      requires Valid() && exists i :: 0 <= i < |tasks| && tasks[i].name == name
      modifies this`head, this`nodes, this`tasks, nodes`next
      ensures Valid() && tasks == Removed(old(tasks), Named(old(tasks), name))
      ensures forall i :: 0 <= i < |nodes| ==> nodes[i] in old(nodes)
    {
      hide Chain, Carries;
      First(head, nodes, tasks);
      CarriesLength(nodes, tasks);
      var temp := head;
      ghost var k := 0;
      if temp.data.name == name {
        Unlink(null, temp, 0);
      } else {
        var prev;
        prev, temp, k := FindNamed(name);
        Unlink(prev, temp, k);
      }
      CarriesRemove(nodes, tasks, k);
      nodes, tasks := nodes[..k] + nodes[k + 1..], tasks[..k] + tasks[k + 1..];
    }

    /** The first node with the name, which is not the head, and the node before it. */
    method FindNamed(name: string) returns (prev: Node<Task>, temp: Node<Task>, ghost k: nat)
      requires Valid() && tasks != [] && tasks[0].name != name && exists i :: 0 <= i < |tasks| && tasks[i].name == name
      ensures 0 < k < |nodes| && prev == nodes[k - 1] && temp == nodes[k] && k == Named(tasks, name)
    {
      hide Carries, Named;
      ghost var n := Named(tasks, name);
      CarriesLength(nodes, tasks);
      assert n > 0;
      prev, temp, k := head, head.next, 1;
      DataAt(nodes, tasks, 1);
      while temp.data.name != name
        invariant 0 < k <= n < |nodes| && prev == nodes[k - 1] && temp == nodes[k] && temp.data == tasks[k]
        invariant forall l :: 0 <= l < k ==> tasks[l].name != name
        decreases n - k
      {
        DataAt(nodes, tasks, k + 1);
        prev, temp, k := temp, temp.next, k + 1;
      }
    }

    /** One round: the shortest task is run to its end, and the first task with its name is deleted. */
    method RunShortest(cpu: Cpu, ghost ran: seq<Task>, ghost n: nat) returns (ghost task: Task)
      requires Valid() && tasks != [] && cpu.Valid() && Numbered(tasks, n) && Records(ran, n, cpu.Notes())
      modifies this`head, this`nodes, this`tasks, nodes`next
      modifies cpu`time, cpu.burst, cpu.turnaround, cpu.waiting, cpu.response, cpu.responded
      ensures Valid() && (head == null <==> tasks == [])
      ensures task == old(tasks)[Shortest(old(tasks))] && tasks == Removed(old(tasks), Named(old(tasks), task.name))
      ensures forall i :: 0 <= i < |nodes| ==> nodes[i] in old(nodes)
      ensures Records(ran + [task], n, cpu.Notes())
    {
      hide Chain, Carries, Named, Removed, Shortest, Records;
      var shortest;
      ghost var k;
      shortest, k := FindShortest();
      task := shortest.data;
      ghost var before := cpu.Notes();
      RecordsLength(ran, n, before);
      cpu.Run(shortest.data, shortest.data.burst);
      RecordsStep(ran, n, before, cpu.Notes(), task);
      Delete(shortest.data.name);
      First(head, nodes, tasks);
    }

    /** Runs all tasks, the shortest first, and records their times. */
    method Schedule() returns (cpu: Cpu, ghost ran: seq<Task>)
      requires Valid() && Numbered(tasks, taskCount)
      modifies this, nodes
      ensures Valid() && tasks == [] && ran == Order(Reversed(old(tasks)))
      ensures cpu.Valid() && Records(ran, old(taskCount), cpu.Notes())
    {
      hide Chain, Carries, Order, Records, Numbered, Named, Removed, Shortest;
      cpu := new Cpu(taskCount);
      ghost var n, submitted := taskCount, Reversed(tasks);
      Reverse();
      ran := [];
      NothingRun(n);
      NumberedReversed(old(tasks), n);
      First(head, nodes, tasks);
      while head != null
        invariant Valid() && (head == null <==> tasks == []) && fresh(cpu) && cpu.Valid()
        invariant fresh(cpu.burst) && fresh(cpu.turnaround) && fresh(cpu.waiting) && fresh(cpu.response) && fresh(cpu.responded)
        invariant forall i :: 0 <= i < |nodes| ==> nodes[i] in old(nodes)
        invariant Numbered(tasks, n) && ran + Order(tasks) == Order(submitted) && Records(ran, n, cpu.Notes())
        decreases |tasks|
      {
        OrderStep(tasks, ran);
        NumberedStep(tasks, n);
        ghost var task := RunShortest(cpu, ran, n);
        ran := ran + [task];
      }
      NothingLeft(tasks);
    }
  }

  /** All tasks have entries in statistics of length `n`. */
  ghost predicate Numbered(tasks: seq<Task>, n: nat) {
    forall i :: 0 <= i < |tasks| ==> tasks[i].tid < n
  }

  /** The clock and the statistics after the tasks of `ran`. */
  ghost predicate Records(ran: seq<Task>, n: nat, s: Statistics) {
    var zeros, none := seq(n, _ => 0), seq(n, _ => false);
    && Numbered(ran, n) && s.time == Work(ran)
    && s.waiting == Started(ran, 0, zeros) && s.turnaround == Ended(ran, 0, zeros)
    && s.response == Noted(ran, 0, zeros, none, true) && s.burst == Noted(ran, 0, zeros, none, false) && s.responded == Flagged(ran, none)
  }

  lemma {:induction false} StartedElsewhere(order: seq<Task>, t: int, stats: seq<int>, tid: nat)
    requires (forall i :: 0 <= i < |order| ==> order[i].tid < |stats| && order[i].tid != tid) && tid < |stats|
    ensures Started(order, t, stats)[tid] == Ended(order, t, stats)[tid] == stats[tid]
    decreases |order|
  {
    if order != [] {
      StartedElsewhere(order[1..], t + order[0].burst, stats[order[0].tid := t], tid);
      StartedElsewhere(order[1..], t + order[0].burst, stats[order[0].tid := t + order[0].burst], tid);
    }
  }

  /** The waiting and turnaround times are those of the last run of a task. */
  lemma {:induction false} StartedAt(order: seq<Task>, t: int, stats: seq<int>, k: nat)
    requires (forall i :: 0 <= i < |order| ==> order[i].tid < |stats|) && k < |order|
    requires forall l :: k < l < |order| ==> order[l].tid != order[k].tid
    ensures Started(order, t, stats)[order[k].tid] == t + Work(order[..k])
    ensures Ended(order, t, stats)[order[k].tid] == t + Work(order[..k]) + order[k].burst
    decreases |order|
  {
    var rest, first := order[1..], order[0];
    if k == 0 {
      StartedElsewhere(rest, t + first.burst, stats[first.tid := t], first.tid);
      StartedElsewhere(rest, t + first.burst, stats[first.tid := t + first.burst], first.tid);
    } else {
      StartedAt(rest, t + first.burst, stats[first.tid := t], k - 1);
      StartedAt(rest, t + first.burst, stats[first.tid := t + first.burst], k - 1);
      assert order[..k][1..] == rest[..k - 1];
    }
  }

  lemma {:induction false} NotedElsewhere(order: seq<Task>, t: int, stats: seq<int>, flags: seq<bool>, times: bool, tid: nat)
    requires |flags| == |stats| && (forall i :: 0 <= i < |order| ==> order[i].tid < |stats|) && tid < |stats| && flags[tid]
    ensures Noted(order, t, stats, flags, times)[tid] == stats[tid] && Flagged(order, flags)[tid]
    decreases |order|
  {
    if order != [] {
      var first := order[0];
      var entry := if times then t else first.burst;
      NotedElsewhere(order[1..], t + first.burst, if flags[first.tid] then stats else stats[first.tid := entry], flags[first.tid := true], times, tid);
    }
  }

  /** The response time and the burst are those of the first run of a task. */
  lemma {:induction false} NotedAt(order: seq<Task>, t: int, stats: seq<int>, flags: seq<bool>, times: bool, k: nat)
    requires |flags| == |stats| && (forall i :: 0 <= i < |order| ==> order[i].tid < |stats|) && k < |order|
    requires !flags[order[k].tid] && forall l :: 0 <= l < k ==> order[l].tid != order[k].tid
    ensures Noted(order, t, stats, flags, times)[order[k].tid] == (if times then t + Work(order[..k]) else order[k].burst)
    ensures Flagged(order, flags)[order[k].tid]
    decreases |order|
  {
    var first := order[0];
    var entry := if times then t else first.burst;
    var noted := if flags[first.tid] then stats else stats[first.tid := entry];
    if k == 0 {
      NotedElsewhere(order[1..], t + first.burst, noted, flags[first.tid := true], times, first.tid);
    } else {
      NotedAt(order[1..], t + first.burst, noted, flags[first.tid := true], times, k - 1);
      assert order[..k][1..] == order[1..][..k - 1];
    }
  }

  /** Task by task: the last run of a task waits for the work before it and ends after its own, and the first run is
      the one that responds. */
  lemma {:induction false} TaskTimes(ran: seq<Task>, n: nat, s: Statistics, k: nat)
    requires Records(ran, n, s) && k < |ran|
    ensures |s.waiting| == |s.turnaround| == |s.response| == |s.burst| == |s.responded| == n > ran[k].tid
    ensures (forall l :: k < l < |ran| ==> ran[l].tid != ran[k].tid) ==>
      s.waiting[ran[k].tid] == Work(ran[..k]) && s.turnaround[ran[k].tid] == Work(ran[..k]) + ran[k].burst
    ensures (forall l :: 0 <= l < k ==> ran[l].tid != ran[k].tid) ==>
      s.response[ran[k].tid] == Work(ran[..k]) && s.burst[ran[k].tid] == ran[k].burst && s.responded[ran[k].tid]
  {
    hide Work, Started, Ended, Noted, Flagged;
    var zeros, none := seq(n, _ => 0), seq(n, _ => false);
    if forall l :: k < l < |ran| ==> ran[l].tid != ran[k].tid { StartedAt(ran, 0, zeros, k); }
    if forall l :: 0 <= l < k ==> ran[l].tid != ran[k].tid {
      NotedAt(ran, 0, zeros, none, true, k);
      NotedAt(ran, 0, zeros, none, false, k);
    }
  }

  lemma {:induction false} NumberedReversed(tasks: seq<Task>, n: nat)
    requires Numbered(tasks, n)
    ensures Numbered(Reversed(tasks), n)
  {
  }

  lemma {:induction false} NumberedStep(tasks: seq<Task>, n: nat)
    requires Numbered(tasks, n) && tasks != []
    ensures var k := Shortest(tasks);
      tasks[k].tid < n && Numbered(Removed(tasks, Named(tasks, tasks[k].name)), n)
  {
    var j := Named(tasks, tasks[Shortest(tasks)].name);
    var less := Removed(tasks, j);
    assert forall i :: 0 <= i < |less| ==> less[i] == tasks[if i < j then i else i + 1];
  }

  lemma {:induction false} RecordsLength(ran: seq<Task>, n: nat, s: Statistics)
    requires Records(ran, n, s)
    ensures |s.waiting| == |s.turnaround| == |s.response| == |s.burst| == |s.responded| == n
  {
  }

  /** The statistics after one more task was run to its end. */
  lemma {:induction false} RecordsStep(ran: seq<Task>, n: nat, s: Statistics, s': Statistics, task: Task)
    requires Records(ran, n, s) && task.tid < n == |s.waiting| == |s.turnaround| == |s.response| == |s.burst| == |s.responded|
    requires s'.time == s.time + task.burst && s'.waiting == s.waiting[task.tid := s.time]
    requires s'.turnaround == s.turnaround[task.tid := s.time + task.burst] && s'.responded == s.responded[task.tid := true]
    requires s'.response == if s.responded[task.tid] then s.response else s.response[task.tid := s.time]
    requires s'.burst == if s.responded[task.tid] then s.burst else s.burst[task.tid := task.burst]
    ensures Records(ran + [task], n, s')
  {
    hide Started, Ended, Noted, Flagged, Work;
    var zeros, none := seq(n, _ => 0), seq(n, _ => false);
    RunAppend(ran, task, 0, zeros);
    NoteAppend(ran, task, 0, zeros, none, true);
    NoteAppend(ran, task, 0, zeros, none, false);
  }

  lemma {:induction false} NothingRun(n: nat)
    ensures var zeros := seq(n, _ => 0); Records([], n, Statistics(0, zeros, zeros, zeros, zeros, seq(n, _ => false)))
  {
  }

  lemma {:induction false} NothingLeft(tasks: seq<Task>)
    requires tasks == []
    ensures Order(tasks) == []
  {
  }

  lemma {:induction false} OrderStep(tasks: seq<Task>, ran: seq<Task>)
    requires tasks != []
    ensures var t := tasks[Shortest(tasks)];
      ran + Order(tasks) == (ran + [t]) + Order(Removed(tasks, Named(tasks, t.name)))
    ensures var t := tasks[Shortest(tasks)]; |Removed(tasks, Named(tasks, t.name))| < |tasks|
  {
    hide Order;
    var t := tasks[Shortest(tasks)];
    OrderFirst(tasks);
    assert ran + ([t] + Order(Removed(tasks, Named(tasks, t.name)))) == (ran + [t]) + Order(Removed(tasks, Named(tasks, t.name)));
  }

  /** The recorded times add up to the least that any order of the same tasks can reach, when no later
      task with the same name is shorter. */
  lemma {:induction false} RecordedIsBest(tasks: seq<Task>, other: seq<Task>)
    requires NamesInOrder(tasks) && multiset(other) == multiset(tasks)
    requires TidsDiffer(tasks) && forall i :: 0 <= i < |tasks| ==> tasks[i].tid < |tasks|
    ensures var zeros := seq(|tasks|, _ => 0);
      && (forall i :: 0 <= i < |Order(tasks)| ==> Order(tasks)[i].tid < |tasks|)
      && Noted(Order(tasks), 0, zeros, seq(|tasks|, _ => false), true) == Started(Order(tasks), 0, zeros)
      && Sum(Started(Order(tasks), 0, zeros)) <= Waiting(other, 0)
      && Sum(Ended(Order(tasks), 0, zeros)) <= Turnaround(other, 0)
  {
    var zeros := seq(|tasks|, _ => 0);
    RunsEachOnce(tasks);
    OrderTids(tasks);
    ZeroSum(zeros);
    StartedSum(Order(tasks), 0, zeros);
    NotedOnce(Order(tasks), 0, zeros, seq(|tasks|, _ => false));
    ShortestFirstIsBest(tasks, other, 0);
  }

  /** Different tasks stay different in the order they are run. */
  lemma {:induction false} OrderTids(tasks: seq<Task>)
    requires NamesInOrder(tasks) && TidsDiffer(tasks)
    ensures TidsDiffer(Order(tasks)) && forall i :: 0 <= i < |Order(tasks)| ==> Order(tasks)[i] in tasks
    decreases |tasks|
  {
    OrderIn(tasks);
    if tasks != [] {
      var k := Shortest(tasks);
      assert Named(tasks, tasks[k].name) == k;
      var less := Removed(tasks, k);
      RemovedInOrder(tasks, k);
      RemovedTids(tasks, k);
      OrderTids(less);
      forall j | 0 <= j < |Order(less)|
        ensures Order(less)[j].tid != tasks[k].tid
      {
        RemovedOthers(tasks, k, Order(less)[j]);
      }
      HeadDiffers(tasks[k], Order(less));
    }
  }

  lemma {:induction false} OrderIn(tasks: seq<Task>)
    ensures forall i :: 0 <= i < |Order(tasks)| ==> Order(tasks)[i] in tasks
  {
    OrderWithin(tasks);
  }

  lemma {:induction false} HeadDiffers(task: Task, order: seq<Task>)
    requires TidsDiffer(order) && forall j :: 0 <= j < |order| ==> order[j].tid != task.tid
    ensures TidsDiffer([task] + order)
  {
  }

  lemma {:induction false} RemovedOthers(tasks: seq<Task>, k: nat, t: Task)
    requires TidsDiffer(tasks) && k < |tasks| && t in Removed(tasks, k)
    ensures t.tid != tasks[k].tid
  {
    var less := Removed(tasks, k);
    var i :| 0 <= i < |less| && less[i] == t;
    assert less[i] == tasks[if i < k then i else i + 1];
  }

  lemma {:induction false} CarriesReversed(nodes: seq<Node<Task>>, tasks: seq<Task>)
    requires Carries(nodes, tasks)
    ensures Carries(Reversed(nodes), Reversed(tasks))
  {
  }

  lemma {:induction false} NotedIsBest(tasks: seq<Task>, s: Statistics, other: seq<Task>)
    requires NamesInOrder(tasks) && multiset(other) == multiset(tasks) && Records(Order(tasks), |tasks|, s)
    requires TidsDiffer(tasks) && forall i :: 0 <= i < |tasks| ==> tasks[i].tid < |tasks|
    ensures Sum(s.waiting) == Sum(s.response) <= Waiting(other, 0) && Sum(s.turnaround) <= Turnaround(other, 0)
  {
    hide Order, NamesInOrder, Sum, Waiting, Turnaround, Started, Ended, Noted, Flagged;
    RecordedIsBest(tasks, other);
  }

  /** No order of the tasks has smaller waiting, response or turnaround times in all. */
  ghost predicate IsLeast(tasks: seq<Task>, s: Statistics) {
    Sum(s.waiting) == Sum(s.response) && forall other :: multiset(other) == multiset(tasks) ==>
      Sum(s.waiting) <= Waiting(other, 0) && Sum(s.turnaround) <= Turnaround(other, 0)
  }

  lemma {:induction false} NotedIsLeast(tasks: seq<Task>, s: Statistics)
    requires NamesInOrder(tasks) && Records(Order(tasks), |tasks|, s)
    requires TidsDiffer(tasks) && forall i :: 0 <= i < |tasks| ==> tasks[i].tid < |tasks|
    ensures IsLeast(tasks, s)
  {
    hide Order, NamesInOrder, Sum, Waiting, Turnaround, Records;
    NotedIsBest(tasks, s, tasks);
    forall other | multiset(other) == multiset(tasks)
      ensures Sum(s.waiting) <= Waiting(other, 0) && Sum(s.turnaround) <= Turnaround(other, 0)
    {
      NotedIsBest(tasks, s, other);
    }
  }

  // ----- a whole session

  datatype Job = Job(name: string, burst: int)

  /** The tasks of the jobs, numbered in the order in which they are submitted. */
  function Submitted(jobs: seq<Job>): (tasks: seq<Task>)
    ensures |tasks| == |jobs| && forall i :: 0 <= i < |tasks| ==> tasks[i] == Task(jobs[i].name, i, jobs[i].burst)
  {
    seq(|jobs|, i requires 0 <= i < |jobs| => Task(jobs[i].name, i, jobs[i].burst))
  }

  lemma {:induction false} ReversedTwice(tasks: seq<Task>)
    ensures Reversed(Reversed(tasks)) == tasks
  {
  }

  lemma {:induction false} SubmitOne(jobs: seq<Job>, k: nat)
    requires k < |jobs|
    ensures Reversed(Submitted(jobs[..k + 1])) == [Task(jobs[k].name, k, jobs[k].burst)] + Reversed(Submitted(jobs[..k]))
  {
  }

  /** Submits the jobs in their order. */
  method SubmitAll(jobs: seq<Job>) returns (list: TaskList)
    ensures list.Valid() && fresh(list) && list.taskCount == |jobs| && list.tasks == Reversed(Submitted(jobs))
    ensures forall i :: 0 <= i < |list.nodes| ==> fresh(list.nodes[i])
  {
    hide Chain, Carries;
    list := new TaskList();
    var k := 0;
    while k < |jobs|
      invariant 0 <= k <= |jobs| && list.Valid() && fresh(list) && list.taskCount == k
      invariant list.tasks == Reversed(Submitted(jobs[..k]))
      invariant forall i :: 0 <= i < |list.nodes| ==> fresh(list.nodes[i])
    {
      SubmitOne(jobs, k);
      list.Add(jobs[k].name, jobs[k].burst);
      k := k + 1;
    }
    assert jobs[..k] == jobs;
  }

  /** Submits the jobs and runs them: unless a shorter job follows one of the same name, every job is run once and
      the recorded times are in all the least that any order can reach. */
  method Session(jobs: seq<Job>) returns (cpu: Cpu, ghost ran: seq<Task>)
    ensures ran == Order(Submitted(jobs)) && Records(ran, |jobs|, cpu.Notes())
    ensures multiset(ran) == multiset(Submitted(jobs)) <==> NamesInOrder(Submitted(jobs))
    ensures NamesInOrder(Submitted(jobs)) ==> IsLeast(Submitted(jobs), cpu.Notes())
  {
    hide Order, NamesInOrder, IsLeast, Records, Chain, Carries;
    ghost var tasks := Submitted(jobs);
    var list := SubmitAll(jobs);
    ReversedTwice(tasks);
    cpu, ran := list.Schedule();
    RunsEachOnceIff(tasks);
    if NamesInOrder(tasks) { NotedIsLeast(tasks, cpu.Notes()); }
  }
}

/** The banker's algorithm on values: which states are safe, and what every command does to a state. */
module Safety {
  import opened Seqs

  type Vector = seq<int>

  ghost predicate AtMost(a: Vector, b: Vector)
    requires |a| == |b|
  {
    forall j :: 0 <= j < |a| ==> a[j] <= b[j]
  }

  ghost predicate Nonnegative(a: Vector) {
    forall j :: 0 <= j < |a| ==> a[j] >= 0
  }

  function Zero(m: nat): Vector { seq(m, _ => 0) }

  /** `a` with `sign` times `b` added. */
  function Plus(a: Vector, sign: int, b: Vector): Vector
    requires |a| == |b|
  {
    seq(|a|, j requires 0 <= j < |a| => a[j] + sign * b[j])
  }

  /** One row per customer, one column per resource. */
  datatype State = State(available: Vector, maximum: seq<Vector>, allocation: seq<Vector>, need: seq<Vector>)

  ghost predicate Shaped(s: State) {
    && |s.maximum| == |s.allocation| == |s.need|
    && forall i :: 0 <= i < |s.need| ==> |s.maximum[i]| == |s.allocation[i]| == |s.need[i]| == |s.available|
  }

  /** Nothing that the bank holds or has handed out is negative. Needs may be: the maxima are read unchecked. */
  ghost predicate Solvent(s: State)
    requires Shaped(s)
  {
    Nonnegative(s.available) && forall i :: 0 <= i < |s.need| ==> Nonnegative(s.allocation[i])
  }

  /** Nobody needs less than nothing. */
  ghost predicate Regular(s: State) {
    forall i :: 0 <= i < |s.need| ==> Nonnegative(s.need[i])
  }

  /** What a customer holds and still needs add up to its maximum. */
  ghost predicate Promised(s: State)
    requires Shaped(s)
  {
    forall i, j :: 0 <= i < |s.need| && 0 <= j < |s.available| ==> s.need[i][j] + s.allocation[i][j] == s.maximum[i][j]
  }

  // ----- safety

  ghost predicate Customers(s: State, order: seq<int>) {
    (forall k :: 0 <= k < |order| ==> 0 <= order[k] < |s.need|) && Distinct(order)
  }

  /** What the customers of `order` hold of resource `j`. */
  ghost function Held(s: State, order: seq<int>, j: int): int
    requires Shaped(s) && 0 <= j < |s.available| && forall k :: 0 <= k < |order| ==> 0 <= order[k] < |s.need|
  {
    if order == [] then 0
    else Held(s, order[..|order| - 1], j) + s.allocation[order[|order| - 1]][j]
  }

  /** Customer `c` can finish once those of `order` have returned all they hold. */
  ghost predicate CanFinish(s: State, order: seq<int>, c: int)
    requires Shaped(s) && Customers(s, order) && 0 <= c < |s.need|
  {
    forall j :: 0 <= j < |s.available| ==> s.need[c][j] <= s.available[j] + Held(s, order, j)
  }

  /** Each customer of `order` can finish after those before it. */
  ghost predicate Fits(s: State, order: seq<int>)
    requires Shaped(s) && Customers(s, order)
  {
    forall k :: 0 <= k < |order| ==> CanFinish(s, order[..k], order[k])
  }

  ghost predicate FullOrder(s: State, order: seq<int>) {
    Customers(s, order) && |order| == |s.need|
  }

  ghost predicate Safe(s: State)
    requires Shaped(s)
  {
    exists order :: FullOrder(s, order) && Fits(s, order)
  }

  lemma {:induction false} HeldWithout(s: State, order: seq<int>, i: nat, j: int)
    requires Shaped(s) && 0 <= j < |s.available| && i < |order| && forall k :: 0 <= k < |order| ==> 0 <= order[k] < |s.need|
    ensures Held(s, order, j) == Held(s, order[..i] + order[i + 1..], j) + s.allocation[order[i]][j]
  {
    var last := |order| - 1;
    if i == last {
      assert order[..i] + order[i + 1..] == order[..last];
    } else {
      HeldWithout(s, order[..last], i, j);
      var rest := order[..i] + order[i + 1..];
      assert rest[..|rest| - 1] == order[..last][..i] + order[..last][i + 1..];
    }
  }

  /** More customers hold more. */
  lemma {:induction false} HeldMore(s: State, p: seq<int>, q: seq<int>, j: int)
    requires Shaped(s) && Solvent(s) && 0 <= j < |s.available| && Customers(s, p) && Customers(s, q)
    requires forall c :: c in p ==> c in q
    ensures Held(s, p, j) <= Held(s, q, j)
    decreases |q|
  {
    hide Distinct;
    if q == [] {
      Pigeonhole(p, q);
    } else {
      var x, q' := q[|q| - 1], q[..|q| - 1];
      PrefixCustomers(s, q, |q| - 1);
      assert q == q' + [x];
      if x in p {
        var i :| 0 <= i < |p| && p[i] == x;
        HeldWithout(s, p, i, j);
        OneLess(s, p, i);
        forall c | c in p[..i] + p[i + 1..]
          ensures c in q'
        {
          assert c in q' + [x];
        }
        HeldMore(s, p[..i] + p[i + 1..], q', j);
      } else {
        HeldMore(s, p, q', j);
      }
    }
  }

  /** An order without one of its customers. */
  lemma {:induction false} OneLess(s: State, p: seq<int>, i: nat)
    requires Customers(s, p) && i < |p|
    ensures Customers(s, p[..i] + p[i + 1..]) && forall c :: c in p[..i] + p[i + 1..] ==> c in p && c != p[i]
  {
    var less := p[..i] + p[i + 1..];
    RemovedDistinct(p, i);
    forall k | 0 <= k < |less|
      ensures less[k] in p && less[k] != p[i] && 0 <= less[k] < |s.need|
    {
      RemovedAt(p, i, k);
    }
  }

  lemma {:induction false} PrefixCustomers(s: State, order: seq<int>, k: nat)
    requires Customers(s, order) && k <= |order|
    ensures Customers(s, order[..k])
  {
  }

  /** If the customers outside `done` cannot finish after it, no full order fits: picking any customer
      that can finish never spoils the search. */
  lemma {:induction false} StuckIsUnsafe(s: State, done: seq<int>)
    requires Shaped(s) && Solvent(s) && Customers(s, done) && |done| < |s.need|
    requires forall c :: 0 <= c < |s.need| && c !in done ==> !CanFinish(s, done, c)
    ensures !Safe(s)
  {
    forall order | FullOrder(s, order)
      ensures !Fits(s, order)
    {
      var k := FirstOutside(order, done, 0);
      PrefixCustomers(s, order, k);
      var j :| 0 <= j < |s.available| && s.need[order[k]][j] > s.available[j] + Held(s, done, j);
      HeldMore(s, order[..k], done, j);
      assert !CanFinish(s, order[..k], order[k]);
    }
  }

  lemma {:induction false} FirstOutside(order: seq<int>, done: seq<int>, from: nat) returns (k: nat)
    requires Distinct(order) && |done| < |order| && from <= |order| && forall c :: c in order[..from] ==> c in done
    ensures k < |order| && order[k] !in done && forall c :: c in order[..k] ==> c in done
    decreases |order| - from
  {
    if from == |order| {
      assert order[..from] == order;
      forall c | c in order
        ensures c in done
      {
        assert c in order[..from];
      }
      Pigeonhole(order, done);
    } else if order[from] !in done {
      k := from;
    } else {
      assert order[..from + 1] == order[..from] + [order[from]];
      k := FirstOutside(order, done, from + 1);
    }
  }

  /** One more customer that can finish. */
  lemma {:induction false} FitsAppend(s: State, order: seq<int>, c: int)
    requires Shaped(s) && Customers(s, order) && Fits(s, order) && 0 <= c < |s.need| && c !in order && CanFinish(s, order, c)
    ensures Customers(s, order + [c]) && Fits(s, order + [c])
    ensures forall j :: 0 <= j < |s.available| ==> Held(s, order + [c], j) == Held(s, order, j) + s.allocation[c][j]
  {
    var more := order + [c];
    assert more[..|order|] == order;
    forall k | 0 <= k < |more|
      ensures CanFinish(s, more[..k], more[k])
    {
      if k < |order| { assert more[..k] == order[..k]; }
    }
  }

  // ----- what the commands do

  /** Customer `c` gives back `sign` times `amount` (takes it when `sign` is -1) and is left with this need and maximum. */
  function Move(s: State, c: int, sign: int, amount: Vector, need: Vector, maximum: Vector): State
    requires Shaped(s) && 0 <= c < |s.need| && |amount| == |need| == |maximum| == |s.available|
  {
    State(Plus(s.available, sign, amount), s.maximum[c := maximum],
          s.allocation[c := Plus(s.allocation[c], -sign, amount)], s.need[c := need])
  }

  function Taken(s: State, c: int, amount: Vector): State
    requires Shaped(s) && 0 <= c < |s.need| && |amount| == |s.available|
  {
    Move(s, c, -1, amount, Plus(s.need[c], -1, amount), s.maximum[c])
  }

  function Returned(s: State, c: int, amount: Vector): State
    requires Shaped(s) && 0 <= c < |s.need| && |amount| == |s.available|
  {
    Move(s, c, 1, amount, Plus(s.need[c], 1, amount), s.maximum[c])
  }

  /** A customer that needs nothing more returns everything and drops out. */
  function Finished(s: State, c: int): State
    requires Shaped(s) && 0 <= c < |s.need|
  {
    var zero := Zero(|s.available|);
    if s.need[c] == zero then Move(s, c, 1, s.allocation[c], zero, zero) else s
  }

  datatype Command = Request(customer: int, amount: Vector) | Release(customer: int, amount: Vector)

  ghost predicate Grantable(s: State, c: int, amount: Vector)
    requires Shaped(s) && 0 <= c < |s.need| && |amount| == |s.available|
  {
    AtMost(amount, s.need[c]) && AtMost(amount, s.available) && Safe(Taken(s, c, amount))
  }

  /** The state after a command; commands that name no customer or a negative or too large amount change nothing. */
  ghost function Serve(s: State, command: Command): State
    requires Shaped(s) && |command.amount| == |s.available|
  {
    var c, amount := command.customer, command.amount;
    if !(0 <= c < |s.need|) || !Nonnegative(amount) then s
    else if command.Release? then
      if AtMost(amount, s.allocation[c]) then Returned(s, c, amount) else s
    else if !AtMost(amount, s.need[c]) then s
    else Finished(if Grantable(s, c, amount) then Taken(s, c, amount) else s, c)
  }

  // ----- what a command does, entry by entry

  /** The tables of `s'` are those of `s` but for the row of customer `c`. */
  ghost predicate OthersSame(s: State, s': State, c: int) {
    && Shaped(s) && Shaped(s') && |s'.available| == |s.available| && |s'.need| == |s.need| && 0 <= c < |s.need|
    && forall i :: 0 <= i < |s.need| && i != c ==>
         s'.need[i] == s.need[i] && s'.allocation[i] == s.allocation[i] && s'.maximum[i] == s.maximum[i]
  }

  /** `s'` is `s` with `amount` lent to customer `c`, and `s` is `s'` with `amount` given back. */
  ghost predicate Lent(s: State, s': State, c: int, amount: Vector) {
    && OthersSame(s, s', c) && |amount| == |s.available| && s'.maximum[c] == s.maximum[c]
    && forall j :: 0 <= j < |amount| ==>
         && s'.available[j] == s.available[j] - amount[j]
         && s'.allocation[c][j] == s.allocation[c][j] + amount[j]
         && s'.need[c][j] == s.need[c][j] - amount[j]
  }

  /** `s'` is `s` after customer `c` has returned all it held and dropped out. */
  ghost predicate DroppedOut(s: State, s': State, c: int) {
    && OthersSame(s, s', c)
    && forall j :: 0 <= j < |s.available| ==>
         s'.available[j] == s.available[j] + s.allocation[c][j] && s'.allocation[c][j] == s'.need[c][j] == s'.maximum[c][j] == 0
  }

  lemma {:induction false} LentOnce(s: State, a: State, b: State, c: int, amount: Vector)
    requires (Lent(s, a, c, amount) && Lent(s, b, c, amount)) || (Lent(a, s, c, amount) && Lent(b, s, c, amount))
    ensures a == b
  {
    forall i | 0 <= i < |a.need|
      ensures a.need[i] == b.need[i] && a.allocation[i] == b.allocation[i] && a.maximum[i] == b.maximum[i]
    {
    }
    assert a.available == b.available && a.need == b.need && a.allocation == b.allocation && a.maximum == b.maximum;
  }

  /** A request within the need, of whatever amount: it is granted when it is available and lending it is safe, and then
      exactly that amount is lent; otherwise it is denied. A customer left without a need drops out, after a grant and
      after a denial. Any other request changes nothing. */
  lemma {:induction false} RequestServed(s: State, c: int, amount: Vector) returns (lent: State)
    requires Shaped(s) && 0 <= c < |s.need| && |amount| == |s.available|
    ensures Lent(s, lent, c, amount)
    ensures var s' := Serve(s, Request(c, amount));
      if Nonnegative(amount) && AtMost(amount, s.need[c]) then
        var now := if AtMost(amount, s.available) && Safe(lent) then lent else s;
        if forall j :: 0 <= j < |amount| ==> now.need[c][j] == 0 then DroppedOut(now, s', c) else s' == now
      else s' == s
  {
    hide Safe;
    lent := Taken(s, c, amount);
    var now := if AtMost(amount, s.available) && Safe(lent) then lent else s;
    assert now.need[c] == Zero(|amount|) <==> forall j :: 0 <= j < |amount| ==> now.need[c][j] == 0;
  }

  /** A release within the allocation, of whatever amount, gives back exactly that amount; any other changes nothing. */
  lemma {:induction false} ReleaseServed(s: State, c: int, amount: Vector)
    requires Shaped(s) && 0 <= c < |s.need| && |amount| == |s.available|
    ensures var s' := Serve(s, Release(c, amount));
      if Nonnegative(amount) && AtMost(amount, s.allocation[c]) then Lent(s', s, c, amount) else s' == s
  {
  }

  /** A granted request for less than the whole need is undone by releasing the same amount. */
  lemma {:induction false} ReleaseUndoes(s: State, lent: State, c: int, amount: Vector)
    requires Lent(s, lent, c, amount) && Safe(lent) && Solvent(s) && Nonnegative(amount)
    requires AtMost(amount, s.need[c]) && AtMost(amount, s.available) && exists j :: 0 <= j < |amount| && amount[j] < s.need[c][j]
    ensures Serve(s, Request(c, amount)) == lent && Serve(lent, Release(c, amount)) == s
  {
    hide Safe, Serve;
    var same := RequestServed(s, c, amount);
    LentOnce(s, lent, same, c, amount);
    ReleaseServed(lent, c, amount);
    LentOnce(lent, s, Serve(lent, Release(c, amount)), c, amount);
  }

  ghost function Total(s: State, j: int): int
    requires Shaped(s) && 0 <= j < |s.available|
  {
    s.available[j] + Held(s, Everyone(|s.need|), j)
  }

  function Everyone(n: nat): seq<int> { seq(n, i => i) }

  /** Moving resources changes what an order holds only through the customer that moved them. */
  lemma {:induction false} HeldMoved(s: State, s': State, order: seq<int>, c: int, row: Vector, j: int)
    requires Shaped(s) && Shaped(s') && |s'.available| == |s.available| == |row| && 0 <= c < |s.need|
    requires s'.allocation == s.allocation[c := row] && 0 <= j < |s.available| && Customers(s, order)
    ensures Held(s', order, j) == Held(s, order, j) + if c in order then row[j] - s.allocation[c][j] else 0
  {
    if order != [] {
      var last := |order| - 1;
      PrefixCustomers(s, order, last);
      HeldMoved(s, s', order[..last], c, row, j);
      assert order == order[..last] + [order[last]];
    }
  }

  lemma {:induction false} EveryoneFull(s: State)
    ensures FullOrder(s, Everyone(|s.need|))
  {
  }

  /** Whatever moves, nothing is lost. */
  lemma {:induction false} MoveConserves(s: State, c: int, sign: int, amount: Vector, need: Vector, maximum: Vector, j: int)
    requires Shaped(s) && 0 <= c < |s.need| && |amount| == |need| == |maximum| == |s.available| && 0 <= j < |s.available|
    ensures Shaped(Move(s, c, sign, amount, need, maximum))
    ensures Total(Move(s, c, sign, amount, need, maximum), j) == Total(s, j)
  {
    EveryoneFull(s);
    var s' := Move(s, c, sign, amount, need, maximum);
    HeldMoved(s, s', Everyone(|s.need|), c, Plus(s.allocation[c], -sign, amount), j);
    assert Everyone(|s.need|)[c] == c;
  }

  /** Giving back keeps every order that fits, as long as the need grows by no more than what is given back. */
  lemma {:induction false} GiveBackFits(s: State, c: int, amount: Vector, need: Vector, maximum: Vector, order: seq<int>)
    requires Shaped(s) && 0 <= c < |s.need| && |amount| == |need| == |maximum| == |s.available|
    requires Nonnegative(amount) && AtMost(need, Plus(s.need[c], 1, amount)) && Customers(s, order) && Fits(s, order)
    ensures var s' := Move(s, c, 1, amount, need, maximum); Shaped(s') && Customers(s', order) && Fits(s', order)
  {
    var s' := Move(s, c, 1, amount, need, maximum);
    forall k | 0 <= k < |order|
      ensures Customers(s', order[..k]) && CanFinish(s', order[..k], order[k])
    {
      PrefixCustomers(s, order, k);
      assert CanFinish(s, order[..k], order[k]);
      forall j | 0 <= j < |s.available|
        ensures s'.need[order[k]][j] <= s'.available[j] + Held(s', order[..k], j)
      {
        HeldMoved(s, s', order[..k], c, Plus(s.allocation[c], -1, amount), j);
        assert order[k] == c ==> c !in order[..k];
      }
    }
  }

  lemma {:induction false} GiveBackSafe(s: State, c: int, amount: Vector, need: Vector, maximum: Vector)
    requires Shaped(s) && 0 <= c < |s.need| && |amount| == |need| == |maximum| == |s.available|
    requires Nonnegative(amount) && AtMost(need, Plus(s.need[c], 1, amount)) && Safe(s)
    ensures Shaped(Move(s, c, 1, amount, need, maximum)) && Safe(Move(s, c, 1, amount, need, maximum))
  {
    var order :| FullOrder(s, order) && Fits(s, order);
    GiveBackFits(s, c, amount, need, maximum, order);
  }

  ghost predicate SameTotals(s: State, s': State)
    requires Shaped(s) && Shaped(s')
  {
    |s'.available| == |s.available| && |s'.need| == |s.need| && forall j :: 0 <= j < |s.available| ==> Total(s', j) == Total(s, j)
  }

  /** The invariant of a bank that was safe once. */
  ghost predicate Sound(s: State) {
    Shaped(s) && Solvent(s) && Promised(s) && Safe(s)
  }

  /** What every command keeps, in any solvent bank. */
  ghost predicate Keeps(s: State, s': State)
    requires Shaped(s) && Shaped(s')
  {
    && Solvent(s') && SameTotals(s, s')
    && (Promised(s) ==> Promised(s')) && (Safe(s) ==> Safe(s')) && (Regular(s) ==> Regular(s'))
  }

  lemma {:induction false} FinishedKeeps(s: State, c: int)
    requires Shaped(s) && Solvent(s) && 0 <= c < |s.need|
    ensures Keeps(s, Finished(s, c))
  {
    var zero := Zero(|s.available|);
    if s.need[c] == zero {
      if Safe(s) { GiveBackSafe(s, c, s.allocation[c], zero, zero); }
      forall j | 0 <= j < |s.available|
        ensures Total(Finished(s, c), j) == Total(s, j)
      {
        MoveConserves(s, c, 1, s.allocation[c], zero, zero, j);
      }
    }
  }

  lemma {:induction false} ReturnedKeeps(s: State, c: int, amount: Vector)
    requires Shaped(s) && Solvent(s) && 0 <= c < |s.need| && |amount| == |s.available| && Nonnegative(amount)
    requires AtMost(amount, s.allocation[c])
    ensures Keeps(s, Returned(s, c, amount))
  {
    var need := Plus(s.need[c], 1, amount);
    if Safe(s) { GiveBackSafe(s, c, amount, need, s.maximum[c]); }
    forall j | 0 <= j < |s.available|
      ensures Total(Returned(s, c, amount), j) == Total(s, j)
    {
      MoveConserves(s, c, 1, amount, need, s.maximum[c], j);
    }
  }

  lemma {:induction false} TakenKeeps(s: State, c: int, amount: Vector)
    requires Shaped(s) && Solvent(s) && 0 <= c < |s.need| && |amount| == |s.available| && Nonnegative(amount) && Grantable(s, c, amount)
    ensures Keeps(s, Taken(s, c, amount))
  {
    var need := Plus(s.need[c], -1, amount);
    forall j | 0 <= j < |s.available|
      ensures Total(Taken(s, c, amount), j) == Total(s, j)
    {
      MoveConserves(s, c, -1, amount, need, s.maximum[c], j);
    }
  }

  /** Every command keeps a solvent bank solvent, loses no resource, keeps need plus allocation at the
      maximum, and keeps a safe bank safe. */
  lemma {:induction false} ServeKeeps(s: State, command: Command)
    requires Shaped(s) && Solvent(s) && |command.amount| == |s.available|
    ensures Shaped(Serve(s, command)) && Keeps(s, Serve(s, command))
  {
    hide Safe, Held, Promised, Regular;
    var c, amount := command.customer, command.amount;
    if 0 <= c < |s.need| && Nonnegative(amount) {
      if command.Release? {
        if AtMost(amount, s.allocation[c]) { ReturnedKeeps(s, c, amount); }
      } else if AtMost(amount, s.need[c]) {
        if Grantable(s, c, amount) {
          TakenKeeps(s, c, amount);
          FinishedKeeps(Taken(s, c, amount), c);
        } else {
          FinishedKeeps(s, c);
        }
      }
    }
  }

  // ----- whole runs

  ghost function Reach(s: State, commands: seq<Command>): (r: State)
    requires Shaped(s) && forall k :: 0 <= k < |commands| ==> |commands[k].amount| == |s.available|
    ensures Shaped(r) && |r.available| == |s.available| && |r.need| == |s.need|
    decreases |commands|
  {
    if commands == [] then s else Reach(Serve(s, commands[0]), commands[1..])
  }

  /** Safety over any run: from a solvent state every reachable state is solvent, holds the same totals and keeps
      need plus allocation at the maximum, and from a safe one it is safe. */
  lemma {:induction false} ReachKeeps(s: State, commands: seq<Command>)
    requires Shaped(s) && Solvent(s) && forall k :: 0 <= k < |commands| ==> |commands[k].amount| == |s.available|
    ensures Keeps(s, Reach(s, commands))
    decreases |commands|
  {
    hide Safe, Held, Promised, Regular, Serve;
    if commands != [] {
      ServeKeeps(s, commands[0]);
      ReachKeeps(Serve(s, commands[0]), commands[1..]);
    }
  }

  lemma {:induction false} ReachSound(s: State, commands: seq<Command>)
    requires Sound(s) && forall k :: 0 <= k < |commands| ==> |commands[k].amount| == |s.available|
    ensures Sound(Reach(s, commands)) && SameTotals(s, Reach(s, commands))
  {
    ReachKeeps(s, commands);
  }

  lemma {:induction false} ReachAppend(s: State, commands: seq<Command>, command: Command)
    requires Shaped(s) && |command.amount| == |s.available|
    requires forall k :: 0 <= k < |commands| ==> |commands[k].amount| == |s.available|
    ensures Reach(s, commands + [command]) == Serve(Reach(s, commands), command)
    decreases |commands|
  {
    var more := commands + [command];
    if commands == [] {
      assert more[1..] == [];
    } else {
      assert more[1..] == commands[1..] + [command];
      ReachAppend(Serve(s, commands[0]), commands[1..], command);
    }
  }

  /** The bank when it opens: nobody holds anything. */
  function Opening(available: Vector, maximum: seq<Vector>): State {
    State(available, maximum, seq(|maximum|, _ => Zero(|available|)), maximum)
  }

  /** The opening state is safe exactly when no maximum exceeds what there is, which the program never checks. */
  lemma {:induction false} OpeningSafe(available: Vector, maximum: seq<Vector>)
    requires forall i :: 0 <= i < |maximum| ==> |maximum[i]| == |available|
    ensures Shaped(Opening(available, maximum)) && Promised(Opening(available, maximum))
    ensures Safe(Opening(available, maximum)) <==> forall i :: 0 <= i < |maximum| ==> AtMost(maximum[i], available)
  {
    var s := Opening(available, maximum);
    if Safe(s) {
      var order :| FullOrder(s, order) && Fits(s, order);
      forall i | 0 <= i < |maximum|
        ensures AtMost(maximum[i], available)
      {
        var k := PlaceOf(order, i);
        PrefixCustomers(s, order, k);
        assert CanFinish(s, order[..k], order[k]);
        forall j | 0 <= j < |available|
          ensures maximum[i][j] <= available[j]
        {
          HoldsNothing(s, order[..k], j);
        }
      }
    }
    if forall i :: 0 <= i < |maximum| ==> AtMost(maximum[i], available) {
      var order := Everyone(|maximum|);
      forall k | 0 <= k < |order|
        ensures CanFinish(s, order[..k], order[k])
      {
        forall j | 0 <= j < |available|
          ensures s.need[order[k]][j] <= s.available[j] + Held(s, order[..k], j)
        {
          HoldsNothing(s, order[..k], j);
          assert AtMost(maximum[k], available);
        }
      }
      assert FullOrder(s, order) && Fits(s, order);
    }
  }

  /** The bank that opens is sound exactly when no maximum exceeds what there is. */
  lemma {:induction false} OpeningSound(available: Vector, maximum: seq<Vector>)
    requires Nonnegative(available) && forall i :: 0 <= i < |maximum| ==> |maximum[i]| == |available|
    ensures Sound(Opening(available, maximum)) <==> forall i :: 0 <= i < |maximum| ==> AtMost(maximum[i], available)
    ensures Shaped(Opening(available, maximum)) && Solvent(Opening(available, maximum))
  {
    hide Safe;
    OpeningSafe(available, maximum);
  }

  /** A maximum of one unit that does not exist. */
  lemma {:induction false} UnsafeOpening()
    ensures Shaped(Opening([0], [[1]])) && !Safe(Opening([0], [[1]]))
  {
    hide Safe;
    OpeningSafe([0], [[1]]);
    assert [[1]][0][0] == 1;
  }

  /** Undoing a grant restores the state. */
  lemma {:induction false} TakenBack(s: State, c: int, amount: Vector)
    requires Shaped(s) && 0 <= c < |s.need| && |amount| == |s.available|
    ensures Returned(Taken(s, c, amount), c, amount) == s
  {
    var t := Taken(s, c, amount);
    assert Plus(t.need[c], 1, amount) == s.need[c];
    assert Plus(t.allocation[c], -1, amount) == s.allocation[c];
    assert Plus(t.available, 1, amount) == s.available;
    assert s.need[c := t.need[c]][c := s.need[c]] == s.need;
    assert s.allocation[c := t.allocation[c]][c := s.allocation[c]] == s.allocation;
    assert s.maximum[c := s.maximum[c]] == s.maximum;
  }

  /** An unsafe bank grants nothing: giving it back would make the bank safe. */
  lemma {:induction false} UnsafeGrantsNothing(s: State, c: int, amount: Vector)
    requires Shaped(s) && !Safe(s) && 0 <= c < |s.need| && |amount| == |s.available| && Nonnegative(amount)
    ensures !Grantable(s, c, amount)
  {
    hide Safe;
    var t := Taken(s, c, amount);
    if Safe(t) {
      TakenBack(s, c, amount);
      GiveBackSafe(t, c, amount, Plus(t.need[c], 1, amount), t.maximum[c]);
    }
  }

  /** Nobody holds anything. */
  ghost predicate Untouched(s: State)
    requires Shaped(s)
  {
    forall i :: 0 <= i < |s.need| ==> s.allocation[i] == Zero(|s.available|)
  }

  lemma {:induction false} NothingMoves(s: State, c: int, amount: Vector)
    requires Shaped(s) && 0 <= c < |s.need| && amount == Zero(|s.available|)
    ensures Move(s, c, 1, amount, s.need[c], s.maximum[c]) == s
  {
    assert Plus(s.available, 1, amount) == s.available;
    assert Plus(s.allocation[c], -1, amount) == s.allocation[c];
  }

  /** A command to an unsafe bank that has handed out nothing. */
  lemma {:induction false} UnsafeServe(s: State, command: Command)
    requires Shaped(s) && Untouched(s) && Promised(s) && !Safe(s) && |command.amount| == |s.available|
    ensures Serve(s, command) == s
  {
    hide Safe, Move;
    var c, amount, zero := command.customer, command.amount, Zero(|s.available|);
    if 0 <= c < |s.need| && Nonnegative(amount) {
      NothingMoves(s, c, zero);
      if command.Release? {
        if AtMost(amount, s.allocation[c]) {
          assert amount == zero && Plus(s.need[c], 1, amount) == s.need[c];
        }
      } else {
        UnsafeGrantsNothing(s, c, amount);
        if s.need[c] == zero { assert s.maximum[c] == zero; }
      }
    }
  }

  /** A bank that opens unsafe never changes: no run of commands is granted anything. */
  lemma {:induction false} UnsafeForever(s: State, commands: seq<Command>)
    requires Shaped(s) && Untouched(s) && Promised(s) && !Safe(s)
    requires forall k :: 0 <= k < |commands| ==> |commands[k].amount| == |s.available|
    ensures Reach(s, commands) == s
    decreases |commands|
  {
    hide Safe, Promised, Untouched, Serve;
    if commands != [] {
      UnsafeServe(s, commands[0]);
      UnsafeForever(s, commands[1..]);
    }
  }

  lemma {:induction false} UnsafeOpeningStays(available: Vector, maximum: seq<Vector>, commands: seq<Command>)
    requires forall i :: 0 <= i < |maximum| ==> |maximum[i]| == |available|
    requires exists i :: 0 <= i < |maximum| && !AtMost(maximum[i], available)
    requires forall k :: 0 <= k < |commands| ==> |commands[k].amount| == |available|
    ensures Shaped(Opening(available, maximum)) && Reach(Opening(available, maximum), commands) == Opening(available, maximum)
  {
    hide Safe, AtMost;
    OpeningSafe(available, maximum);
    UnsafeForever(Opening(available, maximum), commands);
  }

  lemma {:induction false} HoldsNothing(s: State, order: seq<int>, j: int)
    requires Shaped(s) && 0 <= j < |s.available| && Customers(s, order)
    requires forall k :: 0 <= k < |order| ==> s.allocation[order[k]][j] == 0
    ensures Held(s, order, j) == 0
  {
    if order != [] {
      PrefixCustomers(s, order, |order| - 1);
      HoldsNothing(s, order[..|order| - 1], j);
    }
  }

  /** A full order has every customer somewhere. */
  lemma {:induction false} PlaceOf(order: seq<int>, c: int) returns (k: nat)
    requires Distinct(order) && (forall i :: 0 <= i < |order| ==> 0 <= order[i] < |order|) && 0 <= c < |order|
    ensures k < |order| && order[k] == c
  {
    if forall i :: 0 <= i < |order| ==> order[i] != c {
      var more := order + [c];
      forall x | x in more
        ensures x in Everyone(|order|)
      {
        assert Everyone(|order|)[x] == x;
      }
      Pigeonhole(more, Everyone(|order|));
    }
    k :| 0 <= k < |order| && order[k] == c;
  }

  // ----- from a safe state everyone can finish

  ghost predicate AllGranted(s: State, commands: seq<Command>)
    requires Shaped(s)
    decreases |commands|
  {
    commands == [] ||
    (var command := commands[0];
     && command.Request? && 0 <= command.customer < |s.need| && |command.amount| == |s.available|
     && Nonnegative(command.amount) && Grantable(s, command.customer, command.amount)
     && Shaped(Serve(s, command)) && AllGranted(Serve(s, command), commands[1..]))
  }

  /** The first `k` customers of the order have finished. */
  ghost predicate GoneUpTo(s: State, order: seq<int>, k: nat)
    requires Shaped(s) && Customers(s, order) && k <= |order|
  {
    forall i :: 0 <= i < k ==> s.allocation[order[i]] == Zero(|s.available|) && s.need[order[i]] == Zero(|s.available|)
  }

  /** The next customer of the order can be granted all it still needs, and then finishes. */
  lemma {:induction false} NextFinishes(s: State, order: seq<int>, k: nat)
    requires Sound(s) && Regular(s) && FullOrder(s, order) && Fits(s, order) && k < |order| && GoneUpTo(s, order, k)
    ensures Grantable(s, order[k], s.need[order[k]])
    ensures var s' := Serve(s, Request(order[k], s.need[order[k]]));
      && Sound(s') && Regular(s') && SameTotals(s, s') && Fits(s', order) && GoneUpTo(s', order, k + 1)
  {
    hide Safe, Held, Fits, Serve, SameTotals, Zero;
    var c := order[k];
    var amount, zero := s.need[c], Zero(|s.available|);
    NextFitsNow(s, order, k);
    TakeAllFits(s, order, k);
    var t := Taken(s, c, amount);
    SafeBy(t, order);
    ServeKeeps(s, Request(c, amount));
    WholeNeedServed(s, c);
    GiveBackFits(t, c, t.allocation[c], zero, zero, order) by { ZeroIs(|s.available|); }
    GoneNext(s, order, k);
  }

  lemma {:induction false} ZeroIs(m: nat)
    ensures |Zero(m)| == m && forall j :: 0 <= j < m ==> Zero(m)[j] == 0
  {
  }

  lemma {:induction false} SafeBy(s: State, order: seq<int>)
    requires Shaped(s) && FullOrder(s, order) && Fits(s, order)
    ensures Safe(s)
  {
  }

  /** The next customer's need is available now. */
  lemma {:induction false} NextFitsNow(s: State, order: seq<int>, k: nat)
    requires Shaped(s) && FullOrder(s, order) && Fits(s, order) && k < |order| && GoneUpTo(s, order, k)
    ensures AtMost(s.need[order[k]], s.available)
  {
    hide Safe, Fits;
    PrefixCustomers(s, order, k);
    assert CanFinish(s, order[..k], order[k]) by { FitsAt(s, order, k); }
    forall j | 0 <= j < |s.available|
      ensures s.need[order[k]][j] <= s.available[j]
    {
      HoldsNothing(s, order[..k], j);
    }
  }

  /** A granted request for the whole need is followed by the return of everything. */
  lemma {:induction false} WholeNeedServed(s: State, c: int)
    requires Shaped(s) && 0 <= c < |s.need| && Nonnegative(s.need[c]) && Grantable(s, c, s.need[c])
    ensures var t, zero := Taken(s, c, s.need[c]), Zero(|s.available|);
      Shaped(t) && Serve(s, Request(c, s.need[c])) == Move(t, c, 1, t.allocation[c], zero, zero)
  {
    hide Safe;
    assert Taken(s, c, s.need[c]).need[c] == Zero(|s.available|);
  }

  lemma {:induction false} GoneNext(s: State, order: seq<int>, k: nat)
    requires Shaped(s) && FullOrder(s, order) && k < |order| && GoneUpTo(s, order, k)
    ensures var t, zero := Taken(s, order[k], s.need[order[k]]), Zero(|s.available|);
      Shaped(t) && var s' := Move(t, order[k], 1, t.allocation[order[k]], zero, zero); Shaped(s') && GoneUpTo(s', order, k + 1)
  {
    var t, zero := Taken(s, order[k], s.need[order[k]]), Zero(|s.available|);
    assert Plus(t.allocation[order[k]], -1, t.allocation[order[k]]) == zero;
  }

  /** With all that customer k needs taken, each customer of the order can still finish after those before it. */
  lemma {:induction false} TakeAllFitsAt(s: State, order: seq<int>, k: nat, i: nat)
    requires Shaped(s) && FullOrder(s, order) && Fits(s, order) && k < |order| && i < |order| && GoneUpTo(s, order, k)
    requires AtMost(s.need[order[k]], s.available)
    ensures var t := Taken(s, order[k], s.need[order[k]]); Shaped(t) && Customers(t, order[..i]) && CanFinish(t, order[..i], order[i])
  {
    hide Safe, Fits;
    var c := order[k];
    var amount := s.need[c];
    var t := Taken(s, c, amount);
    PrefixCustomers(s, order, i);
    assert CanFinish(s, order[..i], order[i]) by { FitsAt(s, order, i); }
    forall j | 0 <= j < |s.available|
      ensures t.need[order[i]][j] <= t.available[j] + Held(t, order[..i], j)
    {
      HeldMoved(s, t, order[..i], c, Plus(s.allocation[c], 1, amount), j);
      if i <= k { HoldsNothing(s, order[..i], j); } else { assert order[..i][k] == c; }
    }
  }

  lemma {:induction false} FitsAt(s: State, order: seq<int>, i: nat)
    requires Shaped(s) && Customers(s, order) && Fits(s, order) && i < |order| && Customers(s, order[..i])
    ensures CanFinish(s, order[..i], order[i])
  {
  }

  lemma {:induction false} TakeAllFits(s: State, order: seq<int>, k: nat)
    requires Sound(s) && Regular(s) && FullOrder(s, order) && Fits(s, order) && k < |order| && GoneUpTo(s, order, k)
    requires AtMost(s.need[order[k]], s.available)
    ensures var t := Taken(s, order[k], s.need[order[k]]); Shaped(t) && Customers(t, order) && Fits(t, order) && Solvent(t)
  {
    hide Safe, Held, CanFinish;
    var t := Taken(s, order[k], s.need[order[k]]);
    forall i | 0 <= i < |order|
      ensures Customers(t, order[..i]) && CanFinish(t, order[..i], order[i])
    {
      TakeAllFitsAt(s, order, k, i);
    }
  }

  /** Liveness: from every sound state without a negative need some run of granted requests lets everyone
      finish and brings all resources back. */
  lemma {:induction false} AllCanFinish(s: State, order: seq<int>, k: nat) returns (commands: seq<Command>)
    requires Sound(s) && Regular(s) && FullOrder(s, order) && Fits(s, order) && k <= |order| && GoneUpTo(s, order, k)
    ensures AllGranted(s, commands) && forall i :: 0 <= i < |commands| ==> |commands[i].amount| == |s.available|
    ensures var s' := Reach(s, commands);
      && Customers(s', order) && GoneUpTo(s', order, |order|)
      && forall j :: 0 <= j < |s.available| ==> s'.available[j] == Total(s, j)
    decreases |order| - k
  {
    if k == |order| {
      commands := [];
      EveryoneFull(s);
      forall j | 0 <= j < |s.available|
        ensures s.available[j] == Total(s, j)
      {
        forall i | 0 <= i < |s.need|
          ensures s.allocation[i][j] == 0
        {
          var at := PlaceOf(order, i);
        }
        HoldsNothing(s, Everyone(|s.need|), j);
      }
    } else {
      NextFinishes(s, order, k);
      var command := Request(order[k], s.need[order[k]]);
      var rest := AllCanFinish(Serve(s, command), order, k + 1);
      commands := [command] + rest;
      assert commands[1..] == rest;
    }
  }

  lemma {:induction false} EveryoneCanFinish(s: State) returns (commands: seq<Command>)
    requires Sound(s) && Regular(s)
    ensures AllGranted(s, commands) && forall i :: 0 <= i < |commands| ==> |commands[i].amount| == |s.available|
    ensures var s' := Reach(s, commands);
      && (forall i :: 0 <= i < |s.need| ==> s'.allocation[i] == s'.need[i] == Zero(|s.available|))
      && forall j :: 0 <= j < |s.available| ==> s'.available[j] == Total(s, j)
  {
    var order :| FullOrder(s, order) && Fits(s, order);
    commands := AllCanFinish(s, order, 0);
    var s' := Reach(s, commands);
    forall i | 0 <= i < |s.need|
      ensures s'.allocation[i] == s'.need[i] == Zero(|s.available|)
    {
      var at := PlaceOf(order, i);
    }
  }

  // ----- exactly when everyone can finish

  /** Everybody is gone and holds nothing. */
  ghost predicate AllGone(s: State)
    requires Shaped(s)
  {
    forall i :: 0 <= i < |s.need| ==> s.allocation[i] == s.need[i] == Zero(|s.available|)
  }

  ghost predicate WellFormed(s: State, commands: seq<Command>) {
    forall k :: 0 <= k < |commands| ==> |commands[k].amount| == |s.available|
  }

  ghost predicate SomeRunEmpties(s: State)
    requires Shaped(s)
  {
    exists commands :: WellFormed(s, commands) && AllGone(Reach(s, commands))
  }

  /** A negative maximum stays: every request of that customer is turned away before it can finish. */
  lemma {:induction false} NegativeServe(s: State, command: Command, i: int, j: int)
    requires Shaped(s) && Solvent(s) && Promised(s) && |command.amount| == |s.available|
    requires 0 <= i < |s.need| && 0 <= j < |s.available| && s.maximum[i][j] < 0
    ensures Shaped(Serve(s, command)) && |Serve(s, command).need| == |s.need| && |Serve(s, command).available| == |s.available|
    ensures Serve(s, command).maximum[i][j] < 0
  {
    hide Safe;
    assert s.need[i][j] + s.allocation[i][j] == s.maximum[i][j];
    assert s.need[i][j] < 0 && s.need[i] != Zero(|s.available|);
  }

  lemma {:induction false} NegativeForever(s: State, commands: seq<Command>, i: int, j: int)
    requires Shaped(s) && Solvent(s) && Promised(s) && WellFormed(s, commands)
    requires 0 <= i < |s.need| && 0 <= j < |s.available| && s.maximum[i][j] < 0
    ensures !AllGone(Reach(s, commands))
    decreases |commands|
  {
    hide Safe, Held, Serve;
    if commands == [] {
      assert s.need[i][j] + s.allocation[i][j] == s.maximum[i][j];
    } else {
      ServeKeeps(s, commands[0]);
      NegativeServe(s, commands[0], i, j);
      NegativeForever(Serve(s, commands[0]), commands[1..], i, j);
    }
  }

  lemma {:induction false} ReachConcat(s: State, a: seq<Command>, b: seq<Command>)
    requires Shaped(s) && WellFormed(s, a) && WellFormed(s, b)
    ensures Reach(s, a + b) == Reach(Reach(s, a), b)
    decreases |a|
  {
    hide Serve;
    if a == [] {
      assert a + b == b;
    } else {
      assert (a + b)[0] == a[0] && (a + b)[1..] == a[1..] + b;
      ServeShape(s, a[0]);
      ReachConcat(Serve(s, a[0]), a[1..], b);
    }
  }

  lemma {:induction false} ServeShape(s: State, command: Command)
    requires Shaped(s) && |command.amount| == |s.available|
    ensures var r := Serve(s, command); Shaped(r) && |r.available| == |s.available| && |r.need| == |s.need|
  {
    hide Safe;
  }

  /** Customer `c` gives everything back and may then need all of its maximum again. */
  lemma {:induction false} GiveAllBack(s: State, c: int)
    requires Sound(s) && 0 <= c < |s.need|
    ensures var r := Serve(s, Release(c, s.allocation[c]));
      && Sound(r) && SameTotals(s, r) && r.maximum == s.maximum
      && r.allocation == s.allocation[c := Zero(|s.available|)]
  {
    hide Safe, Held;
    ServeKeeps(s, Release(c, s.allocation[c]));
    assert Plus(s.allocation[c], -1, s.allocation[c]) == Zero(|s.available|);
    assert s.maximum[c := s.maximum[c]] == s.maximum;
  }

  /** From a sound state everything can be given back. */
  lemma {:induction false} AllGiveBack(s: State, k: nat) returns (commands: seq<Command>)
    requires Sound(s) && k <= |s.need| && forall i :: 0 <= i < k ==> s.allocation[i] == Zero(|s.available|)
    ensures WellFormed(s, commands) && Sound(Reach(s, commands)) && Reach(s, commands).maximum == s.maximum
    ensures Untouched(Reach(s, commands))
    decreases |s.need| - k
  {
    hide Safe, Held, Serve, Promised, Solvent;
    if k == |s.need| {
      commands := [];
    } else {
      GiveAllBack(s, k);
      var command := Release(k, s.allocation[k]);
      var rest := AllGiveBack(Serve(s, command), k + 1);
      commands := [command] + rest;
      assert commands[1..] == rest;
    }
  }

  /** From a sound state some run lets everyone finish exactly when no maximum is negative. */
  lemma {:induction false} CanEmptyIff(s: State)
    requires Sound(s)
    ensures SomeRunEmpties(s) <==> forall i :: 0 <= i < |s.need| ==> Nonnegative(s.maximum[i])
  {
    hide Safe, Held, Serve, Reach;
    if SomeRunEmpties(s) {
      var commands :| WellFormed(s, commands) && AllGone(Reach(s, commands));
      forall i, j | 0 <= i < |s.need| && 0 <= j < |s.available|
        ensures s.maximum[i][j] >= 0
      {
        if s.maximum[i][j] < 0 { NegativeForever(s, commands, i, j); }
      }
    }
    if forall i :: 0 <= i < |s.need| ==> Nonnegative(s.maximum[i]) {
      var back := AllGiveBack(s, 0);
      var t := Reach(s, back);
      UntouchedRegular(t);
      var commands := EveryoneCanFinish(t);
      ReachConcat(s, back, commands);
      assert WellFormed(s, back + commands) && AllGone(Reach(s, back + commands));
    }
  }

  lemma {:induction false} UntouchedRegular(s: State)
    requires Shaped(s) && Promised(s) && Untouched(s) && forall i :: 0 <= i < |s.need| ==> Nonnegative(s.maximum[i])
    ensures Regular(s)
  {
    forall i, j | 0 <= i < |s.need| && 0 <= j < |s.available|
      ensures s.need[i][j] >= 0
    {
      assert s.need[i][j] + s.allocation[i][j] == s.maximum[i][j] && s.maximum[i][j] >= 0;
    }
  }

  /** From the opening some run lets everyone finish exactly when every maximum lies between nothing and what there is. */
  lemma {:induction false} OpeningCanEmptyIff(available: Vector, maximum: seq<Vector>)
    requires Nonnegative(available) && forall i :: 0 <= i < |maximum| ==> |maximum[i]| == |available|
    ensures Shaped(Opening(available, maximum))
    ensures SomeRunEmpties(Opening(available, maximum)) <==>
      forall i :: 0 <= i < |maximum| ==> Nonnegative(maximum[i]) && AtMost(maximum[i], available)
  {
    hide Safe, Held, Serve, Reach;
    var s := Opening(available, maximum);
    OpeningSound(available, maximum);
    if forall i :: 0 <= i < |maximum| ==> AtMost(maximum[i], available) {
      CanEmptyIff(s);
    } else if SomeRunEmpties(s) {
      var commands :| WellFormed(s, commands) && AllGone(Reach(s, commands));
      UnsafeOpeningStays(available, maximum, commands);
    }
  }
}

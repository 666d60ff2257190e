/** The banker's arrays: requests, releases, and the search for an order in which all customers can finish. */
module Banker {
  import opened Seqs
  import opened Safety

  ghost function Row(a: array2<int>, i: int): Vector
    requires 0 <= i < a.Length0
    reads a
  {
    seq(a.Length1, j requires 0 <= j < a.Length1 reads a => a[i, j])
  }

  ghost function Rows(a: array2<int>): seq<Vector>
    reads a
  {
    seq(a.Length0, i requires 0 <= i < a.Length0 reads a => Row(a, i))
  }

  lemma {:induction false} RowsAre(a: array2<int>, rows: seq<Vector>)
    requires |rows| == a.Length0 && forall i :: 0 <= i < |rows| ==> |rows[i]| == a.Length1
    requires forall i, j :: 0 <= i < |rows| && 0 <= j < a.Length1 ==> a[i, j] == rows[i][j]
    ensures Rows(a) == rows
  {
    forall i | 0 <= i < |rows|
      ensures Rows(a)[i] == rows[i]
    {
      assert Row(a, i) == rows[i];
    }
  }

  /** The search so far: `done` lists the finished customers in the order they were found, and `work` is
      what is available after them. */
  ghost predicate Searched(s: State, work: seq<int>, finish: seq<bool>, count: int, done: seq<int>) {
    && Shaped(s) && Customers(s, done) && Fits(s, done) && count == |done|
    && |work| == |s.available| && (forall j :: 0 <= j < |work| ==> work[j] == s.available[j] + Held(s, done, j))
    && |finish| == |s.need| && forall i :: 0 <= i < |finish| ==> (finish[i] <==> i in done)
  }

  lemma {:induction false} SearchStarts(s: State, work: seq<int>, finish: seq<bool>)
    requires Shaped(s) && work == s.available && |finish| == |s.need| && forall i :: 0 <= i < |finish| ==> !finish[i]
    ensures Searched(s, work, finish, 0, [])
  {
  }

  lemma {:induction false} Found(s: State, work: seq<int>, work': seq<int>, finish: seq<bool>, count: int, done: seq<int>, i: int)
    requires Searched(s, work, finish, count, done) && 0 <= i < |finish| && !finish[i] && CanFinish(s, done, i)
    requires |work'| == |work| && forall l :: 0 <= l < |work| ==> work'[l] == work[l] + s.allocation[i][l]
    ensures Searched(s, work', finish[i := true], count + 1, done + [i])
  {
    FitsAppend(s, done, i);
  }

  lemma {:induction false} EnoughIsCanFinish(s: State, work: seq<int>, finish: seq<bool>, count: int, done: seq<int>, i: int)
    requires Searched(s, work, finish, count, done) && 0 <= i < |finish|
    ensures Customers(s, done) && (finish[i] <==> i in done) && |work| == |s.available|
    ensures CanFinish(s, done, i) <==> forall j :: 0 <= j < |work| ==> s.need[i][j] <= work[j]
  {
  }

  lemma {:induction false} AllFound(s: State, work: seq<int>, finish: seq<bool>, count: int, done: seq<int>)
    requires Searched(s, work, finish, count, done)
    ensures count == |done| <= |s.need| && (count == |s.need| ==> Safe(s)) && Customers(s, done)
  {
    forall x | x in done
      ensures x in Everyone(|s.need|)
    {
      assert Everyone(|s.need|)[x] == x;
    }
    Pigeonhole(done, Everyone(|s.need|));
  }

  class Bank {
    const available: array<int>
    const maximum: array2<int>
    const allocation: array2<int>
    const need: array2<int>

    /** The tables belong together and share no memory. */
    ghost predicate Valid() {
      && maximum.Length0 == allocation.Length0 == need.Length0
      && maximum.Length1 == allocation.Length1 == need.Length1 == available.Length
      && maximum != allocation && maximum != need && allocation != need
    }

    ghost function Now(): (s: State)
      reads available, maximum, allocation, need
      requires Valid()
      ensures Shaped(s) && |s.available| == available.Length && |s.need| == need.Length0
    {
      State(available[..], Rows(maximum), Rows(allocation), Rows(need))
    }

    /** Nobody holds anything yet, and everybody needs its maximum. */
    constructor (available: array<int>, maximum: array2<int>)
      requires maximum.Length1 == available.Length
      ensures Valid() && this.available == available && this.maximum == maximum
      ensures fresh(allocation) && fresh(need)
      ensures Now() == Opening(available[..], Rows(maximum))
    {
      this.available, this.maximum := available, maximum;
      allocation := new int[maximum.Length0, maximum.Length1]((_, _) => 0);
      need := new int[maximum.Length0, maximum.Length1]((i, j) requires 0 <= i < maximum.Length0 && 0 <= j < maximum.Length1 reads maximum => maximum[i, j]);
      new;
      RowsAre(need, Rows(maximum));
      RowsAre(allocation, seq(maximum.Length0, _ => Zero(available.Length)));
    }

    /** Whether customer `i` needs no more of anything than `work` has. */
    method Enough(i: int, work: array<int>) returns (enough: bool)
      requires Valid() && 0 <= i < need.Length0 && work.Length == available.Length
      ensures enough <==> forall j :: 0 <= j < available.Length ==> need[i, j] <= work[j]
    {
      enough := true;
      var j := 0;
      while j < available.Length
        invariant 0 <= j <= available.Length && forall l :: 0 <= l < j ==> need[i, l] <= work[l]
      {
        if need[i, j] > work[j] { return false; }
        j := j + 1;
      }
    }

    /** Adds what customer `i` holds to `work`. */
    method TakeBack(i: int, work: array<int>)
      requires Valid() && 0 <= i < need.Length0 && work.Length == available.Length && work != available
      modifies work
      ensures forall l :: 0 <= l < work.Length ==> work[l] == old(work[l]) + allocation[i, l]
    {
      var j := 0;
      while j < available.Length
        invariant 0 <= j <= available.Length
        invariant forall l :: 0 <= l < work.Length ==> work[l] == old(work[l]) + if l < j then allocation[i, l] else 0
      {
        work[j] := work[j] + allocation[i, j];
        j := j + 1;
      }
    }

    /** One look at customer `i`: it finishes if it has not yet and can. */
    method Try(i: int, work: array<int>, finish: array<bool>, ghost count: int, ghost done: seq<int>) returns (found: bool)
      requires Valid() && 0 <= i < need.Length0 && work != available
      requires finish.Length == need.Length0 && Searched(Now(), work[..], finish[..], count, done)
      modifies work, finish
      ensures found ==> Searched(Now(), work[..], finish[..], count + 1, done + [i])
      ensures !found ==> Searched(Now(), work[..], finish[..], count, done) && Customers(Now(), done)
      ensures !found ==> i in done || !CanFinish(Now(), done, i)
    {
      hide Fits, Held, Searched;
      ghost var s, was := Now(), work[..];
      EnoughIsCanFinish(s, was, finish[..], count, done, i);
      if finish[i] { return false; }
      found := Enough(i, work);
      assert forall j :: 0 <= j < available.Length ==> s.need[i][j] == need[i, j];
      if found {
        TakeBack(i, work);
        assert forall j :: 0 <= j < available.Length ==> s.allocation[i][j] == allocation[i, j];
        Found(s, was, work[..], finish[..], count, done, i);
        finish[i] := true;
        assert finish[..] == old(finish[..])[i := true];
      }
    }

    /** Whether some order lets everyone finish: no choice of the loop ever has to be undone. */
    method CheckSafe() returns (safe: bool)
      requires Valid() && Solvent(Now())
      ensures safe <==> Safe(Now())
    {
      hide Fits, Held, Searched, CanFinish, Customers, Solvent, Safe;
      ghost var s := Now();
      var work := new int[available.Length](j requires 0 <= j < available.Length reads available => available[j]);
      var finish := new bool[need.Length0](_ => false);
      var finishCount := 0;
      ghost var done: seq<int> := [];
      assert work[..] == available[..];
      SearchStarts(s, work[..], finish[..]);
      while finishCount < need.Length0
        invariant s == Now() && Searched(s, work[..], finish[..], finishCount, done)
        decreases need.Length0 - finishCount
      {
        var found := false;
        ghost var before := finishCount;
        AllFound(s, work[..], finish[..], finishCount, done);
        var i := 0;
        while i < need.Length0
          invariant 0 <= i <= need.Length0 && s == Now() && Searched(s, work[..], finish[..], finishCount, done)
          invariant before <= finishCount && (found <==> before < finishCount)
          invariant Customers(s, done) && (!found ==> forall c :: 0 <= c < i && c !in done ==> !CanFinish(s, done, c))
        {
          var enough := Try(i, work, finish, finishCount, done);
          if enough {
            found, finishCount, done := true, finishCount + 1, done + [i];
          }
          AllFound(s, work[..], finish[..], finishCount, done);
          i := i + 1;
        }
        AllFound(s, work[..], finish[..], finishCount, done);
        if !found {
          StuckIsUnsafe(s, done);
          return false;
        }
      }
      AllFound(s, work[..], finish[..], finishCount, done);
      return true;
    }

    /** Moves `sign` times `amount` of every resource from customer `c` back to the bank. */
    method Shift(c: int, sign: int, amount: seq<int>)
      requires Valid() && 0 <= c < need.Length0 && |amount| == available.Length
      modifies available, allocation, need
      ensures Now() == Move(old(Now()), c, sign, amount, Plus(old(Now()).need[c], sign, amount), old(Now()).maximum[c])
    {
      ghost var s := Now();
      ShiftEach(c, sign, amount);
      ghost var s' := Move(s, c, sign, amount, Plus(s.need[c], sign, amount), s.maximum[c]);
      RowsAre(need, s'.need);
      RowsAre(allocation, s'.allocation);
      assert available[..] == s'.available;
    }

    method ShiftEach(c: int, sign: int, amount: seq<int>)
      requires Valid() && 0 <= c < need.Length0 && |amount| == available.Length
      modifies available, allocation, need
      ensures forall j :: 0 <= j < available.Length ==> available[j] == old(available[j]) + sign * amount[j]
      ensures forall j :: 0 <= j < available.Length ==> need[c, j] == old(need[c, j]) + sign * amount[j]
      ensures forall j :: 0 <= j < available.Length ==> allocation[c, j] == old(allocation[c, j]) - sign * amount[j]
      ensures forall x, j :: 0 <= x < need.Length0 && x != c && 0 <= j < available.Length ==> need[x, j] == old(need[x, j])
      ensures forall x, j :: 0 <= x < need.Length0 && x != c && 0 <= j < available.Length ==> allocation[x, j] == old(allocation[x, j])
    {
      var i := 0;
      while i < available.Length
        invariant 0 <= i <= available.Length
        invariant forall j :: 0 <= j < i ==> available[j] == old(available[j]) + sign * amount[j]
        invariant forall j :: 0 <= j < i ==> need[c, j] == old(need[c, j]) + sign * amount[j]
        invariant forall j :: 0 <= j < i ==> allocation[c, j] == old(allocation[c, j]) - sign * amount[j]
        invariant forall j :: i <= j < available.Length ==> available[j] == old(available[j])
        invariant forall j :: i <= j < available.Length ==> need[c, j] == old(need[c, j])
        invariant forall j :: i <= j < available.Length ==> allocation[c, j] == old(allocation[c, j])
        invariant forall x, j :: 0 <= x < need.Length0 && x != c && 0 <= j < available.Length ==> need[x, j] == old(need[x, j])
        invariant forall x, j :: 0 <= x < need.Length0 && x != c && 0 <= j < available.Length ==> allocation[x, j] == old(allocation[x, j])
      {
        var delta := sign * amount[i];
        available[i] := available[i] + delta;
        allocation[c, i] := allocation[c, i] - delta;
        need[c, i] := need[c, i] + delta;
        i := i + 1;
      }
    }

    /** Whether row `c` of the table has at least `amount` of everything. */
    method Covers(table: array2<int>, c: int, amount: seq<int>) returns (covers: bool)
      requires 0 <= c < table.Length0 && |amount| == table.Length1
      ensures covers <==> AtMost(amount, Row(table, c))
    {
      var i := 0;
      while i < |amount|
        invariant 0 <= i <= |amount| && forall j :: 0 <= j < i ==> amount[j] <= table[c, j]
      {
        if amount[i] > table[c, i] {
          assert Row(table, c)[i] == table[c, i];
          return false;
        }
        i := i + 1;
      }
      return true;
    }

    method CoveredByAvailable(amount: seq<int>) returns (covers: bool)
      requires |amount| == available.Length
      ensures covers <==> AtMost(amount, available[..])
    {
      var i := 0;
      while i < |amount|
        invariant 0 <= i <= |amount| && forall j :: 0 <= j < i ==> amount[j] <= available[j]
      {
        if amount[i] > available[i] {
          assert available[..][i] == available[i];
          return false;
        }
        i := i + 1;
      }
      return true;
    }

    /** Grants the request exactly when it exceeds neither the need nor what is available and leaves the
        bank safe; otherwise nothing changes. */
    method RequestResources(c: int, request: seq<int>) returns (granted: bool)
      requires Valid() && Solvent(Now()) && 0 <= c < need.Length0 && |request| == available.Length && Nonnegative(request)
      modifies available, allocation, need
      ensures granted <==> Grantable(old(Now()), c, request)
      ensures Now() == if granted then Taken(old(Now()), c, request) else old(Now())
    {
      hide Safe;
      ghost var s := Now();
      assert s.need[c] == Row(need, c);
      var withinNeed := Covers(need, c, request);
      if !withinNeed { return false; }
      var withinAvailable := CoveredByAvailable(request);
      if !withinAvailable { return false; }
      Shift(c, -1, request);
      TakenSolvent(s, c, request);
      granted := CheckSafe();
      if !granted {
        Shift(c, 1, request);
        TakenBack(s, c, request);
      }
    }

    /** Takes back part of what a customer holds. */
    method ReleaseResources(c: int, release: seq<int>) returns (released: bool)
      requires Valid() && 0 <= c < need.Length0 && |release| == available.Length
      modifies available, allocation, need
      ensures released <==> AtMost(release, old(Now()).allocation[c])
      ensures Now() == if released then Returned(old(Now()), c, release) else old(Now())
    {
      assert Now().allocation[c] == Row(allocation, c);
      released := Covers(allocation, c, release);
      if released { Shift(c, 1, release); }
    }

    /** A customer that needs nothing more returns everything. */
    method CheckFinish(c: int)
      requires Valid() && 0 <= c < need.Length0
      modifies available, allocation, need, maximum
      ensures Now() == Finished(old(Now()), c)
    {
      ghost var s := Now();
      var i := 0;
      while i < available.Length
        invariant 0 <= i <= available.Length && forall j :: 0 <= j < i ==> need[c, j] == 0
      {
        if need[c, i] != 0 {
          assert s.need[c][i] == need[c, i];
          return;
        }
        i := i + 1;
      }
      assert s.need[c] == Zero(available.Length);
      ReturnEverything(c);
    }

    method ReturnEverything(c: int)
      requires Valid() && 0 <= c < need.Length0
      modifies available, allocation, need, maximum
      ensures Now() == Move(old(Now()), c, 1, old(Now()).allocation[c], Zero(available.Length), Zero(available.Length))
    {
      ghost var s := Now();
      ReturnEach(c);
      ghost var zero := Zero(available.Length);
      ghost var s' := Move(s, c, 1, s.allocation[c], zero, zero);
      RowsAre(need, s'.need);
      RowsAre(maximum, s'.maximum);
      RowsAre(allocation, s'.allocation);
      assert available[..] == s'.available;
    }

    /** Goes through the resources and returns what the customer has of each. */
    method ReturnEach(c: int)
      requires Valid() && 0 <= c < need.Length0
      modifies available, allocation, need, maximum
      ensures forall j :: 0 <= j < available.Length ==>
        available[j] == old(available[j] + allocation[c, j]) && need[c, j] == 0 && maximum[c, j] == 0 && allocation[c, j] == 0
      ensures forall x, j :: 0 <= x < need.Length0 && x != c && 0 <= j < available.Length ==> need[x, j] == old(need[x, j])
      ensures forall x, j :: 0 <= x < need.Length0 && x != c && 0 <= j < available.Length ==> maximum[x, j] == old(maximum[x, j])
      ensures forall x, j :: 0 <= x < need.Length0 && x != c && 0 <= j < available.Length ==> allocation[x, j] == old(allocation[x, j])
    {
      var i := 0;
      while i < available.Length
        invariant 0 <= i <= available.Length
        invariant forall j :: 0 <= j < available.Length ==>
          available[j] == if j < i then old(available[j] + allocation[c, j]) else old(available[j])
        invariant forall j :: 0 <= j < i ==> need[c, j] == 0 && maximum[c, j] == 0 && allocation[c, j] == 0
        invariant forall j :: i <= j < available.Length ==> allocation[c, j] == old(allocation[c, j])
        invariant forall x, j :: 0 <= x < need.Length0 && x != c && 0 <= j < available.Length ==> need[x, j] == old(need[x, j])
        invariant forall x, j :: 0 <= x < need.Length0 && x != c && 0 <= j < available.Length ==> maximum[x, j] == old(maximum[x, j])
        invariant forall x, j :: 0 <= x < need.Length0 && x != c && 0 <= j < available.Length ==> allocation[x, j] == old(allocation[x, j])
      {
        available[i] := available[i] + allocation[c, i];
        allocation[c, i] := 0;
        need[c, i] := 0;
        maximum[c, i] := 0;
        i := i + 1;
      }
    }

    /** One command line: what the prompt rejects changes nothing, and every request that reaches the bank,
        granted or denied, is followed by the check for a finished customer. */
    method Execute(command: Command)
      requires Valid() && Solvent(Now()) && |command.amount| == available.Length
      modifies available, allocation, need, maximum
      ensures Now() == Serve(old(Now()), command)
    {
      hide Safe, Solvent, Held, Taken, Returned, Finished;
      ghost var s := Now();
      var c, amount := command.customer, command.amount;
      if !(0 <= c < need.Length0) { return; }
      var valid := IsNonnegative(amount);
      if !valid { return; }
      match command {
        case Request(_, _) =>
          assert s.need[c] == Row(need, c);
          var withinNeed := Covers(need, c, amount);
          if !withinNeed { return; }
          var granted := RequestResources(c, amount);
          CheckFinish(c);
        case Release(_, _) =>
          var released := ReleaseResources(c, amount);
      }
    }

    method IsNonnegative(amount: seq<int>) returns (nonnegative: bool)
      ensures nonnegative <==> Nonnegative(amount)
    {
      var i := 0;
      while i < |amount|
        invariant 0 <= i <= |amount| && forall j :: 0 <= j < i ==> amount[j] >= 0
      {
        if amount[i] < 0 { return false; }
        i := i + 1;
      }
      return true;
    }

    /** Any run of commands is the run of the machine; it keeps the totals, and a sound bank sound. */
    method Run(commands: seq<Command>)
      requires Valid() && Solvent(Now()) && forall k :: 0 <= k < |commands| ==> |commands[k].amount| == available.Length
      modifies available, allocation, need, maximum
      ensures Now() == Reach(old(Now()), commands) && Keeps(old(Now()), Now())
    {
      hide Safe, Solvent, Promised, Regular, Held, Serve, SameTotals;
      ghost var s := Now();
      var k := 0;
      ReachKeeps(s, []);
      while k < |commands|
        invariant 0 <= k <= |commands| && Now() == Reach(s, commands[..k]) && Keeps(s, Now())
      {
        assert commands[..k + 1] == commands[..k] + [commands[k]];
        ReachAppend(s, commands[..k], commands[k]);
        ReachKeeps(s, commands[..k + 1]);
        Execute(commands[k]);
        k := k + 1;
      }
      assert commands[..k] == commands;
    }
  }

  /** A session: negative amounts available are turned away; otherwise the bank opens and serves the commands. */
  method Session(available: array<int>, maximum: array2<int>, commands: seq<Command>) returns (bank: Bank?)
    requires maximum.Length1 == available.Length && forall k :: 0 <= k < |commands| ==> |commands[k].amount| == available.Length
    modifies available, maximum
    ensures bank == null <==> !Nonnegative(old(available[..]))
    ensures bank != null ==> bank.Valid() && bank.available == available && bank.maximum == maximum
    ensures bank != null ==> var s := Opening(old(available[..]), old(Rows(maximum)));
      && Shaped(s) && bank.Now() == Reach(s, commands) && Keeps(s, bank.Now())
      && (Sound(bank.Now()) <==> forall i :: 0 <= i < |s.maximum| ==> AtMost(s.maximum[i], s.available))
      && (!Sound(bank.Now()) ==> bank.Now() == s)
  {
    hide Safe, Held, Serve, Reach, Solvent, SameTotals;
    ghost var a, m := available[..], Rows(maximum);
    var i := 0;
    while i < available.Length
      invariant 0 <= i <= available.Length && forall j :: 0 <= j < i ==> available[j] >= 0
    {
      if available[i] < 0 {
        assert a[i] < 0;
        return null;
      }
      i := i + 1;
    }
    bank := new Bank(available, maximum);
    OpeningSound(a, m);
    bank.Run(commands);
    if exists i :: 0 <= i < |m| && !AtMost(m[i], a) {
      UnsafeOpeningStays(a, m, commands);
    }
  }

  lemma {:induction false} TakenSolvent(s: State, c: int, amount: seq<int>)
    requires Shaped(s) && Solvent(s) && 0 <= c < |s.need| && |amount| == |s.available| && Nonnegative(amount)
    requires AtMost(amount, s.need[c]) && AtMost(amount, s.available)
    ensures Shaped(Taken(s, c, amount)) && Solvent(Taken(s, c, amount))
  {
  }
}

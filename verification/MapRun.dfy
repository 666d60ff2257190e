/** Whole runs of the ordered map: it answers like a mathematical map. */
module MapRun {
  import opened RbTree
  import opened RbOrder
  import RbMap

  datatype Request = Insert(key: int, value: int) | Erase(key: int) | Find(key: int)
  datatype Answer = Inserted(added: bool) | Erased(found: bool) | Found(value: int) | Missing

  /** What a request does to a mathematical map, and the answer: an insertion never changes a value, and erasing
      a key that is not there is an error that changes nothing. */
  function Serve(m: map<int, int>, request: Request): (map<int, int>, Answer) {
    match request
    case Insert(key, value) => if key in m then (m, Inserted(false)) else (m[key := value], Inserted(true))
    case Erase(key) => (m - {key}, Erased(key in m))
    case Find(key) => (m, if key in m then Found(m[key]) else Missing)
  }

  function ServeAll(requests: seq<Request>): (map<int, int>, seq<Answer>) {
    if requests == [] then (map[], [])
    else
      var (m, answers) := ServeAll(requests[..|requests| - 1]);
      var (m', answer) := Serve(m, requests[|requests| - 1]);
      (m', answers + [answer])
  }

  // ----- what the requests alone say about the answers

  predicate Inserts(request: Request, key: int) { request.Insert? && request.key == key }

  predicate Erases(request: Request, key: int) { request.Erase? && request.key == key }

  ghost predicate ErasedBetween(requests: seq<Request>, key: int, i: int, n: int)
    requires 0 <= i && n <= |requests|
  {
    exists k :: i < k < n && Erases(requests[k], key)
  }

  /** Request `i` is the first insertion of the key since it was last erased. */
  ghost predicate Standing(requests: seq<Request>, key: int, i: int) {
    && 0 <= i < |requests| && Inserts(requests[i], key) && !ErasedBetween(requests, key, i, |requests|)
    && forall j :: 0 <= j < i && Inserts(requests[j], key) ==> ErasedBetween(requests, key, j, i)
  }

  /** An insertion that was not erased: there is a first one. */
  lemma {:induction false} SomeStanding(requests: seq<Request>, key: int, i: nat) returns (first: nat)
    requires i < |requests| && Inserts(requests[i], key) && !ErasedBetween(requests, key, i, |requests|)
    ensures Standing(requests, key, first)
    decreases i
  {
    if Standing(requests, key, i) {
      first := i;
    } else {
      var j :| 0 <= j < i && Inserts(requests[j], key) && !ErasedBetween(requests, key, j, i);
      forall k | j < k < |requests|
        ensures !Erases(requests[k], key)
      {
      }
      first := SomeStanding(requests, key, j);
    }
  }

  lemma {:induction false} StandingNext(requests: seq<Request>, request: Request, key: int, i: nat)
    requires i < |requests|
    ensures Standing(requests + [request], key, i) <==> Standing(requests, key, i) && !Erases(request, key)
  {
    var more, n := requests + [request], |requests|;
    assert forall k :: 0 <= k < n ==> more[k] == requests[k];
    assert more[n] == request;
    forall j: nat, m | j < m <= n
      ensures ErasedBetween(more, key, j, m) <==> ErasedBetween(requests, key, j, m)
    {
      if ErasedBetween(more, key, j, m) {
        var k :| j < k < m && Erases(more[k], key);
        assert Erases(requests[k], key);
      }
      if ErasedBetween(requests, key, j, m) {
        var k :| j < k < m && Erases(requests[k], key);
        assert Erases(more[k], key);
      }
    }
    if ErasedBetween(requests, key, i, n) {
      var k :| i < k < n && Erases(requests[k], key);
      assert Erases(more[k], key);
    }
  }

  /** A new insertion stands exactly when nothing stood. */
  lemma {:induction false} StandingLast(requests: seq<Request>, request: Request, key: int)
    ensures Standing(requests + [request], key, |requests|) <==> Inserts(request, key) && forall i :: !Standing(requests, key, i)
  {
    var more, n := requests + [request], |requests|;
    assert more[n] == request && !ErasedBetween(more, key, n, n + 1);
    forall j: nat | j < n
      ensures ErasedBetween(more, key, j, n) <==> ErasedBetween(requests, key, j, n)
    {
      if ErasedBetween(more, key, j, n) {
        var k :| j < k < n && Erases(more[k], key);
        assert Erases(requests[k], key);
      }
      if ErasedBetween(requests, key, j, n) {
        var k :| j < k < n && Erases(requests[k], key);
        assert Erases(more[k], key);
      }
    }
    if Inserts(request, key) && !Standing(more, key, n) {
      var j :| 0 <= j < n && Inserts(more[j], key) && !ErasedBetween(more, key, j, n);
      var i := SomeStanding(requests, key, j);
    }
    if i :| Standing(requests, key, i) { assert Inserts(more[i], key) && !ErasedBetween(more, key, i, n); }
  }

  /** What stands after one more request. */
  lemma {:induction false} StandingMore(requests: seq<Request>, request: Request, key: int)
    ensures forall i :: Standing(requests + [request], key, i) <==>
      || (0 <= i < |requests| && Standing(requests, key, i) && !Erases(request, key))
      || (i == |requests| && Inserts(request, key) && NothingStands(requests, key))
  {
    hide Standing;
    forall i
      ensures Standing(requests + [request], key, i) <==>
        || (0 <= i < |requests| && Standing(requests, key, i) && !Erases(request, key))
        || (i == |requests| && Inserts(request, key) && NothingStands(requests, key))
    {
      StandingInside(requests + [request], key, i);
      if 0 <= i < |requests| { StandingNext(requests, request, key, i); }
      StandingLast(requests, request, key);
    }
  }

  ghost predicate NothingStands(requests: seq<Request>, key: int) {
    forall i :: !Standing(requests, key, i)
  }

  /** The map says of the key what stands. */
  ghost predicate Remembers(m: map<int, int>, requests: seq<Request>, key: int) {
    && (key in m <==> !NothingStands(requests, key))
    && forall i :: Standing(requests, key, i) ==> key in m && 0 <= i < |requests| && requests[i].Insert? && m[key] == requests[i].value
  }

  lemma {:induction false} StandingInside(requests: seq<Request>, key: int, i: int)
    ensures Standing(requests, key, i) ==> 0 <= i < |requests| && Inserts(requests[i], key)
  {
  }

  lemma {:induction false} RememberedNext(m: map<int, int>, requests: seq<Request>, request: Request, key: int)
    requires Remembers(m, requests, key)
    ensures Remembers(Serve(m, request).0, requests + [request], key)
  {
    hide Standing;
    var more, m' := requests + [request], Serve(m, request).0;
    StandingMore(requests, request, key);
    KeyServed(m, request, key);
    forall i | Standing(more, key, i)
      ensures key in m' && 0 <= i < |more| && more[i].Insert? && m'[key] == more[i].value
    {
    }
    if Inserts(request, key) && NothingStands(requests, key) {
      assert Standing(more, key, |requests|);
    } else if !Erases(request, key) && !NothingStands(requests, key) {
      var i :| Standing(requests, key, i);
      assert Standing(more, key, i);
    }
  }

  lemma {:induction false} KeyServed(m: map<int, int>, request: Request, key: int)
    ensures var m' := Serve(m, request).0;
      && (key in m' <==> Inserts(request, key) || (key in m && !Erases(request, key)))
      && (key in m' ==> m'[key] == if key in m then m[key] else request.value)
  {
  }

  lemma {:induction false} NothingRemembered(key: int)
    ensures Remembers(map[], [], key)
  {
  }

  lemma {:induction false} EveryKey(requests: seq<Request>, key: int)
    ensures Remembers(ServeAll(requests).0, requests, key)
  {
    hide Serve, Remembers;
    if requests == [] {
      NothingRemembered(key);
    } else {
      var before, request := requests[..|requests| - 1], requests[|requests| - 1];
      assert requests == before + [request];
      EveryKey(before, key);
      RememberedNext(ServeAll(before).0, before, request, key);
    }
  }

  /** After any requests a key is there exactly when some insertion of it has not been erased since, with the value of
      the first such insertion. */
  lemma {:induction false} Remembered(requests: seq<Request>, key: int)
    ensures var m := ServeAll(requests).0;
      && (key in m <==> exists i :: Standing(requests, key, i))
      && forall i :: Standing(requests, key, i) ==> key in m && 0 <= i < |requests| && requests[i].Insert? && m[key] == requests[i].value
  {
    hide Standing;
    EveryKey(requests, key);
  }

  lemma {:induction false} AnswersKept(requests: seq<Request>, n: nat)
    requires n <= |requests|
    ensures |ServeAll(requests).1| == |requests| && ServeAll(requests).1[..n] == ServeAll(requests[..n]).1
    decreases |requests|
  {
    if n == |requests| {
      assert requests[..n] == requests;
      if n > 0 { AnswersKept(requests[..n - 1], n - 1); }
    } else {
      var before := requests[..|requests| - 1];
      AnswersKept(before, n);
      assert before[..n] == requests[..n];
    }
  }

  /** The answer to a request: whether the key stands just before it, and the value it stands with. */
  lemma {:induction false} AnswerAt(requests: seq<Request>, k: nat)
    requires k < |requests|
    ensures |ServeAll(requests).1| == |requests|
    ensures var before, answer := requests[..k], ServeAll(requests).1[k]; var key := requests[k].key;
      match requests[k]
      case Insert(_, _) => answer == Inserted(forall i :: !Standing(before, key, i))
      case Erase(_) => answer == Erased(exists i :: Standing(before, key, i))
      case Find(_) => (answer == Missing <==> forall i :: !Standing(before, key, i))
                      && forall i :: Standing(before, key, i) ==> answer == Found(before[i].value)
  {
    hide Standing;
    AnswersKept(requests, k + 1);
    AnswersKept(requests[..k + 1], k + 1);
    AnswersKept(requests[..k], k);
    assert requests[..k + 1][..k] == requests[..k];
    assert ServeAll(requests).1[k] == ServeAll(requests[..k + 1]).1[k];
    Remembered(requests[..k], requests[k].key);
  }

  /** The nodes carry exactly the pairs of the mathematical map. */
  ghost predicate Carries(s: seq<Node>, m: map<int, int>) {
    && (forall i :: 0 <= i < |s| ==> s[i].key in m && m[s[i].key] == s[i].value)
    && forall k :: k in m ==> exists i :: 0 <= i < |s| && s[i].key == k
  }

  lemma {:induction false} CarriesKey(s: seq<Node>, m: map<int, int>, key: int)
    requires Carries(s, m)
    ensures key in m <==> exists n :: n in s && n.key == key
    ensures forall n :: n in s && n.key == key ==> key in m && m[key] == n.value
  {
    if key in m {
      var i :| 0 <= i < |s| && s[i].key == key;
      assert s[i] in s;
    }
  }

  lemma {:induction false} CarriesInsert(s: seq<Node>, m: map<int, int>, i: nat, n: Node)
    requires Carries(s, m) && i <= |s| && n.key !in m
    ensures Carries(s[..i] + [n] + s[i..], m[n.key := n.value])
  {
    var s' := s[..i] + [n] + s[i..];
    assert s'[i] == n;
    forall k | k in m ensures exists j :: 0 <= j < |s'| && s'[j].key == k {
      var j :| 0 <= j < |s| && s[j].key == k;
      assert s'[if j < i then j else j + 1] == s[j];
    }
  }

  /** Without element `i` the others keep their places, and their keys differ from its key. */
  lemma {:induction false} OthersAt(s: seq<Node>, i: nat, j: nat)
    requires Sorted(s) && i < |s| && j < |s| - 1
    ensures (s[..i] + s[i + 1..])[j] == s[if j < i then j else j + 1] && (s[..i] + s[i + 1..])[j].key != s[i].key
  {
    assert j < i ==> s[j].key < s[i].key;
    assert j >= i ==> s[i].key < s[j + 1].key;
  }

  lemma {:induction false} CarriesErase(s: seq<Node>, m: map<int, int>, i: nat)
    requires Carries(s, m) && Sorted(s) && i < |s|
    ensures Carries(s[..i] + s[i + 1..], m - {s[i].key})
  {
    hide Sorted;
    var s' := s[..i] + s[i + 1..];
    forall j | 0 <= j < |s'| ensures s'[j].key in m - {s[i].key} && (m - {s[i].key})[s'[j].key] == s'[j].value {
      OthersAt(s, i, j);
    }
    forall k | k in m - {s[i].key} ensures exists j :: 0 <= j < |s'| && s'[j].key == k {
      var j :| 0 <= j < |s| && s[j].key == k;
      OthersAt(s, i, if j < i then j else j - 1);
    }
  }

  lemma {:induction false} NothingCarried()
    ensures Carries([], map[])
  {
  }

  /** One request to the red-black tree. */
  method Answered(table: RbMap.Map, request: Request, ghost m: map<int, int>) returns (answer: Answer)
    requires table.Valid() && Carries(table.Listing(), m)
    modifies table, table.nodes
    ensures table.Valid() && Carries(table.Listing(), Serve(m, request).0) && answer == Serve(m, request).1
    ensures fresh(table.nodes - old(table.nodes))
  {
    hide Carries, RbMap.Map.Valid;
    ghost var s := table.Listing();
    CarriesKey(s, m, request.key);
    match request {
      case Insert(key, value) =>
        var pos, added, i := table.Insert(key, value);
        if added { CarriesInsert(s, m, i, pos); }
        answer := Inserted(added);
      case Erase(key) =>
        var pos := table.Find(key);
        ghost var i: nat := 0;
        if pos != table.head { i :| i < |s| && s[i] == pos; }
        table.SortedListing();
        var ok := table.Erase(pos, table, i);
        if ok { CarriesErase(s, m, i); } else { assert m - {key} == m; }
        answer := Erased(ok);
      case Find(key) =>
        var found, value := table.At(key);
        answer := if found then Found(value) else Missing;
    }
  }

  /** Every run of requests is answered as by the mathematical map. */
  method Run(requests: seq<Request>) returns (answers: seq<Answer>)
    ensures answers == ServeAll(requests).1
  {
    hide Carries, RbMap.Map.Valid;
    var table := new RbMap.Map();
    answers := [];
    NothingCarried();
    var k := 0;
    while k < |requests|
      invariant 0 <= k <= |requests| && table.Valid() && fresh(table) && fresh(table.nodes)
      invariant Carries(table.Listing(), ServeAll(requests[..k]).0) && answers == ServeAll(requests[..k]).1
    {
      assert requests[..k + 1][..k] == requests[..k];
      var answer := Answered(table, requests[k], ServeAll(requests[..k]).0);
      answers := answers + [answer];
      k := k + 1;
    }
    assert requests[..|requests|] == requests;
  }
}

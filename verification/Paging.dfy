/** The paging policy of the virtual memory as a state machine on page numbers: which pages are
    resident, which are in the TLB, in what order, and the four counters. */
module Paging {
  import opened Seqs

  /** `cache` and `tlb` list pages from least to most recently moved to the back of their list. */
  datatype State = State(cache: seq<int>, tlb: seq<int>, hits: nat, misses: nat, faults: nat, accesses: nat)

  const INITIAL := State([], [], 0, 0, 0, 0)

  function TlbAdd(tlb: seq<int>, slots: nat, page: int): seq<int>
    requires slots > 0
  {
    (if |tlb| == slots then tlb[1..] else tlb) + [page]
  }

  /** One address translation. A TLB hit never reaches the page cache, so it leaves the page cache's
      order alone; an eviction also drops the victim from the TLB. */
  function Access(s: State, frames: nat, slots: nat, page: int): State
    requires frames > 0 && slots > 0
  {
    var s := s.(accesses := s.accesses + 1);
    if page in s.tlb then
      s.(tlb := Without(s.tlb, page) + [page], hits := s.hits + 1)
    else if page in s.cache then
      s.(cache := Without(s.cache, page) + [page], tlb := TlbAdd(s.tlb, slots, page), misses := s.misses + 1)
    else
      var (cache, tlb) :=
        if |s.cache| == frames then (s.cache[1..], Without(s.tlb, s.cache[0])) else (s.cache, s.tlb);
      s.(cache := cache + [page], tlb := TlbAdd(tlb, slots, page), misses := s.misses + 1, faults := s.faults + 1)
  }

  function Run(frames: nat, slots: nat, trace: seq<int>): State
    requires frames > 0 && slots > 0
  {
    if trace == [] then INITIAL
    else Access(Run(frames, slots, trace[..|trace| - 1]), frames, slots, trace[|trace| - 1])
  }

  /** The pages of `pages` that occur in `trace`, ordered by their last occurrence. */
  ghost function ByLastAccess(trace: seq<int>, pages: set<int>): seq<int> {
    if trace == [] then []
    else
      var p, before := trace[|trace| - 1], trace[..|trace| - 1];
      if p in pages then ByLastAccess(before, pages - {p}) + [p] else ByLastAccess(before, pages)
  }

  /** The accesses of `trace` that the TLB did not answer. */
  function Misses(frames: nat, slots: nat, trace: seq<int>): seq<int>
    requires frames > 0 && slots > 0
  {
    if trace == [] then []
    else
      var p, before := trace[|trace| - 1], trace[..|trace| - 1];
      Misses(frames, slots, before) + if p in Run(frames, slots, before).tlb then [] else [p]
  }

  /** The accesses of `trace` to pages that were not resident. */
  function Faults(frames: nat, slots: nat, trace: seq<int>): seq<int>
    requires frames > 0 && slots > 0
  {
    if trace == [] then []
    else
      var p, before := trace[|trace| - 1], trace[..|trace| - 1];
      Faults(frames, slots, before) + if p in Run(frames, slots, before).cache then [] else [p]
  }

  lemma {:induction false} ByLastAccessElements(trace: seq<int>, pages: set<int>)
    ensures forall p :: p in ByLastAccess(trace, pages) <==> p in pages && p in trace
    ensures Distinct(ByLastAccess(trace, pages))
  {
    if trace != [] {
      var p, before := trace[|trace| - 1], trace[..|trace| - 1];
      assert trace == before + [p];
      ByLastAccessElements(before, pages - {p});
      ByLastAccessElements(before, pages);
    }
  }

  lemma {:induction false} ByLastAccessWithout(trace: seq<int>, pages: set<int>, x: int)
    ensures ByLastAccess(trace, pages - {x}) == Without(ByLastAccess(trace, pages), x)
  {
    if trace != [] {
      var p, before := trace[|trace| - 1], trace[..|trace| - 1];
      if p !in pages {
        ByLastAccessWithout(before, pages, x);
      } else {
        var older := ByLastAccess(before, pages - {p});
        WithoutConcat(older, [p], x);
        ByLastAccessElements(before, pages - {p});
        if p == x {
          assert pages - {p} == pages - {x};
        } else {
          ByLastAccessWithout(before, pages - {p}, x);
          assert pages - {p} - {x} == pages - {x} - {p};
          if x !in older { WithoutAbsent(older, x); }
        }
      }
    }
  }

  /** Appending one access of `p` to the trace moves `p` to the back of the recency order. */
  lemma {:induction false} ByLastAccessAppend(trace: seq<int>, pages: set<int>, p: int)
    ensures ByLastAccess(trace + [p], pages + {p}) == Without(ByLastAccess(trace, pages), p) + [p]
  {
    assert (trace + [p])[..|trace|] == trace;
    assert pages + {p} - {p} == pages - {p};
    ByLastAccessWithout(trace, pages, p);
  }

  /** Cuts `a` into what the last `n` leave out and the last `n`. */
  lemma {:induction false} Cut(a: seq<int>, n: nat) returns (older: seq<int>, recent: seq<int>)
    ensures a == older + recent && recent == LastN(a, n)
    ensures |recent| == n || (older == [] && |recent| < n)
  {
    var k := if |a| <= n then 0 else |a| - n;
    older, recent := a[..k], a[k..];
  }

  /** A new last access keeps the last `n` in step with the TLB rule, for a page in it or not. */
  lemma {:induction false} LastNAppend(older: seq<int>, recent: seq<int>, n: nat, p: int)
    requires n > 0 && (|recent| == n || (older == [] && |recent| < n))
    ensures LastN(older + recent + [p], n) == TlbAdd(recent, n, p)
  {
    if |recent| == n {
      assert older + recent + [p] == (older + recent[..1]) + (recent[1..] + [p]);
      LastNSplit(older + recent[..1], recent[1..] + [p], n);
    }
  }

  /** `p` in the last `n`: both orders move it to the back. */
  lemma {:induction false} LastNTouch(a: seq<int>, n: nat, p: int)
    requires Distinct(a) && n > 0 && p in LastN(a, n)
    ensures LastN(Without(a, p) + [p], n) == Without(LastN(a, n), p) + [p]
  {
    hide Without, LastN;
    var older, recent := Cut(a, n);
    NotOlder(a, older, recent, p);
    WithoutConcat(older, recent, p);
    RecentDistinct(a, older, recent);
    WithoutDistinct(recent, p);
    assert Without(a, p) + [p] == older + (Without(recent, p) + [p]);
    LastNSplit(older, Without(recent, p) + [p], n);
  }

  lemma {:induction false} NotOlder(a: seq<int>, older: seq<int>, recent: seq<int>, p: int)
    requires Distinct(a) && a == older + recent && p in recent
    ensures p !in older
  {
    var j :| 0 <= j < |recent| && recent[j] == p;
    assert a[|older| + j] == p;
    assert forall i :: 0 <= i < |older| ==> older[i] == a[i];
  }

  lemma {:induction false} RecentDistinct(a: seq<int>, older: seq<int>, recent: seq<int>)
    requires Distinct(a) && a == older + recent
    ensures Distinct(older) && Distinct(recent)
  {
    forall i, j | 0 <= i < j < |recent| ensures recent[i] != recent[j] {
      assert a[|older| + i] != a[|older| + j];
    }
    forall i, j | 0 <= i < j < |older| ensures older[i] != older[j] {
      assert a[i] != a[j];
    }
  }

  /** `p` resident but not among the last `n`: the TLB drops its oldest page for it. */
  lemma {:induction false} LastNPromote(a: seq<int>, n: nat, p: int)
    requires Distinct(a) && n > 0 && p !in LastN(a, n)
    ensures LastN(Without(a, p) + [p], n) == TlbAdd(LastN(a, n), n, p)
  {
    var older, recent := Cut(a, n);
    if p in older {
      WithoutConcat(older, recent, p);
      LastNAppend(Without(older, p), recent, n, p);
    } else {
      WithoutAbsent(a, p);
      LastNAppend(older, recent, n, p);
    }
  }

  /** Evicting `v`, then inserting the absent page `p`. */
  lemma {:induction false} LastNEvict(a: seq<int>, n: nat, v: int, p: int)
    requires Distinct(a) && n > 0 && v in a
    ensures LastN(Without(a, v) + [p], n) == TlbAdd(Without(LastN(a, n), v), n, p)
  {
    if v in LastN(a, n) {
      LastNTouch(a, n, v);
      LastNReplaceLast(Without(a, v), Without(LastN(a, n), v), n, v, p);
      LastNDistinct(a, n);
      WithoutDistinct(LastN(a, n), v);
    } else {
      var older, recent := Cut(a, n);
      WithoutConcat(older, recent, v);
      WithoutAbsent(recent, v);
      LastNAppend(Without(older, v), recent, n, p);
    }
  }

  lemma {:induction false} LastNReplaceLast(a: seq<int>, r: seq<int>, n: nat, v: int, p: int)
    requires n > 0 && LastN(a + [v], n) == r + [v]
    ensures LastN(a + [p], n) == r + [p]
  {
    var k := if |a| + 1 <= n then 0 else |a| + 1 - n;
    assert (a + [v])[k..] == a[k..] + [v] && (a + [p])[k..] == a[k..] + [p];
    assert (r + [v])[..|r|] == r && (a[k..] + [v])[..|a| - k] == a[k..];
  }

  lemma {:induction false} LastNDistinct(a: seq<int>, n: nat)
    requires Distinct(a)
    ensures Distinct(LastN(a, n)) && |LastN(a, n)| <= n
  {
    var older, recent := Cut(a, n);
    RecentDistinct(a, older, recent);
  }

  /** What every reachable paging state satisfies, whatever the trace. */
  ghost predicate Coherent(s: State, frames: nat, slots: nat, trace: seq<int>, misses: seq<int>, faults: seq<int>) {
    && Distinct(s.cache) && |s.cache| <= frames
    && (forall p :: p in s.cache ==> p in trace && p in misses)
    && s.tlb == LastN(ByLastAccess(trace, Elements(s.cache)), slots)
    && s.cache == ByLastAccess(misses, Elements(s.cache))
    && s.hits + s.misses == s.accesses == |trace|
    && s.misses == |misses|
    && s.faults == |faults| <= s.misses
  }

  lemma {:induction false} CoherentHit(s: State, frames: nat, slots: nat, trace: seq<int>, misses: seq<int>, faults: seq<int>, p: int)
    requires frames > 0 && slots > 0 && Coherent(s, frames, slots, trace, misses, faults)
    requires p in s.tlb
    ensures Coherent(Access(s, frames, slots, p), frames, slots, trace + [p], misses, faults)
  {
    var a := ByLastAccess(trace, Elements(s.cache));
    ByLastAccessElements(trace, Elements(s.cache));
    LastNTouch(a, slots, p);
    ByLastAccessAppend(trace, Elements(s.cache), p);
    assert Elements(s.cache) + {p} == Elements(s.cache);
  }

  lemma {:induction false} CoherentCached(s: State, frames: nat, slots: nat, trace: seq<int>, misses: seq<int>, faults: seq<int>, p: int)
    requires frames > 0 && slots > 0 && Coherent(s, frames, slots, trace, misses, faults)
    requires p !in s.tlb && p in s.cache
    ensures Coherent(Access(s, frames, slots, p), frames, slots, trace + [p], misses + [p], faults)
  {
    hide ByLastAccess, LastN;
    var s' := Access(s, frames, slots, p);
    var pages := Elements(s.cache);
    ByLastAccessElements(trace, pages);
    LastNPromote(ByLastAccess(trace, pages), slots, p);
    ByLastAccessAppend(trace, pages, p);
    ByLastAccessAppend(misses, pages, p);
    WithoutDistinct(s.cache, p);
    assert Elements(s'.cache) == pages && pages + {p} == pages;
  }

  lemma {:induction false} CoherentFault(s: State, frames: nat, slots: nat, trace: seq<int>, misses: seq<int>, faults: seq<int>, p: int)
    requires frames > 0 && slots > 0 && Coherent(s, frames, slots, trace, misses, faults)
    requires p !in s.tlb && p !in s.cache
    ensures Coherent(Access(s, frames, slots, p), frames, slots, trace + [p], misses + [p], faults + [p])
  {
    hide ByLastAccess, LastN;
    var s' := Access(s, frames, slots, p);
    var pages := Elements(s.cache);
    ByLastAccessElements(trace, pages);
    if |s.cache| == frames {
      CoherentEvict(s, frames, slots, trace, misses, faults, p);
    } else {
      ByLastAccessAppend(trace, pages, p);
      ByLastAccessAppend(misses, pages, p);
      LastNPromote(ByLastAccess(trace, pages), slots, p);
      WithoutAbsent(s.cache, p);
      assert Elements(s'.cache) == pages + {p};
    }
  }

  /** A fault with all frames taken: the oldest miss goes. */
  lemma {:induction false} CoherentEvict(s: State, frames: nat, slots: nat, trace: seq<int>, misses: seq<int>, faults: seq<int>, p: int)
    requires frames > 0 && slots > 0 && Coherent(s, frames, slots, trace, misses, faults)
    requires p !in s.tlb && p !in s.cache && |s.cache| == frames
    ensures Coherent(Access(s, frames, slots, p), frames, slots, trace + [p], misses + [p], faults + [p])
  {
    hide ByLastAccess, LastN;
    var s' := Access(s, frames, slots, p);
    var pages, v := Elements(s.cache), s.cache[0];
    var a, kept := ByLastAccess(trace, pages), pages - {v};
    ByLastAccessElements(trace, pages);
    assert Elements(s.cache[1..]) == kept;
    ByLastAccessWithout(trace, pages, v);
    ByLastAccessWithout(misses, pages, v);
    ByLastAccessAppend(trace, kept, p);
    ByLastAccessAppend(misses, kept, p);
    LastNEvict(a, slots, v, p);
    WithoutDistinct(a, v);
    WithoutAbsent(Without(a, v), p);
    WithoutAbsent(s.cache[1..], p);
    assert Elements(s'.cache) == kept + {p};
  }

  /** Every reachable state is coherent: the TLB holds the most recently accessed resident pages in
      order of last access, the page cache orders them by last TLB miss, and the counters count the accesses,
      those that the TLB did not answer, and those to pages that were not resident. */
  lemma {:induction false} RunCoherent(frames: nat, slots: nat, trace: seq<int>)
    requires frames > 0 && slots > 0
    ensures Coherent(Run(frames, slots, trace), frames, slots, trace, Misses(frames, slots, trace), Faults(frames, slots, trace))
  {
    hide Coherent, Access;
    if trace == [] {
      NothingCoherent(frames, slots);
    } else {
      var p, before := trace[|trace| - 1], trace[..|trace| - 1];
      assert trace == before + [p];
      RunCoherent(frames, slots, before);
      CoherentNext(Run(frames, slots, before), frames, slots, before, Misses(frames, slots, before), Faults(frames, slots, before), p);
    }
  }

  lemma {:induction false} NothingCoherent(frames: nat, slots: nat)
    ensures Coherent(INITIAL, frames, slots, [], [], [])
  {
  }

  lemma {:induction false} CoherentNext(s: State, frames: nat, slots: nat, trace: seq<int>, misses: seq<int>, faults: seq<int>, p: int)
    requires frames > 0 && slots > 0 && Coherent(s, frames, slots, trace, misses, faults)
    ensures Coherent(Access(s, frames, slots, p), frames, slots, trace + [p],
                     misses + (if p in s.tlb then [] else [p]), faults + if p in s.cache then [] else [p])
  {
    hide Access, ByLastAccess, LastN, Distinct;
    assert misses + [] == misses && faults + [] == faults;
    if p in s.tlb {
      ByLastAccessElements(trace, Elements(s.cache));
      LastNMembers(ByLastAccess(trace, Elements(s.cache)), slots, p);
      CoherentHit(s, frames, slots, trace, misses, faults, p);
    } else if p in s.cache {
      CoherentCached(s, frames, slots, trace, misses, faults, p);
    } else {
      CoherentFault(s, frames, slots, trace, misses, faults, p);
    }
  }

  lemma {:induction false} LastNMembers(a: seq<int>, n: nat, p: int)
    requires p in LastN(a, n)
    ensures p in a
  {
    var older, recent := Cut(a, n);
  }

  lemma {:induction false} DistinctByLength(a: seq<int>, b: seq<int>)
    requires Distinct(a) && Distinct(b) && Elements(a) == Elements(b)
    ensures |a| == |b|
  {
    forall x | x in a ensures x in b { assert x in Elements(a); }
    forall x | x in b ensures x in a { assert x in Elements(b); }
    Pigeonhole(a, b);
    Pigeonhole(b, a);
  }

  /** The TLB holds exactly the last min(slots, residents) resident pages by last access, all of them resident. */
  lemma {:induction false} TlbIsMostRecent(frames: nat, slots: nat, trace: seq<int>)
    requires frames > 0 && slots > 0
    ensures var s := Run(frames, slots, trace);
            && s.tlb == LastN(ByLastAccess(trace, Elements(s.cache)), slots)
            && |s.tlb| == (if |s.cache| < slots then |s.cache| else slots)
            && (forall p :: p in s.tlb ==> p in s.cache)
  {
    RunCoherent(frames, slots, trace);
    var s := Run(frames, slots, trace);
    var a := ByLastAccess(trace, Elements(s.cache));
    ByLastAccessElements(trace, Elements(s.cache));
    assert forall p :: p in a <==> p in s.cache;
    assert s.tlb == LastN(a, slots) && Elements(a) == Elements(s.cache);
    DistinctByLength(a, s.cache);
  }

  /** TLB hits never refresh the page cache: the page evicted next is the resident page whose last
      TLB miss is oldest, even if it has been accessed since. */
  lemma {:induction false} VictimIsOldestMiss(frames: nat, slots: nat, trace: seq<int>, p: int)
    requires frames > 0 && slots > 0
    requires var s := Run(frames, slots, trace); |s.cache| == frames && p !in s.cache
    ensures var s := Run(frames, slots, trace);
            var s' := Run(frames, slots, trace + [p]);
            var byMiss := ByLastAccess(Misses(frames, slots, trace), Elements(s.cache));
            byMiss != [] && s'.cache == byMiss[1..] + [p] && byMiss[0] !in s'.tlb
  {
    var s, s' := Run(frames, slots, trace), Run(frames, slots, trace + [p]);
    assert p !in s.tlb by { TlbIsMostRecent(frames, slots, trace); }
    assert Distinct(s.cache) && s.cache == ByLastAccess(Misses(frames, slots, trace), Elements(s.cache)) by {
      RunCoherent(frames, slots, trace);
    }
    RunAppend(frames, slots, trace, p);
    TlbIsMostRecent(frames, slots, trace + [p]);
    assert forall q :: q in s'.tlb ==> q in s'.cache;
    assert s.cache[0] !in s'.cache;
  }

  lemma {:induction false} ElementsCount(a: seq<int>)
    requires Distinct(a)
    ensures |Elements(a)| == |a|
  {
    if a != [] {
      var last := |a| - 1;
      ElementsCount(a[..last]);
      assert a == a[..last] + [a[last]];
      assert Elements(a) == Elements(a[..last]) + {a[last]};
    }
  }

  /** An accessed page is resident afterwards, and while it was resident or there is a free frame none leaves. */
  lemma {:induction false} ResidentsGrow(frames: nat, slots: nat, trace: seq<int>, p: int)
    requires frames > 0 && slots > 0
    ensures var cache, cache' := Run(frames, slots, trace).cache, Run(frames, slots, trace + [p]).cache;
      && p in cache' && (p in cache || |cache| < frames ==> Elements(cache') == Elements(cache) + {p})
      && |cache'| == if p in cache || |cache| == frames then |cache| else |cache| + 1
  {
    hide Run, Access, Distinct;
    RunAppend(frames, slots, trace, p);
    CacheFacts(frames, slots, trace);
    var s := Run(frames, slots, trace);
    AccessCache(s, frames, slots, p);
    if p in s.cache { MovedElements(s.cache, p); }
  }

  lemma {:induction false} CacheFacts(frames: nat, slots: nat, trace: seq<int>)
    requires frames > 0 && slots > 0
    ensures var s := Run(frames, slots, trace);
      Distinct(s.cache) && |s.cache| <= frames && forall p :: p in s.tlb ==> p in s.cache
  {
    hide Run, ByLastAccess, LastN, Distinct;
    RunCoherent(frames, slots, trace);
    TlbIsMostRecent(frames, slots, trace);
  }

  lemma {:induction false} AccessCache(s: State, frames: nat, slots: nat, p: int)
    requires frames > 0 && slots > 0 && forall p :: p in s.tlb ==> p in s.cache
    ensures var cache := Access(s, frames, slots, p).cache;
      if p in s.tlb then cache == s.cache
      else if p in s.cache then cache == Without(s.cache, p) + [p]
      else cache == (if |s.cache| == frames then s.cache[1..] else s.cache) + [p]
  {
  }

  lemma {:induction false} MovedElements(s: seq<int>, p: int)
    requires Distinct(s) && p in s
    ensures var moved := Without(s, p) + [p]; Elements(moved) == Elements(s) && |moved| == |s|
  {
    WithoutMembers(s, p);
    WithoutDistinct(s, p);
    var moved := Without(s, p) + [p];
    assert Elements(moved) == Elements(s);
    ElementsCount(moved);
    ElementsCount(s);
  }

  /** The frames fill up with the first pages accessed; as long as there are enough for all of them no page is ever
      evicted, and each of them faults exactly once. */
  lemma {:induction false} FramesFill(frames: nat, slots: nat, trace: seq<int>)
    requires frames > 0 && slots > 0
    ensures var s := Run(frames, slots, trace); var pages := Elements(trace);
      && |s.cache| == (if |pages| < frames then |pages| else frames)
      && (|pages| <= frames ==> Elements(s.cache) == pages && s.faults == |pages|)
  {
    if trace != [] {
      var p, before := trace[|trace| - 1], trace[..|trace| - 1];
      assert trace == before + [p];
      FramesFill(frames, slots, before);
      FramesFillNext(frames, slots, before, p);
    }
  }

  lemma {:induction false} FramesFillNext(frames: nat, slots: nat, trace: seq<int>, p: int)
    requires frames > 0 && slots > 0
    requires var s := Run(frames, slots, trace); var pages := Elements(trace);
      && |s.cache| == (if |pages| < frames then |pages| else frames)
      && (|pages| <= frames ==> Elements(s.cache) == pages && s.faults == |pages|)
    ensures var s := Run(frames, slots, trace + [p]); var pages := Elements(trace + [p]);
      && |s.cache| == (if |pages| < frames then |pages| else frames)
      && (|pages| <= frames ==> Elements(s.cache) == pages && s.faults == |pages|)
  {
    hide Run, Elements, Distinct;
    var s, s' := Run(frames, slots, trace), Run(frames, slots, trace + [p]);
    ResidentsGrow(frames, slots, trace, p);
    FaultsNext(frames, slots, trace, p);
    CacheElements(frames, slots, trace);
    CacheElements(frames, slots, trace + [p]);
    ElementsMore(trace, p);
    FillSets(Elements(s.cache), Elements(s'.cache), Elements(trace), p, frames, s.faults, s'.faults);
  }

  lemma {:induction false} ElementsMore(a: seq<int>, p: int)
    ensures Elements(a + [p]) == Elements(a) + {p}
  {
  }

  lemma {:induction false} CacheElements(frames: nat, slots: nat, trace: seq<int>)
    requires frames > 0 && slots > 0
    ensures var cache := Run(frames, slots, trace).cache;
      |Elements(cache)| == |cache| && Elements(cache) <= Elements(trace) && forall p :: p in Elements(cache) <==> p in cache
  {
    hide Run, ByLastAccess, LastN, Distinct;
    RunCoherent(frames, slots, trace);
    var cache := Run(frames, slots, trace).cache;
    ElementsCount(cache);
    forall p | p in Elements(cache)
      ensures p in Elements(trace)
    {
      assert p in cache && p in trace;
    }
  }

  lemma {:induction false} FillSets(cache: set<int>, cache': set<int>, pages: set<int>, p: int, frames: nat, faults: nat, faults': nat)
    requires cache <= pages && |cache| == (if |pages| < frames then |pages| else frames)
    requires |pages| <= frames ==> cache == pages && faults == |pages|
    requires p in cache || |cache| < frames ==> cache' == cache + {p}
    requires |cache'| == if p in cache || |cache| == frames then |cache| else |cache| + 1
    requires faults' == faults + if p in cache then 0 else 1
    ensures var more := pages + {p};
      |cache'| == (if |more| < frames then |more| else frames) && (|more| <= frames ==> cache' == more && faults' == |more|)
  {
    if p in pages { assert pages + {p} == pages; }
  }

  lemma {:induction false} FaultsNext(frames: nat, slots: nat, trace: seq<int>, p: int)
    requires frames > 0 && slots > 0
    ensures var s := Run(frames, slots, trace);
      Run(frames, slots, trace + [p]).faults == s.faults + if p in s.cache then 0 else 1
  {
    RunCoherent(frames, slots, trace);
    RunCoherent(frames, slots, trace + [p]);
    assert (trace + [p])[..|trace|] == trace;
  }

  lemma {:induction false} RunAppend(frames: nat, slots: nat, trace: seq<int>, p: int)
    requires frames > 0 && slots > 0
    ensures Run(frames, slots, trace + [p]) == Access(Run(frames, slots, trace), frames, slots, p)
  {
    assert (trace + [p])[..|trace|] == trace;
  }
}

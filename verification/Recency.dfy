/** When the page cache evicts the least recently used page: TLB hits do not reach it. */
module Recency {
  import opened Seqs
  import opened Paging

  /** Whenever all frames are taken, the page evicted next is the resident page accessed longest ago. */
  ghost predicate AlwaysLeastRecent(frames: nat, slots: nat)
    requires frames > 0 && slots > 0
  {
    forall trace: seq<int> :: LeastRecentNext(frames, slots, trace)
  }

  ghost predicate LeastRecentNext(frames: nat, slots: nat, trace: seq<int>)
    requires frames > 0 && slots > 0
  {
    var cache := Run(frames, slots, trace).cache;
    |cache| == frames ==> ByLastAccess(trace, Elements(cache)) != [] && cache[0] == ByLastAccess(trace, Elements(cache))[0]
  }

  /** Two pages, and the first one again. */
  lemma {:induction false} ThreeAccesses(frames: nat, slots: nat)
    requires frames >= 2 && slots >= 2
    ensures Run(frames, slots, [0] + [1] + [0]) == State([0, 1], [1, 0], 1, 2, 2, 3)
    ensures ByLastAccess([0] + [1] + [0], Elements([0, 1])) == [1, 0]
  {
    hide Run, ByLastAccess;
    NoAccess(frames, slots);
    RunAppend(frames, slots, [], 0);
    assert [] + [0] == [0];
    assert Run(frames, slots, [0]) == State([0], [0], 0, 1, 1, 1);
    RunAppend(frames, slots, [0], 1);
    assert Run(frames, slots, [0] + [1]) == State([0, 1], [0, 1], 0, 2, 2, 2);
    RunAppend(frames, slots, [0] + [1], 0);
    assert Without([0, 1], 0) + [0] == [1, 0];
    ByLastAccessAppend([], {}, 0);
    ByLastAccessAppend([0], {0}, 1);
    ByLastAccessAppend([0] + [1], {0} + {1}, 0);
    assert {} + {0} == {0} && {0} + {1} == {0} + {1} + {0} == Elements([0, 1]);
    assert Without<int>([], 0) + [0] == [0] && Without([0], 1) + [1] == [0, 1];
  }

  /** Two frames and two TLB entries: page 0 is evicted although it was accessed last. */
  lemma {:induction false} BusyPageEvicted()
    ensures var trace := [0] + [1] + [0];
      && Run(2, 2, trace).cache == [0, 1] && ByLastAccess(trace, Elements([0, 1])) == [1, 0]
      && Run(2, 2, trace + [2]).cache == [1, 2]
  {
    hide Run;
    ThreeAccesses(2, 2);
    RunAppend(2, 2, [0] + [1] + [0], 2);
  }

  /** Without a TLB of two entries, or without two frames, the page cache is ordered by last access. */
  lemma {:induction false} OrderedByLastAccess(frames: nat, slots: nat, trace: seq<int>)
    requires frames > 0 && slots > 0 && (frames == 1 || slots == 1)
    ensures var cache := Run(frames, slots, trace).cache; cache == ByLastAccess(trace, Elements(cache))
  {
    hide ByLastAccess;
    if trace == [] {
      NoAccess(frames, slots);
    } else {
      var p, before := trace[|trace| - 1], trace[..|trace| - 1];
      assert trace == before + [p];
      OrderedByLastAccess(frames, slots, before);
      RunCoherent(frames, slots, before);
      TlbIsMostRecent(frames, slots, before);
      var s := Run(frames, slots, before);
      if p in s.tlb {
        HitKeepsOrder(s, frames, slots, before, p);
      } else {
        MissKeepsOrder(s, frames, slots, before, p);
      }
    }
  }

  lemma {:induction false} NoAccess(frames: nat, slots: nat)
    requires frames > 0 && slots > 0
    ensures Run(frames, slots, []) == INITIAL && forall pages :: ByLastAccess([], pages) == []
  {
  }

  /** A hit can only be on the page accessed last. */
  lemma {:induction false} HitKeepsOrder(s: State, frames: nat, slots: nat, trace: seq<int>, p: int)
    requires frames > 0 && slots > 0 && (frames == 1 || slots == 1) && p in s.tlb && p in s.cache
    requires Distinct(s.cache) && |s.cache| <= frames && s.tlb == LastN(s.cache, slots)
    requires s.cache == ByLastAccess(trace, Elements(s.cache))
    ensures s.cache == ByLastAccess(trace + [p], Elements(s.cache))
  {
    hide ByLastAccess;
    ByLastAccessAppend(trace, Elements(s.cache), p);
    assert Elements(s.cache) + {p} == Elements(s.cache);
    var front, last := s.cache[..|s.cache| - 1], s.cache[|s.cache| - 1];
    assert s.cache == front + [last] && p == last;
    assert p !in front;
    WithoutConcat(front, [p], p);
    WithoutAbsent(front, p);
    assert Without(s.cache, p) == front;
  }

  lemma {:induction false} MissKeepsOrder(s: State, frames: nat, slots: nat, trace: seq<int>, p: int)
    requires frames > 0 && slots > 0 && p !in s.tlb && Distinct(s.cache) && |s.cache| <= frames
    requires s.cache == ByLastAccess(trace, Elements(s.cache))
    ensures var cache := Access(s, frames, slots, p).cache; cache == ByLastAccess(trace + [p], Elements(cache))
  {
    hide ByLastAccess;
    var pages, cache := Elements(s.cache), Access(s, frames, slots, p).cache;
    if p in s.cache {
      ByLastAccessAppend(trace, pages, p);
      WithoutDistinct(s.cache, p);
      assert Elements(cache) == pages && pages + {p} == pages;
    } else if |s.cache| == frames {
      var v := s.cache[0];
      ByLastAccessWithout(trace, pages, v);
      ByLastAccessAppend(trace, pages - {v}, p);
      assert s.cache == [v] + s.cache[1..];
      WithoutAbsent(s.cache[1..], p);
      assert Elements(s.cache[1..]) == pages - {v};
      assert Elements(cache) == pages - {v} + {p};
    } else {
      ByLastAccessAppend(trace, pages, p);
      WithoutAbsent(s.cache, p);
      assert Elements(cache) == pages + {p};
    }
  }

  /** Pages 0, 1 and 0 again, then 2, 3, ... until `k` pages are resident: 0 stays the oldest miss, 1 the oldest access. */
  lemma {:induction false} BusyPageFirst(frames: nat, slots: nat, k: nat) returns (trace: seq<int>)
    requires slots >= 2 && 2 <= k <= frames
    ensures var cache := Run(frames, slots, trace).cache;
      && |cache| == k && cache[0] == 0 && (forall p :: p in cache ==> p < k)
      && ByLastAccess(trace, Elements(cache)) != [] && ByLastAccess(trace, Elements(cache))[0] == 1
  {
    hide ByLastAccess, Run;
    if k == 2 {
      trace := [0] + [1] + [0];
      ThreeAccesses(frames, slots);
    } else {
      var before := BusyPageFirst(frames, slots, k - 1);
      trace := before + [k - 1];
      BusyPageStays(frames, slots, before, k - 1);
    }
  }

  lemma {:induction false} BusyPageStays(frames: nat, slots: nat, trace: seq<int>, k: nat)
    requires slots > 0 && k < frames
    requires var cache := Run(frames, slots, trace).cache;
      && |cache| == k && k > 0 && cache[0] == 0 && (forall p :: p in cache ==> p < k)
      && ByLastAccess(trace, Elements(cache)) != [] && ByLastAccess(trace, Elements(cache))[0] == 1
    ensures var cache := Run(frames, slots, trace + [k]).cache;
      && |cache| == k + 1 && cache[0] == 0 && (forall p :: p in cache ==> p < k + 1)
      && ByLastAccess(trace + [k], Elements(cache)) != [] && ByLastAccess(trace + [k], Elements(cache))[0] == 1
  {
    hide ByLastAccess, Run, Without;
    RunAppend(frames, slots, trace, k);
    TlbIsMostRecent(frames, slots, trace);
    var cache := Run(frames, slots, trace).cache;
    ByLastAccessAppend(trace, Elements(cache), k);
    ByLastAccessElements(trace, Elements(cache));
    WithoutAbsent(ByLastAccess(trace, Elements(cache)), k);
    assert Elements(cache + [k]) == Elements(cache) + {k};
    assert Run(frames, slots, trace + [k]).cache == cache + [k];
  }

  /** The page cache is a least recently used cache exactly when there is one frame or one TLB entry. */
  lemma {:induction false} AlwaysLeastRecentIff(frames: nat, slots: nat)
    requires frames > 0 && slots > 0
    ensures AlwaysLeastRecent(frames, slots) <==> frames == 1 || slots == 1
  {
    if frames == 1 || slots == 1 {
      forall trace: seq<int>
        ensures LeastRecentNext(frames, slots, trace)
      {
        OrderedByLastAccess(frames, slots, trace);
      }
    } else {
      var trace := BusyPageFirst(frames, slots, frames);
      assert !LeastRecentNext(frames, slots, trace);
    }
  }
}

/** The translation lookaside buffer: a fixed array of entries and an LRU list over the used ones. */
module Tlb {
  import opened Seqs
  import opened LruCache

  /** The used entries are exactly the listed ones, one per page, and `mapping` reads them off.
      `taken` is an entry off the list that is about to be filled, whatever its valid flag says. */
  ghost predicate Listing(table: seq<Entry>, slots: seq<int>, mapping: map<int, int>, taken: int) {
    && Inside(slots, table) && Distinct(PagesOf(slots, table)) && taken !in slots
    && (forall s :: 0 <= s < |table| && s != taken ==> (table[s].valid <==> s in slots))
    && (forall p :: p in mapping <==> p in PagesOf(slots, table))
    && (forall p :: p in mapping ==> mapping[p] >= 0)
    && forall s :: s in slots ==> table[s].pageNumber in mapping && mapping[table[s].pageNumber] == table[s].frameNumber
  }

  lemma {:induction false} ListedPage(table: seq<Entry>, slots: seq<int>, s: int)
    requires Inside(slots, table) && s in slots
    ensures table[s].pageNumber in PagesOf(slots, table)
  {
    var i :| 0 <= i < |slots| && slots[i] == s;
    assert PagesOf(slots, table)[i] == table[s].pageNumber;
  }

  /** Taking an entry off the list unmaps its page. */
  lemma {:induction false} ListingDrop(table: seq<Entry>, slots: seq<int>, mapping: map<int, int>, s: int)
    requires Listing(table, slots, mapping, NONE) && s in slots
    ensures Listing(table, Without(slots, s), mapping - {table[s].pageNumber}, s)
    ensures PagesOf(Without(slots, s), table) == Without(PagesOf(slots, table), table[s].pageNumber)
  {
    var pages := PagesOf(slots, table);
    ListedPage(table, slots, s);
    PagesWithout(slots, table, s);
    WithoutDistinct(slots, s);
    WithoutDistinct(pages, table[s].pageNumber);
    forall t | t in Without(slots, s) ensures table[t].pageNumber != table[s].pageNumber {
      ListedPage(table, Without(slots, s), t);
    }
  }

  /** Filling a free entry and listing it maps its page. */
  lemma {:induction false} ListingAdd(table: seq<Entry>, slots: seq<int>, mapping: map<int, int>, s: int, page: int, frame: nat)
    requires Listing(table, slots, mapping, s) && 0 <= s < |table| && page !in mapping
    ensures var table' := table[s := Entry(page, frame, true)];
            && Listing(table', slots + [s], mapping[page := frame], NONE)
            && PagesOf(slots + [s], table') == PagesOf(slots, table) + [page]
            && Inside(slots, table') && PagesOf(slots, table') == PagesOf(slots, table)
  {
    var table' := table[s := Entry(page, frame, true)];
    assert forall i :: 0 <= i < |slots| ==> slots[i] in slots;
    assert PagesOf(slots + [s], table') == PagesOf(slots, table) + [page];
    forall p ensures p in mapping[page := frame] <==> p in PagesOf(slots + [s], table') {
    }
  }

  /** Refilling a free entry as unused. */
  lemma {:induction false} ListingClear(table: seq<Entry>, slots: seq<int>, mapping: map<int, int>, s: int)
    requires Listing(table, slots, mapping, s) && 0 <= s < |table|
    ensures var table' := table[s := Entry(NONE, NONE, false)];
            Listing(table', slots, mapping, NONE) && PagesOf(slots, table') == PagesOf(slots, table)
  {
    assert forall i :: 0 <= i < |slots| ==> slots[i] in slots;
    assert PagesOf(slots, table[s := Entry(NONE, NONE, false)]) == PagesOf(slots, table);
  }

  /** Moving an entry to the back of the list moves its page to the back. */
  lemma {:induction false} ListingTouch(table: seq<Entry>, slots: seq<int>, mapping: map<int, int>, s: int)
    requires Listing(table, slots, mapping, NONE) && s in slots
    ensures Listing(table, Without(slots, s) + [s], mapping, NONE)
    ensures PagesOf(Without(slots, s) + [s], table) == Without(PagesOf(slots, table), table[s].pageNumber) + [table[s].pageNumber]
  {
    hide Without, Distinct;
    var page := table[s].pageNumber;
    var pages, rest := PagesOf(slots, table), Without(slots, s);
    ListedPage(table, slots, s);
    PagesWithout(slots, table, s);
    WithoutMembers(slots, s);
    WithoutMembers(pages, page);
    WithoutDistinctAppend(pages, page);
    PagesAppend(table, rest, s);
  }

  lemma {:induction false} PagesAppend(table: seq<Entry>, slots: seq<int>, s: int)
    requires Inside(slots, table) && 0 <= s < |table|
    ensures Inside(slots + [s], table) && PagesOf(slots + [s], table) == PagesOf(slots, table) + [table[s].pageNumber]
  {
  }

  class Buffer {
    const entries: array<Entry>
    const cache: Cache
    var hitCount: nat
    var missCount: nat
    ghost var mapping: map<int, int>  // the frame of each mapped page
    ghost var pages: seq<int>         // the mapped pages, least recently used first

    ghost predicate Valid()
      reads this, entries, cache, cache.Repr
      ensures Valid() ==> cache.Valid() && cache.capacity > 0 && Inside(cache.slots, entries[..])
    {
      && cache.Valid() && entries.Length == cache.capacity > 0
      && Listing(entries[..], cache.slots, mapping, NONE) && pages == PagesOf(cache.slots, entries[..])
    }

    lemma {:induction false} MappedPages()
      requires Valid()
      ensures forall p :: p in mapping <==> p in pages
    {
    }

    constructor (capacity: nat)
      requires capacity > 0
      ensures Valid() && fresh(cache) && fresh(cache.Repr) && fresh(entries)
      ensures cache.capacity == capacity && pages == [] && mapping == map[]
      ensures hitCount == missCount == 0
    {
      entries := new Entry[capacity](_ => Entry(NONE, NONE, false));
      cache := new Cache(capacity);
      hitCount, missCount, mapping, pages := 0, 0, map[], [];
    }

    predicate Full()
      reads this, cache
    {
      cache.Full()
    }

    /** The frame of `page` and one more hit, or -1 and one more miss. */
    method Query(page: int) returns (frame: int)
      requires Valid()
      modifies this`hitCount, this`missCount, this`pages, cache, cache.Repr
      ensures Valid() && cache.Repr == old(cache.Repr)
      ensures page in mapping ==>
                frame == mapping[page] && pages == Without(old(pages), page) + [page]
                && hitCount == old(hitCount) + 1 && missCount == old(missCount)
      ensures page !in mapping ==>
                frame == NONE && pages == old(pages)
                && missCount == old(missCount) + 1 && hitCount == old(hitCount)
    {
      var slot := cache.Query(page, entries);
      if slot == NONE {
        missCount := missCount + 1;
        return NONE;
      }
      ListingTouch(entries[..], old(cache.slots), mapping, slot);
      pages := PagesOf(cache.slots, entries[..]);
      hitCount := hitCount + 1;
      return entries[slot].frameNumber;
    }

    /** Some entry is unused when the list is not full, so the search for one always succeeds. */
    lemma {:induction false} SomeUnused()
      requires Valid() && cache.size < cache.capacity
      ensures exists i :: 0 <= i < entries.Length && !entries[i].valid
    {
      if forall i :: 0 <= i < entries.Length ==> entries[i].valid {
        var all := seq(entries.Length, i => i);
        forall i | i in all ensures i in cache.slots {
          assert entries[i].valid;
        }
        Pigeonhole(all, cache.slots);
      }
    }

    /** Drops the oldest entry of a full list. */
    method DropEntry() returns (slot: int)
      requires Valid() && Full()
      modifies this`mapping, this`pages, cache, cache.Repr
      ensures cache.Valid() && cache.Repr == old(cache.Repr) && cache.size < cache.capacity
      ensures 0 <= slot < entries.Length && Listing(entries[..], cache.slots, mapping, slot)
      ensures pages == PagesOf(cache.slots, entries[..]) && old(pages) != [] && pages == old(pages)[1..]
      ensures mapping.Keys <= old(mapping).Keys && forall p :: p in mapping ==> mapping[p] == old(mapping)[p]
    {
      hide Listing, Without, PagesOf, Distinct;
      slot := cache.LeastRecentlyUsed();
      ghost var slots := cache.slots;
      FirstListed(entries[..], slots, mapping);
      ListingDrop(entries[..], slots, mapping, slot);
      mapping := mapping - {entries[slot].pageNumber};
      var removed := cache.Remove(entries[slot].pageNumber, entries);
      SamePageSameSlot(entries[..], slots, slot, removed);
      pages := pages[1..];
    }

    /** An unused entry beside a list that is not full. */
    method UnusedEntry() returns (slot: int)
      requires Valid() && !Full()
      ensures 0 <= slot < entries.Length && Listing(entries[..], cache.slots, mapping, slot)
    {
      hide Listing, Without, PagesOf, Distinct;
      SomeUnused();
      slot := 0;
      while entries[slot].valid
        invariant 0 <= slot < entries.Length
        invariant exists i :: slot <= i < entries.Length && !entries[i].valid
        decreases entries.Length - slot
      {
        slot := slot + 1;
      }
      ListingSpare(entries[..], cache.slots, mapping, slot);
    }

    /** An entry to fill: the oldest one, dropped from a full list, or the first unused one. */
    method TakeEntry() returns (slot: int)
      requires Valid()
      modifies this`mapping, this`pages, cache, cache.Repr
      ensures cache.Valid() && cache.Repr == old(cache.Repr) && cache.size < cache.capacity
      ensures 0 <= slot < entries.Length && Listing(entries[..], cache.slots, mapping, slot)
      ensures pages == PagesOf(cache.slots, entries[..])
      ensures pages == old(if |pages| == cache.capacity then pages[1..] else pages)
      ensures mapping.Keys <= old(mapping).Keys && forall p :: p in mapping ==> mapping[p] == old(mapping)[p]
    {
      hide Listing, Without, PagesOf, Distinct;
      PagesLength(entries[..], cache.slots);
      if Full() {
        slot := DropEntry();
      } else {
        slot := UnusedEntry();
      }
    }

    /** Maps `page`, which must not be mapped yet, to `frame`; a full TLB reuses its oldest entry. */
    method Insert(page: int, frame: nat)
      requires Valid() && page !in mapping
      modifies this`mapping, this`pages, cache, cache.Repr, entries
      ensures Valid() && fresh(cache.Repr - old(cache.Repr))
      ensures pages == old(if |pages| == cache.capacity then pages[1..] else pages) + [page]
      ensures page in mapping && mapping[page] == frame
      ensures forall p :: p in mapping && p != page ==> p in old(mapping) && mapping[p] == old(mapping)[p]
    {
      hide Listing, Without, PagesOf, Distinct;
      var slot := TakeEntry();
      ListedMapped(entries[..], cache.slots, mapping, slot);
      ListingAdd(entries[..], cache.slots, mapping, slot, page, frame);
      ghost var table := entries[..];
      entries[slot] := Entry(page, frame, true);
      assert entries[..] == table[slot := Entry(page, frame, true)];
      mapping, pages := mapping[page := frame], pages + [page];
      var _ := cache.Insert(slot, entries);
    }

    /** Unmaps `page` and frees its entry, if it is mapped. */
    method Remove(page: int) returns (removed: bool)
      requires Valid()
      modifies this`mapping, this`pages, cache, cache.Repr, entries
      ensures Valid() && cache.Repr == old(cache.Repr)
      ensures removed <==> page in old(mapping)
      ensures pages == Without(old(pages), page) && mapping == old(mapping) - {page}
    {
      hide Cache.Valid, Distinct, Listing, Without, PagesOf;
      MappedPages();
      var slot := cache.Remove(page, entries);
      if slot == NONE {
        WithoutAbsent(pages, page);
        return false;
      }
      ListedPage(entries[..], old(cache.slots), slot);
      ListingDrop(entries[..], old(cache.slots), mapping, slot);
      mapping, pages := mapping - {page}, Without(pages, page);
      ListingClear(entries[..], cache.slots, mapping, slot);
      entries[slot] := Entry(NONE, NONE, false);
      return true;
    }
  }

  lemma {:induction false} PagesLength(table: seq<Entry>, slots: seq<int>)
    requires Inside(slots, table)
    ensures |PagesOf(slots, table)| == |slots|
  {
  }

  lemma {:induction false} ListedMapped(table: seq<Entry>, slots: seq<int>, mapping: map<int, int>, taken: int)
    requires Listing(table, slots, mapping, taken)
    ensures Inside(slots, table) && forall p :: p in mapping <==> p in PagesOf(slots, table)
  {
  }

  /** An invalid entry is off the list. */
  lemma {:induction false} ListingSpare(table: seq<Entry>, slots: seq<int>, mapping: map<int, int>, s: int)
    requires Listing(table, slots, mapping, NONE) && 0 <= s < |table| && !table[s].valid
    ensures Listing(table, slots, mapping, s)
  {
  }

  /** The first entry of a list, and what is left without it. */
  lemma {:induction false} FirstListed(table: seq<Entry>, slots: seq<int>, mapping: map<int, int>)
    requires Listing(table, slots, mapping, NONE) && slots != []
    ensures Inside(slots, table) && Distinct(PagesOf(slots, table)) && slots[0] in slots && Without(slots, slots[0]) == slots[1..]
    ensures var pages := PagesOf(slots, table); pages != [] && table[slots[0]].pageNumber == pages[0] && Without(pages, pages[0]) == pages[1..]
  {
  }

  lemma {:induction false} SamePageSameSlot(table: seq<Entry>, slots: seq<int>, s: int, t: int)
    requires Inside(slots, table) && Distinct(PagesOf(slots, table)) && s in slots
    requires t == NONE ==> table[s].pageNumber !in PagesOf(slots, table)
    requires t != NONE ==> t in slots && table[t].pageNumber == table[s].pageNumber
    ensures t == s
  {
    ListedPage(table, slots, s);
    var i :| 0 <= i < |slots| && slots[i] == s;
    var j :| 0 <= j < |slots| && slots[j] == t;
    assert PagesOf(slots, table)[i] == PagesOf(slots, table)[j];
  }
}

/** Demand paging over a backing store, with a page table, an LRU page cache and a TLB. */
module VirtualMemory {
  import opened Seqs
  import opened LruCache
  import opened Physical
  import opened Tlb
  import Paging

  const PAGES := 256
  const SPACE := PAGES * PAGE_SIZE

  /** The page and offset that the two address masks select. */
  function PageNumber(address: int): int { (address / PAGE_SIZE) % PAGES }
  function Offset(address: int): int { address % PAGE_SIZE }

  ghost predicate Inverse(f: map<int, int>, g: map<int, int>) {
    && (forall p :: p in f ==> f[p] in g && g[f[p]] == p)
    && (forall x :: x in g ==> g[x] in f && f[g[x]] == x)
  }

  /** Valid page-table entries, resident pages and used frames are in bijection through `frameOf` and
      its inverse `pageIn`; `spare` is a frame that is changing hands. */
  ghost predicate Tables(table: seq<Entry>, resident: seq<int>, frames: seq<Frame>,
                         frameOf: map<int, int>, pageIn: map<int, int>, spare: int)
  {
    && |table| >= PAGES && Inverse(frameOf, pageIn)
    && (forall f :: f in pageIn ==> 0 <= f < |frames| && f != spare)
    && (forall i :: 0 <= i < |table| ==> table[i].pageNumber == i && (table[i].valid <==> i in frameOf))
    && (forall p :: p in frameOf <==> p in resident)
    && (forall p :: p in frameOf ==> 0 <= p < PAGES && 0 <= frameOf[p] < |frames| && table[p].frameNumber == frameOf[p])
    && forall f :: 0 <= f < |frames| && f != spare ==> (frames[f].valid <==> f in pageIn)
  }

  /** `flat` is the byte array the program sees: a resident page is in its frame, any other page in
      the backing store, and a clean resident page is in both. */
  ghost predicate Backed(flat: seq<Int8>, memory: seq<Int8>, store: seq<Int8>, frames: seq<Frame>, frameOf: map<int, int>) {
    && |flat| == SPACE <= |store| && |frames| * PAGE_SIZE <= |memory|
    && (forall p :: p in frameOf ==> 0 <= p < PAGES && 0 <= frameOf[p] < |frames|)
    && (forall p :: 0 <= p < PAGES ==>
                      Page(flat, p) == if p in frameOf then Page(memory, frameOf[p]) else Page(store, p))
    && forall p :: p in frameOf && !frames[frameOf[p]].dirty ==> Page(store, p) == Page(flat, p)
  }

  lemma {:induction false} BackedInitially(memory: seq<Int8>, store: seq<Int8>, frames: seq<Frame>)
    requires |frames| * PAGE_SIZE <= |memory| && |store| >= SPACE
    ensures Backed(store[..SPACE], memory, store, frames, map[])
  {
    assert forall p :: 0 <= p < PAGES ==> Page(store[..SPACE], p) == Page(store, p);
  }

  /** A clean page can leave its frame. */
  lemma {:induction false} BackedEvict(flat: seq<Int8>, memory: seq<Int8>, store: seq<Int8>,
                                       frames: seq<Frame>, frameOf: map<int, int>, page: int)
    requires Backed(flat, memory, store, frames, frameOf) && page in frameOf && !frames[frameOf[page]].dirty
    ensures Backed(flat, memory, store, frames, frameOf - {page})
  {
    hide Page;
  }

  /** Writing a page back makes it clean and changes no byte the program sees. */
  lemma {:induction false} BackedWriteBack(flat: seq<Int8>, memory: seq<Int8>, store: seq<Int8>, store': seq<Int8>,
                                           frames: seq<Frame>, frameOf: map<int, int>, pageIn: map<int, int>, page: int)
    requires |store| == |store'|
    requires Backed(flat, memory, store, frames, frameOf) && Inverse(frameOf, pageIn) && page in frameOf
    requires Page(store', page) == Page(memory, frameOf[page])
    requires forall p :: 0 <= p < PAGES && p != page ==> Page(store', p) == Page(store, p)
    ensures var f := frameOf[page];
            Backed(flat, memory, store', frames[f := frames[f].(dirty := false)], frameOf)
  {
    hide Page;
  }

  /** A page read into an unused frame is clean and shows the same bytes. */
  lemma {:induction false} BackedLoad(flat: seq<Int8>, memory: seq<Int8>, memory': seq<Int8>, store: seq<Int8>,
                                      frames: seq<Frame>, frameOf: map<int, int>, page: int, f: int)
    requires |memory| == |memory'|
    requires Backed(flat, memory, store, frames, frameOf)
    requires 0 <= page < PAGES && page !in frameOf && 0 <= f < |frames|
    requires forall p :: p in frameOf ==> frameOf[p] != f
    requires Page(memory', f) == Page(store, page)
    requires forall k :: 0 <= k < |frames| && k != f ==> Page(memory', k) == Page(memory, k)
    ensures Backed(flat, memory', store, frames[f := frames[f].(valid := true, dirty := false)], frameOf[page := f])
  {
    hide Page;
  }

  /** Writing one byte of a resident page writes the same byte of the flat array. */
  lemma {:induction false} BackedWrite(flat: seq<Int8>, memory: seq<Int8>, memory': seq<Int8>, store: seq<Int8>, frames: seq<Frame>,
                                       frameOf: map<int, int>, pageIn: map<int, int>, page: int, offset: int, value: Int8)
    requires |memory| == |memory'|
    requires Backed(flat, memory, store, frames, frameOf) && Inverse(frameOf, pageIn)
    requires page in frameOf && 0 <= offset < PAGE_SIZE
    requires Page(memory', frameOf[page]) == Page(memory, frameOf[page])[offset := value]
    requires forall k :: 0 <= k < |frames| && k != frameOf[page] ==> Page(memory', k) == Page(memory, k)
    ensures |flat| == SPACE
    ensures var f := frameOf[page];
            Backed(flat[page * PAGE_SIZE + offset := value], memory', store, frames[f := frames[f].(dirty := true)], frameOf)
  {
    var flat' := flat[page * PAGE_SIZE + offset := value];
    assert Page(flat', page) == Page(flat, page)[offset := value];
    forall p | 0 <= p < PAGES && p != page ensures Page(flat', p) == Page(flat, p) {
    }
    hide Page;
  }

  /** A byte of a resident page is the same byte of the flat array. */
  lemma {:induction false} BackedRead(flat: seq<Int8>, memory: seq<Int8>, store: seq<Int8>, frames: seq<Frame>,
                                      frameOf: map<int, int>, address: int)
    requires Backed(flat, memory, store, frames, frameOf) && PageNumber(address) in frameOf
    ensures |flat| == SPACE && 0 <= frameOf[PageNumber(address)] < |frames| && |frames| * PAGE_SIZE <= |memory|
    ensures 0 <= Offset(address) < PAGE_SIZE
    ensures Page(memory, frameOf[PageNumber(address)])[Offset(address)] == flat[address % SPACE]
  {
    AddressSplit(address);
    assert Page(flat, PageNumber(address)) == Page(memory, frameOf[PageNumber(address)]);
    assert Page(flat, PageNumber(address))[Offset(address)] == flat[address % SPACE];
  }

  lemma {:induction false} AddressJoined(frame: int, offset: int)
    requires 0 <= offset < PAGE_SIZE
    ensures (frame * PAGE_SIZE + offset) / PAGE_SIZE == frame && (frame * PAGE_SIZE + offset) % PAGE_SIZE == offset
  {
  }

  lemma {:induction false} AddressSplit(address: int)
    ensures PageNumber(address) * PAGE_SIZE + Offset(address) == address % SPACE
    ensures 0 <= PageNumber(address) < PAGES && 0 <= Offset(address) < PAGE_SIZE
  {
  }

  lemma {:induction false} TablesInitially(table: seq<Entry>, frames: seq<Frame>)
    requires |table| >= PAGES && forall i :: 0 <= i < |table| ==> table[i] == Entry(i, NONE, false)
    requires forall f :: 0 <= f < |frames| ==> !frames[f].valid
    ensures Tables(table, [], frames, map[], map[], NONE)
  {
  }

  lemma {:induction false} NothingRun(frames: nat, slots: nat)
    requires frames > 0 && slots > 0
    ensures Paging.Run(frames, slots, []) == Paging.INITIAL
  {
  }

  /** Evicting a resident page leaves its frame as the spare one. */
  lemma {:induction false} TablesEvict(table: seq<Entry>, resident: seq<int>, frames: seq<Frame>,
                                       frameOf: map<int, int>, pageIn: map<int, int>, page: int)
    requires Tables(table, resident, frames, frameOf, pageIn, NONE) && Distinct(resident)
    requires resident != [] && resident[0] == page && page in frameOf
    ensures Tables(table[page := Entry(page, NONE, false)], resident[1..], frames,
                   frameOf - {page}, pageIn - {frameOf[page]}, frameOf[page])
  {
    hide Inverse, Distinct;
    InverseDrop(frameOf, pageIn, page);
    FirstGone(resident);
    var f := frameOf[page];
    forall g | 0 <= g < |frames| && g != f
      ensures frames[g].valid <==> g in pageIn - {f}
    {
    }
    forall i | 0 <= i < |table|
      ensures var e := table[page := Entry(page, NONE, false)][i]; e.pageNumber == i && (e.valid <==> i in frameOf - {page})
    {
    }
    InverseApart(frameOf, pageIn, page);
  }

  lemma {:induction false} InverseDrop(f: map<int, int>, g: map<int, int>, p: int)
    requires Inverse(f, g) && p in f
    ensures Inverse(f - {p}, g - {f[p]})
  {
  }

  lemma {:induction false} InverseApart(f: map<int, int>, g: map<int, int>, p: int)
    requires Inverse(f, g) && p in f
    ensures f[p] in g && forall q :: q in f && q != p ==> f[q] != f[p]
  {
  }

  lemma {:induction false} FirstGone(s: seq<int>)
    requires s != [] && Distinct(s)
    ensures forall p :: p in s[1..] <==> p in s && p != s[0]
  {
    assert s == [s[0]] + s[1..];
    assert s[0] !in s[1..];
  }

  /** Loading an absent page into the spare frame makes it resident. */
  lemma {:induction false} TablesLoad(table: seq<Entry>, resident: seq<int>, frames: seq<Frame>,
                                      frameOf: map<int, int>, pageIn: map<int, int>, page: int, f: int)
    requires Tables(table, resident, frames, frameOf, pageIn, f)
    requires 0 <= page < PAGES && page !in frameOf && 0 <= f < |frames|
    ensures Tables(table[page := Entry(page, f, true)], resident + [page],
                   frames[f := frames[f].(valid := true, dirty := false)], frameOf[page := f], pageIn[f := page], NONE)
  {
  }

  /** What the page cache needs to know before it lists the page just loaded. */
  lemma {:induction false} TablesEnter(table: seq<Entry>, resident: seq<int>, frames: seq<Frame>,
                                       frameOf: map<int, int>, pageIn: map<int, int>, page: int, f: int)
    requires Tables(table, resident, frames, frameOf, pageIn, f)
    requires 0 <= page < PAGES && page !in frameOf && 0 <= f < |frames|
    ensures page < |table|
    ensures var table' := table[page := Entry(page, f, true)];
            && Tables(table', resident + [page], frames[f := frames[f].(valid := true, dirty := false)],
                      frameOf[page := f], pageIn[f := page], NONE)
            && Inside(resident, table') && PagesOf(resident, table') == resident && page !in resident
  {
    TablesLoad(table, resident, frames, frameOf, pageIn, page, f);
    assert forall i :: 0 <= i < |resident| ==> resident[i] in resident;
  }

  /** The page table numbers its entries, so the listed entries are the resident pages. */
  lemma {:induction false} ResidentPages(table: seq<Entry>, resident: seq<int>, frames: seq<Frame>,
                                         frameOf: map<int, int>, pageIn: map<int, int>, spare: int)
    requires Tables(table, resident, frames, frameOf, pageIn, spare)
    ensures Inside(resident, table) && PagesOf(resident, table) == resident
    ensures forall p :: p in frameOf ==> frameOf[p] != spare
    ensures forall p :: p in frameOf <==> p in resident
    ensures |table| >= PAGES
  {
    assert forall i :: 0 <= i < |resident| ==> resident[i] in resident;
  }

  class Pager {
    const pageTable: array<Entry>
    const pageCache: Cache
    const tlb: Buffer
    const physical: PhysicalMemory
    const store: array<Int8>
    var pageFaults: nat
    var totalAccesses: nat
    ghost var frameOf: map<int, int>  // the frame of each resident page
    ghost var pageIn: map<int, int>   // its inverse
    ghost var flat: seq<Int8>         // the memory the program sees
    ghost var trace: seq<int>         // the pages accessed so far

    /** The parts are well formed and share no memory. */
    ghost predicate Parts()
      reads this, pageCache, pageCache.Repr, tlb, tlb.entries, tlb.cache, tlb.cache.Repr, physical.frames
    {
      && pageCache.Valid() && tlb.Valid() && physical.Valid()
      && pageCache != tlb.cache && pageCache.Repr !! tlb.cache.Repr
      && pageTable != tlb.entries && physical.memory != store
      && pageCache.capacity == physical.frames.Length > 0 && store.Length >= SPACE
    }

    ghost predicate Mapped(spare: int)
      reads this, pageTable, pageCache, tlb, physical.frames
    {
      && Tables(pageTable[..], pageCache.slots, physical.frames[..], frameOf, pageIn, spare)
      && forall p :: p in tlb.mapping ==> p in frameOf && tlb.mapping[p] == frameOf[p]
    }

    ghost predicate Shows()
      reads this, physical.memory, physical.frames, store
    {
      Backed(flat, physical.memory[..], store[..], physical.frames[..], frameOf)
    }

    ghost function State(): Paging.State
      reads this, pageCache, tlb
    {
      Paging.State(pageCache.slots, tlb.pages, tlb.hitCount, tlb.missCount, pageFaults, totalAccesses)
    }

    /** All parts agree, the program sees `flat`, and the lists and counters are those of the paging
        policy after the accesses in `trace`. */
    ghost predicate Valid()
      reads this, pageTable, pageCache, pageCache.Repr, tlb, tlb.entries, tlb.cache, tlb.cache.Repr
      reads physical.memory, physical.frames, store
    {
      && Parts() && Mapped(NONE) && Shows()
      && State() == Paging.Run(pageCache.capacity, tlb.cache.capacity, trace)
    }

    /** An empty page table over the given memory and backing store. */
    constructor (pageTableCapacity: nat, tlbCapacity: nat, memory: array<Int8>, store: array<Int8>)
      requires pageTableCapacity >= PAGES && tlbCapacity > 0
      requires memory.Length >= PAGE_SIZE && store.Length >= SPACE && memory != store
      ensures Valid() && this.store == store && physical.memory == memory
      ensures flat == store[..SPACE] && trace == []
      ensures pageCache.capacity == memory.Length / PAGE_SIZE && tlb.cache.capacity == tlbCapacity
      ensures fresh(pageTable) && fresh(pageCache) && fresh(pageCache.Repr) && fresh(physical.frames)
      ensures fresh(tlb) && fresh(tlb.entries) && fresh(tlb.cache) && fresh(tlb.cache.Repr)
    {
      hide Listing, Cache.Valid, Buffer.Valid, Page, Backed, PhysicalMemory.Valid, Tables, Paging.Run;
      pageTable := new Entry[pageTableCapacity](i => Entry(i, NONE, false));
      pageCache := new Cache(memory.Length / PAGE_SIZE);
      tlb := new Buffer(tlbCapacity);
      physical := new PhysicalMemory(memory);
      this.store := store;
      pageFaults, totalAccesses := 0, 0;
      frameOf, pageIn, flat, trace := map[], map[], store[..SPACE], [];
      new;
      BackedInitially(memory[..], store[..], physical.frames[..]);
      TablesInitially(pageTable[..], physical.frames[..]);
      tlb.MappedPages();
      NothingRun(pageCache.capacity, tlbCapacity);
    }

    /** Some frame is unused when the page cache is not full, so the search for one always succeeds. */
    lemma {:induction false} SomeFrameFree()
      requires Parts() && Mapped(NONE) && pageCache.size < pageCache.capacity
      ensures exists f :: 0 <= f < physical.frames.Length && !physical.frames[f].valid
    {
      if forall f :: 0 <= f < physical.frames.Length ==> physical.frames[f].valid {
        var owner := pageIn;
        var owners := seq(physical.frames.Length, f requires f in owner => owner[f]);
        assert forall f :: 0 <= f < physical.frames.Length ==> frameOf[owners[f]] == f;
        forall p | p in owners ensures p in pageCache.slots {
          assert p in frameOf;
        }
        Pigeonhole(owners, pageCache.slots);
      }
    }

    method FreeFrame() returns (frame: int)
      requires Parts() && Mapped(NONE) && pageCache.size < pageCache.capacity
      ensures 0 <= frame < physical.frames.Length && Mapped(frame)
    {
      SomeFrameFree();
      frame := 0;
      while physical.frames[frame].valid
        invariant 0 <= frame < physical.frames.Length
        invariant exists f :: frame <= f < physical.frames.Length && !physical.frames[f].valid
        decreases physical.frames.Length - frame
      {
        frame := frame + 1;
      }
    }

    /** Copies a dirty page from its frame to the backing store. */
    method WriteBack(page: int, frame: int)
      requires Parts() && Mapped(NONE) && Shows() && page in frameOf && frameOf[page] == frame
      modifies physical.frames, store
      ensures Parts() && Mapped(NONE) && Shows() && !physical.frames[frame].dirty
      ensures forall f :: 0 <= f < physical.frames.Length && f != frame ==> physical.frames[f] == old(physical.frames[f])
    {
      hide Cache.Valid, Buffer.Valid, Page;
      if physical.frames[frame].dirty {
        CopyPage(physical.memory, frame, store, page);
        BackedWriteBack(flat, physical.memory[..], old(store[..]), store[..], physical.frames[..], frameOf, pageIn, page);
        physical.frames[frame] := physical.frames[frame].(dirty := false);
      }
    }

    /** Drops the oldest page from the page cache and the TLB and invalidates its page-table entry. */
    method Unmap(page: int, frame: int)
      requires Parts() && Mapped(NONE) && pageCache.size > 0 && pageCache.slots[0] == page
      requires page in frameOf && frameOf[page] == frame
      modifies this`frameOf, this`pageIn, tlb`mapping, tlb`pages, tlb.cache, tlb.cache.Repr, tlb.entries
      modifies pageCache, pageCache.Repr, pageTable
      ensures Parts() && Mapped(frame) && frameOf == old(frameOf) - {page}
      ensures pageCache.Repr == old(pageCache.Repr) && tlb.cache.Repr == old(tlb.cache.Repr)
      ensures pageCache.slots == old(pageCache.slots)[1..]
      ensures tlb.pages == Without(old(tlb.pages), page)
    {
      hide Cache.Valid, Buffer.Valid, PhysicalMemory.Valid, Inverse, Distinct;
      ResidentPages(pageTable[..], pageCache.slots, physical.frames[..], frameOf, pageIn, NONE);
      TablesEvict(pageTable[..], pageCache.slots, physical.frames[..], frameOf, pageIn, page);
      var _ := pageCache.Remove(page, pageTable);
      var _ := tlb.Remove(page);
      pageTable[page] := Entry(page, NONE, false);
      frameOf, pageIn := frameOf - {page}, pageIn - {frame};
    }

    /** Takes the least recently missed page out of its frame, the page cache, the TLB and the page table. */
    method Evict() returns (frame: int)
      requires Parts() && Mapped(NONE) && Shows() && pageCache.Full()
      modifies this`frameOf, this`pageIn, tlb`mapping, tlb`pages, tlb.cache, tlb.cache.Repr, tlb.entries
      modifies pageCache, pageCache.Repr, pageTable, physical.frames, store
      ensures Parts() && 0 <= frame < physical.frames.Length && Mapped(frame) && Shows()
      ensures pageCache.Repr == old(pageCache.Repr) && tlb.cache.Repr == old(tlb.cache.Repr)
      ensures pageCache.slots == old(pageCache.slots)[1..] && frameOf == old(frameOf) - {old(pageCache.slots)[0]}
      ensures tlb.pages == Without(old(tlb.pages), old(pageCache.slots)[0])
    {
      hide Cache.Ringed, Buffer.Valid, PhysicalMemory.Valid, Page, Backed, Inverse, Distinct;
      var oldest := pageCache.LeastRecentlyUsed();
      assert oldest in frameOf;
      frame := pageTable[oldest].frameNumber;
      WriteBack(oldest, frame);
      BackedEvict(flat, physical.memory[..], store[..], physical.frames[..], frameOf, oldest);
      Unmap(oldest, frame);
    }

    /** Reads `page` from the backing store into the spare `frame`, which becomes valid and clean. */
    method Fetch(page: int, frame: int)
      requires Parts() && 0 <= frame < physical.frames.Length && Mapped(frame) && Shows()
      requires 0 <= page < PAGES && page !in frameOf
      modifies physical.memory, physical.frames
      ensures Parts()
      ensures physical.frames[..] == old(physical.frames[..])[frame := old(physical.frames[frame]).(valid := true, dirty := false)]
      ensures Backed(flat, physical.memory[..], store[..], physical.frames[..], frameOf[page := frame])
    {
      hide Cache.Valid, Buffer.Valid, Page, Backed, Tables;
      ResidentPages(pageTable[..], pageCache.slots, physical.frames[..], frameOf, pageIn, frame);
      CopyPage(store, page, physical.memory, frame);
      BackedLoad(flat, old(physical.memory[..]), physical.memory[..], store[..], physical.frames[..], frameOf, page, frame);
      physical.frames[frame] := physical.frames[frame].(valid := true, dirty := false);
    }

    /** Enters a fetched page into the page table and the page cache. */
    method Enter(page: int, frame: int, ghost frames: seq<Frame>)
      requires Parts() && 0 <= page < PAGES && page !in frameOf && pageCache.size < pageCache.capacity
      requires 0 <= frame < |frames| && Tables(pageTable[..], pageCache.slots, frames, frameOf, pageIn, frame)
      requires physical.frames[..] == frames[frame := frames[frame].(valid := true, dirty := false)]
      requires forall p :: p in tlb.mapping ==> p in frameOf && tlb.mapping[p] == frameOf[p]
      modifies this`frameOf, this`pageIn, pageCache, pageCache.Repr, pageTable
      ensures Parts() && Mapped(NONE) && frameOf == old(frameOf)[page := frame]
      ensures fresh(pageCache.Repr - old(pageCache.Repr)) && pageCache.slots == old(pageCache.slots) + [page]
    {
      hide Cache.Valid, Buffer.Valid, PhysicalMemory.Valid, Inverse, Distinct, Tables, PagesOf, Inside;
      TablesEnter(pageTable[..], pageCache.slots, frames, frameOf, pageIn, page, frame);
      pageTable[page] := Entry(page, frame, true);
      frameOf, pageIn := frameOf[page := frame], pageIn[frame := page];
      var _ := pageCache.Insert(page, pageTable);
    }

    /** Enters a resident page into the TLB. */
    method EnterTlb(page: int)
      requires Parts() && Mapped(NONE) && page in frameOf && page !in tlb.mapping
      modifies tlb`mapping, tlb`pages, tlb.cache, tlb.cache.Repr, tlb.entries
      ensures Parts() && Mapped(NONE) && fresh(tlb.cache.Repr - old(tlb.cache.Repr))
      ensures tlb.pages == Paging.TlbAdd(old(tlb.pages), tlb.cache.capacity, page)
    {
      hide Cache.Valid, Buffer.Valid, PhysicalMemory.Valid, Inverse, Distinct;
      tlb.Insert(page, pageTable[page].frameNumber);
    }

    /** A page fault: finds or frees a frame and brings `page` into it. */
    method Fault(page: int) returns (frame: int)
      requires Parts() && Mapped(NONE) && Shows() && 0 <= page < PAGES && page !in frameOf
      modifies this`frameOf, this`pageIn, tlb`mapping, tlb`pages, tlb.cache, tlb.cache.Repr, tlb.entries
      modifies pageCache, pageCache.Repr, pageTable, physical.memory, physical.frames, store
      ensures Parts() && Mapped(NONE) && Shows() && page in frameOf && frameOf[page] == frame
      ensures fresh(pageCache.Repr - old(pageCache.Repr)) && fresh(tlb.cache.Repr - old(tlb.cache.Repr))
      ensures var full := |old(pageCache.slots)| == pageCache.capacity;
              && pageCache.slots == (if full then old(pageCache.slots)[1..] else old(pageCache.slots)) + [page]
              && tlb.pages == Paging.TlbAdd(if full then Without(old(tlb.pages), old(pageCache.slots)[0]) else old(tlb.pages),
                                              tlb.cache.capacity, page)
    {
      hide Cache.Valid, Buffer.Valid, PhysicalMemory.Valid, Inverse, Distinct, Tables, Backed, PagesOf, Inside, Without, Paging.TlbAdd;
      if pageCache.Full() {
        frame := Evict();
      } else {
        frame := FreeFrame();
      }
      ghost var frames := physical.frames[..];
      Fetch(page, frame);
      Enter(page, frame, frames);
      EnterTlb(page);
    }

    /** The frame of `page` if it is resident, found through the page cache, or -1. */
    method Lookup(page: int) returns (frame: int)
      requires Parts() && Mapped(NONE)
      modifies pageCache, pageCache.Repr
      ensures Parts() && Mapped(NONE) && pageCache.Repr == old(pageCache.Repr)
      ensures page in frameOf ==> frame == frameOf[page] && pageCache.slots == Without(old(pageCache.slots), page) + [page]
      ensures page !in frameOf ==> frame == NONE && pageCache.slots == old(pageCache.slots)
    {
      hide Cache.Valid, Buffer.Valid, PhysicalMemory.Valid, Inverse, Distinct;
      ResidentPages(pageTable[..], pageCache.slots, physical.frames[..], frameOf, pageIn, NONE);
      var cached := pageCache.Query(page, pageTable);
      if cached == NONE {
        return NONE;
      }
      WithoutMembers(old(pageCache.slots), page);
      frame := pageTable[cached].frameNumber;
    }

    /** The frame that holds `page` after one access to it. */
    method Translate(page: int) returns (frame: int)
      requires Parts() && Mapped(NONE) && Shows() && 0 <= page < PAGES
      modifies this`frameOf, this`pageIn, this`pageFaults, this`totalAccesses
      modifies tlb, tlb.cache, tlb.cache.Repr, tlb.entries
      modifies pageCache, pageCache.Repr, pageTable, physical.memory, physical.frames, store
      ensures Parts() && Mapped(NONE) && Shows() && page in frameOf && frameOf[page] == frame
      ensures fresh(pageCache.Repr - old(pageCache.Repr)) && fresh(tlb.cache.Repr - old(tlb.cache.Repr))
      ensures State() == Paging.Access(old(State()), pageCache.capacity, tlb.cache.capacity, page)
    {
      hide Cache.Valid, Buffer.Valid, PhysicalMemory.Valid, Inverse, Distinct, Tables, Backed, PagesOf, Inside, Without, Paging.TlbAdd;
      ResidentPages(pageTable[..], pageCache.slots, physical.frames[..], frameOf, pageIn, NONE);
      tlb.MappedPages();
      totalAccesses := totalAccesses + 1;
      frame := tlb.Query(page);
      if frame == NONE {
        frame := Lookup(page);
        if frame != NONE {
          EnterTlb(page);
        } else {
          pageFaults := pageFaults + 1;
          frame := Fault(page);
        }
      }
    }

    /** The physical address of `address`, through the TLB, the page cache or a page fault. */
    method GetPhysicalAddress(address: int) returns (physicalAddress: int)
      requires Valid()
      modifies this, tlb, tlb.cache, tlb.cache.Repr, tlb.entries
      modifies pageCache, pageCache.Repr, pageTable, physical.memory, physical.frames, store
      ensures Valid() && fresh(pageCache.Repr - old(pageCache.Repr)) && fresh(tlb.cache.Repr - old(tlb.cache.Repr))
      ensures flat == old(flat) && trace == old(trace) + [PageNumber(address)]
      ensures PageNumber(address) in frameOf
      ensures physicalAddress == frameOf[PageNumber(address)] * PAGE_SIZE + Offset(address)
    {
      hide Cache.Valid, Buffer.Valid, PhysicalMemory.Valid, Tables, Backed, PagesOf, Inside, Paging.Run, Paging.Access;
      var page, offset := PageNumber(address), Offset(address);
      Paging.RunAppend(pageCache.capacity, tlb.cache.capacity, trace, page);
      var frame := Translate(page);
      trace := trace + [page];
      physicalAddress := frame * PAGE_SIZE + offset;
    }

    /** Reads a byte: exactly the byte of the flat array. */
    method Read(address: int) returns (value: Int8)
      requires Valid()
      modifies this, tlb, tlb.cache, tlb.cache.Repr, tlb.entries
      modifies pageCache, pageCache.Repr, pageTable, physical.memory, physical.frames, store
      ensures Valid() && fresh(pageCache.Repr - old(pageCache.Repr)) && fresh(tlb.cache.Repr - old(tlb.cache.Repr))
      ensures flat == old(flat) && trace == old(trace) + [PageNumber(address)]
      ensures |flat| == SPACE && value == flat[address % SPACE]
    {
      hide Cache.Valid, Buffer.Valid, PhysicalMemory.Valid, Tables, Backed, Page, PagesOf, Inside, Paging.Run, Paging.Access;
      var physicalAddress := GetPhysicalAddress(address);
      AddressJoined(frameOf[PageNumber(address)], Offset(address));
      BackedRead(flat, physical.memory[..], store[..], physical.frames[..], frameOf, address);
      var frame, offset := physicalAddress / PAGE_SIZE, physicalAddress % PAGE_SIZE;
      value := physical.Read(frame, offset);
    }

    /** Writes a byte: exactly the byte of the flat array. */
    method Write(address: int, value: Int8)
      requires Valid()
      modifies this, tlb, tlb.cache, tlb.cache.Repr, tlb.entries
      modifies pageCache, pageCache.Repr, pageTable, physical.memory, physical.frames, store
      ensures Valid() && fresh(pageCache.Repr - old(pageCache.Repr)) && fresh(tlb.cache.Repr - old(tlb.cache.Repr))
      ensures |old(flat)| == SPACE && flat == old(flat)[address % SPACE := value]
      ensures trace == old(trace) + [PageNumber(address)]
    {
      hide Cache.Valid, Buffer.Valid, PhysicalMemory.Valid, Tables, Page, Backed, PagesOf, Inside, Paging.Run, Paging.Access;
      var physicalAddress := GetPhysicalAddress(address);
      AddressSplit(address);
      AddressJoined(frameOf[PageNumber(address)], Offset(address));
      var frame, offset := physicalAddress / PAGE_SIZE, physicalAddress % PAGE_SIZE;
      WriteByte(PageNumber(address), frame, offset, value);
    }

    /** Writes a byte into the frame of a resident page. */
    method WriteByte(ghost page: int, frame: int, offset: int, value: Int8)
      requires Parts() && Mapped(NONE) && Shows() && page in frameOf && frameOf[page] == frame && 0 <= offset < PAGE_SIZE
      modifies this`flat, physical.memory, physical.frames
      ensures Parts() && Mapped(NONE) && Shows()
      ensures |old(flat)| == SPACE && 0 <= page * PAGE_SIZE + offset < SPACE && flat == old(flat)[page * PAGE_SIZE + offset := value]
    {
      hide Cache.Valid, Buffer.Valid, Page, Backed, PagesOf, Inside;
      ghost var memory, frames := physical.memory[..], physical.frames[..];
      physical.Write(frame, offset, value);
      BackedWrite(flat, memory, physical.memory[..], store[..], frames, frameOf, pageIn, page, offset, value);
      flat := flat[page * PAGE_SIZE + offset := value];
    }

    /** Writes every dirty page back: the backing store now holds the flat array. */
    method Destroy()
      requires Valid()
      modifies physical.frames, store
      ensures store[..SPACE] == flat
    {
      hide Cache.Valid, Buffer.Valid, PhysicalMemory.Valid, Page, PagesOf, Inside, Paging.Run, Paging.Access;
      var page := 0;
      while page < pageTable.Length
        invariant 0 <= page <= pageTable.Length && Parts() && Mapped(NONE) && Shows()
        invariant forall p :: p in frameOf && p < page ==> !physical.frames[frameOf[p]].dirty
      {
        if pageTable[page].valid {
          WriteBack(page, pageTable[page].frameNumber);
        }
        page := page + 1;
      }
      AllClean();
    }

    lemma {:induction false} AllClean()
      requires Tables(pageTable[..], pageCache.slots, physical.frames[..], frameOf, pageIn, NONE) && Shows()
      requires forall p :: p in frameOf ==> !physical.frames[frameOf[p]].dirty
      ensures store[..SPACE] == flat
    {
      forall a | 0 <= a < SPACE ensures store[a] == flat[a] {
        var p := a / PAGE_SIZE;
        assert Page(store[..], p)[a % PAGE_SIZE] == Page(flat, p)[a % PAGE_SIZE];
      }
    }
  }

  datatype Operation = Load(address: int) | Store(address: int, value: Int8)

  /** What one flat byte array does with a run of operations: the bytes read, and the final array. */
  function FlatRun(flat: seq<Int8>, ops: seq<Operation>): (result: (seq<Int8>, seq<Int8>))
    requires |flat| == SPACE
    ensures |result.1| == SPACE
  {
    if ops == [] then ([], flat)
    else
      var (values, last) := FlatRun(flat, ops[..|ops| - 1]);
      match ops[|ops| - 1]
      case Load(address) => (values + [last[address % SPACE]], last)
      case Store(address, value) => (values, last[address % SPACE := value])
  }

  // ----- what the operations alone say about the bytes read

  predicate Stores(op: Operation, a: int) { op.Store? && op.address % SPACE == a }

  /** Operation `i` is the last one that stores to byte `a`. */
  ghost predicate LastStore(ops: seq<Operation>, a: int, i: int) {
    0 <= i < |ops| && Stores(ops[i], a) && forall j :: i < j < |ops| ==> !Stores(ops[j], a)
  }

  ghost predicate NeverStored(ops: seq<Operation>, a: int) {
    forall j :: 0 <= j < |ops| ==> !Stores(ops[j], a)
  }

  /** `x` is what was last stored at `a`, or was there at first. */
  ghost predicate LastStored(flat: seq<Int8>, ops: seq<Operation>, a: int, x: Int8)
    requires 0 <= a < |flat|
  {
    (NeverStored(ops, a) && x == flat[a]) || exists i :: LastStore(ops, a, i) && ops[i].value == x
  }

  lemma {:induction false} LastStoredNext(flat: seq<Int8>, ops: seq<Operation>, op: Operation, a: int, x: Int8)
    requires 0 <= a < |flat|
    ensures Stores(op, a) ==> LastStored(flat, ops + [op], a, op.value)
    ensures !Stores(op, a) && LastStored(flat, ops, a, x) ==> LastStored(flat, ops + [op], a, x)
  {
    var more, n := ops + [op], |ops|;
    assert more[n] == op;
    assert forall j :: 0 <= j < n ==> more[j] == ops[j];
    if Stores(op, a) {
      assert LastStore(more, a, n);
    } else if LastStored(flat, ops, a, x) && !NeverStored(ops, a) {
      var i :| LastStore(ops, a, i) && ops[i].value == x;
      assert LastStore(more, a, i);
    }
  }

  /** After any operations every byte is the one last stored there. */
  lemma {:induction false} BytesLastStored(flat: seq<Int8>, ops: seq<Operation>, a: int)
    requires |flat| == SPACE && 0 <= a < SPACE
    ensures LastStored(flat, ops, a, FlatRun(flat, ops).1[a])
  {
    hide LastStored;
    if ops == [] {
      NothingStored(flat, a);
    } else {
      var before, op := ops[..|ops| - 1], ops[|ops| - 1];
      assert ops == before + [op];
      BytesLastStored(flat, before, a);
      LastStoredNext(flat, before, op, a, FlatRun(flat, before).1[a]);
    }
  }

  lemma {:induction false} NothingStored(flat: seq<Int8>, a: int)
    requires 0 <= a < |flat|
    ensures LastStored(flat, [], a, flat[a])
  {
  }

  function Loads(ops: seq<Operation>): nat {
    if ops == [] then 0 else Loads(ops[..|ops| - 1]) + if ops[|ops| - 1].Load? then 1 else 0
  }

  lemma {:induction false} ValuesKept(flat: seq<Int8>, ops: seq<Operation>, n: nat)
    requires |flat| == SPACE && n <= |ops|
    ensures Loads(ops[..n]) <= Loads(ops) == |FlatRun(flat, ops).0| && FlatRun(flat, ops[..n]).0 == FlatRun(flat, ops).0[..Loads(ops[..n])]
    decreases |ops|
  {
    if n == |ops| {
      assert ops[..n] == ops;
      if n > 0 { ValuesKept(flat, ops[..n - 1], n - 1); }
    } else {
      var before := ops[..|ops| - 1];
      ValuesKept(flat, before, n);
      assert before[..n] == ops[..n];
    }
  }

  /** Every load reads the byte last stored at its address before it, or the byte that was there at first; there is
      one value for every load. */
  lemma {:induction false} LoadsLastStored(flat: seq<Int8>, ops: seq<Operation>, k: nat)
    requires |flat| == SPACE && k < |ops| && ops[k].Load?
    ensures |FlatRun(flat, ops).0| == Loads(ops) > Loads(ops[..k])
    ensures LastStored(flat, ops[..k], ops[k].address % SPACE, FlatRun(flat, ops).0[Loads(ops[..k])])
  {
    hide LastStored;
    ValuesKept(flat, ops, k + 1);
    ValuesKept(flat, ops[..k + 1], k);
    ValuesKept(flat, ops[..k], k);
    assert ops[..k + 1][..k] == ops[..k];
    BytesLastStored(flat, ops[..k], ops[k].address % SPACE);
  }

  function PagesTouched(ops: seq<Operation>): seq<int> {
    seq(|ops|, i requires 0 <= i < |ops| => PageNumber(ops[i].address))
  }

  /** Any run of reads and writes followed by shutdown behaves like one flat byte array that starts
      as the backing store; the paging lists and counters are those of the paging policy. */
  method Execute(pageTableCapacity: nat, tlbCapacity: nat, memory: array<Int8>, store: array<Int8>, ops: seq<Operation>)
    returns (values: seq<Int8>, vm: Pager)
    requires pageTableCapacity >= PAGES && tlbCapacity > 0
    requires memory.Length >= PAGE_SIZE && store.Length >= SPACE && memory != store
    modifies memory, store
    ensures values == FlatRun(old(store[..SPACE]), ops).0
    ensures store[..SPACE] == FlatRun(old(store[..SPACE]), ops).1
    ensures vm.State() == Paging.Run(memory.Length / PAGE_SIZE, tlbCapacity, PagesTouched(ops))
  {
    hide Cache.Valid, Buffer.Valid, PhysicalMemory.Valid, Page, PagesOf, Inside, Paging.Run, Paging.Access, Backed, Tables;
    vm := new Pager(pageTableCapacity, tlbCapacity, memory, store);
    values := [];
    var i := 0;
    while i < |ops|
      invariant 0 <= i <= |ops| && vm.Valid() && fresh(vm)
      invariant vm.store == store && vm.physical.memory == memory
      invariant vm.pageCache.capacity == memory.Length / PAGE_SIZE && vm.tlb.cache.capacity == tlbCapacity
      invariant fresh(vm.pageTable) && fresh(vm.pageCache) && fresh(vm.pageCache.Repr) && fresh(vm.physical.frames)
      invariant fresh(vm.tlb) && fresh(vm.tlb.entries) && fresh(vm.tlb.cache) && fresh(vm.tlb.cache.Repr)
      invariant (values, vm.flat) == FlatRun(old(store[..SPACE]), ops[..i])
      invariant vm.trace == PagesTouched(ops[..i])
    {
      assert ops[..i + 1][..i] == ops[..i];
      assert PagesTouched(ops[..i + 1]) == PagesTouched(ops[..i]) + [PageNumber(ops[i].address)];
      match ops[i] {
        case Load(address) =>
          var value := vm.Read(address);
          values := values + [value];
        case Store(address, value) =>
          vm.Write(address, value);
      }
      i := i + 1;
    }
    assert ops[..|ops|] == ops;
    vm.Destroy();
  }
}

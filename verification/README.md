# Verified models of the course projects

These modules model the stateful algorithms of an undergraduate course repository and prove that each does
what a much simpler specification says, for every input and every run. Functions and state machines say what
should happen; classes and methods over arrays and linked nodes are written step by step after the C and C++
code and are proved against them.

| part | modules | the simple form it agrees with |
|---|---|---|
| virtual memory (operating systems, project 8) | `Seqs`, `Paging`, `Recency`, `LruCache`, `Tlb`, `Physical`, `VirtualMemory` | one flat byte array, and lists ordered by last access |
| ordered map (container library) | `RbTree`, `RbHeap`, `RbSwap`, `RbOrder`, `RbMap`, `MapRun` | a sorted listing of nodes, and a mathematical map |
| leftmost vacancy (OJ1528) | `VacancyTree` | a plain boolean array |
| minimax partition (OJ1885) | `Minimax` | the minimum over all partitions |
| sorting substrings (OJ1114) | `HeapTree`, `SortingTree` | sorting each substring in turn |
| affine updates (OJ1865) | `HeapTree`, `AffineTree`, `Arithmetic` | a plain array of unbounded numbers |
| banker (operating systems, project 6) | `Safety`, `Banker` | existence of an order in which all can finish |
| memory allocator (project 7) | `Blocks`, `FreeList`, `Policy`, `LinkedList`, `AllocList`, `Tiling`, `Allocator` | the set of live bytes |
| priority queue (container library) | `Degrees`, `Binomial`, `BinomialHeap`, `PriorityQueue` | a multiset of keys |
| thread pool, producers and consumers (project 5) | `Arithmetic`, `TaskQueue` | a queue, in every interleaving |
| shortest job first (project 4) | `ShortestFirst`, `LinkedList`, `Scheduler` | the best of all orders |
| matrix product (architecture lab 3) | `MatrixProduct`, `MatrixMultiply` | the triple loop |

How the parts are built:

- Linked structures (the map and the priority queue) are related to trees through snapshots: `Snap` takes the
  fields of a set of nodes as a map, and `Shown` says that in such a map the links at a place show a tree. Each
  relinking is a lemma from one snapshot to the next, and the methods perform the same assignments. What the
  algorithms do to the shapes is proved on trees alone (`RbTree`, `Binomial`).
- The two rings of the free list are sequences of nodes; what is free is a list of blocks, and `Canonical` (in
  order, positive, never adjacent) makes it depend on the set of free bytes alone (`Blocks.CanonicalUnique`).
- The nodes of the lazy trees stand for arrays or strings (`Content`, `Stands`); pending tags are part of what a
  node stands for, so that pushing down changes nothing.
- The thread pool is a state machine whose steps are the single operations on shared memory; threads may
  interleave in any way, and there may be any number of them.
- Whole runs are tied to a fold over the requests. What the fold does is stated apart from it: one more request
  entry by entry (`VacancyTree.ServedNext`, `Safety.RequestServed`, `PriorityQueue.ServedIs`, `SortingTree.SortAllNext`,
  `AffineTree.NaiveNext`), and the end of a run from the requests alone (`VacancyTree.TakenIff`, `MapRun.Remembered`,
  `VirtualMemory.LoadsLastStored`, `AffineTree.ValueIs`, `PriorityQueue.NoKeyLost`, `TaskQueue.NothingLost`).
- Numbers of customers, resources, pages of the page table, TLB entries, frames, tasks, threads and matrix
  dimensions are parameters, not the constants of the programs.

Where the code falls short of what one might expect, the models keep the code:

- The tasks of the scheduler are deleted by name. `ShortestFirst.SameNameTwice` is a list on which a task is
  never run, and `ShortestFirst.RunsEachOnceIff` says exactly when every task is run once; the optimality
  results use that condition, which is weaker than names being different.
- The banker never compares the maxima with what is available, and reads them unchecked. `Safety.OpeningSound`
  and `Safety.UnsafeOpeningStays` say exactly when the opening is safe and that otherwise nothing is ever granted;
  `Safety.OpeningCanEmptyIff` says exactly when everyone can finish.
- A TLB hit does not refresh the page cache. `Recency.BusyPageEvicted` is a run on which the page accessed last is
  evicted, and `Recency.AlwaysLeastRecentIff` says exactly when the page cache is a least recently used one: with
  one frame or one TLB entry. `Paging.VictimIsOldestMiss` says which page leaves in every case.
- The priority queue may leave neighbours of one degree behind and roots out of order. `Degrees.NeighboursLeft`
  has a merge for each, and `Degrees.AscendingIff` says exactly when merging keeps the degrees ascending;
  `Degrees.PushAscending` says that pushing always does. Heap order, sizes and keys do not need it.

## Model

| member | source | states |
|---|---|---|
| `VirtualMemory.Execute` | CS2303 Operating System/Project 8/virtual_memory.c:35-147 | for any run of reads and writes on a fresh virtual memory the values read are those of one flat byte array that starts as the backing store, after shutdown the store holds the final array, and lists and counters are those of the paging policy |
| `VirtualMemory.LoadsLastStored` | CS2303 Operating System/Project 8/virtual_memory.c:60-82 | every load reads the byte last stored at its address modulo 65536 before it, or the byte that was there at first |
| `VirtualMemory.BytesLastStored` | CS2303 Operating System/Project 8/virtual_memory.c:60-82 | after any run every byte of the flat array is the one last stored there, or the first one |
| `VirtualMemory.Pager.constructor` | CS2303 Operating System/Project 8/virtual_memory.c:10-33 | an empty page table, page cache and TLB over the given memory and store; the program sees the store |
| `VirtualMemory.Pager.GetPhysicalAddress` | CS2303 Operating System/Project 8/virtual_memory.c:84-147 | the page becomes resident and the address is its frame and the offset; what the program sees does not change; the state moves by one access of the policy |
| `VirtualMemory.Pager.Read` | CS2303 Operating System/Project 8/virtual_memory.c:60-71 | the byte of the flat array at the address modulo 65536, which stays as it is |
| `VirtualMemory.Pager.Write` | CS2303 Operating System/Project 8/virtual_memory.c:73-82 | exactly one byte of the flat array changes, and all parts still agree with it |
| `VirtualMemory.Pager.Destroy` | CS2303 Operating System/Project 8/virtual_memory.c:35-58 | every dirty resident page is written back, so that the store equals the flat array |
| `VirtualMemory.Pager.Translate` | CS2303 Operating System/Project 8/virtual_memory.c:88-147 | TLB hit, page-cache hit and fault together move lists and counters by exactly one step of the policy and keep page table, page cache, frames and TLB in bijection |
| `VirtualMemory.Pager.Fault` | CS2303 Operating System/Project 8/virtual_memory.c:102-146 | the page is loaded into a free or freed frame; the oldest page goes from the page cache and the TLB exactly when the cache was full |
| `VirtualMemory.Pager.Lookup` | CS2303 Operating System/Project 8/virtual_memory.c:94-100 | a resident page is found in its frame and moved to the back of the page cache; any other lookup changes nothing |
| `VirtualMemory.Pager.Evict` | CS2303 Operating System/Project 8/virtual_memory.c:104-123 | the least recently missed page is written back if dirty and leaves frame, page cache, TLB and page table together; the program sees the same bytes |
| `VirtualMemory.Pager.Unmap` | CS2303 Operating System/Project 8/virtual_memory.c:118-122 | the oldest page leaves page cache, TLB and page table; its frame is the one spare frame |
| `VirtualMemory.Pager.WriteBack` | CS2303 Operating System/Project 8/virtual_memory.c:110-116 | the page is clean afterwards, no other frame changes and the program sees the same bytes |
| `VirtualMemory.Pager.Fetch` | CS2303 Operating System/Project 8/virtual_memory.c:135-142 | the frame is valid and clean and shows the page of the flat array |
| `VirtualMemory.Pager.FreeFrame` | CS2303 Operating System/Project 8/virtual_memory.c:125-133 | the search ends at a frame that no resident page uses |
| `VirtualMemory.Pager.SomeFrameFree` | CS2303 Operating System/Project 8/virtual_memory.c:124-133 | while the page cache is not full some frame is unused, by counting |
| `VirtualMemory.BackedWriteBack` | CS2303 Operating System/Project 8/virtual_memory.c:110-116 | writing a page back makes it clean and changes no byte the program sees |
| `VirtualMemory.BackedLoad` | CS2303 Operating System/Project 8/virtual_memory.c:135-142 | reading a page into an unused frame keeps what the program sees |
| `VirtualMemory.BackedWrite` | CS2303 Operating System/Project 8/virtual_memory.c:73-82 | a byte written into the frame of a page is the same byte of the flat array |
| `VirtualMemory.BackedRead` | CS2303 Operating System/Project 8/virtual_memory.c:60-71 | a byte of the frame of a resident page is the byte of the flat array |
| `VirtualMemory.TablesEvict` | CS2303 Operating System/Project 8/virtual_memory.c:118-122 | evicting keeps valid page-table entries, resident pages and used frames in bijection but for the spare frame |
| `VirtualMemory.TablesLoad` | CS2303 Operating System/Project 8/virtual_memory.c:138-143 | loading into the spare frame completes the bijection again |
| `VirtualMemory.AddressSplit` | CS2303 Operating System/Project 8/virtual_memory.c:86-87 | page and offset put together are the address modulo 65536 |
| `Paging.RunCoherent` | CS2303 Operating System/Project 8/virtual_memory.c:84-147 | in every reachable state the page cache has no page twice and at most as many as frames, orders its pages by last TLB miss, the TLB holds the most recently accessed resident pages, and hits, misses, faults and accesses are exactly the accesses the TLB answered, those it did not, those to pages that were not resident, and all |
| `Paging.ResidentsGrow` | CS2303 Operating System/Project 8/virtual_memory.c:88-146 | an accessed page is resident afterwards, and while it already was or a frame is free no page leaves |
| `Paging.FramesFill` | CS2303 Operating System/Project 8/virtual_memory.c:102-146 | after any run as many pages are resident as were accessed or as there are frames; while there are frames for all of them exactly the accessed pages are resident and each faulted exactly once |
| `Paging.TlbIsMostRecent` | CS2303 Operating System/Project 8/TLB.c:55-105 | the TLB holds exactly the last min(capacity, residents) resident pages by last access, although the page cache ignores TLB hits |
| `Paging.VictimIsOldestMiss` | CS2303 Operating System/Project 8/virtual_memory.c:104-123 | the page evicted next is the resident page whose last TLB miss is oldest, and it leaves the TLB too |
| `Recency.AlwaysLeastRecentIff` | CS2303 Operating System/Project 8/virtual_memory.c:84-147 | on every run the page evicted next is the resident page accessed longest ago exactly when there is only one frame or only one TLB entry |
| `Recency.BusyPageEvicted` | CS2303 Operating System/Project 8/virtual_memory.c:88-123 | two frames, two TLB entries, accesses to 0, 1, 0 and 2: page 0 is evicted although it was accessed last |
| `Recency.OrderedByLastAccess` | CS2303 Operating System/Project 8/TLB.c:55-67 | with one frame or one TLB entry the page cache is ordered by last access on every run, for a hit can only be on the page accessed last |
| `Recency.BusyPageFirst` | CS2303 Operating System/Project 8/virtual_memory.c:84-147 | for every larger number of frames and TLB entries some run fills the page cache and leaves in front a page that is not the one accessed longest ago |
| `Tlb.Buffer.Query` | CS2303 Operating System/Project 8/TLB.c:55-67 | the frame of a mapped page, moved to the back, and one hit; else -1, nothing moved, and one miss |
| `Tlb.Buffer.Insert` | CS2303 Operating System/Project 8/TLB.c:69-92 | the page is mapped and last in the list; a full TLB loses its oldest page and nothing else |
| `Tlb.Buffer.Remove` | CS2303 Operating System/Project 8/TLB.c:94-105 | unmaps the page exactly when it was mapped and keeps the order of the others |
| `Tlb.Buffer.TakeEntry` | CS2303 Operating System/Project 8/TLB.c:73-85 | an unused entry, after the oldest one was dropped if the list was full |
| `Tlb.Buffer.SomeUnused` | CS2303 Operating System/Project 8/TLB.c:79-85 | a list that is not full leaves an unused entry, so the search succeeds |
| `LruCache.Cache.Query` | CS2303 Operating System/Project 8/LRU_cache.c:46-66 | the entry with the page moves to the back of the ring and the others keep their order; a miss changes nothing |
| `LruCache.Cache.Insert` | CS2303 Operating System/Project 8/LRU_cache.c:68-97 | a listed page is only moved; a full list drops and returns its oldest entry; else the entry is appended |
| `LruCache.Cache.Remove` | CS2303 Operating System/Project 8/LRU_cache.c:101-119 | exactly the entry with the page leaves the ring |
| `LruCache.Cache.LeastRecentlyUsed` | CS2303 Operating System/Project 8/LRU_cache.c:99-99 | the first entry of the list, or none |
| `Physical.CopyPage` | CS2303 Operating System/Project 8/virtual_memory.c:111-114 | copies one page and leaves every other page alone |
| `Physical.PhysicalMemory.Write` | CS2303 Operating System/Project 8/physical_memory.c:37-41 | changes one byte of one frame and marks that frame dirty |
| `Physical.PhysicalMemory.Read` | CS2303 Operating System/Project 8/physical_memory.c:32-35 | the byte of the frame at the offset |
| `MapRun.Run` | CS0501 Data Structure/STLite/map.hpp:538-612 | any run of insertions, erasures and lookups on the red-black tree is answered as by a mathematical map |
| `MapRun.Remembered` | CS0501 Data Structure/STLite/map.hpp:538-612 | after any requests a key is there exactly when some insertion of it has not been erased since, with the value of the first such insertion |
| `MapRun.AnswerAt` | CS0501 Data Structure/STLite/map.hpp:538-612 | an insertion adds, an erasure succeeds and a lookup finds exactly by whether such an insertion stands just before it, and the lookup gives its value |
| `RbMap.Map.Insert` | CS0501 Data Structure/STLite/map.hpp:538-563 | keeps the red-black and search-tree invariants and the parent links, and adds exactly one new node at its place, or nothing when the key is there |
| `RbMap.Map.Erase` | CS0501 Data Structure/STLite/map.hpp:564-597 | keeps the invariants and removes exactly the node at the iterator; every other element stays in its own node; at the end, and for an iterator of another map, it fails and changes nothing |
| `RbMap.Map.Find` | CS0501 Data Structure/STLite/map.hpp:599-612 | the node with the key, or the end exactly when no node has it |
| `RbMap.Map.At` | CS0501 Data Structure/STLite/map.hpp:494-507 | the value at the key, or the error exactly when no node has it |
| `RbMap.Map.Begin` | CS0501 Data Structure/STLite/map.hpp:469-475 | the first node in key order, or the end of an empty map |
| `RbMap.Map.Next` | CS0501 Data Structure/STLite/map.hpp:239-279 | ++ leads from each position to the next one and fails exactly at the end |
| `RbMap.Map.Previous` | CS0501 Data Structure/STLite/map.hpp:280-320 | -- leads from each position, the end included, to the one before it, so it undoes ++, and fails exactly at the beginning |
| `RbMap.Map.Walk` | CS0501 Data Structure/STLite/map.hpp:260-279 | ++ from begin to end visits every node once in strictly increasing key order |
| `RbMap.Map.LLRotate` | CS0501 Data Structure/STLite/map.hpp:58-68 | memory shows the tree turned right about the node, at the same place |
| `RbMap.Map.RRRotate` | CS0501 Data Structure/STLite/map.hpp:69-79 | memory shows the tree turned left about the node, at the same place |
| `RbMap.Map.LRRotate` | CS0501 Data Structure/STLite/map.hpp:80-87 | memory shows the left-right double rotation |
| `RbMap.Map.RLRotate` | CS0501 Data Structure/STLite/map.hpp:88-95 | memory shows the right-left double rotation |
| `RbMap.Map.TurnInsert` | CS0501 Data Structure/STLite/map.hpp:103-113 | with a black uncle the four cases, taken one after the other, end the repair |
| `RbMap.Map.PassUp` | CS0501 Data Structure/STLite/map.hpp:114-121 | with a red uncle the red moves two levels up and the rest of the repair is the same |
| `RbMap.Map.AdjustInsert` | CS0501 Data Structure/STLite/map.hpp:97-122 | memory shows the repaired tree |
| `RbMap.Map.AdjustErase` | CS0501 Data Structure/STLite/map.hpp:123-176 | memory shows the tree repaired so that the black leaf can go |
| `RbMap.Map.EraseStep` | CS0501 Data Structure/STLite/map.hpp:127-174 | one round either ends the repair or hands the missing black to the parent |
| `RbMap.Map.Swap` | CS0501 Data Structure/STLite/map.hpp:178-222 | memory shows the same tree with the two nodes exchanged, whether they are adjacent or not |
| `RbMap.Map.SinkDown` | CS0501 Data Structure/STLite/map.hpp:569-583 | the exchanges bring the node to the bottom and leave all others in order |
| `RbMap.Map.CutOff` | CS0501 Data Structure/STLite/map.hpp:586-596 | the leaf is unlinked and nothing else |
| `RbTree.FixInsertRedBlack` | CS0501 Data Structure/STLite/map.hpp:97-122 | the repair after an insertion ends in a red-black tree |
| `RbTree.FixInsertInorder` | CS0501 Data Structure/STLite/map.hpp:97-122 | the repair after an insertion keeps the order of the nodes |
| `RbTree.FixEraseGood` | CS0501 Data Structure/STLite/map.hpp:123-176 | the repair before an erasure makes exactly the place of the leaf one black node shallower and leaves no red node under a red one |
| `RbTree.FixEraseInorder` | CS0501 Data Structure/STLite/map.hpp:123-176 | the repair before an erasure keeps the order of the nodes |
| `RbSwap.NearExchanges` | CS0501 Data Structure/STLite/map.hpp:178-205 | the assignments exchange a node with its child |
| `RbSwap.FarExchanges` | CS0501 Data Structure/STLite/map.hpp:178-221 | the assignments exchange a node with one further down |
| `RbSwap.RenameShown` | CS0501 Data Structure/STLite/map.hpp:178-222 | after the exchange of all links memory shows the tree with two nodes exchanged |
| `RbOrder.SwapKeepsRest` | CS0501 Data Structure/STLite/map.hpp:569-583 | exchanging a node with its neighbour in the order and dropping it leaves the same listing |
| `RbOrder.LeafGone` | CS0501 Data Structure/STLite/map.hpp:584-596 | after the repair the tree without the black leaf is red-black |
| `VacancyTree.Run` | CS0501 Data Structure/OJ/OJ1528.cpp:95-126 | for any run of requests the numbers printed are those of a plain boolean array searched from the left |
| `VacancyTree.ServedNext` | CS0501 Data Structure/OJ/OJ1528.cpp:104-123 | one more request: a reservation answered 0 found no run and changes nothing, answered p it takes exactly the leftmost run of vacant positions from p on; vacating frees exactly its range; no other position changes |
| `VacancyTree.TakenIff` | CS0501 Data Structure/OJ/OJ1528.cpp:95-126 | a position is taken exactly when some granted reservation covers it and no range that covers it has been vacated since |
| `VacancyTree.NoDoubleBooking` | CS0501 Data Structure/OJ/OJ1528.cpp:95-126 | two granted reservations share a position only if a range that covers it was vacated between them |
| `VacancyTree.Tree.Query` | CS0501 Data Structure/OJ/OJ1528.cpp:79-93 | the smallest start of enough vacant positions in a row, or -1 exactly when there is none; the array does not change |
| `VacancyTree.Tree.Change` | CS0501 Data Structure/OJ/OJ1528.cpp:62-77 | sets exactly the positions of the range, although tags are never cleared |
| `VacancyTree.Tree.Build` | CS0501 Data Structure/OJ/OJ1528.cpp:47-60 | numbers the nodes without a clash and leaves every position vacant |
| `VacancyTree.PushupGood` | CS0501 Data Structure/OJ/OJ1528.cpp:15-27 | a pushed-up node summarises its two halves and has a tag that is true of them |
| `VacancyTree.PushdownGood` | CS0501 Data Structure/OJ/OJ1528.cpp:29-44 | pushing a uniform tag down, again and again, makes the children agree with it |
| `VacancyTree.SummaryConcat` | CS0501 Data Structure/OJ/OJ1528.cpp:17-24 | prefix, suffix and longest run of two halves give those of the whole |
| `VacancyTree.LeftmostAcross` | CS0501 Data Structure/OJ/OJ1528.cpp:87-92 | when the left half has none, a run across the middle is the leftmost |
| `VacancyTree.LeftmostIsFirst` | CS0501 Data Structure/OJ/OJ1528.cpp:79-93 | the leftmost run is what a search from the left finds |
| `Minimax.Solve` | CS0501 Data Structure/OJ/OJ1885.cpp:57-79 | for weights of any sign 0 if some partition parts every relation, else the least weight that is the heaviest same-side one of some partition; without negative weights the least, over all partitions, of the greatest same-side weight |
| `Minimax.BestIsMinimax` | CS0501 Data Structure/OJ/OJ1885.cpp:57-79 | without negative weights the two descriptions of the answer agree |
| `Minimax.UnionFind.Find` | CS0501 Data Structure/OJ/OJ1885.cpp:16-21 | the representative; path compression changes no class |
| `Minimax.UnionFind.Union` | CS0501 Data Structure/OJ/OJ1885.cpp:23-27 | joins exactly the two classes |
| `Minimax.Sort` | CS0501 Data Structure/OJ/OJ1885.cpp:29-53 | permutes the stretch in place into descending weights |
| `Minimax.Partition` | CS0501 Data Structure/OJ/OJ1885.cpp:35-48 | splits the stretch around the middle weight |
| `Minimax.SeparateMirrored` | CS0501 Data Structure/OJ/OJ1885.cpp:74-75 | joining a with b+n and b with a+n keeps the mirror symmetry of the 2n elements |
| `Minimax.SeparateRespects` | CS0501 Data Structure/OJ/OJ1885.cpp:74-75 | every partition that parts a and b and agreed with the classes agrees with the joined ones |
| `Minimax.SideOfCrosses` | CS0501 Data Structure/OJ/OJ1885.cpp:67-76 | the sides the classes force part every relation so far |
| `Minimax.FirstClashIsBest` | CS0501 Data Structure/OJ/OJ1885.cpp:69-73 | the first relation in descending order whose ends are already together has the best weight |
| `Minimax.NoClashIsBest` | CS0501 Data Structure/OJ/OJ1885.cpp:77-77 | without such a relation some partition parts them all, and the answer is 0 |
| `Minimax.BestPermuted` | CS0501 Data Structure/OJ/OJ1885.cpp:66-66 | the best answer does not depend on the order of the relations |
| `Minimax.CostBounds` | CS0501 Data Structure/OJ/OJ1885.cpp:57-79 | the cost is the greatest weight of a same-side relation, or 0 |
| `SortingTree.Run` | CS0501 Data Structure/OJ/OJ1114.cpp:133-148 | after any sequence of operations the string printed is that of sorting each substring in turn |
| `SortingTree.SortAllNext` | CS0501 Data Structure/OJ/OJ1114.cpp:133-148 | one more operation leaves its substring in order, a permutation of what it was, and all other letters in their places |
| `SortingTree.SameLetters` | CS0501 Data Structure/OJ/OJ1114.cpp:133-148 | no run loses or makes up a letter |
| `SortingTree.WholeSorted` | CS0501 Data Structure/OJ/OJ1114.cpp:133-148 | sorting the whole string gives the sorted input, whatever was done before |
| `SortingTree.NaiveSortIsSort` | CS0501 Data Structure/OJ/OJ1114.cpp:10-45 | the letters dealt in order are the one sorted permutation of the substring |
| `SortingTree.Tree.ChangeNode` | CS0501 Data Structure/OJ/OJ1114.cpp:10-45 | the node gets the first letters of the counts in the order, and the counts keep exactly the rest |
| `SortingTree.Tree.Pushdown` | CS0501 Data Structure/OJ/OJ1114.cpp:58-66 | the string a node stands for does not change, and it is not lazy any more |
| `SortingTree.Tree.Query` | CS0501 Data Structure/OJ/OJ1114.cpp:82-97 | adds the letter counts of the range, and leaves no lazy node on the way to it |
| `SortingTree.Tree.Update` | CS0501 Data Structure/OJ/OJ1114.cpp:99-112 | writes the counted letters over the range without any pushdown, because the query of the same range has cleared the way |
| `SortingTree.Tree.Sort` | CS0501 Data Structure/OJ/OJ1114.cpp:138-145 | query and update together sort the substring |
| `SortingTree.Tree.Print` | CS0501 Data Structure/OJ/OJ1114.cpp:114-131 | prints the string the tree stands for |
| `SortingTree.Tree.Build` | CS0501 Data Structure/OJ/OJ1114.cpp:68-80 | the tree stands for the input string |
| `SortingTree.Spell` | CS0501 Data Structure/OJ/OJ1114.cpp:118-125 | the letters of a tally in the order of the node |
| `SortingTree.SortedUnique` | CS0501 Data Structure/OJ/OJ1114.cpp:114-131 | there is one sorted arrangement of given letters |
| `SortingTree.CutSpells` | CS0501 Data Structure/OJ/OJ1114.cpp:17-28 | cutting the counts cuts the sorted string at the same place |
| `SortingTree.PushdownStands` | CS0501 Data Structure/OJ/OJ1114.cpp:58-66 | dealing the letters of a lazy node to its children keeps the string |
| `AffineTree.Run` | CS0501 Data Structure/OJ/OJ1865.cpp:82-116 | for any run of additions, multiplications and questions, with values of any sign, the numbers printed agree with the plain array's sums up to multiples of m and lie between -m and m; without negative values they are the sums modulo m |
| `AffineTree.NaiveNext` | CS0501 Data Structure/OJ/OJ1865.cpp:34-80 | one more operation multiplies or increases exactly the covered positions, and a question adds up exactly the covered positions |
| `AffineTree.ValueIs` | CS0501 Data Structure/OJ/OJ1865.cpp:34-67 | the number at a position is the initial one times all multipliers that cover it plus every addend that covers it times the later multipliers that do |
| `AffineTree.SumsAsked` | CS0501 Data Structure/OJ/OJ1865.cpp:69-116 | there is one sum for every question, that of the covered positions as they are just before it |
| `AffineTree.Tree.Pushdown` | CS0501 Data Structure/OJ/OJ1865.cpp:16-32 | the numbers a node stands for do not change, and its children stand for their halves |
| `AffineTree.Tree.Add` | CS0501 Data Structure/OJ/OJ1865.cpp:34-49 | adds the value to exactly the numbers of the range |
| `AffineTree.Tree.Mult` | CS0501 Data Structure/OJ/OJ1865.cpp:51-67 | multiplies exactly the numbers of the range |
| `AffineTree.Tree.QuerySum` | CS0501 Data Structure/OJ/OJ1865.cpp:69-80 | the sum of the range up to multiples of m, between -m and m, and nonnegative if no value was negative; the numbers do not change |
| `AffineTree.ComposedTag` | CS0501 Data Structure/OJ/OJ1865.cpp:22-28 | tags compose as affine maps modulo m |
| `AffineTree.TagStands` | CS0501 Data Structure/OJ/OJ1865.cpp:22-28 | tagging a node maps all numbers it stands for |
| `AffineTree.PushdownStands` | CS0501 Data Structure/OJ/OJ1865.cpp:16-32 | handing the tag to both children changes no number |
| `AffineTree.StandsSum` | CS0501 Data Structure/OJ/OJ1865.cpp:48-48 | the sum kept in a node is that of its numbers modulo m |
| `Banker.Bank.CheckSafe` | CS2303 Operating System/Project 6/banker.c:231-270 | true exactly when some order of all customers exists in which each need fits in what is available and what those before it hold; the loop ends |
| `Banker.Bank.RequestResources` | CS2303 Operating System/Project 6/banker.c:144-179 | grants exactly the requests that exceed neither need nor available and leave a safe state; every other request restores the state |
| `Banker.Bank.ReleaseResources` | CS2303 Operating System/Project 6/banker.c:181-197 | takes back exactly what the customer holds enough of |
| `Banker.Bank.CheckFinish` | CS2303 Operating System/Project 6/banker.c:272-287 | a customer that needs nothing more returns everything; any other state stays |
| `Banker.Bank.Execute` | CS2303 Operating System/Project 6/banker.c:67-133 | one command line, with the checks of the prompt, is one step of the machine |
| `Banker.Bank.Run` | CS2303 Operating System/Project 6/banker.c:56-139 | any run of commands on a solvent bank, safe or not, is the run of the machine; it keeps the totals and a sound bank sound |
| `Banker.Session` | CS2303 Operating System/Project 6/banker.c:26-139 | a whole session: a negative amount available is turned away; otherwise the final state is that of the machine from the opening, sound exactly when no maximum exceeds what is available, and otherwise still the opening |
| `Banker.Bank.constructor` | CS2303 Operating System/Project 6/banker.c:43-53 | nobody holds anything and everybody needs the maximum |
| `Banker.Bank.Try` | CS2303 Operating System/Project 6/banker.c:245-262 | one look at a customer extends the order found so far exactly when its need fits |
| `Safety.StuckIsUnsafe` | CS2303 Operating System/Project 6/banker.c:241-269 | when no other customer can finish after some order, no full order exists: the greedy choice never misses one |
| `Safety.ServeKeeps` | CS2303 Operating System/Project 6/banker.c:144-197 | every command keeps a solvent bank solvent, need plus allocation at the maximum, available plus all allocations constant, and a safe bank safe |
| `Safety.ReachKeeps` | CS2303 Operating System/Project 6/banker.c:56-139 | so does every run, from safe and from unsafe states |
| `Safety.RequestServed` | CS2303 Operating System/Project 6/banker.c:67-104 | a request within the need, of any amount: granted when it is available and lending it is safe, and then exactly that amount moves, entry by entry; else nothing moves; a customer left without a need drops out and returns all it holds; any other request changes nothing |
| `Safety.ReleaseServed` | CS2303 Operating System/Project 6/banker.c:106-131 | a release within the allocation, of any amount, is the opposite move; any other changes nothing |
| `Safety.ReleaseUndoes` | CS2303 Operating System/Project 6/banker.c:144-197 | a granted request for less than the whole need is undone by releasing the same amount |
| `Safety.ReachSound` | CS2303 Operating System/Project 6/banker.c:56-139 | every state reached from a sound one is sound |
| `Safety.OpeningSound` | CS2303 Operating System/Project 6/banker.c:33-53 | for nonnegative amounts the opening is sound exactly when no maximum exceeds what is available |
| `Safety.UnsafeOpening` | CS2303 Operating System/Project 6/banker.c:43-53 | an input that the program accepts and whose opening is not safe |
| `Safety.UnsafeGrantsNothing` | CS2303 Operating System/Project 6/banker.c:153-178 | an unsafe bank grants no request |
| `Safety.UnsafeOpeningStays` | CS2303 Operating System/Project 6/banker.c:56-139 | when some maximum exceeds what is available no run of commands changes the opening state |
| `Safety.CanEmptyIff` | CS2303 Operating System/Project 6/banker.c:56-139 | from a sound state some run lets everyone finish exactly when no maximum is negative |
| `Safety.OpeningCanEmptyIff` | CS2303 Operating System/Project 6/banker.c:26-139 | from the opening some run lets everyone finish exactly when every maximum lies between 0 and what is available |
| `Safety.NegativeForever` | CS2303 Operating System/Project 6/banker.c:82-100 | a customer with a negative maximum never finishes: its requests are turned away |
| `Safety.OpeningSafe` | CS2303 Operating System/Project 6/banker.c:33-53 | the opening state is safe exactly when no maximum exceeds what is available, which the program never checks |
| `Safety.NextFinishes` | CS2303 Operating System/Project 6/banker.c:144-197 | the next customer of a safe order can be granted all it needs, finishes, and leaves the order safe |
| `Safety.EveryoneCanFinish` | CS2303 Operating System/Project 6/banker.c:144-197 | from every sound state without a negative need a finite run of granted requests finishes every customer and returns all resources |
| `Safety.AllCanFinish` | CS2303 Operating System/Project 6/banker.c:144-197 | the same from any point of a safe order |
| `Safety.GiveBackSafe` | CS2303 Operating System/Project 6/banker.c:181-197 | giving back keeps the state safe |
| `Safety.MoveConserves` | CS2303 Operating System/Project 6/banker.c:190-195 | whatever moves between bank and customer, the total of each resource stays |
| `Allocator.Arena.Alloc` | CS2303 Operating System/Project 7/allocator.c:33-41 | keeps live and free blocks tiling the memory in page-aligned blocks with no two free ones adjacent; fails exactly when no run of that many unallocated bytes exists; else takes the front of the block the policy picks |
| `Allocator.Arena.Free` | CS2303 Operating System/Project 7/allocator.c:43-48 | frees the first block with the name, merges it with its neighbours and keeps the tiling |
| `Allocator.Arena.constructor` | CS2303 Operating System/Project 7/allocator.c:8-23 | one free block |
| `Allocator.AllocThenFree` | CS2303 Operating System/Project 7/allocator.c:33-48 | allocating under a new name and freeing it restores both lists |
| `Allocator.Run` | CS2303 Operating System/Project 7/allocator.c:33-48 | any run of requests: every state tiles the memory, an allocation fails exactly when there is no room and else takes the front of the block its policy picks, and a release frees exactly the bytes of the first block with the name |
| `Allocator.ReleaseEitherWay` | CS2303 Operating System/Project 7/allocator.c:43-48 | releasing two names in either order ends in the same live and the same free blocks |
| `Tiling.FreeDetermined` | CS2303 Operating System/Project 7/freelist.c:91-122 | the list of free blocks depends only on the set of live bytes, so that the order of frees does not matter |
| `Tiling.RoundsUp` | CS2303 Operating System/Project 7/allocator.c:98-102 | clearing the low bits rounds up to the least multiple of a page size that is a power of two |
| `Tiling.RoomIsBlock` | CS2303 Operating System/Project 7/allocator.c:33-41 | there is room exactly when one free block is large enough |
| `Tiling.FreeAligned` | CS2303 Operating System/Project 7/allocator.c:98-102 | free blocks start at page boundaries |
| `Tiling.TiledAlloc` | CS2303 Operating System/Project 7/allocator.c:33-41 | allocating the front of a free block keeps the tiling |
| `Tiling.TiledFree` | CS2303 Operating System/Project 7/allocator.c:43-48 | freeing a live block keeps the tiling |
| `Policy.FirstFit` | CS2303 Operating System/Project 7/policy.c:3-18 | takes from the lowest block that is large enough, or fails when none is |
| `Policy.BestFit` | CS2303 Operating System/Project 7/policy.c:20-35 | takes from a smallest block that is large enough, or fails when none is |
| `Policy.WorstFit` | CS2303 Operating System/Project 7/policy.c:37-48 | takes from a largest block, or fails when it is too small |
| `Policy.SmallestLarge` | CS2303 Operating System/Project 7/policy.c:22-33 | the walk up the ring by size stops at a minimum of the large enough blocks |
| `Policy.Largest` | CS2303 Operating System/Project 7/policy.c:39-41 | the node before the base on the ring by size is a maximum |
| `FreeList.List.Alloc` | CS2303 Operating System/Project 7/freelist.c:64-89 | takes bytes off the front of a block; both rings keep the same nodes in their orders |
| `FreeList.List.Free` | CS2303 Operating System/Project 7/freelist.c:91-122 | exactly the returned bytes become free; both rings stay in order with no two blocks adjacent |
| `FreeList.List.Merge` | CS2303 Operating System/Project 7/freelist.c:184-206 | merging with both neighbours changes no free byte and ends with no two blocks adjacent |
| `FreeList.List.Sort` | CS2303 Operating System/Project 7/freelist.c:208-227 | the node goes to its place by size, from its old place or from none |
| `FreeList.List.Remove` | CS2303 Operating System/Project 7/freelist.c:169-182 | the node leaves both rings |
| `FreeList.List.Detach` | CS2303 Operating System/Project 7/freelist.c:211-215 | the node leaves the ring by size if it is on it |
| `FreeList.List.FindBefore` | CS2303 Operating System/Project 7/freelist.c:114-117 | the last node below the address |
| `FreeList.List.Hang` | CS2303 Operating System/Project 7/freelist.c:160-167 | a new node goes between its neighbours by address |
| `Blocks.CanonicalUnique` | CS2303 Operating System/Project 7/freelist.c:184-206 | two merged lists of the same free bytes are equal |
| `Blocks.RunInBlock` | CS2303 Operating System/Project 7/freelist.c:184-206 | free bytes in a row lie in one block of a merged list |
| `AllocList.List.Alloc` | CS2303 Operating System/Project 7/alloclist.c:20-44 | the allocation goes in front of the first one that does not lie below it |
| `AllocList.List.Free` | CS2303 Operating System/Project 7/alloclist.c:46-68 | removes the first allocation with the name, or reports that there is none |
| `AllocList.List.Address` | CS2303 Operating System/Project 7/alloclist.c:70-80 | the address of the first allocation with the name, or -1 |
| `PriorityQueue.Run` | CS0501 Data Structure/STLite/priority_queue.hpp:155-194 | any run of push, pop, top and merge requests to any number of queues is answered as by multisets that give out their greatest keys |
| `PriorityQueue.ServedIs` | CS0501 Data Structure/STLite/priority_queue.hpp:155-203 | a push adds its key to its queue, a pop takes one greatest key or reports an empty queue, a look gives a greatest key and changes nothing, a merge moves all keys; nothing else changes |
| `PriorityQueue.NoKeyLost` | CS0501 Data Structure/STLite/priority_queue.hpp:155-203 | in any run the keys pushed are those still in some queue and those popped, each greatest in its queue |
| `PriorityQueue.SortsByPopping` | CS0501 Data Structure/STLite/priority_queue.hpp:155-194 | pushing any keys and popping them all shows exactly these keys in descending order |
| `PriorityQueue.Queue.Top` | CS0501 Data Structure/STLite/priority_queue.hpp:155-166 | a greatest key, from the kept node or a walk over the roots; the error exactly for the empty queue |
| `PriorityQueue.Queue.Push` | CS0501 Data Structure/STLite/priority_queue.hpp:167-172 | adds the key; the forest stays a heap of binomial trees, length its number of keys, and the root degrees are those of a merge with one tree |
| `PriorityQueue.Queue.Pop` | CS0501 Data Structure/STLite/priority_queue.hpp:173-194 | removes exactly one greatest key, or fails on the empty queue |
| `PriorityQueue.Queue.MergeWith` | CS0501 Data Structure/STLite/priority_queue.hpp:197-203 | takes over all keys of the other queue, which becomes empty; the root degrees are the merged degrees of both |
| `PriorityQueue.Queue.Size` | CS0501 Data Structure/STLite/priority_queue.hpp:195-195 | the number of keys, which is the sum of two to the degree over the roots |
| `PriorityQueue.Queue.Link` | CS0501 Data Structure/STLite/priority_queue.hpp:29-60 | memory shows the two lists linked by degree |
| `PriorityQueue.Queue.Merge` | CS0501 Data Structure/STLite/priority_queue.hpp:61-109 | memory shows the neighbours of one degree combined, of three in a row the last two behind the head |
| `PriorityQueue.Queue.CombineHead` | CS0501 Data Structure/STLite/priority_queue.hpp:66-80 | the two first trees become one under the greater root |
| `PriorityQueue.Queue.CombineBehind` | CS0501 Data Structure/STLite/priority_queue.hpp:92-104 | the same further on in the list |
| `PriorityQueue.Queue.Unlink` | CS0501 Data Structure/STLite/priority_queue.hpp:177-185 | a root with a greatest key leaves the list |
| `PriorityQueue.Queue.FindBefore` | CS0501 Data Structure/STLite/priority_queue.hpp:177-181 | the node before a greatest root behind the first |
| `PriorityQueue.Queue.AbsorbOne` | CS0501 Data Structure/STLite/priority_queue.hpp:186-191 | one child of the removed root is linked in and merged |
| `Binomial.LinkedKeeps` | CS0501 Data Structure/STLite/priority_queue.hpp:29-60 | linking loses no key and keeps the heap |
| `Binomial.CombinedKeeps` | CS0501 Data Structure/STLite/priority_queue.hpp:68-79 | combining two trees of one degree keeps keys, heap order and the shape of binomial trees |
| `Binomial.MergedKeeps` | CS0501 Data Structure/STLite/priority_queue.hpp:61-109 | merging keeps keys and heap |
| `Binomial.AbsorbedKeeps` | CS0501 Data Structure/STLite/priority_queue.hpp:186-191 | putting the children back loses no key and keeps the heap |
| `Binomial.ExactSize` | CS0501 Data Structure/STLite/priority_queue.hpp:66-80 | a root of degree d has 2^d - 1 nodes below it |
| `Binomial.RootSizesAdd` | CS0501 Data Structure/STLite/priority_queue.hpp:195-195 | the powers of two of the roots add up to the number of keys |
| `Binomial.GreatestRoot` | CS0501 Data Structure/STLite/priority_queue.hpp:161-164 | a root that no root exceeds is a greatest key |
| `Degrees.AscendingIff` | CS0501 Data Structure/STLite/priority_queue.hpp:29-109 | two queues with ascending root degrees merge to ascending degrees exactly when one is empty, or the degree at which the carry of the first two trees ends is not in both, and above it no degree that both have is followed by one that only one of them has |
| `Degrees.TailAscending` | CS0501 Data Structure/STLite/priority_queue.hpp:83-109 | the second loop on degrees that occur at most twice leaves them ascending exactly when no pair is followed by a single one |
| `Degrees.HeadAscending` | CS0501 Data Structure/STLite/priority_queue.hpp:66-109 | both loops on a first tree whose carry ends at a given degree: ascending exactly when none is left at that degree and no pair above it is followed by a single one |
| `Degrees.PushAscending` | CS0501 Data Structure/STLite/priority_queue.hpp:167-172 | a push keeps ascending degrees ascending |
| `Degrees.PushedAscending` | CS0501 Data Structure/STLite/priority_queue.hpp:167-172 | a queue built by pushes alone has ascending degrees |
| `Degrees.NeighboursLeft` | CS0501 Data Structure/STLite/priority_queue.hpp:197-203 | merging the queues of three and six pushed keys leaves two neighbours of one degree, and two queues of three keys leave the roots out of order |
| `Binomial.LinkedDegrees` | CS0501 Data Structure/STLite/priority_queue.hpp:29-60 | the degrees of linked forests are the linked degrees |
| `Binomial.MergedDegrees` | CS0501 Data Structure/STLite/priority_queue.hpp:61-109 | the degrees of a merged forest are the merged degrees |
| `TaskQueue.MoveInv` | CS2303 Operating System/Project 5/threadpool.c:29-80 | every step of any thread keeps the ring, both semaphores and the mutex accounting for every place and thread |
| `TaskQueue.RemovedIsPrefix` | CS2303 Operating System/Project 5/producer-comsumer.c:78-127 | in every interleaving of any number of threads the items removed are a prefix of those inserted, and never more than the capacity are in |
| `TaskQueue.MoveRefines` | CS2303 Operating System/Project 5/threadpool.c:29-53 | a step appends the item it carries, hands out the oldest one, or leaves the queue alone |
| `TaskQueue.NothingLost` | CS2303 Operating System/Project 5/threadpool.c:29-80 | in every interleaving, for every item: the times it was set out to be enqueued or was accepted are the times it was inserted and those it is still on its way; the times it was offered are those it was accepted, refused or is undecided; the times it was removed are those it was returned or is on its way out |
| `TaskQueue.TaskCompleted` | CS2303 Operating System/Project 5/threadpool.c:29-80 | what an idle thread begins is done when it is idle again: enqueuing inserts its own item, dequeuing removes an item and returns that item, submitting looks at the queue and inserts its own item unless it was refused |
| `TaskQueue.InsertsOwn` | CS2303 Operating System/Project 5/threadpool.c:76-79 | a thread whose submission was accepted is not idle before it has inserted that item |
| `TaskQueue.RefusedWhenFull` | CS2303 Operating System/Project 5/threadpool.c:66-80 | a submission is refused exactly when the queue holds its capacity at that look |
| `TaskQueue.NeverAllBlocked` | CS2303 Operating System/Project 5/producer-comsumer.c:78-127 | with at least one producer and one consumer, in every state that any interleaving reaches some thread can move |
| `TaskQueue.AllBlockedIff` | CS2303 Operating System/Project 5/threadpool.c:29-53 | nobody can move exactly when all wait to insert into a full queue or all wait to remove from an empty one |
| `TaskQueue.NotAllBlocked` | CS2303 Operating System/Project 5/producer-comsumer.c:88-115 | a producer and a consumer at their semaphores are never blocked together with all other threads |
| `TaskQueue.StartInv` | CS2303 Operating System/Project 5/threadpool.c:82-93 | the initial state satisfies the invariant for any number of threads |
| `TaskQueue.RingWrite` | CS2303 Operating System/Project 5/threadpool.c:33-35 | a writer never overwrites an item that is still in |
| `Scheduler.Session` | CS2303 Operating System/Project 4/schedule_sjf.c:13-54 | jobs submitted and scheduled: what the processor notes are the times of the tasks it ran; exactly when no shorter job follows one of the same name every job is run once, and then the waiting, response and turnaround times are in all the least of all orders |
| `Scheduler.TaskTimes` | CS2303 Operating System/Project 4/CPU.c:20-37 | task by task: the waiting time of the last run of a task is the work done before it and its turnaround adds its own; its first run gives response time and burst |
| `Scheduler.TaskList.Schedule` | CS2303 Operating System/Project 4/schedule_sjf.c:24-54 | runs the tasks in the order of the list reversed, always a shortest next, until none is left, and records their times |
| `Scheduler.TaskList.Reverse` | CS2303 Operating System/Project 4/schedule_sjf.c:27-38 | turns the links of the list round |
| `Scheduler.TaskList.FindShortest` | CS2303 Operating System/Project 4/schedule_sjf.c:42-49 | the first of the shortest tasks |
| `Scheduler.TaskList.Delete` | CS2303 Operating System/Project 4/list.c:24-47 | removes the first task with the name |
| `Scheduler.TaskList.Add` | CS2303 Operating System/Project 4/schedule_sjf.c:13-22 | the new task is first in the list, with the next number |
| `Scheduler.Cpu.Run` | CS2303 Operating System/Project 4/CPU.c:20-37 | the clock advances by the slice; the first run of a task notes its burst and response time, and a task that is done has its turnaround and waiting time recorded |
| `Scheduler.StartedSum` | CS2303 Operating System/Project 4/CPU.c:63-76 | the recorded entries add up to the waiting and turnaround times of the order |
| `Scheduler.RecordedIsBest` | CS2303 Operating System/Project 4/schedule_sjf.c:24-54 | the recorded totals are at most those of any order of the same tasks |
| `Scheduler.NotedOnce` | CS2303 Operating System/Project 4/CPU.c:20-37 | when every task runs once the response times are the starting times |
| `Scheduler.NotedIsLeast` | CS2303 Operating System/Project 4/CPU.c:20-76 | the totals of the notes are at most those of any order, and waiting and response add up to the same |
| `ShortestFirst.ShortestFirstIsBest` | CS2303 Operating System/Project 4/schedule_sjf.c:40-52 | no order of the same tasks has a smaller sum of waiting or turnaround times |
| `ShortestFirst.AscendingIsBest` | CS2303 Operating System/Project 4/schedule_sjf.c:40-52 | an ascending order waits no longer than any other, by exchanging |
| `ShortestFirst.ShortestToFront` | CS2303 Operating System/Project 4/schedule_sjf.c:40-52 | bringing a shortest task to the front lets nobody wait more in all |
| `ShortestFirst.RunsEachOnceIff` | CS2303 Operating System/Project 4/list.c:24-47 | every task is run once exactly when no later task with the same name is shorter, since tasks are deleted by name |
| `ShortestFirst.OrderStable` | CS2303 Operating System/Project 4/schedule_sjf.c:40-52 | whatever their names, tasks are run by their length and equally long ones in the order of their submission |
| `ShortestFirst.SameNameTwice` | CS2303 Operating System/Project 4/list.c:24-47 | two tasks of one name, the longer first: the shorter is run twice, the longer never |
| `MatrixMultiply.OptimizedMatmul` | CS2305 Computer System Architecture/Lab 3/code/impl.c:149-156 | the wrapped matrix product, for all dimensions |
| `MatrixMultiply.Matmul` | CS2305 Computer System Architecture/Lab 3/code/lab3.c:22-31 | the triple loop computes the same product |
| `MatrixProduct.WrapIs` | CS2305 Computer System Architecture/Lab 3/code/impl.c:47-75 | the wrapped value is the one 32-bit value that differs by a multiple of 2^32, and the value itself if it fits |
| `MatrixProduct.EntryIs` | CS2305 Computer System Architecture/Lab 3/code/lab3.c:22-31 | every entry is a 32-bit value congruent to the sum of the products of its row and column, and that sum itself if it fits |
| `MatrixProduct.OneProduct` | CS2305 Computer System Architecture/Lab 3/code/impl.c:149-156 | there is one such product, so the two forms agree entry by entry |
| `MatrixMultiply.TiledTranspose` | CS2305 Computer System Architecture/Lab 3/code/impl.c:80-147 | rows and columns exchanged, for dimensions that are multiples of the tile or not |
| `MatrixMultiply.VecDot` | CS2305 Computer System Architecture/Lab 3/code/impl.c:13-78 | the dot product modulo 2^32 in two's complement, for lengths that are multiples of 64 or not |
| `MatrixMultiply.RegisterStep` | CS2305 Computer System Architecture/Lab 3/code/impl.c:47-54 | one block adds its eight products to the lanes of a register |
| `MatrixMultiply.LanesTotal` | CS2305 Computer System Architecture/Lab 3/code/impl.c:61-72 | the lanes of all registers together are the terms taken so far |
| `MatrixProduct.ColumnsSum` | CS2305 Computer System Architecture/Lab 3/code/impl.c:61-72 | adding up by columns gives the sum in order |
| `MatrixProduct.WrapAdd` | CS2305 Computer System Architecture/Lab 3/code/impl.c:47-75 | wrapping early or late makes no difference |
| `MatrixMultiply.CopyTile` | CS2305 Computer System Architecture/Lab 3/code/impl.c:92-111 | all entries of a tile are in their places |
| `MatrixMultiply.DotEntry` | CS2305 Computer System Architecture/Lab 3/code/impl.c:154-154 | a row of the transposed matrix is a column of the matrix |

## Left out

- Console, file and argument handling, printing and logging of all programs; failure of memory allocation;
  creating, cancelling and destroying threads.
- Integer widths: integers are unbounded except in the matrix product, where values wrap to 32 bits.
- Freed nodes: objects are dropped from the structure, not destroyed; their reuse is not modelled.
- VirtualMemory.Pager.constructor: the backing store is an array that can be written, although the file is opened for
  reading only (virtual_memory.c:26); page size 256 as the address masks fix it; at least one TLB entry, one
  frame and 256 page-table entries.
- Freeing the tables at shutdown: the model marks the pages it writes back as clean instead, which nothing can
  observe.
- Tlb.Buffer.Insert: the page must not be mapped, as in both calls in the code.
- Clearing and printing the TLB and the list of its pages; `physical_memory_swap_frame_data`, which is not used.
- RbMap.Map.Insert: keys and values are integers compared with `<`; a value never changes after insertion.
- Copying, assigning and clearing a map, `operator[]`, and the constant iterators, which repeat the others.
- The third argument of the single rotations, which the code never uses. The sentinel is a node with a key and
  a colour that nothing reads.
- Node 0 of the vacancy tree, which pushing down a leaf writes, is a scratch cell here too.
- AffineTree.Run: the initial numbers arrive as additions to single positions, as in the code; products of numbers
  are not bounded.
- Banker.Bank.CheckSafe: what is available and what is held is nonnegative, as the program checks at the start and
  every command keeps; needs and maxima may be negative, for the program reads them unchecked.
- Banker.Bank.Run: every command carries one amount per resource; a line with fewer makes the program read a
  missing token. `print_status` is omitted.
- Safety.EveryoneCanFinish: needs are nonnegative; `Safety.CanEmptyIff` and `Safety.OpeningCanEmptyIff` say for
  which maxima everyone can finish at all.
- Allocator.Arena.Alloc: sizes are positive, as the command line demands (main.c:101-105) and the debugging build
  checks (freelist.c:67-71), and the page size is a power of two (allocator.c:11-15); addresses are offsets from
  the start of the memory.
- Policy.FirstFit: sizes are positive for the same reason, as they are in Policy.BestFit and Policy.WorstFit.
- Policy.BestFit: see Policy.FirstFit.
- Policy.WorstFit: see Policy.FirstFit.
- FreeList.List.Merge: reads the link of the next node before that node is removed; the code reads it from the
  freed node (freelist.c:201-202).
- `alloclist_size` and the debugging checks and printing of the allocator.
- TaskQueue.RefusedWhenFull: speaks of the moment of the look; between the look and the insertion the queue
  may fill, and the submission then waits.
- TaskQueue.NeverAllBlocked: says that some thread can move, not that a given thread eventually does.
- Sleeping, random items, and the number of items that producers and consumers print.
- The other scheduling policies of project 4, whose recorded waiting times subtract what is left of the burst.
- PriorityQueue.Queue.MergeWith: the other queue is another one; a queue merged with itself, where the code would
  chain a root to itself (priority_queue.hpp:36-58), is not modelled.
- Copying and assigning a priority queue, which leave the root unset when the source is empty.
- MatrixMultiply.VecDot: vector registers are sequences of eight integers; loading, multiplying and adding act
  lane by lane.
- Easier parts of the repository: the other containers of the library, the remaining judge problems, the first
  two architecture labs, the shell, kernel modules and the projects with a user interface.

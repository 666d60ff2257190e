/** The allocator: a list of free blocks and a list of live ones that together tile the memory. */
module Allocator {
  import opened Blocks
  import opened AllocList
  import opened Tiling
  import FreeList
  import Policy

  datatype Fit = First | Best | Worst

  /** What a policy promises about the block it chose. */
  ghost predicate Chosen(fit: Fit, f: seq<Block>, i: int, size: int) {
    && 0 <= i < |f| && f[i].size >= size
    && match fit
       case First => forall k :: 0 <= k < i ==> f[k].size < size
       case Best => forall k :: 0 <= k < |f| && f[k].size >= size ==> f[i].size <= f[k].size
       case Worst => forall k :: 0 <= k < |f| ==> f[k].size <= f[i].size
  }

  class Arena {
    const size: nat
    const pageSize: nat
    const alloclist: List
    const freelist: FreeList.List

    /** The two lists tile the memory. */
    ghost predicate Valid()
      reads this, alloclist, alloclist.nodes, freelist, freelist.byAddress, freelist.bySize
    {
      && alloclist.Valid() && freelist.Valid() && freelist.address == 0 && freelist.size == size && PowerOfTwo(pageSize)
      && Tiled(alloclist.live, freelist.free, size, pageSize)
    }

    constructor (size: nat, pageSize: nat)
      requires size > 0 && PowerOfTwo(pageSize)
      ensures Valid() && this.size == size && this.pageSize == pageSize
      ensures alloclist.live == [] && freelist.free == [Block(0, size)]
      ensures fresh(alloclist) && fresh(alloclist.nodes) && fresh(freelist) && fresh(freelist.byAddress)
    {
      hide FreeList.List.Valid, List.Valid, Tiled;
      this.size, this.pageSize := size, pageSize;
      alloclist := new List();
      freelist := new FreeList.List(0, size);
      TiledEmpty(size, pageSize);
    }

    function Rounded(size: nat): nat
      requires pageSize > 0
    {
      RoundUp(size, pageSize)
    }

    /** Allocates whole pages for `name`; fails, with -1, exactly when there is no room for them in a row. */
    method Alloc(name: string, size: nat, fit: Fit) returns (address: int, ghost i: int, ghost k: nat)
      requires Valid() && size > 0
      modifies alloclist, alloclist.nodes, freelist`byAddress, freelist`bySize, freelist`free, freelist.byAddress
      ensures Valid()
      ensures forall n :: 0 <= n < |alloclist.nodes| ==> alloclist.nodes[n] in old(alloclist.nodes) || fresh(alloclist.nodes[n])
      ensures FreeList.Inside(freelist.byAddress, old(freelist.byAddress))
      ensures pageSize > 0 && (address == -1 <==> forall x :: !Room(old(alloclist.live), this.size, x, Rounded(size)))
      ensures address == -1 ==> alloclist.live == old(alloclist.live) && freelist.free == old(freelist.free)
      ensures address != -1 ==> Chosen(fit, old(freelist.free), i, Rounded(size)) && address == old(freelist.free)[i].address
      ensures address != -1 ==> k <= |old(alloclist.live)|
                                && alloclist.live == Added(old(alloclist.live), k, Info(name, Block(address, Rounded(size))))
    {
      hide FreeList.List.Valid, List.Valid, Tiled, Taken, PowerOfTwo, Room, Rounded;
      RoundsUp(size, pageSize);
      ghost var live, free, rounded := alloclist.live, freelist.free, Rounded(size);
      assert rounded == RoundUp(size, pageSize) by { RoundedIs(size); }
      RoomIsBlock(live, free, this.size, pageSize, rounded);
      i, k := 0, 0;
      match fit {
        case First => address, i := Policy.FirstFit(freelist, Rounded(size));
        case Best => address, i := Policy.BestFit(freelist, Rounded(size));
        case Worst => address, i := Policy.WorstFit(freelist, Rounded(size));
      }
      if address == -1 { return; }
      var info := Info(name, Block(address, Rounded(size)));
      k := alloclist.Alloc(info);
      StackedBelow(live, free, this.size, pageSize, address, k, i);
      TiledAlloc(live, free, this.size, pageSize, i, rounded, k, name);
    }

    lemma {:induction false} RoundedIs(size: nat)
      requires pageSize > 0
      ensures Rounded(size) == RoundUp(size, pageSize)
    {
    }

    /** Frees the first block with this name, if there is one. */
    method Free(name: string) returns (ghost k: nat)
      requires Valid()
      modifies alloclist, alloclist.nodes, freelist`byAddress, freelist`bySize, freelist`free, freelist.byAddress
      ensures Valid() && k <= |old(alloclist.live)|
      ensures forall l :: 0 <= l < k ==> old(alloclist.live)[l].name != name
      ensures k == |old(alloclist.live)| ==> alloclist.live == old(alloclist.live) && freelist.free == old(freelist.free)
      ensures k < |old(alloclist.live)| ==> old(alloclist.live)[k].name == name
                                            && alloclist.live == old(alloclist.live)[..k] + old(alloclist.live)[k + 1..]
      ensures forall n :: 0 <= n < |alloclist.nodes| ==> alloclist.nodes[n] in old(alloclist.nodes)
      ensures forall n :: 0 <= n < |freelist.byAddress| ==> freelist.byAddress[n] in old(freelist.byAddress) || fresh(freelist.byAddress[n])
    {
      hide FreeList.List.Valid, List.Valid, PowerOfTwo, Tiled, Covers;
      ghost var live, free := alloclist.live, freelist.free;
      var info;
      info, k := alloclist.Free(name);
      if k < |live| { LiveBlock(live, free, size, pageSize, k); }
      if info.block.address != -1 {
        freelist.Free(info.block.address, info.block.size);
        CanonicalFree(freelist);
        TiledFree(live, free, freelist.free, size, pageSize, k);
      }
    }
  }

  /** Freeing what has just been allocated restores the live list and the free list. */
  method AllocThenFree(allocator: Arena, name: string, size: nat, fit: Fit)
    requires allocator.Valid() && size > 0 && forall k :: 0 <= k < |allocator.alloclist.live| ==> allocator.alloclist.live[k].name != name
    modifies allocator.alloclist, allocator.alloclist.nodes
    modifies allocator.freelist`byAddress, allocator.freelist`bySize, allocator.freelist`free, allocator.freelist.byAddress
    ensures allocator.Valid()
    ensures allocator.alloclist.live == old(allocator.alloclist.live) && allocator.freelist.free == old(allocator.freelist.free)
  {
    hide FreeList.List.Valid, List.Valid, PowerOfTwo, Tiled, Covers, Live, Room, Chosen, Arena.Rounded;
    ghost var live, free := allocator.alloclist.live, allocator.freelist.free;
    var address;
    ghost var i, k;
    address, i, k := allocator.Alloc(name, size, fit);
    ghost var l := allocator.Free(name);
    if address != -1 {
      AddedFound(live, k, Info(name, Block(address, allocator.Rounded(size))), l);
    }
    FreeDetermined(live, free, allocator.alloclist.live, allocator.freelist.free, allocator.size, allocator.pageSize);
  }

  /** The first entry with the name of a new one is the new one, and without it the list is the old one. */
  lemma {:induction false} AddedFound(live: seq<Info>, k: nat, info: Info, l: nat)
    requires k <= |live| && (forall m :: 0 <= m < |live| ==> live[m].name != info.name) && l <= |live| + 1
    requires forall m :: 0 <= m < l ==> Added(live, k, info)[m].name != info.name
    requires l <= |live| ==> Added(live, k, info)[l].name == info.name
    ensures l == k && Added(live, k, info)[..l] + Added(live, k, info)[l + 1..] == live
  {
    assert Added(live, k, info)[k] == info;
    assert forall m :: 0 <= m < |live| + 1 && m != k ==> Added(live, k, info)[m] == live[if m < k then m else m - 1];
  }

  lemma {:induction false} LiveBlock(live: seq<Info>, free: seq<Block>, total: int, page: int, k: nat)
    requires Tiled(live, free, total, page) && k < |live|
    ensures var b := live[k].block;
      && b.size > 0 && 0 <= b.address && b.address + b.size <= total
      && forall x :: b.address <= x < b.address + b.size ==> !Covers(free, x)
  {
    forall x | In(live[k].block, x)
      ensures !Covers(free, x)
    {
      assert Live(live, x);
    }
  }

  lemma {:induction false} CanonicalFree(list: FreeList.List)
    requires list.Valid()
    ensures Canonical(list.free, list.address, list.address + list.size)
  {
  }

  function Added(live: seq<Info>, k: nat, info: Info): seq<Info>
    requires k <= |live|
  {
    live[..k] + [info] + live[k..]
  }

  lemma {:induction false} StackedBelow(live: seq<Info>, free: seq<Block>, total: int, page: int, address: int, k: nat, i: int)
    requires Tiled(live, free, total, page) && k <= |live|
    requires k == 0 || (live[0].block.address <= address && forall l :: 0 < l < k ==> live[l].block.address < address)
    ensures forall l :: 0 <= l < k ==> live[l].block.address <= address
  {
  }

  // ----- whole runs

  datatype Request = Allocate(name: string, size: nat, fit: Fit) | Release(name: string)

  /** The live list without the first block of this name. */
  ghost function Unnamed(live: seq<Info>, name: string): seq<Info> {
    if live == [] then [] else if live[0].name == name then live[1..] else [live[0]] + Unnamed(live[1..], name)
  }

  lemma {:induction false} UnnamedAt(live: seq<Info>, name: string, k: nat)
    requires k <= |live| && (forall l :: 0 <= l < k ==> live[l].name != name) && (k < |live| ==> live[k].name == name)
    ensures Unnamed(live, name) == if k < |live| then live[..k] + live[k + 1..] else live
  {
    hide Unnamed;
    if live == [] {
      UnnamedNone(name);
    } else {
      UnnamedFirst(live, name);
      if live[0].name != name {
        UnnamedAt(live[1..], name, k - 1);
        if k < |live| { SkipAt(live, k); }
      }
    }
  }

  lemma {:induction false} UnnamedNone(name: string)
    ensures Unnamed([], name) == []
  {
  }

  lemma {:induction false} UnnamedFirst(live: seq<Info>, name: string)
    requires live != []
    ensures live[0].name == name ==> Unnamed(live, name) == live[1..] == live[..0] + live[0 + 1..]
    ensures live[0].name != name ==> Unnamed(live, name) == [live[0]] + Unnamed(live[1..], name) && live == [live[0]] + live[1..]
  {
  }

  lemma {:induction false} SkipAt(live: seq<Info>, k: nat)
    requires 0 < k < |live|
    ensures live[..k] + live[k + 1..] == [live[0]] + (live[1..][..k - 1] + live[1..][k - 1 + 1..])
  {
    assert live[..k] == [live[0]] + live[1..][..k - 1] && live[k + 1..] == live[1..][k..];
  }

  lemma {:induction false} UnnamedCommutes(live: seq<Info>, x: string, y: string)
    requires x != y
    ensures Unnamed(Unnamed(live, x), y) == Unnamed(Unnamed(live, y), x)
  {
    if live != [] {
      UnnamedCommutes(live[1..], x, y);
      UnnamedCons(live[0], Unnamed(live[1..], x), y);
      UnnamedCons(live[0], Unnamed(live[1..], y), x);
    }
  }

  lemma {:induction false} UnnamedCons(info: Info, live: seq<Info>, name: string)
    ensures Unnamed([info] + live, name) == if info.name == name then live else [info] + Unnamed(live, name)
  {
    assert ([info] + live)[1..] == live;
  }

  datatype State = State(live: seq<Info>, free: seq<Block>)

  /** What one request may do: an allocation fails exactly when there is no room, else it takes the front of a
      block that its policy may choose; a release takes the first block of the name. */
  ghost predicate Stepped(total: int, page: nat, s: State, request: Request, s': State, address: int)
    requires page > 0
  {
    match request
    case Allocate(name, size, fit) =>
      var rounded := RoundUp(size, page);
      && (address == -1 <==> forall x :: !Room(s.live, total, x, rounded))
      && (address == -1 ==> s' == s)
      && (address != -1 ==> Taking(s, name, fit, rounded, address, s'.live))
    case Release(name) => s'.live == Unnamed(s.live, name)
  }

  ghost predicate Taking(s: State, name: string, fit: Fit, rounded: int, address: int, live: seq<Info>) {
    && (exists i :: Chosen(fit, s.free, i, rounded) && address == s.free[i].address)
    && exists k :: 0 <= k <= |s.live| && live == Added(s.live, k, Info(name, Block(address, rounded)))
  }

  /** Releasing two names in either order leaves the same live and the same free blocks. */
  lemma {:induction false} ReleaseEitherWay(total: int, page: nat, s: State, x: string, y: string, s1: State, s2: State, t1: State, t2: State)
    requires page > 0 && x != y && Tiled(s2.live, s2.free, total, page) && Tiled(t2.live, t2.free, total, page)
    requires Stepped(total, page, s, Release(x), s1, 0) && Stepped(total, page, s1, Release(y), s2, 0)
    requires Stepped(total, page, s, Release(y), t1, 0) && Stepped(total, page, t1, Release(x), t2, 0)
    ensures s2 == t2
  {
    hide Tiled;
    UnnamedCommutes(s.live, x, y);
    FreeDetermined(s2.live, s2.free, t2.live, t2.free, total, page);
  }

  /** Any run of requests: every step is one that the machine allows, and the blocks tile the memory all along. */
  method Run(size: nat, pageSize: nat, requests: seq<Request>) returns (addresses: seq<int>, ghost states: seq<State>)
    requires size > 0 && PowerOfTwo(pageSize)
    requires forall k :: 0 <= k < |requests| && requests[k].Allocate? ==> requests[k].size > 0
    ensures |addresses| == |requests| && |states| == |requests| + 1 && states[0] == State([], [Block(0, size)]) && pageSize > 0
    ensures forall k :: 0 <= k < |requests| ==> Stepped(size, pageSize, states[k], requests[k], states[k + 1], addresses[k])
    ensures forall k :: 0 <= k < |states| ==> Tiled(states[k].live, states[k].free, size, pageSize)
  {
    hide FreeList.List.Valid, List.Valid, Tiled, Covers, Live, Room, Chosen, Stepped, Unnamed;
    var arena := new Arena(size, pageSize);
    addresses, states := [], [State([], [Block(0, size)])];
    PagePositive(pageSize);
    while |addresses| < |requests|
      invariant |addresses| <= |requests| && |states| == |addresses| + 1 && states[0] == State([], [Block(0, size)])
      invariant fresh(arena) && arena.Valid() && arena.size == size && arena.pageSize == pageSize
      invariant fresh(arena.alloclist) && fresh(arena.freelist)
      invariant forall n :: 0 <= n < |arena.alloclist.nodes| ==> fresh(arena.alloclist.nodes[n])
      invariant forall n :: 0 <= n < |arena.freelist.byAddress| ==> fresh(arena.freelist.byAddress[n])
      invariant states[|addresses|] == State(arena.alloclist.live, arena.freelist.free)
      invariant forall k :: 0 <= k < |addresses| ==> Stepped(size, pageSize, states[k], requests[k], states[k + 1], addresses[k])
      invariant forall k :: 0 <= k < |states| ==> Tiled(states[k].live, states[k].free, size, pageSize)
    {
      var address := Serve(arena, requests[|addresses|]);
      addresses, states := addresses + [address], states + [State(arena.alloclist.live, arena.freelist.free)];
    }
  }

  lemma {:induction false} PagePositive(page: int)
    requires PowerOfTwo(page)
    ensures page > 0
  {
  }

  method Serve(arena: Arena, request: Request) returns (address: int)
    requires arena.Valid() && arena.pageSize > 0 && (request.Allocate? ==> request.size > 0)
    modifies arena.alloclist, arena.alloclist.nodes
    modifies arena.freelist`byAddress, arena.freelist`bySize, arena.freelist`free, arena.freelist.byAddress
    ensures arena.Valid()
    ensures Stepped(arena.size, arena.pageSize, old(State(arena.alloclist.live, arena.freelist.free)), request,
                    State(arena.alloclist.live, arena.freelist.free), address)
    ensures forall n :: 0 <= n < |arena.alloclist.nodes| ==>
              arena.alloclist.nodes[n] in old(arena.alloclist.nodes) || fresh(arena.alloclist.nodes[n])
    ensures forall n :: 0 <= n < |arena.freelist.byAddress| ==>
              arena.freelist.byAddress[n] in old(arena.freelist.byAddress) || fresh(arena.freelist.byAddress[n])
  {
    hide FreeList.List.Valid, List.Valid, Tiled, Covers, Live, Room, Chosen;
    match request {
      case Allocate(name, size, fit) =>
        ghost var i, k;
        ghost var live, free, rounded := arena.alloclist.live, arena.freelist.free, RoundUp(size, arena.pageSize);
        address, i, k := arena.Alloc(name, size, fit);
        arena.RoundedIs(size);
        assert address != -1 ==> Taking(State(live, free), name, fit, rounded, address, arena.alloclist.live);
      case Release(name) =>
        ghost var live := arena.alloclist.live;
        ghost var k := arena.Free(name);
        UnnamedAt(live, name, k);
        address := 0;
    }
  }
}

/** The guest heap over a doubly linked free list, and the region operations it sits on
    (internal/debugger/mem.go). */
module Heap {
  import opened Bits
  import opened HeapSpec
  import opened Ledger
  import opened LedgerSpec
  import opened Ranges

  /** The emulator, as far as mappings go: it refuses to map over an existing mapping and to unmap
      what is not mapped. */
  class Emulator {
    const page: nat
    var mapped: set<nat>

    constructor (page: nat)
      ensures this.page == page && mapped == {}
    {
      this.page := page;
      mapped := {};
    }

    predicate CanMap(addr: nat, size: nat)
      reads this
    {
      size > 0 && Bytes(Block(addr, size)) !! mapped
    }

    method MemMap(addr: nat, size: nat) returns (ok: bool)
      modifies this
      ensures ok == old(CanMap(addr, size))
      ensures mapped == if ok then old(mapped) + Bytes(Block(addr, size)) else old(mapped)
    {
      ok := CanMap(addr, size);
      if ok {
        mapped := mapped + Bytes(Block(addr, size));
      }
    }

    method MemUnmap(addr: nat, size: nat) returns (ok: bool)
      modifies this
      ensures ok == (size > 0 && Bytes(Block(addr, size)) <= old(mapped))
      ensures mapped == if ok then old(mapped) - Bytes(Block(addr, size)) else old(mapped)
    {
      ok := size > 0 && Bytes(Block(addr, size)) <= mapped;
      if ok {
        mapped := mapped - Bytes(Block(addr, size));
      }
    }
  }

  class MemBlock {
    var addr: nat
    var size: nat
    var prev: MemBlock?
    var next: MemBlock?

    constructor ()
      ensures prev == null && next == null
    {
      addr, size, prev, next := 0, 0, null, null;
    }
  }

  ghost predicate Distinct(nodes: seq<MemBlock>) {
    forall i, j :: 0 <= i < j < |nodes| ==> nodes[i] != nodes[j]
  }

  /** The node at index `j`, or nil past either end. */
  ghost function At(nodes: seq<MemBlock>, j: int): MemBlock? {
    if 0 <= j < |nodes| then nodes[j] else null
  }

  ghost predicate NodeIs(n: MemBlock, b: Block, before: MemBlock?, after: MemBlock?)
    reads n
  {
    n.prev == before && n.next == after && n.addr == b.addr && n.size == b.size
  }

  /** Node `i` holds block `i` and is linked to its two neighbours. */
  ghost predicate NodeOk(nodes: seq<MemBlock>, blocks: seq<Block>, i: nat)
    requires i < |nodes| == |blocks|
    reads nodes
  {
    NodeIs(nodes[i], blocks[i], At(nodes, i - 1), At(nodes, i + 1))
  }

  /** `nodes` threads `prev` and `next` in both directions, ends included, and holds `blocks`. */
  ghost predicate Chain(nodes: seq<MemBlock>, blocks: seq<Block>)
    reads nodes
  {
    Distinct(nodes) && |nodes| == |blocks| && forall i :: 0 <= i < |nodes| ==> NodeOk(nodes, blocks, i)
  }

  /** Node `i` once `b` has been linked in at index `j`. */
  ghost predicate NodeAround(nodes: seq<MemBlock>, blocks: seq<Block>, j: nat, b: MemBlock, i: nat)
    requires i < |nodes| == |blocks|
    reads nodes
  {
    NodeIs(nodes[i], blocks[i], if i == j then b else At(nodes, i - 1), if i + 1 == j then b else At(nodes, i + 1))
  }

  /** Node `i` once node `j` has been unlinked. */
  ghost predicate NodePast(nodes: seq<MemBlock>, blocks: seq<Block>, j: nat, i: nat)
    requires i < |nodes| == |blocks|
    reads nodes
  {
    NodeIs(nodes[i], blocks[i], At(nodes, if i == j + 1 then j - 1 else i - 1),
           At(nodes, if i + 1 == j then j + 1 else i + 1))
  }

  /** Recycled blocks: none is in the list, and none carries a stale link. */
  ghost predicate Recycled(pool: set<MemBlock>, nodes: seq<MemBlock>)
    reads pool
  {
    forall p :: p in pool ==> p !in nodes && p.prev == null && p.next == null
  }

  function Insert<T>(s: seq<T>, j: nat, x: T): seq<T>
    requires j <= |s|
  {
    s[..j] + [x] + s[j..]
  }

  function Delete<T>(s: seq<T>, j: nat): seq<T>
    requires j < |s|
  {
    s[..j] + s[j + 1..]
  }

  lemma ChainLinkedIn(nodes: seq<MemBlock>, blocks: seq<Block>, j: nat, b: MemBlock)
    requires Distinct(nodes) && j <= |nodes| == |blocks| && b !in nodes
    requires b.prev == At(nodes, j - 1) && b.next == At(nodes, j)
    requires forall i :: 0 <= i < |nodes| ==> NodeAround(nodes, blocks, j, b, i)
    ensures Chain(Insert(nodes, j, b), Insert(blocks, j, Block(b.addr, b.size)))
  {
    var n, bs := Insert(nodes, j, b), Insert(blocks, j, Block(b.addr, b.size));
    forall i | 0 <= i < |n| ensures NodeOk(n, bs, i) {
      if i != j {
        var i' := if i < j then i else i - 1;
        assert n[i] == nodes[i'] && bs[i] == blocks[i'];
        assert NodeAround(nodes, blocks, j, b, i');
      }
    }
  }

  lemma ChainUnlinked(nodes: seq<MemBlock>, blocks: seq<Block>, j: nat)
    requires Distinct(nodes) && j < |nodes| == |blocks|
    requires forall i :: 0 <= i < |nodes| && i != j ==> NodePast(nodes, blocks, j, i)
    ensures Chain(Delete(nodes, j), Delete(blocks, j))
  {
    var n, bs := Delete(nodes, j), Delete(blocks, j);
    forall i | 0 <= i < |n| ensures NodeOk(n, bs, i) {
      var i' := if i < j then i else i + 1;
      assert n[i] == nodes[i'] && bs[i] == blocks[i'];
      assert NodePast(nodes, blocks, j, i');
    }
  }

  class BlockList {
    var free: MemBlock?
    var pool: set<MemBlock>
    ghost var nodes: seq<MemBlock>
    ghost var blocks: seq<Block>
    ghost var Repr: set<MemBlock>

    ghost predicate Valid()
      reads this, Repr
    {
      && pool <= Repr && (forall n :: n in nodes ==> n in Repr)
      && Chain(nodes, blocks) && Recycled(pool, nodes)
      && free == At(nodes, 0)
    }

    constructor ()
      ensures Valid() && blocks == [] && Repr == {}
    {
      free, pool := null, {};
      nodes, blocks, Repr := [], [], {};
    }

    /** The list is well formed but for the head pointer, which the caller is about to set. */
    ghost predicate ValidButHead()
      reads this, nodes, pool
    {
      Chain(nodes, blocks) && Recycled(pool, nodes)
    }

    /** A block from the pool, or a new one; its links are nil either way. */
    method Get() returns (b: MemBlock)
      requires Recycled(pool, nodes)
      modifies this`pool
      ensures Recycled(pool, nodes) && b !in nodes && b !in pool
      ensures b.prev == null && b.next == null
      ensures fresh(b) || b in old(pool)
      ensures pool <= old(pool)
    {
      var reuse: bool := *;
      if pool != {} && reuse {
        b :| b in pool;
        pool := pool - {b};
      } else {
        b := new MemBlock();
      }
    }

    // The three pointer operations of the source, on the links alone.

    /** Links a new block in front of `mb` in list order; a nil `mb` stands for the empty list. */
    method InsertAfter(mb: MemBlock?, addr: nat, size: nat) returns (b: MemBlock)
      requires Recycled(pool, nodes)
      requires mb != null ==> mb in nodes && mb.prev != mb && (mb.prev != null ==> mb.prev in nodes)
      modifies this`pool, pool, if mb == null then {} else {mb, mb.prev}
      ensures pool <= old(pool) && Recycled(pool, nodes) && (fresh(b) || b in old(pool)) && b !in nodes && b !in pool
      ensures NodeIs(b, Block(addr, size), if mb == null then null else old(mb.prev), mb)
      ensures mb != null ==> NodeIs(mb, Block(old(mb.addr), old(mb.size)), b, old(mb.next))
      ensures mb != null && old(mb.prev) != null ==> var p := old(mb.prev);
        NodeIs(p, Block(old(mb.prev.addr), old(mb.prev.size)), old(mb.prev.prev), b)
    {
      b := Get();
      b.addr := addr;
      b.size := size;
      b.next := mb;
      if mb != null {
        b.prev := mb.prev;
        if mb.prev != null {
          mb.prev.next := b;
        }
        mb.prev := b;
      }
    }

    /** Links a new block behind `mb` in list order. */
    method InsertBefore(mb: MemBlock, addr: nat, size: nat) returns (b: MemBlock)
      requires Recycled(pool, nodes)
      requires mb in nodes && mb.next != mb && (mb.next != null ==> mb.next in nodes)
      modifies this`pool, pool, {mb, mb.next}
      ensures pool <= old(pool) && Recycled(pool, nodes) && (fresh(b) || b in old(pool)) && b !in nodes && b !in pool
      ensures NodeIs(b, Block(addr, size), mb, old(mb.next))
      ensures NodeIs(mb, Block(old(mb.addr), old(mb.size)), old(mb.prev), b)
      ensures old(mb.next) != null ==> var n := old(mb.next);
        NodeIs(n, Block(old(mb.next.addr), old(mb.next.size)), b, old(mb.next.next))
    {
      b := Get();
      b.addr := addr;
      b.size := size;
      b.prev := mb;
      b.next := mb.next;
      if mb.next != null {
        mb.next.prev := b;
      }
      mb.next := b;
    }

    /** Unlinks `mb`, clears its links and returns it to the pool. */
    method Remove(mb: MemBlock)
      requires mb.prev != mb && mb.next != mb && (mb.prev == mb.next ==> mb.prev == null)
      modifies this`pool, {mb, mb.prev, mb.next}
      ensures pool == old(pool) + {mb} && mb.prev == null && mb.next == null
      ensures old(mb.prev) != null ==> var p := old(mb.prev);
        NodeIs(p, Block(old(mb.prev.addr), old(mb.prev.size)), old(mb.prev.prev), old(mb.next))
      ensures old(mb.next) != null ==> var n := old(mb.next);
        NodeIs(n, Block(old(mb.next.addr), old(mb.next.size)), old(mb.prev), old(mb.next.next))
    {
      if mb.prev != null {
        mb.prev.next := mb.next;
      }
      if mb.next != null {
        mb.next.prev := mb.prev;
      }
      mb.prev := null;
      mb.next := null;
      pool := pool + {mb};
    }

    // The same operations on a well-formed list: what they do to the sequence of blocks.

    method InsertInFront(mb: MemBlock?, addr: nat, size: nat, ghost j: nat) returns (b: MemBlock)
      requires ValidButHead()
      requires mb == At(nodes, j) && (mb == null ==> nodes == [] && j == 0)
      modifies this`pool, this`nodes, this`blocks, nodes, pool
      ensures ValidButHead() && j <= |old(nodes)|
      ensures nodes == Insert(old(nodes), j, b) && blocks == Insert(old(blocks), j, Block(addr, size))
      ensures fresh(b) || b in old(pool)
      ensures pool <= old(pool)
    {
      assert forall i :: 0 <= i < |nodes| ==> NodeOk(nodes, blocks, i);
      assert mb != null ==> NodeOk(nodes, blocks, j) && (j > 0 ==> NodeOk(nodes, blocks, j - 1));
      b := InsertAfter(mb, addr, size);
      forall i | 0 <= i < |nodes| ensures NodeAround(nodes, blocks, j, b, i) {
        assert old(NodeOk(nodes, blocks, i));
      }
      ChainLinkedIn(nodes, blocks, j, b);
      nodes := Insert(nodes, j, b);
      blocks := Insert(blocks, j, Block(addr, size));
    }

    method InsertBehind(mb: MemBlock, addr: nat, size: nat, ghost j: nat) returns (b: MemBlock)
      requires ValidButHead() && j < |nodes| && mb == nodes[j]
      modifies this`pool, this`nodes, this`blocks, nodes, pool
      ensures ValidButHead()
      ensures nodes == Insert(old(nodes), j + 1, b) && blocks == Insert(old(blocks), j + 1, Block(addr, size))
      ensures fresh(b) || b in old(pool)
      ensures pool <= old(pool)
    {
      assert NodeOk(nodes, blocks, j) && (j + 1 < |nodes| ==> NodeOk(nodes, blocks, j + 1));
      b := InsertBefore(mb, addr, size);
      ghost var k := j + 1;
      forall i | 0 <= i < |nodes| ensures NodeAround(nodes, blocks, k, b, i) {
        assert old(NodeOk(nodes, blocks, i));
      }
      ChainLinkedIn(nodes, blocks, k, b);
      nodes := Insert(nodes, k, b);
      blocks := Insert(blocks, k, Block(addr, size));
    }

    method Discard(mb: MemBlock, ghost j: nat)
      requires ValidButHead() && j < |nodes| && mb == nodes[j]
      modifies this`pool, this`nodes, this`blocks, nodes
      ensures ValidButHead()
      ensures nodes == Delete(old(nodes), j) && blocks == Delete(old(blocks), j)
      ensures pool == old(pool) + {mb}
    {
      assert NodeOk(nodes, blocks, j);
      assert j > 0 ==> NodeOk(nodes, blocks, j - 1);
      assert j + 1 < |nodes| ==> NodeOk(nodes, blocks, j + 1);
      Remove(mb);
      forall i | 0 <= i < |nodes| && i != j ensures NodePast(nodes, blocks, j, i) {
        assert old(NodeOk(nodes, blocks, i));
      }
      ChainUnlinked(nodes, blocks, j);
      nodes := Delete(nodes, j);
      blocks := Delete(blocks, j);
    }

    /** Changes the extent of a block in place. */
    method Resize(mb: MemBlock, addr: nat, size: nat, ghost j: nat)
      requires ValidButHead() && j < |nodes| && mb == nodes[j]
      modifies this`blocks, mb`addr, mb`size
      ensures ValidButHead() && blocks == old(blocks)[j := Block(addr, size)]
    {
      mb.addr := addr;
      mb.size := size;
      blocks := blocks[j := Block(addr, size)];
      forall i | 0 <= i < |nodes| ensures NodeOk(nodes, blocks, i) {
        assert old(NodeOk(nodes, blocks, i));
      }
    }

    // ----- the free list as the allocator uses it

    /** First fit: take `size` bytes off the low end of the first block that has them. */
    method TakeFirstFit(size: nat) returns (found: bool, addr: nat)
      requires Valid() && size > 0
      modifies this, Repr
      ensures Valid() && fresh(Repr - old(Repr))
      ensures var j := FirstFit(old(blocks), size, 0);
        && found == (j < |old(blocks)|)
        && (found ==> addr == old(blocks)[j].addr && blocks == Take(old(blocks), j, size))
        && (!found ==> blocks == old(blocks))
    {
      var b := free;
      ghost var i: nat := 0;
      addr := 0;
      while b != null
        invariant i <= |nodes| && b == At(nodes, i)
        invariant FirstFit(blocks, size, 0) == FirstFit(blocks, size, i)
        decreases |nodes| - i
      {
        assert NodeOk(nodes, blocks, i);
        if b.size >= size {
          addr := b.addr;
          if b.size == size {
            if free == b {
              free := b.next;
            }
            Discard(b, i);
          } else {
            Resize(b, addr + size, b.size - size, i);
          }
          return true, addr;
        }
        b := b.next;
        i := i + 1;
      }
      return false, 0;
    }

    /** The tail of a new region becomes the head of the list. */
    method PushFront(addr: nat, size: nat)
      requires Valid()
      modifies this, Repr
      ensures Valid() && fresh(Repr - old(Repr))
      ensures blocks == [Block(addr, size)] + old(blocks)
    {
      var b := InsertInFront(free, addr, size, 0);
      free := b;
      Repr := Repr + {b};
    }

    /** Returns `[addr, addr + size)` to the list; false is the nil dereference of an empty list. */
    method Release(addr: nat, size: nat) returns (ok: bool)
      requires Valid()
      modifies this, Repr
      ensures Valid() && fresh(Repr - old(Repr))
      ensures ok == (old(blocks) != [])
      ensures blocks == if ok then Give(old(blocks), addr, size) else old(blocks)
    {
      var end := addr + size;
      var b: MemBlock? := null;
      var it := free;
      ghost var i: nat := 0;
      while it != null
        invariant i <= |nodes| && it == At(nodes, i) && b == At(nodes, i - 1)
        invariant Stop(blocks, addr, size, 0) == Stop(blocks, addr, size, i)
        decreases |nodes| - i
      {
        b := it;
        assert NodeOk(nodes, blocks, i);
        if b.addr + b.size == addr {
          GrowUp(b, addr, size, i);
          return true;
        } else if b.addr < end {
          var nb := InsertInFront(b, addr, size, i);
          if free == b {
            free := nb;
          }
          Repr := Repr + {nb};
          return true;
        }
        it := b.next;
        i := i + 1;
      }
      if b == null {
        return false;
      }
      GiveLowest(b, addr, size);
      return true;
    }

    /** The released range lies below every free block, the lowest of which is `b`. */
    method GiveLowest(b: MemBlock, addr: nat, size: nat)
      requires Valid() && nodes != [] && b == nodes[|nodes| - 1]
      requires Stop(blocks, addr, size, 0) == |blocks|
      modifies this, Repr
      ensures Valid() && fresh(Repr - old(Repr))
      ensures blocks == Give(old(blocks), addr, size)
    {
      ghost var last := |nodes| - 1;
      assert NodeOk(nodes, blocks, last);
      if b.addr == addr + size {
        Resize(b, addr, b.size + size, last);
      } else {
        var nb := InsertBehind(b, addr, size, last);
        Repr := Repr + {nb};
      }
    }

    /** The released range continues `b` upwards, and may close the gap to the block above it. */
    method GrowUp(b: MemBlock, addr: nat, size: nat, ghost i: nat)
      requires Valid() && i < |nodes| && b == nodes[i]
      requires Stop(blocks, addr, size, 0) == i && blocks[i].End() == addr
      modifies this, Repr
      ensures Valid() && fresh(Repr - old(Repr))
      ensures blocks == Give(old(blocks), addr, size)
    {
      assert NodeOk(nodes, blocks, i);
      assert i > 0 ==> NodeOk(nodes, blocks, i - 1);
      if b.prev == null || b.prev.addr != addr + size {
        Resize(b, b.addr, b.size + size, i);
      } else {
        Resize(b.prev, b.addr, b.prev.size + (b.size + size), i - 1);
        assert NodeOk(nodes, blocks, i);
        Discard(b, i);
      }
    }
  }

  /** The memory manager: bump-pointer regions, the ledger that mirrors the emulator's mappings, and
      the heap on top of them. */
  class MemoryManager {
    const emu: Emulator
    const ledger: MapLedger
    const list: BlockList
    var mapAddr: nat
    var used: map<nat, nat>
    ghost var heap: set<nat>
    ghost var leaked: set<nat>

    constructor (emu: Emulator)
      requires emu.page > 0 && emu.mapped == {}
      ensures this.emu == emu && Valid() && State() == Initial(0x400000)
      ensures fresh(ledger) && fresh(list) && list.Repr == {}
    {
      this.emu := emu;
      ledger := new MapLedger();
      list := new BlockList();
      mapAddr, used := 0x400000, map[];
      heap, leaked := {}, {};
    }

    ghost function State(): State
      reads this, list
    {
      HeapSpec.State(list.blocks, used, heap, leaked, mapAddr)
    }

    /** The ledger lists exactly the bytes the emulator has mapped. */
    ghost predicate Mirrors()
      reads emu, ledger
    {
      Disjoint(ledger.maps) && forall x: nat :: x in emu.mapped <==> Covered(ledger.maps, x)
    }

    ghost predicate Valid()
      reads this, emu, ledger, list, list.Repr
    {
      emu.page > 0 && list.Valid() && Inv(State()) && Mirrors()
    }

    /** Every region comes from fresh addresses, whether or not mapping them succeeds. */
    method MapAlloc(size0: nat) returns (ok: bool, addr: nat, size: nat)
      requires emu.page > 0 && Mirrors()
      modifies this`mapAddr, emu, ledger
      ensures Mirrors()
      ensures addr == old(mapAddr) && size == Align(size0, emu.page) && mapAddr == addr + size
      ensures ok == old(emu.CanMap(addr, size))
      ensures emu.mapped == if ok then old(emu.mapped) + Bytes(Block(addr, size)) else old(emu.mapped)
    {
      size := Align(size0, emu.page);
      mapAddr := mapAddr + size;
      addr := mapAddr - size;
      ghost var before := emu.mapped;
      ok := emu.MemMap(addr, size);
      if ok {
        forall x: nat | Within(x, addr, size) ensures !Covered(ledger.maps, x) {
          assert x in Bytes(Block(addr, size)) && x !in before;
        }
        Store(addr, size);
      }
    }

    /** Maps at a fixed place; both the address and the size are aligned upwards. */
    method MemMap(addr0: nat, size0: nat) returns (ok: bool, addr: nat, size: nat)
      requires emu.page > 0 && Mirrors()
      modifies emu, ledger
      ensures Mirrors() && addr == Align(addr0, emu.page) && size == Align(size0, emu.page)
      ensures ok == old(emu.CanMap(addr, size))
      ensures emu.mapped == if ok then old(emu.mapped) + Bytes(Block(addr, size)) else old(emu.mapped)
    {
      addr := Align(addr0, emu.page);
      size := Align(size0, emu.page);
      ghost var before := emu.mapped;
      ok := emu.MemMap(addr, size);
      if ok {
        forall x: nat | Within(x, addr, size) ensures !Covered(ledger.maps, x) {
          assert x in Bytes(Block(addr, size)) && x !in before;
        }
        Store(addr, size);
      }
    }

    method Store(addr: nat, size: nat)
      requires Disjoint(ledger.maps) && size > 0
      requires forall x: nat :: x in emu.mapped <==> Covered(ledger.maps, x) || Block(addr, size).Has(x)
      requires forall x: nat :: Within(x, addr, size) ==> !Covered(ledger.maps, x)
      modifies ledger
      ensures Mirrors()
    {
      AddCovers(ledger.maps, addr, size);
      ledger.MapStore(addr, size);
    }

    /** Unmaps whatever mappings make up the range, however they were made. */
    method MemUnmap(addr0: nat, size0: nat) returns (ok: bool)
      requires emu.page > 0 && Mirrors()
      modifies emu, ledger
      ensures Mirrors()
      ensures var r := Block(Align(addr0, emu.page), Align(size0, emu.page));
        && ok == (r.size > 0 && Bytes(r) <= old(emu.mapped))
        && emu.mapped == if ok then old(emu.mapped) - Bytes(r) else old(emu.mapped)
    {
      var addr, size := Align(addr0, emu.page), Align(size0, emu.page);
      ok := emu.MemUnmap(addr, size);
      if ok {
        ledger.MapDelete(addr, size);
        assert forall x: nat :: x in Bytes(Block(addr, size)) <==> addr <= x < addr + size;
      }
    }

    /** Gives a region back to the emulator; the address is taken as it is. */
    method MapFree(addr: nat, size0: nat) returns (ok: bool)
      requires emu.page > 0 && Mirrors()
      modifies emu, ledger
      ensures Mirrors()
      ensures var r := Block(addr, Align(size0, emu.page));
        && ok == (r.size > 0 && Bytes(r) <= old(emu.mapped))
        && emu.mapped == if ok then old(emu.mapped) - Bytes(r) else old(emu.mapped)
    {
      var size := Align(size0, emu.page);
      ok := emu.MemUnmap(addr, size);
      if ok {
        ledger.MapDelete(addr, size);
      }
    }

    method MemAlloc(size: nat) returns (r: Outcome)
      requires Valid()
      modifies this, emu, ledger, list, list.Repr
      ensures Valid() && fresh(list.Repr - old(list.Repr))
      ensures (State(), r) == Alloc(old(State()), size, emu.page, MapOk(old(State()), old(emu.mapped), size, emu.page))
      ensures emu.mapped == old(emu.mapped) + (heap - old(heap))
      ensures size == 0 ==> r == ArgumentInvalid && State() == old(State())
      ensures size > 0 ==> Reuses(old(State()), size, State(), r)
    {
      hide Reuses;
      ghost var s0 := State();
      AllocKeeps(s0, size, emu.page, MapOk(s0, emu.mapped, size, emu.page));
      if size == 0 {
        return ArgumentInvalid;
      }
      AlwaysReuses(s0, size, emu.page, MapOk(s0, emu.mapped, size, emu.page));
      var found, addr := list.TakeFirstFit(size);
      if found {
        used := used[addr := size];
        return Allocated(addr);
      }
      r := AllocNew(size);
    }

    /** No free block is large enough: take a new region and put its tail at the head of the list. */
    method AllocNew(size: nat) returns (r: Outcome)
      requires Valid() && size > 0
      modifies this, emu, ledger, list, list.Repr
      ensures Valid() && fresh(list.Repr - old(list.Repr))
      ensures Align(size, emu.page) >= size
      ensures State() == if r == MapFailed then old(State()).(limit := old(mapAddr) + Align(size, emu.page))
                         else AllocRegion(old(State()), size, Align(size, emu.page))
      ensures r == if MapOk(old(State()), old(emu.mapped), size, emu.page) then Allocated(old(mapAddr)) else MapFailed
      ensures emu.mapped == old(emu.mapped) + (heap - old(heap))
    {
      hide Inv, Chain, Recycled, Disjoint, Covered;
      ghost var s0 := State();
      AlignBounds(size, emu.page);
      AllocRegionKeeps(s0, size, Align(size, emu.page));
      LimitGrows(s0, Align(size, emu.page));
      var ok, region, rsize := MapAlloc(size);
      if !ok {
        assert State() == s0.(limit := s0.limit + rsize);
        return MapFailed;
      }
      if rsize > size {
        list.PushFront(region + size, rsize - size);
      }
      used := used[region := size];
      heap := heap + Bytes(Block(region, rsize));
      RegionIsNew(s0, Block(region, rsize));
      assert State() == AllocRegion(s0, size, rsize);
      return Allocated(region);
    }

    method MemFree(addr: nat) returns (r: Outcome)
      requires Valid()
      modifies this, list, list.Repr
      ensures Valid() && fresh(list.Repr - old(list.Repr))
      ensures (State(), r) == Free(old(State()), addr)
    {
      ghost var s0 := State();
      FreeKeeps(s0, addr);
      if addr == 0 || addr !in used {
        return AddressInvalid;
      }
      var size := used[addr];
      used := used - {addr};
      var ok := list.Release(addr, size);
      if !ok {
        leaked := leaked + Bytes(Block(addr, size));
        return NilDereference;
      }
      return Freed;
    }

    // ----- importing a value: one block for it, and one for each nested piece the encoder asks for

    method AllocBlock(size: nat) returns (r: Outcome)
      requires Valid()
      modifies this, emu, ledger, list, list.Repr
      ensures Valid() && fresh(list.Repr - old(list.Repr))
      ensures (State(), r) == Alloc(old(State()), size, emu.page, MapOk(old(State()), old(emu.mapped), size, emu.page))
      ensures emu.mapped == old(emu.mapped) + (heap - old(heap))
      ensures old(heap) <= heap && leaked == old(leaked)
      ensures used == if r.Allocated? then old(used)[r.addr := size] else old(used)
      ensures r.Allocated? ==> r.addr > 0 && r.addr !in old(used)
    {
      AllocAdds(State(), size, emu.page, MapOk(State(), emu.mapped, size, emu.page));
      r := MemAlloc(size);
    }

    method FreeBlock(addr: nat) returns (r: Outcome)
      requires Valid() && addr in used
      modifies this, list, list.Repr
      ensures Valid() && fresh(list.Repr - old(list.Repr))
      ensures used == old(used) - {addr} && heap == old(heap)
      ensures r == NilDereference <==> leaked != old(leaked)
      ensures r == NilDereference <==> old(list.blocks) == []
      ensures list.blocks == [] <==> old(list.blocks) == []
    {
      FreeKeeps(State(), addr);
      GiveNotEmpty(State(), addr);
      r := MemFree(addr);
    }

    lemma ValidInv()
      requires Valid()
      ensures Inv(State()) && emu.page > 0
    {
    }

    /** Serves the encoder's requests in turn, until one fails. */
    method TakeAll(sizes: seq<nat>) returns (addrs: seq<nat>, ok: bool)
      requires Valid()
      modifies this, emu, ledger, list, list.Repr
      ensures Valid() && fresh(list.Repr - old(list.Repr))
      ensures (State(), addrs, ok) == AllocAll(old(State()), old(emu.mapped), sizes, emu.page)
      ensures Took(old(used), used, addrs, sizes) && (ok ==> |addrs| == |sizes|)
      ensures leaked == old(leaked) && old(heap) <= heap && emu.mapped == old(emu.mapped) + (heap - old(heap))
    {
      hide Valid, Inv, Alloc, AllocAll, MapOk, Continues, Took;
      TookNone(used, sizes);
      ghost var s0, m0 := State(), emu.mapped;
      ValidInv();
      assert sizes[0..] == sizes;
      ContinuesNone(AllocAll(s0, m0, sizes, emu.page));
      var i := 0;
      addrs, ok := [], true;
      while i < |sizes|
        invariant 0 <= i <= |sizes| && |addrs| == i && ok
        invariant Valid() && fresh(list.Repr - old(list.Repr))
        invariant Took(s0.used, used, addrs, sizes)
        invariant leaked == s0.leaked && s0.heap <= heap
        invariant emu.mapped == m0 + (heap - s0.heap)
        invariant Continues(AllocAll(s0, m0, sizes, emu.page), addrs,
                            AllocAll(State(), emu.mapped, sizes[i..], emu.page))
      {
        ghost var before, used1 := AllocAll(State(), emu.mapped, sizes[i..], emu.page), used;
        AllocAllNext(State(), emu.mapped, sizes[i..], emu.page);
        assert sizes[i..][0] == sizes[i] && sizes[i..][1..] == sizes[i + 1..];
        var a := AllocBlock(sizes[i]);
        if !a.Allocated? {
          ContinuesDone(AllocAll(s0, m0, sizes, emu.page), addrs, State(), false);
          return addrs, false;
        }
        TookMore(s0.used, used1, addrs, sizes, a.addr);
        ContinuesMore(AllocAll(s0, m0, sizes, emu.page), addrs, before, a.addr,
                      AllocAll(State(), emu.mapped, sizes[i + 1..], emu.page));
        addrs := addrs + [a.addr];
        i := i + 1;
      }
      assert sizes[i..] == [];
      AllocAllNone(State(), emu.mapped, emu.page);
      ContinuesDone(AllocAll(s0, m0, sizes, emu.page), addrs, State(), true);
    }

    /** Writes a value whose encoder asks for blocks of these sizes, in this order, and `fails` on its
        own account afterwards or not.  On failure every block is given back, unless the free list is
        empty by then. */
    method MemWrite(sizes: seq<nat>, fails: bool) returns (r: WriteResult)
      requires Valid()
      modifies this, emu, ledger, list, list.Repr
      ensures Valid() && fresh(list.Repr - old(list.Repr))
      ensures r == WriteFailed ==> Restored(old(State()), State())
      ensures r == WritePanic <==> leaked != old(leaked)
      ensures emu.mapped == old(emu.mapped) + (heap - old(heap))
      ensures var (s, addrs, ok) := AllocAll(old(State()), old(emu.mapped), sizes, emu.page);
        && (r.Written? <==> ok && !fails)
        && (r.Written? ==> r.addrs == addrs && State() == s)
        && (r == WritePanic <==> !(ok && !fails) && addrs != [] && s.free == [])
        && (r == WriteFailed ==> (list.blocks == [] <==> s.free == []))
      ensures r.Written? ==> |r.addrs| == |sizes| && used == TakenUp(old(used), r.addrs, sizes)
      ensures old(heap) <= heap
    {
      hide Valid, Inv, Restored, AllocAll;
      ghost var s0 := State();
      ValidInv();
      var addrs, ok := TakeAll(sizes);
      if ok && !fails {
        assert sizes[..|addrs|] == sizes;
        return Written(addrs);
      }
      ok := FreeAll(addrs, s0.used, sizes[..|addrs|]);
      if !ok {
        return WritePanic;
      }
      ValidInv();
      RestoredByUsed(s0, State());
      return WriteFailed;
    }

    /** Frees the blocks of a failed write in the order they were taken. */
    method FreeAll(addrs: seq<nat>, ghost used0: map<nat, nat>, ghost sizes: seq<nat>) returns (ok: bool)
      requires Valid() && |addrs| == |sizes|
      requires used == TakenUp(used0, addrs, sizes) && NewAddrs(used0, addrs)
      modifies this, list, list.Repr
      ensures Valid() && fresh(list.Repr - old(list.Repr))
      ensures ok ==> used == used0
      ensures ok <==> leaked == old(leaked)
      ensures ok <==> addrs == [] || old(list.blocks) != []
      ensures ok ==> (list.blocks == [] <==> old(list.blocks) == [])
      ensures heap == old(heap)
    {
      hide Valid;
      var i := 0;
      while i < |addrs|
        invariant 0 <= i <= |addrs|
        invariant Valid() && fresh(list.Repr - old(list.Repr))
        invariant used == TakenUp(used0, addrs[i..], sizes[i..]) && NewAddrs(used0, addrs[i..])
        invariant leaked == old(leaked) && heap == old(heap)
        invariant (list.blocks == [] <==> old(list.blocks) == []) && (i > 0 ==> list.blocks != [])
      {
        assert addrs[i..][1..] == addrs[i + 1..] && sizes[i..][1..] == sizes[i + 1..];
        TakenUpDrop(used0, addrs[i..], sizes[i..]);
        var r := FreeBlock(addrs[i]);
        if r == NilDereference {
          return false;
        }
        i := i + 1;
      }
      return true;
    }

    /** Allocates a block for the value itself, then writes it; a failed import leaves no trace. */
    method MemImport(total: nat, sizes: seq<nat>, fails: bool) returns (r: WriteResult)
      requires Valid()
      modifies this, emu, ledger, list, list.Repr
      ensures Valid() && fresh(list.Repr - old(list.Repr))
      ensures r == WriteFailed ==> Restored(old(State()), State())
      ensures r == WritePanic <==> leaked != old(leaked)
      ensures emu.mapped == old(emu.mapped) + (heap - old(heap))
      ensures var (s, addrs, ok) := AllocAll(old(State()), old(emu.mapped), [total] + sizes, emu.page);
        && (r.Written? <==> ok && !fails)
        && (r.Written? ==> r.addrs == addrs && State() == s)
        && (r == WritePanic <==> !(ok && !fails) && addrs != [] && s.free == [])
      ensures old(heap) <= heap
      ensures r.Written? ==> |r.addrs| == |sizes| + 1 && used == TakenUp(old(used), r.addrs, [total] + sizes)
    {
      hide Valid, Inv, Alloc, AllocAll, MapOk;
      ghost var s0 := State();
      ValidInv();
      AllocAllNext(s0, emu.mapped, [total] + sizes, emu.page);
      assert ([total] + sizes)[1..] == sizes;
      var a := AllocBlock(total);
      if !a.Allocated? {
        ValidInv();
        RestoredByUsed(s0, State());
        return WriteFailed;
      }
      r := MemWrite(sizes, fails);
      if r.Written? {
        assert ([a.addr] + r.addrs)[1..] == r.addrs && ([total] + sizes)[1..] == sizes;
        return Written([a.addr] + r.addrs);
      }
      if r == WriteFailed {
        var f := FreeBlock(a.addr);
        if f == NilDereference {
          return WritePanic;
        }
        assert used == s0.used;
        ValidInv();
        RestoredByUsed(s0, State());
      }
    }
  }

  datatype WriteResult = Written(addrs: seq<nat>) | WriteFailed | WritePanic

  /** The used map after taking `addrs` in order, with these sizes. */
  ghost function TakenUp(used: map<nat, nat>, addrs: seq<nat>, sizes: seq<nat>): map<nat, nat>
    decreases |addrs|
  {
    if addrs == [] || sizes == [] then used else TakenUp(used[addrs[0] := sizes[0]], addrs[1..], sizes[1..])
  }

  ghost predicate NewAddrs(used: map<nat, nat>, addrs: seq<nat>) {
    && (forall i :: 0 <= i < |addrs| ==> addrs[i] > 0 && addrs[i] !in used)
    && (forall i, j :: 0 <= i < j < |addrs| ==> addrs[i] != addrs[j])
  }

  /** `addrs` were taken for the first of `sizes`, and nothing else. */
  ghost predicate Took(used0: map<nat, nat>, used: map<nat, nat>, addrs: seq<nat>, sizes: seq<nat>) {
    |addrs| <= |sizes| && used == TakenUp(used0, addrs, sizes[..|addrs|]) && NewAddrs(used0, addrs)
  }

  lemma TookNone(used: map<nat, nat>, sizes: seq<nat>)
    ensures Took(used, used, [], sizes)
  {
  }

  lemma TookMore(used0: map<nat, nat>, used: map<nat, nat>, addrs: seq<nat>, sizes: seq<nat>, a: nat)
    requires Took(used0, used, addrs, sizes) && |addrs| < |sizes| && a > 0 && a !in used
    ensures Took(used0, used[a := sizes[|addrs|]], addrs + [a], sizes)
  {
    var i := |addrs|;
    TakenUpHas(used0, addrs, sizes[..i]);
    TakenUpSnoc(used0, addrs, sizes[..i], a, sizes[i]);
    assert sizes[..i] + [sizes[i]] == sizes[..i + 1];
  }

  lemma {:induction false} TakenUpHas(used: map<nat, nat>, addrs: seq<nat>, sizes: seq<nat>)
    requires |addrs| == |sizes|
    ensures forall k :: k in TakenUp(used, addrs, sizes) <==> k in used || k in addrs
    decreases |addrs|
  {
    if addrs == [] {
    } else {
      TakenUpHas(used[addrs[0] := sizes[0]], addrs[1..], sizes[1..]);
    }
  }

  lemma {:induction false} TakenUpSnoc(used: map<nat, nat>, addrs: seq<nat>, sizes: seq<nat>, a: nat, s: nat)
    requires |addrs| == |sizes|
    ensures TakenUp(used, addrs + [a], sizes + [s]) == TakenUp(used, addrs, sizes)[a := s]
    decreases |addrs|
  {
    if addrs == [] {
      assert TakenUp(used[a := s], [], []) == used[a := s];
      assert ([] + [a])[1..] == [] && ([] + [s])[1..] == [];
    } else {
      assert (addrs + [a])[1..] == addrs[1..] + [a] && (sizes + [s])[1..] == sizes[1..] + [s];
      TakenUpSnoc(used[addrs[0] := sizes[0]], addrs[1..], sizes[1..], a, s);
    }
  }

  /** Giving back the first of the addresses taken is as if it had never been taken. */
  lemma TakenUpDrop(used: map<nat, nat>, addrs: seq<nat>, sizes: seq<nat>)
    requires |addrs| == |sizes| > 0 && NewAddrs(used, addrs)
    ensures addrs[0] in TakenUp(used, addrs, sizes)
    ensures TakenUp(used, addrs, sizes) - {addrs[0]} == TakenUp(used, addrs[1..], sizes[1..])
  {
    TakenUpHas(used, addrs, sizes);
    assert addrs[0] !in addrs[1..];
    TakenUpWithout(used[addrs[0] := sizes[0]], addrs[0], addrs[1..], sizes[1..]);
    assert used[addrs[0] := sizes[0]] - {addrs[0]} == used;
  }

  lemma {:induction false} TakenUpWithout(used: map<nat, nat>, a: nat, addrs: seq<nat>, sizes: seq<nat>)
    requires |addrs| == |sizes| && a !in addrs
    ensures TakenUp(used, addrs, sizes) - {a} == TakenUp(used - {a}, addrs, sizes)
    decreases |addrs|
  {
    if addrs == [] {
    } else {
      TakenUpWithout(used[addrs[0] := sizes[0]], a, addrs[1..], sizes[1..]);
      assert used[addrs[0] := sizes[0]] - {a} == (used - {a})[addrs[0] := sizes[0]];
    }
  }
}

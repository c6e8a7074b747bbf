/** The guest heap as values: what one allocation, one release, and a whole run of them do to the
    free list and the used map, and why the two always partition the heap. */
module HeapSpec {
  import opened Bits
  import opened Ranges

  datatype Block = Block(addr: nat, size: nat) {
    function End(): nat { addr + size }
    predicate Has(x: nat) { addr <= x < End() }
  }

  /** `free` is in list order (highest address first), `heap` is every byte the allocator ever got
      from the region source, `leaked` the bytes of blocks whose release met an empty free list, and
      `limit` the bump pointer of the region source. */
  datatype State = State(
    free: seq<Block>, used: map<nat, nat>, heap: set<nat>, leaked: set<nat>, limit: nat)

  datatype Outcome =
    | Allocated(addr: nat)
    | Freed
    | ArgumentInvalid
    | AddressInvalid
    | MapFailed
    | NilDereference  // the Go run-time panic of releasing into an empty free list

  ghost predicate InFree(free: seq<Block>, x: nat) {
    exists i :: 0 <= i < |free| && free[i].Has(x)
  }

  ghost predicate InUsed(used: map<nat, nat>, x: nat) {
    exists k :: k in used && Block(k, used[k]).Has(x)
  }

  /** Strictly descending, non-overlapping blocks of positive size. */
  ghost predicate Descending(free: seq<Block>) {
    && (forall i :: 0 <= i < |free| ==> free[i].addr > 0 && free[i].size > 0)
    && (forall i, j :: 0 <= i < j < |free| ==> free[j].End() <= free[i].addr)
  }

  ghost predicate UsedDisjoint(used: map<nat, nat>) {
    && (forall k :: k in used ==> k > 0 && used[k] > 0)
    && (forall k, l :: k in used && l in used && k < l ==> k + used[k] <= l)
  }

  ghost predicate FreeApartFromUsed(free: seq<Block>, used: map<nat, nat>) {
    forall i, k :: 0 <= i < |free| && k in used ==> free[i].End() <= k || k + used[k] <= free[i].addr
  }

  ghost predicate Covers(s: State) {
    forall x: nat :: x in s.heap <==> InFree(s.free, x) || InUsed(s.used, x) || x in s.leaked
  }

  ghost predicate LeakedApart(s: State) {
    forall x: nat :: x in s.leaked ==> !InFree(s.free, x) && !InUsed(s.used, x)
  }

  /** Free, used and leaked bytes are pairwise disjoint and together are exactly the heap. */
  ghost predicate Inv(s: State) {
    && Descending(s.free)
    && UsedDisjoint(s.used)
    && FreeApartFromUsed(s.free, s.used)
    && Covers(s)
    && LeakedApart(s)
    && (forall x: nat :: x in s.heap ==> x < s.limit)
    && s.limit > 0
  }

  // ----- allocation

  /** Index of the first block from `i` on that can hold `size` bytes, or the length if none can. */
  function FirstFit(free: seq<Block>, size: nat, i: nat): (j: nat)
    requires i <= |free|
    ensures i <= j <= |free|
    ensures forall k :: i <= k < j ==> free[k].size < size
    ensures j < |free| ==> free[j].size >= size
    decreases |free| - i
  {
    if i == |free| || free[i].size >= size then i else FirstFit(free, size, i + 1)
  }

  /** Take `size` bytes from the low end of block `j`; a block taken whole leaves the list. */
  function Take(free: seq<Block>, j: nat, size: nat): seq<Block>
    requires j < |free| && size <= free[j].size
  {
    if free[j].size == size then free[..j] + free[j + 1..]
    else free[j := Block(free[j].addr + size, free[j].size - size)]
  }

  function Bytes(b: Block): (s: set<nat>)
    ensures forall x: nat :: x in s <==> b.Has(x)
  {
    Span(b.addr, b.size)
  }

  function AllocFit(s: State, j: nat, size: nat): State
    requires j < |s.free| && size <= s.free[j].size
  {
    s.(free := Take(s.free, j, size), used := s.used[s.free[j].addr := size])
  }

  /** The tail of the new region goes to the head of the list. */
  function AllocRegion(s: State, size: nat, rsize: nat): State
    requires size <= rsize
  {
    var region := s.limit;
    State(if rsize > size then [Block(region + size, rsize - size)] + s.free else s.free,
          s.used[region := size],
          s.heap + Bytes(Block(region, rsize)),
          s.leaked,
          region + rsize)
  }

  /** One allocation; `page` is the emulator's page size and `mapOk` says whether mapping the next
      region succeeds, should one be needed. */
  function Alloc(s: State, size: nat, page: nat, mapOk: bool): (State, Outcome)
    requires page > 0
  {
    if size == 0 then (s, ArgumentInvalid)
    else
      var j := FirstFit(s.free, size, 0);
      if j < |s.free| then (AllocFit(s, j, size), Allocated(s.free[j].addr))
      else
        AlignBounds(size, page);
        var rsize := Align(size, page);
        if mapOk then (AllocRegion(s, size, rsize), Allocated(s.limit))
        else (s.(limit := s.limit + rsize), MapFailed)
  }

  /** Whether the emulator, with these bytes mapped already, would map the region for `size` bytes. */
  predicate MapOk(s: State, mapped: set<nat>, size: nat, page: nat) {
    Align(size, page) > 0 && Bytes(Block(s.limit, Align(size, page))) !! mapped
  }

  /** Allocations of these sizes one after the other, until one fails: the state, the addresses and
      whether all of them succeeded. */
  function AllocAll(s: State, mapped: set<nat>, sizes: seq<nat>, page: nat): (State, seq<nat>, bool)
    requires page > 0
    decreases |sizes|
  {
    if sizes == [] then (s, [], true)
    else
      var (t, r) := Alloc(s, sizes[0], page, MapOk(s, mapped, sizes[0], page));
      if !r.Allocated? then (t, [], false)
      else
        var (u, addrs, ok) := AllocAll(t, mapped + (t.heap - s.heap), sizes[1..], page);
        (u, [r.addr] + addrs, ok)
  }

  // ----- release

  /** Where the scan of a release of `[addr, addr + size)` stops: at the block just below it, or at
      the first block that starts below its end. */
  function Stop(free: seq<Block>, addr: nat, size: nat, i: nat): (j: nat)
    requires i <= |free|
    ensures i <= j <= |free|
    ensures forall k :: i <= k < j ==> free[k].End() != addr && free[k].addr >= addr + size
    ensures j < |free| ==> free[j].End() == addr || free[j].addr < addr + size
    decreases |free| - i
  {
    if i == |free| || free[i].End() == addr || free[i].addr < addr + size then i
    else Stop(free, addr, size, i + 1)
  }

  function Give(free: seq<Block>, addr: nat, size: nat): seq<Block>
    requires free != []
  {
    var j, last, end := Stop(free, addr, size, 0), |free| - 1, addr + size;
    if j < |free| && free[j].End() == addr then
      if j == 0 || free[j - 1].addr != end then
        free[j := Block(free[j].addr, free[j].size + size)]
      else
        free[..j - 1] + [Block(free[j].addr, free[j - 1].size + (free[j].size + size))] + free[j + 1..]
    else if j < |free| then free[..j] + [Block(addr, size)] + free[j..]
    else if free[last].addr == end then free[last := Block(addr, free[last].size + size)]
    else free + [Block(addr, size)]
  }

  function Free(s: State, addr: nat): (State, Outcome) {
    if addr == 0 || addr !in s.used then (s, AddressInvalid)
    else
      var s1 := s.(used := s.used - {addr});
      if s.free == [] then (s1.(leaked := s.leaked + Bytes(Block(addr, s.used[addr]))), NilDereference)
      else (s1.(free := Give(s.free, addr, s.used[addr])), Freed)
  }

  // ----- each step keeps the partition

  lemma TakeSplits(free: seq<Block>, j: nat, size: nat)
    requires Descending(free) && j < |free| && 0 < size <= free[j].size
    ensures Descending(Take(free, j, size))
    ensures forall x: nat :: InFree(free, x) <==> InFree(Take(free, j, size), x) || Block(free[j].addr, size).Has(x)
    ensures forall x: nat :: !(InFree(Take(free, j, size), x) && Block(free[j].addr, size).Has(x))
  {
    var b := free[j];
    if b.size == size {
      RemoveSplits(free, j);
    } else {
      ReplaceCovers(Take(free, j, size), j, b, b.addr, size);
      assert Take(free, j, size)[j := b] == free;
      forall x: nat | Block(b.addr, size).Has(x) ensures !InFree(Take(free, j, size), x) {
        assert forall i :: 0 <= i < j ==> free[j].End() <= free[i].addr;
      }
    }
  }

  lemma RemoveSplits(free: seq<Block>, j: nat)
    requires Descending(free) && j < |free|
    ensures var g := free[..j] + free[j + 1..];
      && Descending(g)
      && (forall x: nat :: InFree(free, x) <==> InFree(g, x) || free[j].Has(x))
      && (forall x: nat :: !(InFree(g, x) && free[j].Has(x)))
  {
    var g := free[..j] + free[j + 1..];
    InsertCovers(g, j, free[j].addr, free[j].size);
    assert g[..j] + [free[j]] + g[j..] == free;
    forall x: nat | free[j].Has(x) ensures !InFree(g, x) {
      forall i | 0 <= i < |g| ensures !g[i].Has(x) {
        assert g[i] == free[if i < j then i else i + 1];
      }
    }
  }

  lemma AllocKeeps(s: State, size: nat, page: nat, mapOk: bool)
    requires Inv(s) && page > 0
    ensures Inv(Alloc(s, size, page, mapOk).0)
  {
    if size > 0 {
      var j := FirstFit(s.free, size, 0);
      if j < |s.free| {
        AllocFitKeeps(s, j, size);
      } else if mapOk {
        AlignBounds(size, page);
        AllocRegionKeeps(s, size, Align(size, page));
      }
    }
  }

  lemma AllocFitKeeps(s: State, j: nat, size: nat)
    requires Inv(s) && j < |s.free| && 0 < size <= s.free[j].size
    ensures Inv(AllocFit(s, j, size))
  {
    var b := s.free[j];
    TakeSplits(s.free, j, size);
    assert b.addr !in s.used by { assert b.Has(b.addr); }
    UsedAdds(s.used, b.addr, size);
    TakeApart(s, j, size);
  }

  lemma TakeApart(s: State, j: nat, size: nat)
    requires Inv(s) && j < |s.free| && 0 < size <= s.free[j].size
    ensures FreeApartFromUsed(Take(s.free, j, size), s.used[s.free[j].addr := size])
  {
    var b := s.free[j];
    var free, used := Take(s.free, j, size), s.used[b.addr := size];
    forall i, k | 0 <= i < |free| && k in used ensures free[i].End() <= k || k + used[k] <= free[i].addr {
      if b.size == size {
        var i' := if i < j then i else i + 1;
        assert free[i] == s.free[i'];
      }
    }
  }

  lemma AllocRegionKeeps(s: State, size: nat, rsize: nat)
    requires Inv(s) && 0 < size <= rsize
    ensures Inv(AllocRegion(s, size, rsize))
  {
    AllBelowLimit(s);
    assert s.limit !in s.used;
    RegionCovers(s, size, rsize);
    RegionApart(s, size, rsize);
  }

  /** Addresses are used up even when mapping them fails. */
  lemma LimitGrows(s: State, size: nat)
    requires Inv(s)
    ensures Inv(s.(limit := s.limit + size))
  {
  }

  lemma RegionApart(s: State, size: nat, rsize: nat)
    requires Descending(s.free) && UsedDisjoint(s.used) && FreeApartFromUsed(s.free, s.used)
    requires forall k :: k in s.used ==> k + s.used[k] <= s.limit
    requires forall i :: 0 <= i < |s.free| ==> s.free[i].End() <= s.limit
    requires 0 < size <= rsize && s.limit > 0
    ensures var s' := AllocRegion(s, size, rsize);
      Descending(s'.free) && UsedDisjoint(s'.used) && FreeApartFromUsed(s'.free, s'.used)
  {
    RegionUsed(s.used, s.limit, size);
    RegionDescends(s.free, s.limit, size, rsize);
    hide Descending, UsedDisjoint;
  }

  lemma RegionUsed(used: map<nat, nat>, region: nat, size: nat)
    requires UsedDisjoint(used) && size > 0 && region > 0
    requires forall k :: k in used ==> k + used[k] <= region
    ensures UsedDisjoint(used[region := size])
  {
  }

  lemma RegionDescends(free: seq<Block>, region: nat, size: nat, rsize: nat)
    requires Descending(free) && 0 < size <= rsize
    requires forall i :: 0 <= i < |free| ==> free[i].End() <= region
    ensures rsize > size ==> Descending([Block(region + size, rsize - size)] + free)
  {
  }

  lemma RegionCovers(s: State, size: nat, rsize: nat)
    requires Covers(s) && LeakedApart(s) && s.limit !in s.used && 0 < size <= rsize
    requires forall x: nat :: x in s.heap ==> x < s.limit
    ensures var s' := AllocRegion(s, size, rsize);
      Covers(s') && LeakedApart(s') && (forall x: nat :: x in s'.heap ==> x < s'.limit)
  {
    var region, s' := s.limit, AllocRegion(s, size, rsize);
    UsedAdds(s.used, region, size);
    if rsize > size {
      InsertCovers(s.free, 0, region + size, rsize - size);
      assert s.free[..0] + [Block(region + size, rsize - size)] + s.free[0..] == s'.free;
    }
    assert forall x: nat :: InFree(s'.free, x) ==> InFree(s.free, x) || Block(region, rsize).Has(x);
    assert forall x: nat :: InUsed(s'.used, x) ==> InUsed(s.used, x) || Block(region, rsize).Has(x);
    forall x: nat ensures x in s'.heap <==> InFree(s'.free, x) || InUsed(s'.used, x) || x in s'.leaked {
      assert x in s'.heap <==> x in s.heap || Block(region, rsize).Has(x);
    }
  }

  /** The bump pointer is above every block, so a new region's tail belongs at the head of the list. */
  lemma AllBelowLimit(s: State)
    requires Inv(s)
    ensures forall k :: k in s.used ==> k + s.used[k] <= s.limit
    ensures forall i :: 0 <= i < |s.free| ==> s.free[i].End() <= s.limit
  {
    forall k | k in s.used ensures k + s.used[k] <= s.limit {
      assert Block(k, s.used[k]).Has(k + s.used[k] - 1);
      assert InUsed(s.used, k + s.used[k] - 1);
    }
    forall i | 0 <= i < |s.free| ensures s.free[i].End() <= s.limit {
      assert s.free[i].Has(s.free[i].End() - 1);
      assert InFree(s.free, s.free[i].End() - 1);
    }
  }

  lemma UsedAdds(used: map<nat, nat>, addr: nat, size: nat)
    requires addr !in used
    ensures forall x: nat :: InUsed(used[addr := size], x) <==> InUsed(used, x) || Block(addr, size).Has(x)
  {
    var u := used[addr := size];
    forall x: nat ensures InUsed(u, x) <==> InUsed(used, x) || Block(addr, size).Has(x) {
      if InUsed(used, x) {
        var k :| k in used && Block(k, used[k]).Has(x);
        assert k in u && u[k] == used[k];
      }
      if Block(addr, size).Has(x) {
        assert addr in u && u[addr] == size;
      }
    }
  }

  /** Returning a block adds exactly its bytes to the free list and keeps the list in order. */
  lemma GiveAdds(free: seq<Block>, addr: nat, size: nat)
    requires Descending(free) && free != [] && addr > 0 && size > 0
    requires forall i :: 0 <= i < |free| ==> free[i].End() <= addr || addr + size <= free[i].addr
    ensures Descending(Give(free, addr, size))
    ensures forall x: nat :: InFree(Give(free, addr, size), x) <==> InFree(free, x) || Block(addr, size).Has(x)
  {
    GiveDescends(free, addr, size);
    GiveCovers(free, addr, size);
  }

  lemma GiveDescends(free: seq<Block>, addr: nat, size: nat)
    requires Descending(free) && free != [] && addr > 0 && size > 0
    requires forall i :: 0 <= i < |free| ==> free[i].End() <= addr || addr + size <= free[i].addr
    ensures Descending(Give(free, addr, size))
  {
    hide Descending;
    var j := Stop(free, addr, size, 0);
    if j == |free| {
      GiveLowestDescends(free, addr, size);
    } else if free[j].End() == addr {
      if j == 0 || free[j - 1].addr != addr + size {
        GrowUpDescends(free, j, addr, size);
      } else {
        MergeThreeDescends(free, j, addr, size);
      }
    } else {
      GiveAboveDescends(free, j, addr, size);
    }
  }

  lemma GiveAboveDescends(free: seq<Block>, j: nat, addr: nat, size: nat)
    requires Descending(free) && j < |free| && addr > 0 && size > 0
    requires forall k :: 0 <= k < j ==> free[k].addr >= addr + size
    requires free[j].End() <= addr
    ensures Descending(free[..j] + [Block(addr, size)] + free[j..])
  {
    assert forall k :: j < k < |free| ==> free[k].End() <= free[j].addr;
    InsertDescends(free, j, Block(addr, size));
  }

  lemma GiveLowestDescends(free: seq<Block>, addr: nat, size: nat)
    requires Descending(free) && free != [] && addr > 0 && size > 0
    requires Stop(free, addr, size, 0) == |free|
    ensures Descending(Give(free, addr, size))
  {
    var last := |free| - 1;
    if free[last].addr == addr + size {
      ReplaceDescends(free, last, Block(addr, free[last].size + size));
    } else {
      InsertDescends(free, |free|, Block(addr, size));
      assert free[..|free|] + [Block(addr, size)] + free[|free|..] == free + [Block(addr, size)];
    }
  }

  lemma GrowUpDescends(free: seq<Block>, j: nat, addr: nat, size: nat)
    requires Descending(free) && j < |free| && free[j].End() == addr && size > 0
    requires forall k :: 0 <= k < j ==> free[k].addr >= addr + size
    ensures Descending(free[j := Block(free[j].addr, free[j].size + size)])
  {
    ReplaceDescends(free, j, Block(free[j].addr, free[j].size + size));
  }

  lemma MergeThreeDescends(free: seq<Block>, j: nat, addr: nat, size: nat)
    requires Descending(free) && 0 < j < |free| && free[j].End() == addr && free[j - 1].addr == addr + size
    ensures var b := Block(free[j].addr, free[j - 1].size + (free[j].size + size));
      Descending(free[..j - 1] + [b] + free[j + 1..])
  {
    var b := Block(free[j].addr, free[j - 1].size + (free[j].size + size));
    var f := free[..j] + free[j + 1..];
    ReplaceDescends(f, j - 1, b);
    assert f[j - 1 := b] == free[..j - 1] + [b] + free[j + 1..];
  }

  lemma ReplaceDescends(free: seq<Block>, j: nat, b: Block)
    requires Descending(free) && j < |free| && b.addr > 0 && b.size > 0
    requires forall k :: 0 <= k < j ==> b.End() <= free[k].addr
    requires forall k :: j < k < |free| ==> free[k].End() <= b.addr
    ensures Descending(free[j := b])
  {
  }

  lemma InsertDescends(free: seq<Block>, j: nat, b: Block)
    requires Descending(free) && j <= |free| && b.addr > 0 && b.size > 0
    requires forall k :: 0 <= k < j ==> b.End() <= free[k].addr
    requires forall k :: j <= k < |free| ==> free[k].End() <= b.addr
    ensures Descending(free[..j] + [b] + free[j..])
  {
  }

  lemma GiveCovers(free: seq<Block>, addr: nat, size: nat)
    requires free != []
    ensures forall x: nat :: InFree(Give(free, addr, size), x) <==> InFree(free, x) || Block(addr, size).Has(x)
  {
    var j, last, end := Stop(free, addr, size, 0), |free| - 1, addr + size;
    if j < |free| && free[j].End() == addr {
      if j == 0 || free[j - 1].addr != end {
        ReplaceCovers(free, j, Block(free[j].addr, free[j].size + size), addr, size);
      } else {
        MergeThreeCovers(free, j, addr, size);
      }
    } else if j < |free| || free[last].addr != end {
      InsertCovers(free, j, addr, size);
      assert j == |free| ==> free[..j] == free && free[j..] == [];
    } else {
      ReplaceCovers(free, last, Block(addr, free[last].size + size), addr, size);
    }
  }

  lemma MergeThreeCovers(free: seq<Block>, j: nat, addr: nat, size: nat)
    requires 0 < j < |free| && free[j].End() == addr && free[j - 1].addr == addr + size
    ensures var b := Block(free[j].addr, free[j - 1].size + (free[j].size + size));
      forall x: nat :: InFree(free[..j - 1] + [b] + free[j + 1..], x) <==> InFree(free, x) || Block(addr, size).Has(x)
  {
    var b := Block(free[j].addr, free[j - 1].size + (free[j].size + size));
    ReplaceCovers(free, j - 1, b, free[j].addr, free[j].size + size);
    DropCovered(free[j - 1 := b], j);
    assert free[j - 1 := b][..j] + free[j - 1 := b][j + 1..] == free[..j - 1] + [b] + free[j + 1..];
    forall x: nat | free[j].Has(x) ensures InFree(free, x) {
    }
  }

  lemma ReplaceCovers(free: seq<Block>, j: nat, b: Block, addr: nat, size: nat)
    requires j < |free|
    requires forall x: nat :: b.Has(x) <==> free[j].Has(x) || Block(addr, size).Has(x)
    ensures forall x: nat :: InFree(free[j := b], x) <==> InFree(free, x) || Block(addr, size).Has(x)
  {
    var g := free[j := b];
    forall x: nat ensures InFree(g, x) <==> InFree(free, x) || Block(addr, size).Has(x) {
      if InFree(free, x) {
        var i :| 0 <= i < |free| && free[i].Has(x);
        assert g[i].Has(x);
      }
      if Block(addr, size).Has(x) {
        assert g[j].Has(x);
      }
    }
  }

  lemma DropCovered(free: seq<Block>, j: nat)
    requires 0 < j < |free|
    requires forall x: nat :: free[j].Has(x) ==> free[j - 1].Has(x)
    ensures forall x: nat :: InFree(free[..j] + free[j + 1..], x) <==> InFree(free, x)
  {
    var g := free[..j] + free[j + 1..];
    forall x: nat ensures InFree(g, x) <==> InFree(free, x) {
      if InFree(free, x) {
        var i :| 0 <= i < |free| && free[i].Has(x);
        var i' := if i < j then i else i - 1;
        assert g[i'].Has(x);
      }
      if InFree(g, x) {
        var i :| 0 <= i < |g| && g[i].Has(x);
        assert g[i] == free[if i < j then i else i + 1];
      }
    }
  }

  lemma InsertCovers(free: seq<Block>, j: nat, addr: nat, size: nat)
    requires j <= |free|
    ensures forall x: nat :: InFree(free[..j] + [Block(addr, size)] + free[j..], x)
                        <==> InFree(free, x) || Block(addr, size).Has(x)
  {
    var g := free[..j] + [Block(addr, size)] + free[j..];
    forall x: nat ensures InFree(g, x) <==> InFree(free, x) || Block(addr, size).Has(x) {
      if InFree(free, x) {
        var i :| 0 <= i < |free| && free[i].Has(x);
        assert g[if i < j then i else i + 1] == free[i];
      }
      if Block(addr, size).Has(x) {
        assert g[j] == Block(addr, size);
      }
      if InFree(g, x) {
        var i :| 0 <= i < |g| && g[i].Has(x);
        assert i != j ==> g[i] == free[if i < j then i else i - 1];
      }
    }
  }

  lemma UsedDrops(used: map<nat, nat>, addr: nat)
    requires UsedDisjoint(used) && addr in used
    ensures forall x: nat :: InUsed(used, x) <==> InUsed(used - {addr}, x) || Block(addr, used[addr]).Has(x)
    ensures forall x: nat :: !(InUsed(used - {addr}, x) && Block(addr, used[addr]).Has(x))
  {
    var u := used - {addr};
    forall x: nat ensures InUsed(used, x) <==> InUsed(u, x) || Block(addr, used[addr]).Has(x) {
      if InUsed(used, x) {
        var k :| k in used && Block(k, used[k]).Has(x);
        assert k != addr ==> k in u && u[k] == used[k];
      }
      if InUsed(u, x) {
        var k :| k in u && Block(k, u[k]).Has(x);
        assert k in used && used[k] == u[k];
      }
    }
  }

  /** A release keeps the partition; it leaks the block if and only if it meets an empty free list. */
  lemma FreeKeeps(s: State, addr: nat)
    requires Inv(s)
    ensures Inv(Free(s, addr).0)
    ensures Free(s, addr).1 == NilDereference <==> addr in s.used && s.free == []
    ensures Free(s, addr).1 == NilDereference <==> Free(s, addr).0.leaked != s.leaked
  {
    if addr == 0 || addr !in s.used {
      return;
    }
    var size, s' := s.used[addr], Free(s, addr).0;
    UsedDrops(s.used, addr);
    if s.free == [] {
      assert Block(addr, size).Has(addr) && addr in s'.leaked;
      assert InUsed(s.used, addr);
    } else {
      GiveAdds(s.free, addr, size);
      forall i, k | 0 <= i < |s'.free| && k in s'.used
        ensures s'.free[i].End() <= k || k + s'.used[k] <= s'.free[i].addr
      {
        ApartByBytes(s, addr, s'.free, i, k);
      }
    }
  }

  /** Two ranges overlap only if one holds the other's first byte. */
  lemma ApartByBytes(s: State, addr: nat, g: seq<Block>, i: nat, k: nat)
    requires Inv(s) && addr in s.used && Descending(g)
    requires forall x: nat :: InFree(g, x) <==> InFree(s.free, x) || Block(addr, s.used[addr]).Has(x)
    requires i < |g| && k in s.used && k != addr
    ensures g[i].End() <= k || k + s.used[k] <= g[i].addr
  {
    if g[i].addr <= k < g[i].End() {
      assert InFree(g, k);
      NotBoth(s, k, k);
      assert false;
    }
    if k <= g[i].addr < k + s.used[k] {
      assert InFree(g, g[i].addr);
      NotBoth(s, k, g[i].addr);
      assert false;
    }
  }

  lemma NotBoth(s: State, k: nat, x: nat)
    requires Inv(s) && k in s.used && k <= x < k + s.used[k]
    ensures !InFree(s.free, x)
    ensures forall l :: l in s.used && l != k ==> !Block(l, s.used[l]).Has(x)
  {
  }

  // ----- whole runs

  datatype Op =
    | AllocOp(size: nat, mapOk: bool)
    | FreeOp(addr: nat)
    | RegionOp(size: nat)  // some other client of the region source moves the bump pointer

  function Apply(s: State, op: Op, page: nat): (State, Outcome)
    requires page > 0
  {
    match op
    case AllocOp(size, mapOk) => Alloc(s, size, page, mapOk)
    case FreeOp(addr) => Free(s, addr)
    case RegionOp(size) => (s.(limit := s.limit + size), Freed)
  }

  function Run(s: State, ops: seq<Op>, page: nat): State
    requires page > 0
    decreases |ops|
  {
    if ops == [] then s else Run(Apply(s, ops[0], page).0, ops[1..], page)
  }

  /** The operation is a release of a block in use while the free list is empty. */
  predicate MeetsEmpty(s: State, op: Op) {
    op.FreeOp? && op.addr in s.used && s.free == []
  }

  /** Some operation of the run is a release that meets an empty free list. */
  predicate Panics(s: State, ops: seq<Op>, page: nat)
    requires page > 0
    decreases |ops|
  {
    ops != [] && (MeetsEmpty(s, ops[0]) || Panics(Apply(s, ops[0], page).0, ops[1..], page))
  }

  function Initial(limit: nat): State {
    State([], map[], {}, {}, limit)
  }

  lemma {:induction false} RunKeeps(s: State, ops: seq<Op>, page: nat)
    requires Inv(s) && page > 0
    ensures Inv(Run(s, ops, page))
    ensures s.leaked <= Run(s, ops, page).leaked
    ensures Run(s, ops, page).leaked == s.leaked <==> !Panics(s, ops, page)
    decreases |ops|
  {
    if ops == [] {
    } else {
      var s' := Apply(s, ops[0], page).0;
      ApplyKeeps(s, ops[0], page);
      RunKeeps(s', ops[1..], page);
    }
  }

  lemma ApplyKeeps(s: State, op: Op, page: nat)
    requires Inv(s) && page > 0
    ensures var (s', r) := Apply(s, op, page);
      && Inv(s') && s.leaked <= s'.leaked
      && (s'.leaked == s.leaked <==> !MeetsEmpty(s, op))
      && (r == NilDereference <==> MeetsEmpty(s, op))
  {
    match op
    case AllocOp(size, mapOk) => AllocKeeps(s, size, page, mapOk);
    case FreeOp(addr) => FreeKeeps(s, addr);
    case RegionOp(size) =>
  }

  /** The heap partition over every run from the initial state: the free list always descends without
      overlap, used blocks are disjoint, and used and free blocks cover exactly the heap if and only if
      no release met an empty free list. */
  lemma Partition(ops: seq<Op>, page: nat, limit: nat)
    requires page > 0 && limit > 0
    ensures var s := Run(Initial(limit), ops, page);
      && Descending(s.free) && UsedDisjoint(s.used) && FreeApartFromUsed(s.free, s.used)
      && ((forall x: nat :: x in s.heap <==> InFree(s.free, x) || InUsed(s.used, x))
          <==> !Panics(Initial(limit), ops, page))
  {
    var s := Run(Initial(limit), ops, page);
    RunKeeps(Initial(limit), ops, page);
    if s.leaked != {} {
      var x :| x in s.leaked;
      assert x in s.heap && !InFree(s.free, x) && !InUsed(s.used, x);
    }
  }

  /** The free list does become empty: one page-sized block, taken and given back. */
  lemma WholePageReleasePanics(page: nat)
    requires page > 0 && Align(page, page) == page
    ensures Run(Initial(0x400000), [AllocOp(page, true)], page).used == map[0x400000 := page]
    ensures Panics(Initial(0x400000), [AllocOp(page, true), FreeOp(0x400000)], page)
  {
    var s0 := Initial(0x400000);
    var s1 := Apply(s0, AllocOp(page, true), page).0;
    assert FirstFit([], page, 0) == 0;
    assert s1 == AllocRegion(s0, page, page) && s1.free == [];
    assert [AllocOp(page, true)][1..] == [];
    assert [AllocOp(page, true), FreeOp(0x400000)][1..] == [FreeOp(0x400000)];
    assert MeetsEmpty(s1, FreeOp(0x400000));
    assert Panics(s1, [FreeOp(0x400000)], page);
  }

  // ----- coalescing

  /** Block `i` ends exactly where its upper neighbour in the list begins. */
  predicate Touches(free: seq<Block>, i: nat)
    requires 0 < i < |free|
  {
    free[i].End() == free[i - 1].addr
  }

  ghost predicate Coalesced(free: seq<Block>) {
    forall i :: 0 < i < |free| ==> !Touches(free, i)
  }

  /** A release leaves no two free blocks touching except when it is inserted in front of a block
      that does not touch it from below while the block above it does. */
  lemma GiveCoalesces(free: seq<Block>, addr: nat, size: nat)
    requires Descending(free) && Coalesced(free) && free != [] && size > 0
    ensures var j := Stop(free, addr, size, 0);
      Coalesced(Give(free, addr, size))
      <==> !(0 < j < |free| && free[j].End() != addr && free[j - 1].addr == addr + size)
  {
    hide Descending, Coalesced;
    var j := Stop(free, addr, size, 0);
    if j == |free| {
      LowestCoalesces(free, addr, size);
    } else if free[j].End() == addr {
      GrowCoalesces(free, j, addr, size);
    } else {
      InsertCoalesces(free, j, addr, size);
    }
  }

  lemma LowestCoalesces(free: seq<Block>, addr: nat, size: nat)
    requires Coalesced(free) && free != []
    ensures var last := |free| - 1;
      if free[last].addr == addr + size then Coalesced(free[last := Block(addr, free[last].size + size)])
      else Coalesced(free + [Block(addr, size)])
  {
    var last := |free| - 1;
    var g := if free[last].addr == addr + size then free[last := Block(addr, free[last].size + size)]
             else free + [Block(addr, size)];
    forall i | 0 < i < |g| ensures !Touches(g, i) {
      assert i < |free| ==> !Touches(free, i);
    }
  }

  lemma GrowCoalesces(free: seq<Block>, j: nat, addr: nat, size: nat)
    requires Coalesced(free) && j < |free| && size > 0 && free[j].End() == addr
    ensures if j == 0 || free[j - 1].addr != addr + size
            then Coalesced(free[j := Block(free[j].addr, free[j].size + size)])
            else
              var b := Block(free[j].addr, free[j - 1].size + (free[j].size + size));
              Coalesced(free[..j - 1] + [b] + free[j + 1..])
  {
    if j == 0 || free[j - 1].addr != addr + size {
      var g := free[j := Block(free[j].addr, free[j].size + size)];
      forall i | 0 < i < |g| ensures !Touches(g, i) {
        assert !Touches(free, i);
      }
    } else {
      var g := free[..j - 1] + [Block(free[j].addr, free[j - 1].size + (free[j].size + size))] + free[j + 1..];
      forall i | 0 < i < |g| ensures !Touches(g, i) {
        assert !Touches(free, if i <= j - 1 then i else i + 1);
      }
    }
  }

  lemma InsertCoalesces(free: seq<Block>, j: nat, addr: nat, size: nat)
    requires Coalesced(free) && j < |free| && free[j].End() != addr
    ensures Coalesced(free[..j] + [Block(addr, size)] + free[j..]) <==> j == 0 || free[j - 1].addr != addr + size
  {
    var g := free[..j] + [Block(addr, size)] + free[j..];
    if j > 0 && free[j - 1].addr == addr + size {
      assert Touches(g, j);
    } else {
      forall i | 0 < i < |g| ensures !Touches(g, i) {
        assert i < j ==> !Touches(free, i);
        assert i > j + 1 ==> !Touches(free, i - 1);
      }
    }
  }

  /** So touching free blocks do arise: 0x3000 is released between a hole and a free block above it. */
  lemma UpwardMergeIsMissed()
    ensures var free := [Block(0x4000, 0x1000), Block(0x1000, 0x1000)];
      && Coalesced(free)
      && Give(free, 0x3000, 0x1000) == [Block(0x4000, 0x1000), Block(0x3000, 0x1000), Block(0x1000, 0x1000)]
      && !Coalesced(Give(free, 0x3000, 0x1000))
  {
    var free := [Block(0x4000, 0x1000), Block(0x1000, 0x1000)];
    assert Stop(free, 0x3000, 0x1000, 1) == 1;
    assert Stop(free, 0x3000, 0x1000, 0) == 1;
    assert Touches(Give(free, 0x3000, 0x1000), 1);
  }

  // ----- several blocks at once

  /** `all` is what `addrs`, taken already, and then `rest` come to. */
  predicate Continues(all: (State, seq<nat>, bool), addrs: seq<nat>, rest: (State, seq<nat>, bool)) {
    all == (rest.0, addrs + rest.1, rest.2)
  }

  lemma AllocAllNext(s: State, mapped: set<nat>, sizes: seq<nat>, page: nat)
    requires page > 0 && sizes != []
    ensures var (t, r) := Alloc(s, sizes[0], page, MapOk(s, mapped, sizes[0], page));
      var all := AllocAll(s, mapped, sizes, page);
      && (r.Allocated? ==> Continues(all, [r.addr], AllocAll(t, mapped + (t.heap - s.heap), sizes[1..], page)))
      && (!r.Allocated? ==> all == (t, [], false))
  {
    hide Alloc, MapOk;
  }

  lemma ContinuesMore(all: (State, seq<nat>, bool), addrs: seq<nat>, mid: (State, seq<nat>, bool), a: nat,
                      rest: (State, seq<nat>, bool))
    requires Continues(all, addrs, mid) && Continues(mid, [a], rest)
    ensures Continues(all, addrs + [a], rest)
  {
    assert addrs + ([a] + rest.1) == (addrs + [a]) + rest.1;
  }

  lemma ContinuesDone(all: (State, seq<nat>, bool), addrs: seq<nat>, s: State, ok: bool)
    requires Continues(all, addrs, (s, [], ok))
    ensures all == (s, addrs, ok)
  {
    assert addrs + [] == addrs;
  }

  lemma ContinuesNone(all: (State, seq<nat>, bool))
    ensures Continues(all, [], all)
  {
    assert [] + all.1 == all.1;
  }

  lemma AllocAllNone(s: State, mapped: set<nat>, page: nat)
    requires page > 0
    ensures AllocAll(s, mapped, [], page) == (s, [], true)
  {
  }

  /** A write that takes one whole page and then fails has nothing in the free list to return it to. */
  lemma FailedWriteMeetsEmpty(page: nat)
    requires page > 0 && Align(page, page) == page
    ensures var (s, addrs, ok) := AllocAll(Initial(0x400000), {}, [page], page);
      ok && addrs == [0x400000] && s.free == []
  {
    var s0 := Initial(0x400000);
    assert FirstFit([], page, 0) == 0;
    var s1 := AllocRegion(s0, page, page);
    assert MapOk(s0, {}, page, page) && Alloc(s0, page, page, true) == (s1, Allocated(0x400000));
    assert [page][1..] == [];
    AllocAllNone(s1, {} + (s1.heap - s0.heap), page);
  }

  /** A release into a list that is not empty leaves it so. */
  lemma GiveNotEmpty(s: State, addr: nat)
    requires addr in s.used && addr > 0
    ensures s.free != [] ==> Free(s, addr).0.free != []
    ensures s.free == [] ==> Free(s, addr).0.free == []
  {
  }

  lemma RegionIsNew(s: State, b: Block)
    requires Inv(s) && b.addr == s.limit
    ensures s.heap + Bytes(b) - s.heap == Bytes(b)
  {
  }

  // ----- rollback

  /** Nothing allocated since `s` is left, nothing leaked, and all newly mapped bytes are free. */
  ghost predicate Restored(s: State, t: State) {
    && t.used == s.used && t.leaked == s.leaked && s.heap <= t.heap
    && forall x: nat :: InFree(t.free, x) <==> InFree(s.free, x) || (x in t.heap && x !in s.heap)
  }

  /** Partition and an unchanged used map settle the free bytes, however the list is cut up. */
  lemma RestoredByUsed(s: State, t: State)
    requires Inv(s) && Inv(t) && t.used == s.used && t.leaked == s.leaked && s.heap <= t.heap
    ensures Restored(s, t)
  {
    forall x: nat ensures InFree(t.free, x) <==> InFree(s.free, x) || (x in t.heap && x !in s.heap) {
      if InUsed(s.used, x) {
        assert forall u: State :: Inv(u) && u.used == s.used ==> !InFree(u.free, x) by {
          forall u: State | Inv(u) && u.used == s.used ensures !InFree(u.free, x) {
            var k :| k in s.used && Block(k, s.used[k]).Has(x);
            NotBoth(u, k, x);
          }
        }
      }
    }
  }

  /** What is handed out is part of the heap and belongs to no other block, free or used. */
  /** Block `i` is the first in list order with room for `size` bytes. */
  ghost predicate FirstRoom(free: seq<Block>, size: nat, i: nat) {
    i < |free| && free[i].size >= size && forall k :: 0 <= k < i ==> free[k].size < size
  }

  /** Free blocks are used again: if one has room the allocation takes the low end of the first that has,
      whatever mapping would do, and obtains nothing; the rest of that block stays free. */
  lemma AllocReuses(s: State, size: nat, page: nat, mapOk: bool, i: nat)
    requires Inv(s) && page > 0 && size > 0 && FirstRoom(s.free, size, i)
    ensures var (t, r) := Alloc(s, size, page, mapOk);
      && r == Allocated(s.free[i].addr) && t.heap == s.heap && t.limit == s.limit
      && forall x: nat :: InFree(t.free, x) <==> InFree(s.free, x) && !Block(s.free[i].addr, size).Has(x)
  {
    var j := FirstFit(s.free, size, 0);
    assert j == i;
    TakeSplits(s.free, i, size);
    assert s.free[i].Has(s.free[i].addr);
    forall x: nat | Block(s.free[i].addr, size).Has(x) ensures InFree(s.free, x) {
      assert s.free[i].Has(x);
    }
  }

  /** Only if none has room is a region asked for, of the least number of whole pages; a failure to map it
      costs its addresses and nothing else. */
  lemma AllocObtains(s: State, size: nat, k: nat, mapOk: bool)
    requires Inv(s) && size > 0 && forall i :: 0 <= i < |s.free| ==> s.free[i].size < size
    ensures Pow2(k) > 0
    ensures var (t, r) := Alloc(s, size, Pow2(k), mapOk);
      var n := t.limit - s.limit;
      && LeastUp(size, n, Pow2(k))
      && r == (if mapOk then Allocated(s.limit) else MapFailed)
      && (forall x: nat :: x in t.heap <==> x in s.heap || (mapOk && s.limit <= x < t.limit))
      && (forall x: nat :: InFree(t.free, x) <==> InFree(s.free, x) || (mapOk && s.limit + size <= x < t.limit))
  {
    AlignIsLeastMultiple(size, k);
    AlignBounds(size, Pow2(k));
    hide Align, Pow2, InFree;
    if mapOk {
      RegionFree(s, size, Align(size, Pow2(k)));
    }
  }

  lemma RegionFree(s: State, size: nat, rsize: nat)
    requires size <= rsize
    ensures var t := AllocRegion(s, size, rsize);
      && (forall x: nat :: x in t.heap <==> x in s.heap || s.limit <= x < t.limit)
      && (forall x: nat :: InFree(t.free, x) <==> InFree(s.free, x) || s.limit + size <= x < t.limit)
  {
    if rsize > size {
      InsertCovers(s.free, 0, s.limit + size, rsize - size);
      assert s.free[..0] + [Block(s.limit + size, rsize - size)] + s.free[0..]
          == AllocRegion(s, size, rsize).free;
    }
  }

  /** So the bump pointer stays where it is exactly if a free block has room. */
  lemma LimitStays(s: State, size: nat, page: nat, mapOk: bool)
    requires Inv(s) && page > 0 && size > 0
    ensures Alloc(s, size, page, mapOk).0.limit == s.limit <==> exists i: nat :: FirstRoom(s.free, size, i)
  {
    var j := FirstFit(s.free, size, 0);
    if j < |s.free| {
      assert FirstRoom(s.free, size, j);
    } else {
      AlignBounds(size, page);
    }
  }

  /** From `s` to `t` a request of `size` bytes had the outcome `r`: if a free block had room the first such
      block served it and nothing was obtained, and addresses were used up only if none had. */
  ghost predicate Reuses(s: State, size: nat, t: State, r: Outcome) {
    && (forall i: nat :: FirstRoom(s.free, size, i) ==>
          r == Allocated(s.free[i].addr) && t.heap == s.heap && t.limit == s.limit)
    && (t.limit == s.limit <==> exists i: nat :: FirstRoom(s.free, size, i))
  }

  lemma AlwaysReuses(s: State, size: nat, page: nat, mapOk: bool)
    requires Inv(s) && page > 0 && size > 0
    ensures Reuses(s, size, Alloc(s, size, page, mapOk).0, Alloc(s, size, page, mapOk).1)
  {
    hide Inv, FirstRoom, Alloc;
    var (t, r) := Alloc(s, size, page, mapOk);
    LimitStays(s, size, page, mapOk);
    forall i: nat | FirstRoom(s.free, size, i)
      ensures i < |s.free| && r == Allocated(s.free[i].addr) && t.heap == s.heap && t.limit == s.limit
    {
      RoomIsThere(s.free, size, i);
      AllocReuses(s, size, page, mapOk, i);
    }
  }

  lemma RoomIsThere(free: seq<Block>, size: nat, i: nat)
    requires FirstRoom(free, size, i)
    ensures i < |free|
  {
  }

  lemma AllocIsFresh(s: State, size: nat, page: nat, mapOk: bool)
    requires Inv(s) && page > 0
    ensures var (t, r) := Alloc(s, size, page, mapOk);
      r.Allocated? ==> r.addr > 0 && forall x: nat :: Block(r.addr, size).Has(x) ==>
        x in t.heap && !InUsed(s.used, x) && !InFree(t.free, x)
  {
    var (t, r) := Alloc(s, size, page, mapOk);
    AllocKeeps(s, size, page, mapOk);
    AllocAdds(s, size, page, mapOk);
    if r.Allocated? {
      forall x: nat | Block(r.addr, size).Has(x) ensures x in t.heap && !InUsed(s.used, x) && !InFree(t.free, x) {
        assert r.addr in t.used && t.used[r.addr] == size;
        NotBoth(t, r.addr, x);
        assert InUsed(t.used, x);
        assert forall k :: k in s.used ==> k != r.addr && k in t.used && t.used[k] == s.used[k];
      }
    }
  }

  lemma AllocAdds(s: State, size: nat, page: nat, mapOk: bool)
    requires Inv(s) && page > 0
    ensures var (t, r) := Alloc(s, size, page, mapOk);
      && s.heap <= t.heap && t.leaked == s.leaked
      && (r.Allocated? ==> size > 0 && r.addr > 0 && r.addr !in s.used && t.used == s.used[r.addr := size])
      && (!r.Allocated? ==> t.used == s.used)
  {
    if size > 0 {
      var j := FirstFit(s.free, size, 0);
      if j == |s.free| {
        AllBelowLimit(s);
      }
    }
  }
}

/** The ledger of guest mappings and the operations that keep it in step with the emulator
    (internal/debugger/mem.go). */
module Ledger {
  import opened LedgerSpec

  /** Ascending keys of a map, taken as a snapshot. */
  method SortedKeys(m: map<nat, nat>) returns (ks: seq<nat>)
    ensures forall i, j :: 0 <= i < j < |ks| ==> ks[i] < ks[j]
    ensures forall k :: k in m <==> k in ks
  {
    ks := [];
    var rest := m.Keys;
    while rest != {}
      invariant rest <= m.Keys
      invariant forall k :: k in m <==> k in ks || k in rest
      invariant forall i, j :: 0 <= i < j < |ks| ==> ks[i] < ks[j]
      invariant forall j, l :: 0 <= j < |ks| && l in rest ==> ks[j] < l
      decreases rest
    {
      ghost var least := MinExists(rest);
      var k :| k in rest && forall l :: l in rest ==> k <= l;
      ks := ks + [k];
      rest := rest - {k};
    }
  }

  class MapLedger {
    var maps: map<nat, nat>

    constructor ()
      ensures maps == map[]
    {
      maps := map[];
    }

    method MapStore(addr: nat, size: nat)
      modifies this
      ensures maps == old(maps)[addr := size]
    {
      maps := maps[addr := size];
    }

    /** Removes the bytes `[addr0, addr0 + size0)` from the ledger, whatever intervals they span. */
    method MapDelete(addr0: nat, size0: nat)
      requires Disjoint(maps)
      modifies this
      ensures Progress(old(maps), maps, addr0, addr0 + size0, addr0 + size0)
    {
      hide Progress, Disjoint, Cut;
      var addr: nat, size: nat := addr0, size0;
      ghost var m0, end := maps, addr0 + size0;
      ProgressStart(m0, addr0, end);
      while addr in maps
        invariant addr0 <= addr && addr + size == end
        invariant Progress(m0, maps, addr0, addr, end)
        decreases |maps|
      {
        var valid := maps[addr];
        ghost var before := maps;
        ChainStep(m0, before, addr0, addr, if size < valid then addr + size else addr + valid, end);
        CutLow(before, addr, if size < valid then addr + size else addr + valid);
        maps := maps - {addr};
        if size < valid {
          maps := maps[addr + size := valid - size];
          return;
        }
        if size == valid {
          return;
        }
        addr := addr + valid;
        size := size - valid;
      }
      ProgressDisjoint(m0, maps, addr0, addr, end);
      ghost var m1 := maps;
      SweepDelete(addr, addr + size);
      ProgressChain(m0, m1, maps, addr0, addr, end);
    }

    method CutEntry(start: nat, blockEnd: nat, overlapStart: nat, overlapEnd: nat)
      requires start in maps && blockEnd == start + maps[start]
      requires start <= overlapStart <= overlapEnd <= blockEnd
      modifies this
      ensures maps == Cut(old(maps), start, overlapStart, overlapEnd)
    {
      if overlapStart > start {
        maps := maps[start := overlapStart - start];
      } else {
        maps := maps - {start};
      }
      if overlapEnd < blockEnd {
        maps := maps[overlapEnd := blockEnd - overlapEnd];
      }
    }

    /** The second half of a deletion: walk a snapshot of the keys, cutting what overlaps. */
    method SweepDelete(addr0: nat, end: nat)
      requires Disjoint(maps) && addr0 <= end
      modifies this
      ensures Progress(old(maps), maps, addr0, end, end)
    {
      hide SweepInv, Progress, Disjoint, Cut;
      var addr: nat := addr0;
      var ks := SortedKeys(maps);
      var i: nat := 0;
      ghost var m0 := maps;
      SweepStart(m0, ks, addr0, end);
      while i < |ks|
        invariant i <= |ks|
        invariant SweepInv(m0, maps, ks, i, addr0, addr, end)
      {
        SweepEntry(m0, maps, ks, i, addr0, addr, end);
        var start := ks[i];
        var blockEnd := start + maps[start];
        var (overlapStart, overlapEnd, ok) := Overlap(start, blockEnd, addr, end);
        if !ok {
          SweepSkip(m0, maps, ks, i, addr0, addr, end);
          i := i + 1;
          continue;
        }
        SweepCut(m0, maps, ks, i, addr0, addr, end);
        CutEntry(start, blockEnd, overlapStart, overlapEnd);
        if overlapEnd < blockEnd || overlapEnd >= end {
          return;
        }
        addr := overlapEnd;
        i := i + 1;
      }
      SweepDone(m0, maps, ks, addr0, addr, end);
    }
  }
}

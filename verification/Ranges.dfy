/** Byte ranges of the guest address space. */
module Ranges {

  predicate Within(x: nat, addr: nat, size: int) {
    addr <= x < addr + size
  }

  function Span(addr: nat, size: int): (s: set<nat>)
    ensures forall x: nat :: x in s <==> Within(x, addr, size)
  {
    set x: nat | addr <= x < addr + size && Within(x, addr, size)
  }
}

/** The pointer stream over guest memory, and the handlers that encode to it and decode from it
    (package encoding, internal/debugger/stream.go). */
module CodecStream {
  import opened Bits
  import opened Ranges
  import opened Wrappers
  import opened CodecTypes
  import opened CodecLayout
  import opened CodecMemory
  import opened CodecDecode

  /** The guest as the codec sees it: its memory, and an allocator that hands out any region of the
      address space not taken so far, or refuses. */
  class Machine {
    const bs: nat
    var mem: Mem
    var taken: set<nat>
    ghost var refusals: nat  // how often the allocator has turned a request down

    constructor (bs: nat)
      ensures this.bs == bs && mem == map[] && taken == {} && refusals == 0
    {
      this.bs := bs;
      mem, taken, refusals := map[], {}, 0;
    }

    /** Like the guest heap it refuses size 0; what it hands out is mapped, and nothing else changes. */
    method Alloc(size: int) returns (r: Option<nat>)
      modifies this
      ensures refusals == old(refusals) + Bit(r.None?)
      ensures r.None? ==> mem == old(mem) && taken == old(taken)
      ensures r.Some? ==>
        && size > 0 && r.value > 0 && r.value + size <= Pow256(bs)
        && Span(r.value, size) !! old(taken)
        && taken == old(taken) + Span(r.value, size)
        && mem.Keys == old(mem).Keys + Span(r.value, size)
        && (forall x :: x in old(mem) ==> mem[x] == old(mem)[x])
    {
      var a: nat, refuse: bool := *, *;
      if refuse || size <= 0 || a <= 0 || a + size > Pow256(bs) || !(Span(a, size) !! taken) {
        refusals := refusals + 1;
        return None;
      }
      taken := taken + Span(a, size);
      mem := map x | x in mem.Keys + Span(a, size) :: if x in mem then mem[x] else 0;
      return Some(a);
    }
  }

  lemma SlotStored(mem: Mem, bs: nat, p: nat, a: nat)
    requires a < Pow256(bs)
    ensures Mapped(mem, p, bs) ==> Slot(Store(mem, p, LE(a, bs)), bs, p) == a
  {
    if Mapped(mem, p, bs) {
      LERoundTrip(a, bs);
      HoldsRead(Store(mem, p, LE(a, bs)), p, LE(a, bs));
    }
  }

  class PointerStream {
    const m: Machine
    var ptr: nat

    constructor (m: Machine, ptr: nat)
      ensures this.m == m && this.ptr == ptr
    {
      this.m, this.ptr := m, ptr;
    }

    method Skip(n: int)
      modifies this
      ensures ptr == CodecDecode.Skip(old(ptr), n)
    {
      ptr := CodecDecode.Skip(ptr, n);
    }

    /** Reads `n` bytes and moves on, or fails and stays. */
    method Read(n: nat) returns (r: Option<seq<byte>>)
      modifies this
      ensures r == CodecMemory.Read(m.mem, old(ptr), n)
      ensures ptr == if r.Some? then old(ptr) + n else old(ptr)
    {
      r := CodecMemory.Read(m.mem, ptr, n);
      if r.Some? {
        Skip(n);
      }
    }

    /** Writes all of `b` and moves on, or fails and stays. */
    method Write(b: seq<byte>) returns (ok: bool)
      modifies this, m
      ensures ok == Mapped(old(m.mem), old(ptr), |b|)
      ensures ptr == if ok then old(ptr) + |b| else old(ptr)
      ensures m.mem == if ok then Store(old(m.mem), old(ptr), b) else old(m.mem)
      ensures m.taken == old(m.taken) && m.refusals == old(m.refusals)
    {
      ok := Mapped(m.mem, ptr, |b|);
      if ok {
        m.mem := Store(m.mem, ptr, b);
        Skip(|b|);
      }
    }

    /** The stream behind the pointer in the next slot. */
    method ReadStream() returns (r: Option<PointerStream>)
      modifies this
      ensures r.Some? <==> Mapped(m.mem, old(ptr), m.bs)
      ensures r.Some? ==> fresh(r.value) && r.value.m == m && r.value.ptr == Slot(m.mem, m.bs, old(ptr))
      ensures ptr == if r.Some? then old(ptr) + m.bs else old(ptr)
    {
      var b := Read(m.bs);
      if b.None? {
        return None;
      }
      var sub := new PointerStream(m, FromLE(b.value));
      return Some(sub);
    }

    /** Allocates a region, writes its address into the next slot and returns a stream over it; that
        the write may fail is not looked at. */
    method WriteStream(size: int) returns (r: Option<PointerStream>)
      modifies this, m
      ensures m.refusals == old(m.refusals) + Bit(r.None?)
      ensures r.None? ==> ptr == old(ptr) && m.mem == old(m.mem) && m.taken == old(m.taken)
      ensures size <= 0 ==> r.None?
      ensures r.Some? ==> fresh(r.value) && r.value.m == m && r.value.ptr > 0
      ensures r.Some? ==> var a := r.value.ptr;
        && size > 0 && Span(a, size) !! old(m.taken) && m.taken == old(m.taken) + Span(a, size)
        && m.mem.Keys == old(m.mem).Keys + Span(a, size)
        && (forall x :: x in old(m.mem) && !Within(x, old(ptr), m.bs) ==> m.mem[x] == old(m.mem)[x])
        && (ptr == old(ptr) || ptr == old(ptr) + m.bs)
        && (Mapped(old(m.mem), old(ptr), m.bs) ==> ptr == old(ptr) + m.bs && Slot(m.mem, m.bs, old(ptr)) == a)
    {
      var a := m.Alloc(size);
      if a.None? {
        return None;
      }
      SlotStored(m.mem, m.bs, ptr, a.value);
      var ok := Write(LE(a.value, m.bs));
      var sub := new PointerStream(m, a.value);
      return Some(sub);
    }
  }

  // ----- what an encoder leaves behind

  /** Every byte that was there stays as it was, but for `[p, p + n)` and what has been newly taken. */
  ghost predicate Framed(m0: Mem, m1: Mem, t0: set<nat>, t1: set<nat>, p: nat, n: int) {
    && m0.Keys <= m1.Keys && t0 <= t1
    && forall x :: x in m0 && !Within(x, p, n) && (x in t0 || x !in t1) ==> m1[x] == m0[x]
  }

  lemma FramedSame(m: Mem, t: set<nat>, p: nat, n: int)
    ensures Framed(m, m, t, t, p, n)
  {
  }

  /** The bytes an encoding owns: its window and every region allocated for it. */
  ghost function Own(t0: set<nat>, t1: set<nat>, p: nat, n: int): set<nat> {
    Span(p, n) + (t1 - t0)
  }

  lemma FramedStep(
    m0: Mem, m1: Mem, m2: Mem, t0: set<nat>, t1: set<nat>, t2: set<nat>, p: nat, n1: int, q: nat, n2: int, n: int)
    requires Framed(m0, m1, t0, t1, p, n1) && Framed(m1, m2, t1, t2, q, n2)
    requires p <= q && q + n2 <= p + n && n1 <= n
    ensures Framed(m0, m2, t0, t2, p, n)
  {
  }

  /** What was stored in earlier windows is out of reach of a later one. */
  lemma FramedKeeps(
    m1: Mem, m2: Mem, t0: set<nat>, t1: set<nat>, t2: set<nat>, p: nat, n1: int, q: nat, n2: int)
    requires Framed(m1, m2, t1, t2, q, n2) && t0 <= t1
    requires Span(p, n1) <= t0 && Span(q, n2) <= t0 && q >= p + n1
    ensures Keeps(m1, m2, Own(t0, t1, p, n1))
  {
  }

  lemma OwnGrows(t0: set<nat>, t1: set<nat>, t2: set<nat>, p: nat, n1: int, q: nat, n2: int, n: int)
    requires t0 <= t1 <= t2 && p <= q && q + n2 <= p + n && n1 <= n
    ensures Own(t0, t1, p, n1) <= Own(t0, t2, p, n) && Own(t1, t2, q, n2) <= Own(t0, t2, p, n)
  {
  }

  lemma SpanPart(p: nat, n: int, q: nat, k: int, t: set<nat>)
    requires Span(p, n) <= t && p <= q && q + k <= p + n
    ensures Span(q, k) <= t
  {
    assert forall x: nat :: x in Span(q, k) ==> x in Span(p, n);
  }

  /** Handlers that do nothing but skip when given a nil host pointer; any other one faults. */
  predicate SkipsNil(t: Ty, bs: nat)
    decreases t
  {
    match t
    case Pointer(_) => true
    case Array(e, c) => Custom(e, bs) && c == 1 && SkipsNil(e, bs)
    case Struct(fs, _) =>
      !Raw(fs, bs) && exists i :: (0 <= i < |fs| && !fs[i].ignore && fs[i].offset == 0 && SkipsNil(fs[i].ty, bs)
                                   && forall j :: 0 <= j < |fs| && j != i ==> fs[j].ignore)
    case _ => false
  }

  /** Encoding the value dereferences a nil host pointer. */
  ghost predicate Faults(t: Ty, v: Value, bs: nat)
    requires Typed(t, v, bs)
    decreases t, 0
  {
    match t
    case Array(e, _) => Custom(e, bs) && SomeFaults(e, v.elems, bs)
    case Pointer(e) => if v.VNil? then !SkipsNil(e, bs) else Faults(e, v.target, bs)
    case Slice(e) => Custom(e, bs) && SomeFaults(e, v.elems, bs)
    case Struct(fs, _) =>
      !Raw(fs, bs) && exists i :: 0 <= i < |fs| && !fs[i].ignore && Faults(fs[i].ty, v.elems[i], bs)
    case _ => false
  }

  ghost predicate SomeFaults(e: Ty, vs: seq<Value>, bs: nat)
    requires forall v :: v in vs ==> Typed(e, v, bs)
    decreases e, 1
  {
    exists i :: 0 <= i < |vs| && Faults(e, vs[i], bs)
  }

  /** Somewhere in the value there is an empty slice, for which a region of size 0 is asked. */
  ghost predicate HasEmptySlice(t: Ty, v: Value, bs: nat)
    requires Typed(t, v, bs)
    decreases t, 0
  {
    match t
    case Array(e, _) => Custom(e, bs) && SomeHasEmptySlice(e, v.elems, bs)
    case Pointer(e) => v.VPtr? && HasEmptySlice(e, v.target, bs)
    case Slice(e) =>
      if Custom(e, bs) then v.elems == [] || SomeHasEmptySlice(e, v.elems, bs) else v.bytes == []
    case Struct(fs, _) =>
      !Raw(fs, bs) && exists i :: 0 <= i < |fs| && !fs[i].ignore && HasEmptySlice(fs[i].ty, v.elems[i], bs)
    case _ => false
  }

  ghost predicate SomeHasEmptySlice(e: Ty, vs: seq<Value>, bs: nat)
    requires forall v :: v in vs ==> Typed(e, v, bs)
    decreases e, 1
  {
    exists i :: 0 <= i < |vs| && HasEmptySlice(e, vs[i], bs)
  }

  /** The first `i` elements neither fault nor hold an empty slice. */
  ghost predicate CleanUpTo(e: Ty, vs: seq<Value>, i: nat, bs: nat)
    requires i <= |vs| && forall v :: v in vs ==> Typed(e, v, bs)
  {
    forall j :: 0 <= j < i ==> !Faults(e, vs[j], bs) && !HasEmptySlice(e, vs[j], bs)
  }

  lemma CleanFacts(e: Ty, vs: seq<Value>, i: nat, bs: nat)
    requires i <= |vs| && forall v :: v in vs ==> Typed(e, v, bs)
    ensures CleanUpTo(e, vs, 0, bs)
    ensures CleanUpTo(e, vs, |vs|, bs) <==> !SomeFaults(e, vs, bs) && !SomeHasEmptySlice(e, vs, bs)
    ensures i < |vs| && Faults(e, vs[i], bs) ==> SomeFaults(e, vs, bs)
    ensures i < |vs| && CleanUpTo(e, vs, i, bs) && !Faults(e, vs[i], bs) && !HasEmptySlice(e, vs[i], bs) ==>
      CleanUpTo(e, vs, i + 1, bs)
  {
    hide Faults, HasEmptySlice, Typed;
  }

  /** The outcome is the right one: this encoding fails only where memory is not mapped or the
      allocator refuses one of its own requests, faults only where the value makes it, and succeeds
      only for a value that neither faults nor holds an empty slice. */
  ghost predicate Justified(r: Outcome, mapped: bool, refused: bool, faults: bool, empty: bool) {
    && (r == Failed && mapped ==> refused) && (refused ==> r == Failed)
    && (r == NilFault ==> faults)
    && (r == Done ==> !faults && !empty)
  }

  datatype Outcome =
    | Done
    | Failed    // the allocator or the memory refused
    | NilFault  // a nil host pointer was dereferenced

  /** The encoding of `v` ended at `ptr` and is complete. */
  ghost predicate Complete(m1: Mem, t0: set<nat>, t1: set<nat>, bs: nat, t: Ty, v: Value, p: nat, ptr: nat)
    requires Typed(t, v, bs)
  {
    && ptr == p + Moved(t, bs)
    && Stored(m1, Own(t0, t1, p, Moved(t, bs)), bs, t, v, p)
  }

  // ----- the encode handlers

  /** The handler of type `t`.  It writes only in its window `[ptr, ptr + Moved)` and in regions it
      allocates; if the window is mapped and it succeeds, memory holds the value. */
  method EncodeValue(ps: PointerStream, t: Ty, v: Value) returns (r: Outcome)
    requires BlockSize(ps.m.bs) && Wf(t, ps.m.bs) && Typed(t, v, ps.m.bs)
    requires Span(ps.ptr, Moved(t, ps.m.bs)) <= ps.m.taken
    modifies ps, ps.m
    ensures Framed(old(ps.m.mem), ps.m.mem, old(ps.m.taken), ps.m.taken, old(ps.ptr), Moved(t, ps.m.bs))
    ensures old(ps.ptr) <= ps.ptr <= old(ps.ptr) + Moved(t, ps.m.bs)
    ensures Justified(r, Mapped(old(ps.m.mem), old(ps.ptr), Moved(t, ps.m.bs)), ps.m.refusals != old(ps.m.refusals),
                      Faults(t, v, ps.m.bs), HasEmptySlice(t, v, ps.m.bs))
    ensures r == Done && Mapped(old(ps.m.mem), old(ps.ptr), Moved(t, ps.m.bs)) ==>
      Complete(ps.m.mem, old(ps.m.taken), ps.m.taken, ps.m.bs, t, v, old(ps.ptr), ps.ptr)
    decreases t, 3, 0
  {
    hide Wf, Typed, Moved, Stored, Framed, Complete, Justified;
    match t
    case Scalar(_) => r := EncodeImage(ps, t, v);
    case Word => r := EncodeWord(ps, v);
    case Array(e, c) =>
      if Custom(e, ps.m.bs) {
        r := EncodeArray(ps, t, v);
      } else {
        r := EncodeImage(ps, t, v);
      }
    case Pointer(e) => r := EncodePointer(ps, t, v);
    case Slice(e) => r := EncodeSlice(ps, t, v);
    case Str => r := EncodeString(ps, v);
    case Struct(fs, _) =>
      if Raw(fs, ps.m.bs) {
        r := EncodeImage(ps, t, v);
      } else {
        r := EncodeStruct(ps, t, v);
      }
  }

  /** One write of the whole host image. */
  method EncodeImage(ps: PointerStream, t: Ty, v: Value) returns (r: Outcome)
    requires BlockSize(ps.m.bs) && Wf(t, ps.m.bs) && Typed(t, v, ps.m.bs)
    requires t.Scalar? || (t.Array? && !Custom(t.elem, ps.m.bs)) || (t.Struct? && Raw(t.fields, ps.m.bs))
    requires Span(ps.ptr, Moved(t, ps.m.bs)) <= ps.m.taken
    modifies ps, ps.m
    ensures Framed(old(ps.m.mem), ps.m.mem, old(ps.m.taken), ps.m.taken, old(ps.ptr), Moved(t, ps.m.bs))
    ensures old(ps.ptr) <= ps.ptr <= old(ps.ptr) + Moved(t, ps.m.bs)
    ensures Justified(r, Mapped(old(ps.m.mem), old(ps.ptr), Moved(t, ps.m.bs)), ps.m.refusals != old(ps.m.refusals),
                      Faults(t, v, ps.m.bs), HasEmptySlice(t, v, ps.m.bs))
    ensures r == Done && Mapped(old(ps.m.mem), old(ps.ptr), Moved(t, ps.m.bs)) ==>
      Complete(ps.m.mem, old(ps.m.taken), ps.m.taken, ps.m.bs, t, v, old(ps.ptr), ps.ptr)
  {
    ImageLength(t, v, ps.m.bs);
    var ok := ps.Write(v.bytes);
    if !ok {
      return Failed;
    }
    ImageStored(old(ps.m.mem), ps.m.taken, old(ps.ptr), v.bytes);
    return Done;
  }

  lemma ImageLength(t: Ty, v: Value, bs: nat)
    requires Wf(t, bs) && Typed(t, v, bs)
    requires t.Scalar? || (t.Array? && !Custom(t.elem, bs)) || (t.Struct? && Raw(t.fields, bs))
    ensures v.VBytes? && |v.bytes| == Moved(t, bs)
  {
    match t
    case Scalar(n) => SumSingle(n);
    case Array(e, c) => PlainArrayTotal(e, c, bs);
    case Struct(fs, n) => RawTotal(t, bs);
  }

  lemma ImageStored(mem: Mem, taken: set<nat>, p: nat, b: seq<byte>)
    requires Mapped(mem, p, |b|)
    ensures Image(Store(mem, p, b), Own(taken, taken, p, |b|), p, b)
    ensures Framed(mem, Store(mem, p, b), taken, taken, p, |b|)
  {
  }

  method EncodeWord(ps: PointerStream, v: Value) returns (r: Outcome)
    requires BlockSize(ps.m.bs) && Typed(Word, v, ps.m.bs)
    requires Span(ps.ptr, Moved(Word, ps.m.bs)) <= ps.m.taken
    modifies ps, ps.m
    ensures Framed(old(ps.m.mem), ps.m.mem, old(ps.m.taken), ps.m.taken, old(ps.ptr), Moved(Word, ps.m.bs))
    ensures old(ps.ptr) <= ps.ptr <= old(ps.ptr) + Moved(Word, ps.m.bs)
    ensures Justified(r, Mapped(old(ps.m.mem), old(ps.ptr), Moved(Word, ps.m.bs)), ps.m.refusals != old(ps.m.refusals),
                      false, false)
    ensures r == Done && Mapped(old(ps.m.mem), old(ps.ptr), Moved(Word, ps.m.bs)) ==>
      Complete(ps.m.mem, old(ps.m.taken), ps.m.taken, ps.m.bs, Word, v, old(ps.ptr), ps.ptr)
  {
    var size := if HOST_WORD > ps.m.bs then ps.m.bs else HOST_WORD;
    SumSingle(ps.m.bs);
    var ok := ps.Write(v.bytes[..size]);
    if !ok {
      return Failed;
    }
    ImageStored(old(ps.m.mem), ps.m.taken, old(ps.ptr), v.bytes[..size]);
    return Done;
  }

  // ----- arrays and slice contents

  ghost predicate SeqDone(
    m1: Mem, t0: set<nat>, t1: set<nat>, bs: nat, e: Ty, vs: seq<Value>, p: nat, ptr: nat)
    requires forall v :: v in vs ==> Typed(e, v, bs)
  {
    var n := Times(|vs|, Moved(e, bs));
    ptr == p + n && StoredSeq(m1, Own(t0, t1, p, n), bs, e, vs, p)
  }

  lemma SeqStart(m: Mem, t: set<nat>, bs: nat, e: Ty, p: nat)
    ensures SeqDone(m, t, t, bs, e, [], p, p) && Framed(m, m, t, t, p, 0)
  {
  }

  lemma StoredSeqSnoc(m: Mem, own: set<nat>, bs: nat, e: Ty, vs: seq<Value>, p: nat, q: nat)
    requires vs != [] && forall v :: v in vs ==> Typed(e, v, bs)
    requires StoredSeq(m, own, bs, e, vs[..|vs| - 1], p) && q == p + Times(|vs| - 1, Moved(e, bs))
    requires Stored(m, own, bs, e, vs[|vs| - 1], q)
    ensures StoredSeq(m, own, bs, e, vs, p)
  {
    hide Stored, Typed, Moved;
  }

  lemma FramedGrows(m0: Mem, m1: Mem, t0: set<nat>, t1: set<nat>, p: nat, n: int)
    requires Framed(m0, m1, t0, t1, p, n)
    ensures m0.Keys <= m1.Keys && t0 <= t1
  {
  }

  lemma SeqStep(
    m1: Mem, m2: Mem, t0: set<nat>, t1: set<nat>, t2: set<nat>, bs: nat, e: Ty, vs: seq<Value>, p: nat, q: nat,
    ptr: nat)
    requires vs != [] && forall v :: v in vs ==> Typed(e, v, bs)
    requires bs > 0 && Wf(e, bs)
    requires SeqDone(m1, t0, t1, bs, e, vs[..|vs| - 1], p, q)
    requires Framed(m1, m2, t1, t2, q, Moved(e, bs)) && Complete(m2, t1, t2, bs, e, vs[|vs| - 1], q, ptr)
    requires t0 <= t1 && Span(p, Times(|vs|, Moved(e, bs))) <= t0
    ensures SeqDone(m2, t0, t2, bs, e, vs, p, ptr)
  {
    hide Wf, Typed, Moved, Stored, Framed, Own, StoredSeq;
    var k, w := |vs| - 1, Moved(e, bs);
    var n1, n := Times(k, w), Times(|vs|, w);
    MovedBound(e, bs);
    FramedGrows(m1, m2, t1, t2, q, w);
    SpanPart(p, n, p, n1, t0);
    SpanPart(p, n, q, w, t0);
    FramedKeeps(m1, m2, t0, t1, t2, p, n1, q, w);
    OwnGrows(t0, t1, t2, p, n1, q, w, n);
    StoredSeqFrame(m1, m2, Own(t0, t1, p, n1), Own(t0, t2, p, n), bs, e, vs[..k], p);
    StoredFrame(m2, m2, Own(t1, t2, q, w), Own(t0, t2, p, n), bs, e, vs[k], q);
    StoredSeqSnoc(m2, Own(t0, t2, p, n), bs, e, vs, p, q);
  }

  lemma MappedPart(m0: Mem, m1: Mem, p: nat, n: int, q: nat, k: int)
    requires Mapped(m0, p, n) && m0.Keys <= m1.Keys && p <= q && q + k <= p + n
    ensures Mapped(m1, q, k)
  {
  }

  method EncodeElems(ps: PointerStream, e: Ty, vs: seq<Value>) returns (r: Outcome)
    requires BlockSize(ps.m.bs) && Wf(e, ps.m.bs) && forall v :: v in vs ==> Typed(e, v, ps.m.bs)
    requires Span(ps.ptr, Times(|vs|, Moved(e, ps.m.bs))) <= ps.m.taken
    modifies ps, ps.m
    ensures Framed(old(ps.m.mem), ps.m.mem, old(ps.m.taken), ps.m.taken, old(ps.ptr), Times(|vs|, Moved(e, ps.m.bs)))
    ensures old(ps.ptr) <= ps.ptr <= old(ps.ptr) + Times(|vs|, Moved(e, ps.m.bs))
    ensures Justified(r, Mapped(old(ps.m.mem), old(ps.ptr), Times(|vs|, Moved(e, ps.m.bs))),
                      ps.m.refusals != old(ps.m.refusals),
                      SomeFaults(e, vs, ps.m.bs), SomeHasEmptySlice(e, vs, ps.m.bs))
    ensures r == Done && Mapped(old(ps.m.mem), old(ps.ptr), Times(|vs|, Moved(e, ps.m.bs))) ==>
      SeqDone(ps.m.mem, old(ps.m.taken), ps.m.taken, ps.m.bs, e, vs, old(ps.ptr), ps.ptr)
    decreases e, 4, 0
  {
    hide Wf, Typed, Moved, Stored, Complete, SeqDone, Faults, HasEmptySlice;
    hide SomeFaults, SomeHasEmptySlice, CleanUpTo, Framed;
    ghost var p, m0, t0 := ps.ptr, ps.m.mem, ps.m.taken;
    ghost var w, bs := Moved(e, ps.m.bs), ps.m.bs;
    ghost var n := Times(|vs|, w);
    MovedBound(e, bs);
    SeqStart(m0, t0, bs, e, p);
    CleanFacts(e, vs, 0, bs);
    var i := 0;
    while i < |vs|
      invariant 0 <= i <= |vs|
      invariant Framed(m0, ps.m.mem, t0, ps.m.taken, p, Times(i, w))
      invariant p <= ps.ptr <= p + Times(i, w)
      invariant Mapped(m0, p, n) ==> SeqDone(ps.m.mem, t0, ps.m.taken, bs, e, vs[..i], p, ps.ptr)
      invariant ps.m.refusals == old(ps.m.refusals)
      invariant CleanUpTo(e, vs, i, bs)
    {
      CleanFacts(e, vs, i, bs);
      FramedGrows(m0, ps.m.mem, t0, ps.m.taken, p, Times(i, w));
      ghost var m1, t1, q := ps.m.mem, ps.m.taken, ps.ptr;
      TimesCount(i + 1, |vs|, w);
      SpanPart(p, n, q, w, t0);
      if Mapped(m0, p, n) {
        MappedPart(m0, m1, p, n, q, w);
      }
      r := EncodeValue(ps, e, vs[i]);
      FramedSame(ps.m.mem, ps.m.taken, p, 0);
      FramedStep(m0, m1, ps.m.mem, t0, t1, ps.m.taken, p, Times(i, w), q, w, Times(i + 1, w));
      if r != Done {
        FramedStep(m0, ps.m.mem, ps.m.mem, t0, ps.m.taken, ps.m.taken, p, Times(i + 1, w), p, 0, n);
        return r;
      }
      if Mapped(m0, p, n) {
        SpanPart(p, n, p, Times(i + 1, w), t0);
        assert vs[..i + 1][..i] == vs[..i];
        SeqStep(m1, ps.m.mem, t0, t1, ps.m.taken, bs, e, vs[..i + 1], p, q, ps.ptr);
      }
      i := i + 1;
    }
    assert vs[..i] == vs;
    return Done;
  }

  method EncodeArray(ps: PointerStream, t: Ty, v: Value) returns (r: Outcome)
    requires t.Array? && Custom(t.elem, ps.m.bs)
    requires BlockSize(ps.m.bs) && Wf(t, ps.m.bs) && Typed(t, v, ps.m.bs)
    requires Span(ps.ptr, Moved(t, ps.m.bs)) <= ps.m.taken
    modifies ps, ps.m
    ensures Framed(old(ps.m.mem), ps.m.mem, old(ps.m.taken), ps.m.taken, old(ps.ptr), Moved(t, ps.m.bs))
    ensures old(ps.ptr) <= ps.ptr <= old(ps.ptr) + Moved(t, ps.m.bs)
    ensures Justified(r, Mapped(old(ps.m.mem), old(ps.ptr), Moved(t, ps.m.bs)), ps.m.refusals != old(ps.m.refusals),
                      Faults(t, v, ps.m.bs), HasEmptySlice(t, v, ps.m.bs))
    ensures r == Done && Mapped(old(ps.m.mem), old(ps.ptr), Moved(t, ps.m.bs)) ==>
      Complete(ps.m.mem, old(ps.m.taken), ps.m.taken, ps.m.bs, t, v, old(ps.ptr), ps.ptr)
    decreases t, 2, 0
  {
    r := EncodeElems(ps, t.elem, v.elems);
  }

  // ----- pointers, slices and strings

  /** A filled slot in the window together with what was encoded behind it. */
  lemma BehindSlot(
    m0: Mem, m1: Mem, m2: Mem, t0: set<nat>, t1: set<nat>, t2: set<nat>, bs: nat, p: nat, a: nat, size: int, n: int)
    requires m0.Keys <= m1.Keys && t1 == t0 + Span(a, size) && Span(a, size) !! t0
    requires forall x :: x in m0 && !Within(x, p, bs) ==> m1[x] == m0[x]
    requires Framed(m1, m2, t1, t2, a, n) && n <= size
    requires Span(p, bs) <= t0
    ensures Framed(m0, m2, t0, t2, p, bs)
    ensures Own(t1, t2, a, n) <= Own(t0, t2, p, bs)
    ensures Mapped(m0, p, bs) ==> Owns(m2, Own(t0, t2, p, bs), p, bs) && Slot(m2, bs, p) == Slot(m1, bs, p)
  {
    assert Span(a, n) <= Span(a, size);
    if Mapped(m0, p, bs) {
      forall x: nat | Within(x, p, bs) ensures x in m1 && x in m2 && m2[x] == m1[x] {
        assert x in Span(p, bs) && x !in Span(a, n);
      }
      SlotFrame(m1, m2, Span(p, bs), bs, p);
    }
  }

  lemma MovedSlot(t: Ty, bs: nat)
    requires t.Pointer? || t.Slice?
    ensures Moved(t, bs) == bs
  {
    SumSingle(bs);
  }

  method EncodePointer(ps: PointerStream, t: Ty, v: Value) returns (r: Outcome)
    requires t.Pointer? && BlockSize(ps.m.bs) && Wf(t, ps.m.bs) && Typed(t, v, ps.m.bs)
    requires Span(ps.ptr, Moved(t, ps.m.bs)) <= ps.m.taken
    modifies ps, ps.m
    ensures Framed(old(ps.m.mem), ps.m.mem, old(ps.m.taken), ps.m.taken, old(ps.ptr), Moved(t, ps.m.bs))
    ensures old(ps.ptr) <= ps.ptr <= old(ps.ptr) + Moved(t, ps.m.bs)
    ensures Justified(r, Mapped(old(ps.m.mem), old(ps.ptr), Moved(t, ps.m.bs)), ps.m.refusals != old(ps.m.refusals),
                      Faults(t, v, ps.m.bs), HasEmptySlice(t, v, ps.m.bs))
    ensures r == Done && Mapped(old(ps.m.mem), old(ps.ptr), Moved(t, ps.m.bs)) ==>
      && Complete(ps.m.mem, old(ps.m.taken), ps.m.taken, ps.m.bs, t, v, old(ps.ptr), ps.ptr)
      && Slot(ps.m.mem, ps.m.bs, old(ps.ptr)) > 0
    decreases t, 2, 0
  {
    hide Framed, Own, Owns, Sum, SkipsNil, Sizes;
    ghost var bs, p, m0, t0 := ps.m.bs, ps.ptr, ps.m.mem, ps.m.taken;
    MovedSlot(t, bs);
    MovedBound(t.elem, bs);
    FramedSame(m0, t0, p, bs);
    var sub := ps.WriteStream(Total(t.elem, ps.m.bs));
    if sub.None? {
      return Failed;
    }
    ghost var a, m1, t1 := sub.value.ptr, ps.m.mem, ps.m.taken;
    if v.VNil? {
      FramedSame(m1, t1, a, 0);
      BehindSlot(m0, m1, m1, t0, t1, t1, bs, p, a, Total(t.elem, bs), 0);
      if !SkipsNil(t.elem, ps.m.bs) {
        return NilFault;
      }
      sub.value.Skip(Moved(t.elem, ps.m.bs));
      return Done;
    }
    SpanPart(a, Total(t.elem, bs), a, Moved(t.elem, bs), t1);
    r := EncodeValue(sub.value, t.elem, v.target);
    BehindSlot(m0, m1, ps.m.mem, t0, t1, ps.m.taken, bs, p, a, Total(t.elem, bs), Moved(t.elem, bs));
    if r == Done && Mapped(m0, p, bs) {
      StoredFrame(ps.m.mem, ps.m.mem, Own(t1, ps.m.taken, a, Moved(t.elem, bs)),
                  Own(t0, ps.m.taken, p, bs), bs, t.elem, v.target, a);
    }
  }

  method EncodeSlice(ps: PointerStream, t: Ty, v: Value) returns (r: Outcome)
    requires t.Slice? && BlockSize(ps.m.bs) && Wf(t, ps.m.bs) && Typed(t, v, ps.m.bs)
    requires Span(ps.ptr, Moved(t, ps.m.bs)) <= ps.m.taken
    modifies ps, ps.m
    ensures Framed(old(ps.m.mem), ps.m.mem, old(ps.m.taken), ps.m.taken, old(ps.ptr), Moved(t, ps.m.bs))
    ensures old(ps.ptr) <= ps.ptr <= old(ps.ptr) + Moved(t, ps.m.bs)
    ensures Justified(r, Mapped(old(ps.m.mem), old(ps.ptr), Moved(t, ps.m.bs)), ps.m.refusals != old(ps.m.refusals),
                      Faults(t, v, ps.m.bs), HasEmptySlice(t, v, ps.m.bs))
    ensures r == Done && Mapped(old(ps.m.mem), old(ps.ptr), Moved(t, ps.m.bs)) ==>
      Complete(ps.m.mem, old(ps.m.taken), ps.m.taken, ps.m.bs, t, v, old(ps.ptr), ps.ptr)
    ensures (if Custom(t.elem, ps.m.bs) then v.elems == [] else v.bytes == []) ==> r == Failed
    decreases t, 2, 0
  {
    hide Framed, Own, Owns, Sum, Sizes, SomeFaults, SomeHasEmptySlice;
    ghost var bs, p, m0, t0 := ps.m.bs, ps.ptr, ps.m.mem, ps.m.taken;
    MovedSlot(t, bs);
    FramedSame(m0, t0, p, bs);
    if !Custom(t.elem, ps.m.bs) {
      r := EncodeBehind(ps, v.bytes);
      return;
    }
    MovedBound(t.elem, bs);
    TimesMono(|v.elems|, Moved(t.elem, bs), Total(t.elem, bs));
    var size := Times(|v.elems|, Total(t.elem, ps.m.bs));
    var sub := ps.WriteStream(size);
    if sub.None? {
      return Failed;
    }
    ghost var a, m1, t1 := sub.value.ptr, ps.m.mem, ps.m.taken;
    ghost var n := Times(|v.elems|, Moved(t.elem, bs));
    SpanPart(a, size, a, n, t1);
    r := EncodeElems(sub.value, t.elem, v.elems);
    BehindSlot(m0, m1, ps.m.mem, t0, t1, ps.m.taken, bs, p, a, size, n);
    if r == Done && Mapped(m0, p, bs) {
      StoredSeqFrame(ps.m.mem, ps.m.mem, Own(t1, ps.m.taken, a, n), Own(t0, ps.m.taken, p, bs), bs, t.elem, v.elems, a);
    }
  }

  /** Bytes placed in a region of their own: slice contents and strings. */
  method EncodeBehind(ps: PointerStream, b: seq<byte>) returns (r: Outcome)
    requires BlockSize(ps.m.bs) && Span(ps.ptr, ps.m.bs) <= ps.m.taken
    modifies ps, ps.m
    ensures Framed(old(ps.m.mem), ps.m.mem, old(ps.m.taken), ps.m.taken, old(ps.ptr), ps.m.bs)
    ensures old(ps.ptr) <= ps.ptr <= old(ps.ptr) + ps.m.bs
    ensures b == [] ==> r == Failed
    ensures r != NilFault && (r == Failed <==> ps.m.refusals != old(ps.m.refusals))
    ensures r == Done && Mapped(old(ps.m.mem), old(ps.ptr), ps.m.bs) ==>
      var own := Own(old(ps.m.taken), ps.m.taken, old(ps.ptr), ps.m.bs);
      && ps.ptr == old(ps.ptr) + ps.m.bs
      && Owns(ps.m.mem, own, old(ps.ptr), ps.m.bs)
      && Slot(ps.m.mem, ps.m.bs, old(ps.ptr)) > 0
      && Image(ps.m.mem, own, Slot(ps.m.mem, ps.m.bs, old(ps.ptr)), b)
  {
    ghost var bs, p, m0, t0 := ps.m.bs, ps.ptr, ps.m.mem, ps.m.taken;
    var sub := ps.WriteStream(|b|);
    if sub.None? {
      return Failed;
    }
    ghost var a, m1, t1 := sub.value.ptr, ps.m.mem, ps.m.taken;
    MappedRegion(m1, a, |b|);
    var ok := sub.value.Write(b);
    ImageStored(m1, t1, a, b);
    BehindSlot(m0, m1, ps.m.mem, t0, t1, t1, bs, p, a, |b|, |b|);
    ImageFrame(ps.m.mem, ps.m.mem, Own(t1, t1, a, |b|), Own(t0, t1, p, bs), a, b);
    return Done;
  }

  lemma MappedRegion(m: Mem, a: nat, n: nat)
    requires Span(a, n) <= m.Keys
    ensures Mapped(m, a, n)
  {
    forall x | a <= x < a + n ensures x in m {
      assert x in Span(a, n);
    }
  }

  method EncodeString(ps: PointerStream, v: Value) returns (r: Outcome)
    requires BlockSize(ps.m.bs) && Typed(Str, v, ps.m.bs)
    requires Span(ps.ptr, Moved(Str, ps.m.bs)) <= ps.m.taken
    modifies ps, ps.m
    ensures Framed(old(ps.m.mem), ps.m.mem, old(ps.m.taken), ps.m.taken, old(ps.ptr), Moved(Str, ps.m.bs))
    ensures old(ps.ptr) <= ps.ptr <= old(ps.ptr) + Moved(Str, ps.m.bs)
    ensures Justified(r, Mapped(old(ps.m.mem), old(ps.ptr), Moved(Str, ps.m.bs)), ps.m.refusals != old(ps.m.refusals),
                      false, false)
    ensures r == Done && Mapped(old(ps.m.mem), old(ps.ptr), Moved(Str, ps.m.bs)) ==>
      Complete(ps.m.mem, old(ps.m.taken), ps.m.taken, ps.m.bs, Str, v, old(ps.ptr), ps.ptr)
  {
    r := EncodeBehind(ps, v.chars + [0]);
  }

  // ----- structs field by field

  ghost predicate FieldsDone(
    m1: Mem, t0: set<nat>, t1: set<nat>, bs: nat, t: Ty, vs: seq<Value>, p: nat, k: nat, ptr: nat)
    requires t.Struct? && k <= |t.fields| == |vs|
    requires forall i :: 0 <= i < |vs| ==> Typed(t.fields[i].ty, vs[i], bs)
  {
    && ptr == p + FieldsMoved(t, bs, k)
    && StoredFields(m1, Own(t0, t1, p, FieldsMoved(t, bs, k)), bs, t, vs, p, k)
  }

  lemma FieldsStart(m: Mem, t0: set<nat>, bs: nat, t: Ty, vs: seq<Value>, p: nat)
    requires t.Struct? && |t.fields| == |vs|
    requires forall i :: 0 <= i < |vs| ==> Typed(t.fields[i].ty, vs[i], bs)
    ensures FieldsDone(m, t0, t0, bs, t, vs, p, 0, p) && Framed(m, m, t0, t0, p, 0) && FieldsMoved(t, bs, 0) == 0
  {
  }

  lemma FieldsIgnore(m1: Mem, t0: set<nat>, t1: set<nat>, bs: nat, t: Ty, vs: seq<Value>, p: nat, k: nat, ptr: nat)
    requires t.Struct? && k < |t.fields| == |vs| && t.fields[k].ignore
    requires forall i :: 0 <= i < |vs| ==> Typed(t.fields[i].ty, vs[i], bs)
    ensures FieldsMoved(t, bs, k + 1) == FieldsMoved(t, bs, k)
    ensures FieldsDone(m1, t0, t1, bs, t, vs, p, k, ptr) ==> FieldsDone(m1, t0, t1, bs, t, vs, p, k + 1, ptr)
  {
  }

  lemma StoredFieldsSnoc(m: Mem, own: set<nat>, bs: nat, t: Ty, vs: seq<Value>, p: nat, k: nat, at: nat)
    requires t.Struct? && k < |t.fields| == |vs| && !t.fields[k].ignore
    requires forall i :: 0 <= i < |vs| ==> Typed(t.fields[i].ty, vs[i], bs)
    requires StoredFields(m, own, bs, t, vs, p, k) && at == p + FieldsMoved(t, bs, k) + PadBefore(t, bs, k)
    requires Stored(m, own, bs, t.fields[k].ty, vs[k], at)
    ensures StoredFields(m, own, bs, t, vs, p, k + 1)
  {
    hide Stored, Typed, Moved, PadBefore;
  }

  lemma FieldsStep(
    m1: Mem, m2: Mem, t0: set<nat>, t1: set<nat>, t2: set<nat>, bs: nat, t: Ty, vs: seq<Value>, p: nat, k: nat,
    at: nat, ptr: nat)
    requires t.Struct? && k < |t.fields| == |vs| && !t.fields[k].ignore && Wf(t, bs) && bs > 0
    requires forall i :: 0 <= i < |vs| ==> Typed(t.fields[i].ty, vs[i], bs)
    requires at - PadBefore(t, bs, k) >= 0 && FieldsDone(m1, t0, t1, bs, t, vs, p, k, at - PadBefore(t, bs, k))
    requires Framed(m1, m2, t1, t2, at, Moved(t.fields[k].ty, bs))
    requires Complete(m2, t1, t2, bs, t.fields[k].ty, vs[k], at, ptr)
    requires t0 <= t1 && Span(p, FieldsMoved(t, bs, k + 1)) <= t0
    ensures FieldsDone(m2, t0, t2, bs, t, vs, p, k + 1, ptr)
  {
    hide Wf, Typed, Moved, Stored, PadBefore, Framed, Own, StoredFields;
    var w, n1, n := Moved(t.fields[k].ty, bs), FieldsMoved(t, bs, k), FieldsMoved(t, bs, k + 1);
    PadNotNegative(t, bs, k);
    FieldWf(t, bs, k);
    MovedBound(t.fields[k].ty, bs);
    FramedGrows(m1, m2, t1, t2, at, w);
    SpanPart(p, n, p, n1, t0);
    SpanPart(p, n, at, w, t0);
    FramedKeeps(m1, m2, t0, t1, t2, p, n1, at, w);
    OwnGrows(t0, t1, t2, p, n1, at, w, n);
    StoredFieldsFrame(m1, m2, Own(t0, t1, p, n1), Own(t0, t2, p, n), bs, t, vs, p, k);
    StoredFrame(m2, m2, Own(t1, t2, at, w), Own(t0, t2, p, n), bs, t.fields[k].ty, vs[k], at);
    StoredFieldsSnoc(m2, Own(t0, t2, p, n), bs, t, vs, p, k, at);
  }

  lemma FieldsMovedNext(t: Ty, bs: nat, k: nat)
    requires t.Struct? && k < |t.fields| && Wf(t, bs) && bs > 0
    ensures 0 <= FieldsMoved(t, bs, k) <= FieldsMoved(t, bs, k + 1)
    ensures Wf(t.fields[k].ty, bs)
    ensures !t.fields[k].ignore ==>
      && PadBefore(t, bs, k) >= 0
      && FieldsMoved(t, bs, k + 1) == FieldsMoved(t, bs, k) + PadBefore(t, bs, k) + Moved(t.fields[k].ty, bs)
  {
    PadNotNegative(t, bs, k);
    FieldWf(t, bs, k);
    MovedBound(t.fields[k].ty, bs);
  }

  lemma {:induction false} FieldsMovedMono(t: Ty, bs: nat, k: nat, n: nat)
    requires t.Struct? && k <= n <= |t.fields| && Wf(t, bs) && bs > 0
    ensures FieldsMoved(t, bs, k) <= FieldsMoved(t, bs, n)
    decreases n
  {
    hide Wf, FieldsMoved;
    if k < n {
      FieldsMovedMono(t, bs, k, n - 1);
      FieldsMovedNext(t, bs, n - 1);
    }
  }

  method EncodeStruct(ps: PointerStream, t: Ty, v: Value) returns (r: Outcome)
    requires t.Struct? && !Raw(t.fields, ps.m.bs)
    requires BlockSize(ps.m.bs) && Wf(t, ps.m.bs) && Typed(t, v, ps.m.bs)
    requires Span(ps.ptr, Moved(t, ps.m.bs)) <= ps.m.taken
    modifies ps, ps.m
    ensures Framed(old(ps.m.mem), ps.m.mem, old(ps.m.taken), ps.m.taken, old(ps.ptr), Moved(t, ps.m.bs))
    ensures old(ps.ptr) <= ps.ptr <= old(ps.ptr) + Moved(t, ps.m.bs)
    ensures Justified(r, Mapped(old(ps.m.mem), old(ps.ptr), Moved(t, ps.m.bs)), ps.m.refusals != old(ps.m.refusals),
                      Faults(t, v, ps.m.bs), HasEmptySlice(t, v, ps.m.bs))
    ensures r == Done && Mapped(old(ps.m.mem), old(ps.ptr), Moved(t, ps.m.bs)) ==>
      Complete(ps.m.mem, old(ps.m.taken), ps.m.taken, ps.m.bs, t, v, old(ps.ptr), ps.ptr)
    decreases t, 2, 0
  {
    hide Framed, FieldsDone, Complete, FieldsMoved, FieldSizes;
    ghost var bs, p, m0, t0 := ps.m.bs, ps.ptr, ps.m.mem, ps.m.taken;
    var sizes := FieldSizes(t, ps.m.bs, |t.fields|);
    FieldSizesPositive(t, bs, |t.fields|);
    TailSum(sizes);
    FieldsMovedBound(t, bs, |t.fields|);
    SpanPart(p, Moved(t, bs), p, FieldsMoved(t, bs, |t.fields|), t0);
    if Mapped(m0, p, Moved(t, bs)) {
      MappedPart(m0, m0, p, Moved(t, bs), p, FieldsMoved(t, bs, |t.fields|));
    }
    r := EncodeFields(ps, t, v.elems);
    FramedStep(m0, ps.m.mem, ps.m.mem, t0, ps.m.taken, ps.m.taken, p, FieldsMoved(t, bs, |t.fields|), p, 0,
               Moved(t, bs));
    if r != Done {
      return r;
    }
    ghost var q := ps.ptr;
    if TailPad(sizes) > 0 {
      ps.Skip(TailPad(sizes));
    }
    if Mapped(m0, p, Moved(t, bs)) {
      StructComplete(ps.m.mem, t0, ps.m.taken, bs, t, v, p, q, ps.ptr);
    }
  }

  lemma StructComplete(m1: Mem, t0: set<nat>, t1: set<nat>, bs: nat, t: Ty, v: Value, p: nat, q: nat, ptr: nat)
    requires t.Struct? && !Raw(t.fields, bs) && Typed(t, v, bs) && Wf(t, bs) && bs > 0 && t0 <= t1
    requires FieldsDone(m1, t0, t1, bs, t, v.elems, p, |t.fields|, q)
    requires ptr == q + Sum(TailEntry(FieldSizes(t, bs, |t.fields|)))
    ensures Complete(m1, t0, t1, bs, t, v, p, ptr)
  {
    var k := |t.fields|;
    FieldSizesPositive(t, bs, k);
    TailSum(FieldSizes(t, bs, k));
    FieldsMovedBound(t, bs, k);
    OwnGrows(t0, t1, t1, p, FieldsMoved(t, bs, k), p, 0, Moved(t, bs));
    StoredFieldsFrame(m1, m1, Own(t0, t1, p, FieldsMoved(t, bs, k)), Own(t0, t1, p, Moved(t, bs)), bs, t, v.elems,
                      p, k);
  }

  method EncodeFields(ps: PointerStream, t: Ty, vs: seq<Value>) returns (r: Outcome)
    requires t.Struct? && BlockSize(ps.m.bs) && Wf(t, ps.m.bs) && |vs| == |t.fields|
    requires forall i :: 0 <= i < |vs| ==> Typed(t.fields[i].ty, vs[i], ps.m.bs)
    requires Span(ps.ptr, FieldsMoved(t, ps.m.bs, |t.fields|)) <= ps.m.taken
    modifies ps, ps.m
    ensures Framed(old(ps.m.mem), ps.m.mem, old(ps.m.taken), ps.m.taken, old(ps.ptr),
                   FieldsMoved(t, ps.m.bs, |t.fields|))
    ensures old(ps.ptr) <= ps.ptr <= old(ps.ptr) + FieldsMoved(t, ps.m.bs, |t.fields|)
    ensures Justified(r, Mapped(old(ps.m.mem), old(ps.ptr), FieldsMoved(t, ps.m.bs, |t.fields|)),
                      ps.m.refusals != old(ps.m.refusals),
                      exists i :: 0 <= i < |vs| && !t.fields[i].ignore && Faults(t.fields[i].ty, vs[i], ps.m.bs),
                      exists i :: 0 <= i < |vs| && !t.fields[i].ignore
                                  && HasEmptySlice(t.fields[i].ty, vs[i], ps.m.bs))
    ensures r == Done && Mapped(old(ps.m.mem), old(ps.ptr), FieldsMoved(t, ps.m.bs, |t.fields|)) ==>
      FieldsDone(ps.m.mem, old(ps.m.taken), ps.m.taken, ps.m.bs, t, vs, old(ps.ptr), |t.fields|, ps.ptr)
    decreases t, 1, 0
  {
    hide Wf, Typed, Moved, Stored, Complete, FieldsDone, FieldsMoved, PadBefore, Faults, HasEmptySlice;
    ghost var p, m0, t0, bs := ps.ptr, ps.m.mem, ps.m.taken, ps.m.bs;
    ghost var n := FieldsMoved(t, bs, |t.fields|);
    FieldsStart(m0, t0, bs, t, vs, p);
    var i := 0;
    while i < |t.fields|
      invariant 0 <= i <= |t.fields|
      invariant Framed(m0, ps.m.mem, t0, ps.m.taken, p, FieldsMoved(t, bs, i))
      invariant p <= ps.ptr <= p + FieldsMoved(t, bs, i)
      invariant Mapped(m0, p, n) ==> FieldsDone(ps.m.mem, t0, ps.m.taken, bs, t, vs, p, i, ps.ptr)
      invariant ps.m.refusals == old(ps.m.refusals)
      invariant forall j :: 0 <= j < i && !t.fields[j].ignore ==>
        !Faults(t.fields[j].ty, vs[j], bs) && !HasEmptySlice(t.fields[j].ty, vs[j], bs)
    {
      var f := t.fields[i];
      ghost var m1, t1, start := ps.m.mem, ps.m.taken, ps.ptr;
      FieldsMovedNext(t, bs, i);
      FieldsMovedMono(t, bs, i + 1, |t.fields|);
      if f.ignore {
        FieldsIgnore(m1, t0, t1, bs, t, vs, p, i, start);
      } else {
        ps.Skip(PadBefore(t, ps.m.bs, i));
        ghost var q, w, n1 := ps.ptr, Moved(f.ty, bs), FieldsMoved(t, bs, i + 1);
        MovedBound(f.ty, bs);
        SpanPart(p, n, q, w, t0);
        if Mapped(m0, p, n) {
          MappedPart(m0, m1, p, n, q, w);
        }
        r := EncodeValue(ps, f.ty, vs[i]);
        FramedStep(m0, m1, ps.m.mem, t0, t1, ps.m.taken, p, FieldsMoved(t, bs, i), q, w, n1);
        if r != Done {
          FramedStep(m0, ps.m.mem, ps.m.mem, t0, ps.m.taken, ps.m.taken, p, n1, p, 0, n);
          return r;
        }
        if Mapped(m0, p, n) {
          FieldsAt(m1, t0, t1, bs, t, vs, p, i, start);
          SpanPart(p, n, p, n1, t0);
          FieldsStep(m1, ps.m.mem, t0, t1, ps.m.taken, bs, t, vs, p, i, q, ps.ptr);
        }
      }
      i := i + 1;
    }
    return Done;
  }

  lemma FieldsAt(m1: Mem, t0: set<nat>, t1: set<nat>, bs: nat, t: Ty, vs: seq<Value>, p: nat, k: nat, ptr: nat)
    requires t.Struct? && k <= |t.fields| == |vs|
    requires forall i :: 0 <= i < |vs| ==> Typed(t.fields[i].ty, vs[i], bs)
    requires FieldsDone(m1, t0, t1, bs, t, vs, p, k, ptr)
    ensures ptr == p + FieldsMoved(t, bs, k)
  {
  }
}

/** The decode handlers, the top-level Encode and Decode, and the round trip between them. */
module CodecRoundTrip {
  import opened Ranges
  import opened Wrappers
  import opened CodecTypes
  import opened CodecLayout
  import opened CodecMemory
  import opened CodecDecode
  import opened CodecStream

  /** The scan of a NUL-terminated string, one chunk at a time (emulator/pointer.go). */
  method MemReadString(mem: Mem, addr: nat) returns (r: Option<seq<byte>>)
    ensures r == ReadString(mem, addr)
  {
    var data, begin := [], addr;
    assert forall s: seq<byte> :: [] + s == s;
    while true
      invariant begin >= addr
      invariant ReadString(mem, addr) ==
        (match ReadString(mem, begin) case None => None case Some(s) => Some(data + s))
      decreases Above(mem, begin)
    {
      var buf := Read(mem, begin, CHUNK);
      if buf.None? {
        return None;
      }
      var i := FirstNul(buf.value);
      if i < CHUNK {
        return Some(data + buf.value[..i]);
      }
      assert begin in Above(mem, begin) && begin !in Above(mem, begin + CHUNK);
      assert forall s: seq<byte> :: data + (buf.value + s) == data + buf.value + s;
      data := data + buf.value;
      begin := begin + CHUNK;
    }
  }

  /** The handler result `r` and the stream position `ptr` are what `d` says. */
  ghost predicate Matches<T>(r: Option<T>, ptr: nat, d: Option<Got<T>>) {
    match d
    case None => r.None?
    case Some(g) => r == Some(g.value) && ptr == g.ptr
  }

  method DecodeImage(ps: PointerStream, n: nat) returns (r: Option<Value>)
    modifies ps
    ensures Matches(r, ps.ptr, ReadBytes(ps.m.mem, old(ps.ptr), n))
  {
    var b := ps.Read(n);
    if b.None? {
      return None;
    }
    return Some(VBytes(b.value));
  }

  /** The decode handler of type `t`; `w` is what the destination holds so far. */
  method DecodeValue(ps: PointerStream, t: Ty, w: Value) returns (r: Option<Value>)
    requires BlockSize(ps.m.bs) && Typed(t, w, ps.m.bs)
    modifies ps
    ensures Matches(r, ps.ptr, Dec(ps.m.mem, ps.m.bs, t, old(ps.ptr), w))
    decreases t, 3, 0
  {
    match t
    case Scalar(n) => r := DecodeImage(ps, n);
    case Word =>
      var size := if ps.m.bs < HOST_WORD then ps.m.bs else HOST_WORD;
      var b := ps.Read(size);
      if b.None? {
        return None;
      }
      return Some(VBytes(b.value + w.bytes[size..]));
    case Array(e, c) =>
      if !Custom(e, ps.m.bs) {
        r := DecodeImage(ps, Times(c, HostSize(e)));
      } else {
        var vs := DecodeElems(ps, e, w.elems);
        r := if vs.None? then None else Some(VSeq(vs.value));
      }
    case Pointer(e) =>
      var sub := ps.ReadStream();
      if sub.None? {
        return None;
      } else if sub.value.ptr == 0 {
        return Some(w);
      }
      var x := DecodeValue(sub.value, e, Target(e, w, ps.m.bs));
      r := if x.None? then None else Some(VPtr(x.value));
    case Slice(e) => r := DecodeSliceValue(ps, t, w);
    case Str =>
      var sub := ps.ReadStream();
      if sub.None? {
        return None;
      } else if sub.value.ptr == 0 {
        return Some(w);
      }
      var s := MemReadString(ps.m.mem, sub.value.ptr);
      r := if s.None? then None else Some(VStr(s.value));
    case Struct(fs, n) =>
      if Raw(fs, ps.m.bs) {
        r := DecodeImage(ps, n);
      } else {
        r := DecodeStructValue(ps, t, w);
      }
  }

  method DecodeSliceValue(ps: PointerStream, t: Ty, w: Value) returns (r: Option<Value>)
    requires t.Slice? && BlockSize(ps.m.bs) && Typed(t, w, ps.m.bs)
    modifies ps
    ensures Matches(r, ps.ptr, Dec(ps.m.mem, ps.m.bs, t, old(ps.ptr), w))
    decreases t, 2, 0
  {
    var sub := ps.ReadStream();
    if sub.None? {
      return None;
    } else if sub.value.ptr == 0 {
      return Some(w);
    } else if !Custom(t.elem, ps.m.bs) {
      r := DecodeImage(ps, |w.bytes|);  // the parent stream, as in the source
    } else {
      var vs := DecodeElems(sub.value, t.elem, w.elems);
      r := if vs.None? then None else Some(VSeq(vs.value));
    }
  }

  method DecodeElems(ps: PointerStream, e: Ty, ws: seq<Value>) returns (r: Option<seq<Value>>)
    requires BlockSize(ps.m.bs) && forall w :: w in ws ==> Typed(e, w, ps.m.bs)
    modifies ps
    ensures Matches(r, ps.ptr, DecSeq(ps.m.mem, ps.m.bs, e, old(ps.ptr), ws))
    decreases e, 4, 0
  {
    hide Dec, Typed;
    var vs: seq<Value>, i := [], 0;
    ghost var p := ps.ptr;
    while i < |ws|
      invariant 0 <= i <= |ws|
      invariant DecSeq(ps.m.mem, ps.m.bs, e, p, ws[..i]) == Some(Got(vs, ps.ptr))
    {
      assert ws[..i + 1][..i] == ws[..i];
      var x := DecodeValue(ps, e, ws[i]);
      if x.None? {
        DecSeqFails(ps.m.mem, ps.m.bs, e, p, ws, i + 1);
        return None;
      }
      vs := vs + [x.value];
      i := i + 1;
    }
    assert ws[..i] == ws;
    return Some(vs);
  }

  /** Once an element fails to decode, the whole sequence does. */
  lemma {:induction false} DecSeqFails(mem: Mem, bs: nat, e: Ty, p: nat, ws: seq<Value>, i: nat)
    requires (forall w :: w in ws ==> Typed(e, w, bs)) && i <= |ws|
    requires DecSeq(mem, bs, e, p, ws[..i]).None?
    ensures DecSeq(mem, bs, e, p, ws).None?
    decreases |ws|
  {
    if i < |ws| {
      assert ws[..|ws| - 1][..i] == ws[..i];
      DecSeqFails(mem, bs, e, p, ws[..|ws| - 1], i);
    } else {
      assert ws[..i] == ws;
    }
  }

  method DecodeStructValue(ps: PointerStream, t: Ty, w: Value) returns (r: Option<Value>)
    requires t.Struct? && !Raw(t.fields, ps.m.bs) && BlockSize(ps.m.bs) && Typed(t, w, ps.m.bs)
    modifies ps
    ensures Matches(r, ps.ptr, Dec(ps.m.mem, ps.m.bs, t, old(ps.ptr), w))
    decreases t, 2, 0
  {
    var vs := DecodeFields(ps, t, w.elems);
    if vs.None? {
      return None;
    }
    ghost var q := ps.ptr;
    var pad := TailPad(FieldSizes(t, ps.m.bs, |t.fields|));
    if pad > 0 {
      ps.Skip(pad);
    }
    SumSingle(pad);
    return Some(VSeq(vs.value));
  }

  method DecodeFields(ps: PointerStream, t: Ty, ws: seq<Value>) returns (r: Option<seq<Value>>)
    requires t.Struct? && BlockSize(ps.m.bs) && |ws| == |t.fields|
    requires forall i :: 0 <= i < |ws| ==> Typed(t.fields[i].ty, ws[i], ps.m.bs)
    modifies ps
    ensures Matches(r, ps.ptr, DecFields(ps.m.mem, ps.m.bs, t, old(ps.ptr), ws, |ws|))
    decreases t, 1, 0
  {
    hide Dec, Typed, PadBefore;
    var vs: seq<Value>, i := [], 0;
    ghost var p := ps.ptr;
    while i < |ws|
      invariant 0 <= i <= |ws|
      invariant DecFields(ps.m.mem, ps.m.bs, t, p, ws, i) == Some(Got(vs, ps.ptr))
    {
      var f := t.fields[i];
      if f.ignore {
        vs := vs + [ws[i]];
      } else {
        ps.Skip(PadBefore(t, ps.m.bs, i));
        var x := DecodeValue(ps, f.ty, ws[i]);
        if x.None? {
          DecFieldsFails(ps.m.mem, ps.m.bs, t, p, ws, i + 1, |ws|);
          return None;
        }
        vs := vs + [x.value];
      }
      i := i + 1;
    }
    return Some(vs);
  }

  lemma {:induction false} DecFieldsFails(mem: Mem, bs: nat, t: Ty, p: nat, ws: seq<Value>, i: nat, k: nat)
    requires t.Struct? && i <= k <= |t.fields| == |ws|
    requires forall j :: 0 <= j < |ws| ==> Typed(t.fields[j].ty, ws[j], bs)
    requires DecFields(mem, bs, t, p, ws, i).None?
    ensures DecFields(mem, bs, t, p, ws, k).None?
    decreases k
  {
    hide Dec, Typed, PadBefore;
    if i < k {
      DecFieldsFails(mem, bs, t, p, ws, i, k - 1);
    }
  }

  // ----- top level

  /** Encode of a value: a nil pointer is written as one null word, anything else by its handler. */
  method Encode(ps: PointerStream, t: Ty, v: Value) returns (r: Outcome)
    requires BlockSize(ps.m.bs) && Wf(t, ps.m.bs) && Typed(t, v, ps.m.bs)
    requires Span(ps.ptr, Moved(t, ps.m.bs)) <= ps.m.taken
    modifies ps, ps.m
    ensures Framed(old(ps.m.mem), ps.m.mem, old(ps.m.taken), ps.m.taken, old(ps.ptr), Moved(t, ps.m.bs))
    ensures old(ps.ptr) <= ps.ptr <= old(ps.ptr) + Moved(t, ps.m.bs)
    ensures Justified(r, Mapped(old(ps.m.mem), old(ps.ptr), Moved(t, ps.m.bs)), ps.m.refusals != old(ps.m.refusals),
                      !v.VNil? && Faults(t, v, ps.m.bs), HasEmptySlice(t, v, ps.m.bs))
    ensures v.VNil? ==> ps.m.taken == old(ps.m.taken)
    ensures r == Done && v.VNil? ==>
      Mapped(ps.m.mem, old(ps.ptr), ps.m.bs) && Slot(ps.m.mem, ps.m.bs, old(ps.ptr)) == 0
    ensures r == Done && !v.VNil? && Mapped(old(ps.m.mem), old(ps.ptr), Moved(t, ps.m.bs)) ==>
      Complete(ps.m.mem, old(ps.m.taken), ps.m.taken, ps.m.bs, t, v, old(ps.ptr), ps.ptr)
  {
    if v.VNil? {
      SumSingle(ps.m.bs);
      LEZero(ps.m.bs);
      SlotStored(ps.m.mem, ps.m.bs, ps.ptr, 0);
      var ok := ps.Write(LE(0, ps.m.bs));
      r := if ok then Done else Failed;
    } else {
      r := EncodeValue(ps, t, v);
    }
  }

  lemma LEZero(k: nat)
    ensures 0 < Pow256(k)
  {
  }

  /** Encode a value, then decode it again into `&w`: the whole round trip.  Unless the allocator
      refuses or a nil host pointer is dereferenced, it gives the value back, everything behind its
      pointers included, exactly when no pointer below the top is nil and its strings can be read; a
      nil pointer at the top leaves `w` alone. */
  method RoundTrip(m: Machine, t: Ty, v: Value, w: Value, p: nat) returns (r: Outcome, x: Option<Value>)
    requires BlockSize(m.bs) && Wf(t, m.bs) && NoPlainSlice(t, m.bs)
    requires Typed(t, v, m.bs) && Typed(t, w, m.bs) && Fits(t, v, w, m.bs)
    requires Span(p, Moved(t, m.bs)) <= m.taken && Mapped(m.mem, p, Moved(t, m.bs))
    modifies m
    ensures Framed(old(m.mem), m.mem, old(m.taken), m.taken, p, Moved(t, m.bs))
    ensures Justified(r, true, m.refusals != old(m.refusals), !v.VNil? && Faults(t, v, m.bs),
                      HasEmptySlice(t, v, m.bs))
    ensures r == Done && !v.VNil? ==> (x == Some(v) <==> Readable(m.mem, m.bs, t, v, p))
    ensures r == Done && v.VNil? ==> x == Some(w)
  {
    hide Wf, NoPlainSlice, Typed, Fits, Moved, Framed, Stored, Readable, Dec, Faults, HasEmptySlice, Slot, Own,
      Complete;
    var out := new PointerStream(m, p);
    r := Encode(out, t, v);
    if r != Done {
      return r, None;
    }
    var in_ := new PointerStream(m, p);
    x := DecodeValue(in_, t, w);
    if v.VNil? {
      NilIsPointer(t, v, m.bs);
      DecodeNull(m.mem, m.bs, t, w, p);
    } else {
      DecodedBack(m.mem, old(m.taken), m.taken, m.bs, t, v, w, p, out.ptr, x, in_.ptr);
    }
  }

  lemma NilIsPointer(t: Ty, v: Value, bs: nat)
    requires Typed(t, v, bs) && v.VNil?
    ensures t.Pointer?
  {
  }

  lemma DecodedBack(mem: Mem, t0: set<nat>, t1: set<nat>, bs: nat, t: Ty, v: Value, w: Value, p: nat, ptr: nat,
                    x: Option<Value>, q: nat)
    requires BlockSize(bs) && Wf(t, bs) && NoPlainSlice(t, bs)
    requires Typed(t, v, bs) && Typed(t, w, bs) && Fits(t, v, w, bs)
    requires Complete(mem, t0, t1, bs, t, v, p, ptr) && Matches(x, q, Dec(mem, bs, t, p, w))
    ensures x == Some(v) <==> Readable(mem, bs, t, v, p)
  {
    hide Wf, NoPlainSlice, Typed, Fits, Moved, Stored, Readable, Dec;
    DecodeStored(mem, Own(t0, t1, p, Moved(t, bs)), bs, t, v, w, p);
  }

  /** A null slot of a pointer, a slice or a string leaves the destination alone; one that is not mapped
      fails. */
  lemma DecodeNull(mem: Mem, bs: nat, t: Ty, w: Value, p: nat)
    requires (t.Pointer? || t.Slice? || t.Str?) && Typed(t, w, bs)
    ensures !Mapped(mem, p, bs) ==> Dec(mem, bs, t, p, w) == None
    ensures Mapped(mem, p, bs) && Slot(mem, bs, p) == 0 ==> Dec(mem, bs, t, p, w) == Some(Got(w, p + bs))
  {
  }

  // ----- where the code does not give the value back

  /** A slice of scalars is stored correctly but decoded from the parent stream, so it comes back
      exactly when the bytes that follow the slot happen to be the same; an encode does not touch them. */
  lemma PlainSliceReadsParent(mem: Mem, own: set<nat>, bs: nat, e: Ty, v: Value, w: Value, p: nat)
    requires BlockSize(bs) && !Custom(e, bs) && Typed(Slice(e), v, bs) && Typed(Slice(e), w, bs)
    requires Stored(mem, own, bs, Slice(e), v, p) && |w.bytes| == |v.bytes|
    ensures var r := Dec(mem, bs, Slice(e), p, w);
      r.Some? && r.value.value == v <==> Holds(mem, p + bs, v.bytes)
  {
    OwnsMapped(mem, own, p, bs);
    ReadIsHolds(mem, p + bs, v.bytes);
  }

  lemma ReadIsHolds(mem: Mem, a: nat, b: seq<byte>)
    ensures Read(mem, a, |b|) == Some(b) <==> Holds(mem, a, b)
  {
    if Holds(mem, a, b) {
      HoldsRead(mem, a, b);
    }
    var r := Read(mem, a, |b|);
    if r == Some(b) {
      forall x | a <= x < a + |b| ensures x in mem && mem[x] == b[x - a] {
        assert r.value[x - a] == mem[a + (x - a)];
      }
    }
  }

  /** A slice holding 5 is stored behind address 8, with a 7 following its slot: the 7 comes back. */
  lemma PlainSliceLost()
    ensures var mem: Mem := map[0 := 8, 1 := 0, 2 := 0, 3 := 0, 4 := 7, 8 := 5];
      && Stored(mem, mem.Keys, 4, Slice(Scalar(1)), VBytes([5]), 0)
      && Dec(mem, 4, Slice(Scalar(1)), 0, VBytes([0])) == Some(Got(VBytes([7]), 5))
  {
    var mem: Mem := map[0 := 8, 1 := 0, 2 := 0, 3 := 0, 4 := 7, 8 := 5];
    SlotIs(mem, 0, 8);
    assert Read(mem, 4, 1).value == [7];
  }

  lemma SlotIs(mem: Mem, p: nat, a: byte)
    requires Holds(mem, p, [a, 0, 0, 0])
    ensures Mapped(mem, p, 4) && Slot(mem, 4, p) == a
  {
    HoldsRead(mem, p, [a, 0, 0, 0]);
    assert [a, 0, 0, 0][1..] == [0, 0, 0] && [0, 0, 0][1..] == [0, 0] && [0, 0][1..] == [0] && [0][1..] == [];
    assert FromLE([0, 0, 0]) == 0 by {
      assert FromLE([0]) == 0 && FromLE([0, 0]) == 0;
    }
  }

  /** With 4-byte words 2^32 is stored as 0, and a destination of zero stays zero. */
  lemma HighWordLost()
    ensures var v, w := VBytes([0, 0, 0, 0, 1, 0, 0, 0]), VBytes([0, 0, 0, 0, 0, 0, 0, 0]);
      var mem: Mem := map[0 := 0, 1 := 0, 2 := 0, 3 := 0];
      && Stored(mem, mem.Keys, 4, Word, v, 0)
      && Dec(mem, 4, Word, 0, w) == Some(Got(w, 4)) && v != w
  {
    var v, w := VBytes([0, 0, 0, 0, 1, 0, 0, 0]), VBytes([0, 0, 0, 0, 0, 0, 0, 0]);
    var mem: Mem := map[0 := 0, 1 := 0, 2 := 0, 3 := 0];
    assert v.bytes[..4] == [0, 0, 0, 0];
    HoldsRead(mem, 0, v.bytes[..4]);
    assert v.bytes[..4] + w.bytes[4..] == w.bytes;
    assert v.bytes[4] != w.bytes[4];
  }

  /** A one-letter string at the very end of what is mapped: it is stored, but the chunk it is read in
      is not all there. */
  lemma StringAtTheEndLost()
    ensures var mem: Mem := map[0 := 8, 1 := 0, 2 := 0, 3 := 0, 8 := 65, 9 := 0];
      && Stored(mem, mem.Keys, 4, Str, VStr([65]), 0)
      && Dec(mem, 4, Str, 0, VStr([])).None?
  {
    var mem: Mem := map[0 := 8, 1 := 0, 2 := 0, 3 := 0, 8 := 65, 9 := 0];
    SlotIs(mem, 0, 8);
    assert [65] + [0] == [65, 0];
    assert 10 !in mem && !Mapped(mem, 8, CHUNK);
  }

  /** A slot that holds an address never decodes to a nil pointer, so a nested nil pointer, for which
      a region is allocated all the same, does not come back. */
  lemma NilPointerLost(mem: Mem, bs: nat, e: Ty, w: Value, p: nat)
    requires Typed(Pointer(e), w, bs)
    ensures var r := Dec(mem, bs, Pointer(e), p, w);
      r == Some(Got(VNil, p + bs)) <==> Mapped(mem, p, bs) && Slot(mem, bs, p) == 0 && w == VNil
  {
  }

  /** A nil pointer to a pointer, below the top level, encodes without complaint and is then lost. */
  method NestedNilEncodes(ps: PointerStream) returns (r: Outcome)
    requires BlockSize(ps.m.bs) && Span(ps.ptr, ps.m.bs) <= ps.m.taken && Mapped(ps.m.mem, ps.ptr, ps.m.bs)
    modifies ps, ps.m
    ensures r != NilFault && (r == Failed <==> ps.m.refusals != old(ps.m.refusals))
    ensures r == Done ==> Slot(ps.m.mem, ps.m.bs, old(ps.ptr)) > 0
    ensures r == Done ==> forall w :: Typed(Pointer(Pointer(Word)), w, ps.m.bs) ==>
      var d := Dec(ps.m.mem, ps.m.bs, Pointer(Pointer(Word)), old(ps.ptr), w);
      d.None? || d.value.value != VNil
  {
    SumSingle(ps.m.bs);
    r := EncodePointer(ps, Pointer(Pointer(Word)), VNil);
  }
}

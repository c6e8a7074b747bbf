/** What decoding computes, and when it gives back the value that was stored. */
module CodecDecode {
  import opened Bits
  import opened Ranges
  import opened Wrappers
  import opened CodecTypes
  import opened CodecLayout
  import opened CodecMemory

  datatype Got<T> = Got(value: T, ptr: nat)

  function Skip(p: nat, n: int): nat {
    if p + n < 0 then 0 else p + n
  }

  lemma {:induction false} ZeroTyped(t: Ty, bs: nat)
    ensures Typed(t, Zero(t, bs), bs)
    decreases t
  {
    match t
    case Scalar(n) => ZerosLength(n);
    case Word => ZerosLength(HOST_WORD);
    case Array(e, c) =>
      ZeroTyped(e, bs);
      ZerosLength(Times(c, HostSize(e)));
    case Struct(fs, n) =>
      ZerosLength(n);
      forall i | 0 <= i < |fs| ensures Typed(fs[i].ty, Zero(fs[i].ty, bs), bs) {
        ZeroTyped(fs[i].ty, bs);
      }
    case _ =>
  }

  lemma {:induction false} ZerosLength(n: nat)
    ensures |Zeros(n)| == n
  {
    if n > 0 {
      ZerosLength(n - 1);
    }
  }

  /** All bytes zero, all pointers nil, all strings and slices empty. */
  predicate IsZero(v: Value) {
    match v
    case VBytes(b) => forall i :: 0 <= i < |b| ==> b[i] == 0
    case VNil => true
    case VPtr(_) => false
    case VSeq(es) => forall e :: e in es ==> IsZero(e)
    case VStr(s) => s == []
  }

  /** What is allocated behind a nil pointer is zero all through. */
  lemma {:induction false} ZeroIsZero(t: Ty, bs: nat)
    ensures IsZero(Zero(t, bs))
    decreases t
  {
    match t
    case Scalar(n) => ZerosAre(n);
    case Word => ZerosAre(HOST_WORD);
    case Array(e, c) =>
      ZeroIsZero(e, bs);
      ZerosAre(Times(c, HostSize(e)));
    case Struct(fs, n) =>
      ZerosAre(n);
      forall i | 0 <= i < |fs| ensures IsZero(Zero(fs[i].ty, bs)) {
        ZeroIsZero(fs[i].ty, bs);
      }
    case _ =>
  }

  lemma {:induction false} ZerosAre(n: int)
    ensures forall i :: 0 <= i < |Zeros(n)| ==> Zeros(n)[i] == 0
    decreases n
  {
    if n > 0 {
      ZerosAre(n - 1);
    }
  }

  function ReadBytes(mem: Mem, p: nat, n: nat): Option<Got<Value>> {
    match Read(mem, p, n)
    case None => None
    case Some(b) => Some(Got(VBytes(b), p + n))
  }

  /** The value a pointer of type `*e` is decoded into. */
  function Target(e: Ty, w: Value, bs: nat): (x: Value)
    requires Typed(Pointer(e), w, bs)
    ensures Typed(e, x, bs)
  {
    ZeroTyped(e, bs);
    if w.VPtr? then w.target else Zero(e, bs)
  }

  /** Decoding type `t` at `p` into a destination that holds `w` so far. */
  function Dec(mem: Mem, bs: nat, t: Ty, p: nat, w: Value): Option<Got<Value>>
    requires Typed(t, w, bs)
    decreases t, 1, 0
  {
    match t
    case Scalar(n) => ReadBytes(mem, p, n)
    case Word =>
      var size := if bs < HOST_WORD then bs else HOST_WORD;
      (match Read(mem, p, size)
       case None => None
       case Some(b) => Some(Got(VBytes(b + w.bytes[size..]), p + bs)))
    case Array(e, c) =>
      if !Custom(e, bs) then ReadBytes(mem, p, Times(c, HostSize(e)))
      else
        (match DecSeq(mem, bs, e, p, w.elems)
         case None => None
         case Some(g) => Some(Got(VSeq(g.value), g.ptr)))
    case Pointer(e) =>
      if !Mapped(mem, p, bs) then None
      else if Slot(mem, bs, p) == 0 then Some(Got(w, p + bs))
      else
        (match Dec(mem, bs, e, Slot(mem, bs, p), Target(e, w, bs))
         case None => None
         case Some(g) => Some(Got(VPtr(g.value), p + bs)))
    case Slice(e) =>
      if !Mapped(mem, p, bs) then None
      else if Slot(mem, bs, p) == 0 then Some(Got(w, p + bs))
      else if !Custom(e, bs) then ReadBytes(mem, p + bs, |w.bytes|)  // from the parent stream
      else
        (match DecSeq(mem, bs, e, Slot(mem, bs, p), w.elems)
         case None => None
         case Some(g) => Some(Got(VSeq(g.value), p + bs)))
    case Str =>
      if !Mapped(mem, p, bs) then None
      else if Slot(mem, bs, p) == 0 then Some(Got(w, p + bs))
      else
        (match ReadString(mem, Slot(mem, bs, p))
         case None => None
         case Some(s) => Some(Got(VStr(s), p + bs)))
    case Struct(fs, n) =>
      if Raw(fs, bs) then ReadBytes(mem, p, n)
      else
        (match DecFields(mem, bs, t, p, w.elems, |fs|)
         case None => None
         case Some(g) => Some(Got(VSeq(g.value), Skip(g.ptr, Sum(TailEntry(FieldSizes(t, bs, |fs|)))))))
  }

  function Snoc(pre: Got<seq<Value>>, last: Option<Got<Value>>): Option<Got<seq<Value>>> {
    match last
    case None => None
    case Some(g) => Some(Got(pre.value + [g.value], g.ptr))
  }

  function DecSeq(mem: Mem, bs: nat, e: Ty, p: nat, ws: seq<Value>): (r: Option<Got<seq<Value>>>)
    requires forall w :: w in ws ==> Typed(e, w, bs)
    ensures r.Some? ==> |r.value.value| == |ws|
    decreases e, 2, |ws|
  {
    if ws == [] then Some(Got([], p))
    else
      var n := |ws| - 1;
      match DecSeq(mem, bs, e, p, ws[..n])
      case None => None
      case Some(pre) => Snoc(pre, Dec(mem, bs, e, pre.ptr, ws[n]))
  }

  function DecFields(mem: Mem, bs: nat, t: Ty, p: nat, ws: seq<Value>, k: nat): (r: Option<Got<seq<Value>>>)
    requires t.Struct? && k <= |t.fields| == |ws|
    requires forall i :: 0 <= i < |ws| ==> Typed(t.fields[i].ty, ws[i], bs)
    ensures r.Some? ==> |r.value.value| == k
    decreases t, 0, k
  {
    if k == 0 then Some(Got([], p))
    else
      var f := t.fields[k - 1];
      match DecFields(mem, bs, t, p, ws, k - 1)
      case None => None
      case Some(pre) =>
        if f.ignore then Snoc(pre, Some(Got(ws[k - 1], pre.ptr)))
        else Snoc(pre, Dec(mem, bs, f.ty, Skip(pre.ptr, PadBefore(t, bs, k - 1)), ws[k - 1]))
  }

  // ----- destinations, and what a memory must offer

  /** Destination `w` can receive `v`: equal slice lengths, equal ignored fields, and equal the bytes
      of a word beyond the guest's word size. */
  ghost predicate Fits(t: Ty, v: Value, w: Value, bs: nat)
    requires Typed(t, v, bs) && Typed(t, w, bs)
    decreases t
  {
    match t
    case Word => bs < HOST_WORD ==> w.bytes[bs..] == v.bytes[bs..]
    case Array(e, _) =>
      Custom(e, bs) ==> forall i :: 0 <= i < |v.elems| ==> Fits(e, v.elems[i], w.elems[i], bs)
    case Pointer(e) => v.VPtr? ==> Fits(e, v.target, Target(e, w, bs), bs)
    case Slice(e) =>
      if Custom(e, bs) then
        |w.elems| == |v.elems| && forall i :: 0 <= i < |v.elems| ==> Fits(e, v.elems[i], w.elems[i], bs)
      else |w.bytes| == |v.bytes|
    case Struct(fs, _) =>
      !Raw(fs, bs) ==> forall i :: 0 <= i < |fs| ==>
        if fs[i].ignore then w.elems[i] == v.elems[i] else Fits(fs[i].ty, v.elems[i], w.elems[i], bs)
    case _ => true
  }

  /** No slice of scalars, whose decoder reads from the wrong stream. */
  predicate NoPlainSlice(t: Ty, bs: nat)
    decreases t
  {
    match t
    case Array(e, _) => NoPlainSlice(e, bs)
    case Pointer(e) => NoPlainSlice(e, bs)
    case Slice(e) => Custom(e, bs) && NoPlainSlice(e, bs)
    case Struct(fs, _) => forall f :: f in fs ==> NoPlainSlice(f.ty, bs)
    case _ => true
  }

  /** No pointer of the value is nil, and every string is free of NULs and has the whole 16-byte chunks
      it is read in mapped. */
  ghost predicate Readable(mem: Mem, bs: nat, t: Ty, v: Value, p: nat)
    requires Typed(t, v, bs)
    decreases t, 1, 0
  {
    match t
    case Array(e, _) => Custom(e, bs) ==> ReadableSeq(mem, bs, e, v.elems, p)
    case Pointer(e) => v.VPtr? && Readable(mem, bs, e, v.target, Slot(mem, bs, p))
    case Slice(e) => Custom(e, bs) ==> ReadableSeq(mem, bs, e, v.elems, Slot(mem, bs, p))
    case Str => 0 !in v.chars && Mapped(mem, Slot(mem, bs, p), ChunkSpan(|v.chars|))
    case Struct(fs, _) => !Raw(fs, bs) ==> ReadableFields(mem, bs, t, v.elems, p, |fs|)
    case _ => true
  }

  ghost predicate ReadableSeq(mem: Mem, bs: nat, e: Ty, vs: seq<Value>, p: nat)
    requires forall v :: v in vs ==> Typed(e, v, bs)
    decreases e, 2, |vs|
  {
    vs != [] ==>
      var n := |vs| - 1;
      && ReadableSeq(mem, bs, e, vs[..n], p)
      && Readable(mem, bs, e, vs[n], Skip(p, Times(n, Moved(e, bs))))
  }

  ghost predicate ReadableFields(mem: Mem, bs: nat, t: Ty, vs: seq<Value>, p: nat, k: nat)
    requires t.Struct? && k <= |t.fields| == |vs|
    requires forall i :: 0 <= i < |vs| ==> Typed(t.fields[i].ty, vs[i], bs)
    decreases t, 0, k
  {
    k > 0 ==>
      var f := t.fields[k - 1];
      && ReadableFields(mem, bs, t, vs, p, k - 1)
      && (!f.ignore ==>
            Readable(mem, bs, f.ty, vs[k - 1], Skip(p, FieldsMoved(t, bs, k - 1) + PadBefore(t, bs, k - 1))))
  }

  // ----- where the fields of a stored struct lie

  lemma {:induction false} StoredFieldAt(
    mem: Mem, own: set<nat>, bs: nat, t: Ty, vs: seq<Value>, p: nat, k: nat, i: nat)
    requires t.Struct? && i < k <= |t.fields| == |vs| && !t.fields[i].ignore
    requires forall j :: 0 <= j < |vs| ==> Typed(t.fields[j].ty, vs[j], bs)
    requires StoredFields(mem, own, bs, t, vs, p, k)
    ensures StoredAt(mem, own, bs, t.fields[i].ty, vs[i], p + FieldsMoved(t, bs, i) + PadBefore(t, bs, i))
    decreases k
  {
    hide Typed, StoredAt, FieldsMoved, PadBefore;
    if i < k - 1 {
      StoredFieldAt(mem, own, bs, t, vs, p, k - 1, i);
    }
  }

  /** Each kept field of a stored struct is at its declared start if and only if no string occurs inline in
      the fields before; with it, at a multiple of every power of two that divides the address of the
      struct and the first size of the field. */
  lemma StoredFieldPlaced(mem: Mem, own: set<nat>, bs: nat, t: Ty, v: Value, p: nat, i: nat, k: nat)
    requires t.Struct? && !Raw(t.fields, bs) && Wf(t, bs) && bs > 0 && Typed(t, v, bs)
    requires i < |t.fields| && !t.fields[i].ignore && Stored(mem, own, bs, t, v, p)
    ensures v.VSeq? && |v.elems| == |t.fields| && Typed(t.fields[i].ty, v.elems[i], bs) && Pow2(k) > 0
    ensures var at := p + FieldsMoved(t, bs, i) + PadBefore(t, bs, i);
      && StoredAt(mem, own, bs, t.fields[i].ty, v.elems[i], at)
      && (at == p + FieldStart(t, bs, i) <==>
          forall j :: 0 <= j < i && !t.fields[j].ignore ==> NoInlineString(t.fields[j].ty, bs))
      && (at == p + FieldStart(t, bs, i) ==>
          p % Pow2(k) == 0 && First(Sizes(t.fields[i].ty, bs)) % Pow2(k) == 0 ==> at % Pow2(k) == 0)
  {
    StructElems(t, v, bs);
    assert StoredFields(mem, own, bs, t, v.elems, p, |t.fields|);
    hide Typed, Stored, StoredFields, StoredAt, FieldsMoved, PadBefore, Wf, Raw, Sizes, First, Sum, FieldSizes;
    hide NoInlineString;
    StoredFieldAt(mem, own, bs, t, v.elems, p, |t.fields|, i);
    FieldAddress(t, bs, p, i, k);
  }

  lemma StructElems(t: Ty, v: Value, bs: nat)
    requires t.Struct? && !Raw(t.fields, bs) && Typed(t, v, bs)
    ensures v.VSeq? && |v.elems| == |t.fields|
    ensures forall j :: 0 <= j < |v.elems| ==> Typed(t.fields[j].ty, v.elems[j], bs)
  {
  }

  lemma FieldAddress(t: Ty, bs: nat, p: nat, i: nat, k: nat)
    requires t.Struct? && Wf(t, bs) && bs > 0 && i < |t.fields| && !t.fields[i].ignore
    ensures Pow2(k) > 0
    ensures var at := p + FieldsMoved(t, bs, i) + PadBefore(t, bs, i);
      && (at == p + FieldStart(t, bs, i) <==>
          forall j :: 0 <= j < i && !t.fields[j].ignore ==> NoInlineString(t.fields[j].ty, bs))
      && (at == p + FieldStart(t, bs, i) ==>
          p % Pow2(k) == 0 && First(Sizes(t.fields[i].ty, bs)) % Pow2(k) == 0 ==> at % Pow2(k) == 0)
  {
    hide FieldsMoved, PadBefore, Wf, Sizes, First, Sum, FieldSizes, NoInlineString, LeastUp, Pow2;
    FieldsMovedBound(t, bs, i);
    FieldPlaced(t, bs, i, k);
    var start := FieldStart(t, bs, i);
    if p % Pow2(k) == 0 && start % Pow2(k) == 0 {
      SumOfMultiples(p, start, Pow2(k));
    }
  }

  lemma SumOfMultiples(x: nat, y: nat, d: nat)
    requires d > 0 && x % d == 0 && y % d == 0
    ensures (x + y) % d == 0
  {
    Bits.DivUnique(x + y, d, x / d + y / d, 0);
  }

  // ----- decoding what is stored

  /** `r` ends where the handler of `t` should leave the stream, and is `v` exactly when `ok`. */
  ghost predicate Gives<T>(r: Option<Got<T>>, v: T, ptr: int, ok: bool) {
    (r.Some? ==> r.value.ptr == ptr) && (r.Some? && r.value.value == v <==> ok)
  }

  /** The round trip: a stored value is given back, everything behind its pointers included, if and
      only if no pointer in it is nil and its strings can be read; otherwise decoding fails or gives
      something else. */
  lemma {:induction false} DecodeStored(mem: Mem, own: set<nat>, bs: nat, t: Ty, v: Value, w: Value, p: nat)
    requires BlockSize(bs) && Wf(t, bs) && NoPlainSlice(t, bs)
    requires Typed(t, v, bs) && Typed(t, w, bs) && Fits(t, v, w, bs)
    requires Stored(mem, own, bs, t, v, p)
    ensures Gives(Dec(mem, bs, t, p, w), v, p + Moved(t, bs), Readable(mem, bs, t, v, p))
    decreases t, 3, 0
  {
    hide Wf, NoPlainSlice, Typed, Fits, Stored, Dec, Moved, Readable;
    match t
    case Scalar(n) => DecodeScalar(mem, own, bs, t, v, w, p);
    case Word => DecodeScalar(mem, own, bs, t, v, w, p);
    case Array(e, c) => DecodeArray(mem, own, bs, t, v, w, p);
    case Pointer(e) => DecodePointer(mem, own, bs, t, v, w, p);
    case Slice(e) => DecodeSlice(mem, own, bs, t, v, w, p);
    case Str => DecodeStr(mem, own, bs, v, w, p);
    case Struct(fs, n) => DecodeStruct(mem, own, bs, t, v, w, p);
  }

  lemma DecodeScalar(mem: Mem, own: set<nat>, bs: nat, t: Ty, v: Value, w: Value, p: nat)
    requires (t.Scalar? || t.Word?) && BlockSize(bs)
    requires Typed(t, v, bs) && Typed(t, w, bs) && Fits(t, v, w, bs) && Stored(mem, own, bs, t, v, p)
    ensures Gives(Dec(mem, bs, t, p, w), v, p + Moved(t, bs), Readable(mem, bs, t, v, p))
  {
    if t.Scalar? {
      HoldsRead(mem, p, v.bytes);
      SumSingle(t.size);
    } else {
      DecodeWord(mem, own, bs, v, w, p);
      assert bs == HOST_WORD ==> v.bytes[bs..] == [] == w.bytes[bs..];
    }
  }

  lemma OwnsMapped(mem: Mem, own: set<nat>, p: nat, n: nat)
    requires Owns(mem, own, p, n)
    ensures Mapped(mem, p, n)
  {
    forall x | p <= x < p + n ensures x in mem {
      assert Within(x, p, n);
    }
  }

  /** A word comes back exactly when the destination already has the bytes that do not fit the guest. */
  lemma DecodeWord(mem: Mem, own: set<nat>, bs: nat, v: Value, w: Value, p: nat)
    requires BlockSize(bs) && Typed(Word, v, bs) && Typed(Word, w, bs) && Stored(mem, own, bs, Word, v, p)
    ensures Gives(Dec(mem, bs, Word, p, w), v, p + Moved(Word, bs), v.bytes[bs..] == w.bytes[bs..])
  {
    HoldsRead(mem, p, v.bytes[..bs]);
    SumSingle(bs);
    var got := v.bytes[..bs] + w.bytes[bs..];
    assert got[bs..] == w.bytes[bs..];
    assert v.bytes == v.bytes[..bs] + v.bytes[bs..];
  }

  lemma ElemFacts(t: Ty, v: Value, w: Value, bs: nat)
    requires (t.Array? || t.Slice?) && Wf(t, bs) && NoPlainSlice(t, bs)
    requires Typed(t, v, bs) && Typed(t, w, bs) && Fits(t, v, w, bs)
    ensures Wf(t.elem, bs) && NoPlainSlice(t.elem, bs) && (t.Slice? ==> Custom(t.elem, bs))
    ensures Custom(t.elem, bs) ==>
      && v.VSeq? && w.VSeq? && |v.elems| == |w.elems| && (t.Array? ==> |v.elems| == t.count)
      && (forall x :: x in v.elems ==> Typed(t.elem, x, bs)) && (forall x :: x in w.elems ==> Typed(t.elem, x, bs))
      && (forall i :: 0 <= i < |v.elems| ==> Fits(t.elem, v.elems[i], w.elems[i], bs))
    ensures !Custom(t.elem, bs) && t.Array? ==>
      v.VBytes? && |v.bytes| == Times(t.count, HostSize(t.elem))
  {
  }

  lemma {:induction false} DecodeArray(mem: Mem, own: set<nat>, bs: nat, t: Ty, v: Value, w: Value, p: nat)
    requires t.Array? && BlockSize(bs) && Wf(t, bs) && NoPlainSlice(t, bs)
    requires Typed(t, v, bs) && Typed(t, w, bs) && Fits(t, v, w, bs)
    requires Stored(mem, own, bs, t, v, p)
    ensures Gives(Dec(mem, bs, t, p, w), v, p + Moved(t, bs), Readable(mem, bs, t, v, p))
    decreases t, 2, 0
  {
    hide Wf, NoPlainSlice, Typed, Fits, Total, StoredSeq, DecSeq, ReadableSeq, Sum, Sizes;
    ElemFacts(t, v, w, bs);
    if Custom(t.elem, bs) {
      DecodeStoredSeq(mem, own, bs, t.elem, v.elems, w.elems, p);
    } else {
      HoldsRead(mem, p, v.bytes);
      PlainArrayTotal(t.elem, t.count, bs);
    }
  }

  lemma PointerFacts(t: Ty, v: Value, w: Value, bs: nat)
    requires t.Pointer? && Wf(t, bs) && NoPlainSlice(t, bs)
    requires Typed(t, v, bs) && Typed(t, w, bs) && Fits(t, v, w, bs)
    ensures Wf(t.elem, bs) && NoPlainSlice(t.elem, bs)
    ensures v.VNil? || (v.VPtr? && Typed(t.elem, v.target, bs) && Fits(t.elem, v.target, Target(t.elem, w, bs), bs))
  {
  }

  lemma {:induction false} DecodePointer(mem: Mem, own: set<nat>, bs: nat, t: Ty, v: Value, w: Value, p: nat)
    requires t.Pointer? && BlockSize(bs) && Wf(t, bs) && NoPlainSlice(t, bs)
    requires Typed(t, v, bs) && Typed(t, w, bs) && Fits(t, v, w, bs)
    requires Stored(mem, own, bs, t, v, p)
    ensures Gives(Dec(mem, bs, t, p, w), v, p + Moved(t, bs), Readable(mem, bs, t, v, p))
    decreases t, 2, 0
  {
    hide Wf, NoPlainSlice, Typed, Fits, Sum;
    PointerFacts(t, v, w, bs);
    OwnsMapped(mem, own, p, bs);
    SumSingle(bs);
    if v.VPtr? {
      DecodeStored(mem, own, bs, t.elem, v.target, Target(t.elem, w, bs), Slot(mem, bs, p));
    }
  }

  lemma {:induction false} DecodeSlice(mem: Mem, own: set<nat>, bs: nat, t: Ty, v: Value, w: Value, p: nat)
    requires t.Slice? && BlockSize(bs) && Wf(t, bs) && NoPlainSlice(t, bs)
    requires Typed(t, v, bs) && Typed(t, w, bs) && Fits(t, v, w, bs)
    requires Stored(mem, own, bs, t, v, p)
    ensures Gives(Dec(mem, bs, t, p, w), v, p + Moved(t, bs), Readable(mem, bs, t, v, p))
    decreases t, 2, 0
  {
    hide Wf, NoPlainSlice, Typed, Fits, StoredSeq, DecSeq, ReadableSeq, Sum;
    ElemFacts(t, v, w, bs);
    OwnsMapped(mem, own, p, bs);
    SumSingle(bs);
    DecodeStoredSeq(mem, own, bs, t.elem, v.elems, w.elems, Slot(mem, bs, p));
  }

  lemma DecodeStr(mem: Mem, own: set<nat>, bs: nat, v: Value, w: Value, p: nat)
    requires Typed(Str, v, bs) && Typed(Str, w, bs) && Stored(mem, own, bs, Str, v, p)
    ensures Gives(Dec(mem, bs, Str, p, w), v, p + Moved(Str, bs), Readable(mem, bs, Str, v, p))
  {
    OwnsMapped(mem, own, p, bs);
    DecodeString(mem, v.chars, Slot(mem, bs, p));
  }

  lemma DecodeString(mem: Mem, s: seq<byte>, a: nat)
    requires Holds(mem, a, s + [0])
    ensures ReadString(mem, a) == Some(s) <==> 0 !in s && Mapped(mem, a, ChunkSpan(|s|))
  {
    FirstNulAppend(s);
    ReadStringFinds(mem, a, s + [0]);
  }

  lemma {:induction false} DecodeStruct(mem: Mem, own: set<nat>, bs: nat, t: Ty, v: Value, w: Value, p: nat)
    requires t.Struct? && BlockSize(bs) && Wf(t, bs) && NoPlainSlice(t, bs)
    requires Typed(t, v, bs) && Typed(t, w, bs) && Fits(t, v, w, bs)
    requires Stored(mem, own, bs, t, v, p)
    ensures Gives(Dec(mem, bs, t, p, w), v, p + Moved(t, bs), Readable(mem, bs, t, v, p))
    decreases t, 2, 0
  {
    hide Wf, NoPlainSlice, Typed, Fits, DecFields, ReadableFields, StoredFields, FieldSizes, FieldsMoved, Total;
    hide TailEntry, Sum;
    StructFacts(t, v, w, bs);
    if Raw(t.fields, bs) {
      HoldsRead(mem, p, v.bytes);
      RawTotal(t, bs);
    } else {
      var k := |t.fields|;
      FieldSizesPositive(t, bs, k);
      FieldsMovedBound(t, bs, k);
      TailSum(FieldSizes(t, bs, k));
      DecodeStoredFields(mem, own, bs, t, v.elems, w.elems, p, k);
      assert v.elems[..k] == v.elems;
    }
  }

  lemma StructFacts(t: Ty, v: Value, w: Value, bs: nat)
    requires t.Struct? && Wf(t, bs) && Typed(t, v, bs) && Typed(t, w, bs) && Fits(t, v, w, bs)
    ensures t.fields != [] && t.fields[0].offset == 0
    ensures Raw(t.fields, bs) ==> v.VBytes? && |v.bytes| == t.hostSize
    ensures !Raw(t.fields, bs) ==>
      && v.VSeq? && w.VSeq? && |v.elems| == |t.fields| == |w.elems|
      && (forall i :: 0 <= i < |v.elems| ==>
            Typed(t.fields[i].ty, v.elems[i], bs) && Typed(t.fields[i].ty, w.elems[i], bs))
      && (forall i :: 0 <= i < |v.elems| ==>
            if t.fields[i].ignore then w.elems[i] == v.elems[i] else Fits(t.fields[i].ty, v.elems[i], w.elems[i], bs))
  {
  }

  lemma {:induction false} DecodeStoredSeq(
    mem: Mem, own: set<nat>, bs: nat, e: Ty, vs: seq<Value>, ws: seq<Value>, p: nat)
    requires BlockSize(bs) && Wf(e, bs) && NoPlainSlice(e, bs) && |vs| == |ws|
    requires (forall v :: v in vs ==> Typed(e, v, bs)) && (forall w :: w in ws ==> Typed(e, w, bs))
    requires forall i :: 0 <= i < |vs| ==> Fits(e, vs[i], ws[i], bs)
    requires StoredSeq(mem, own, bs, e, vs, p)
    ensures Gives(DecSeq(mem, bs, e, p, ws), vs, p + Times(|vs|, Moved(e, bs)), ReadableSeq(mem, bs, e, vs, p))
    decreases e, 4, |vs|
  {
    hide Dec, DecSeq, Stored, Readable, ReadableSeq, Fits, Typed, Moved, Wf, NoPlainSlice, Gives;
    if vs == [] {
      DecodeNoElems(mem, bs, e, p);
    } else {
      var n := |vs| - 1;
      DecodeStoredSeq(mem, own, bs, e, vs[..n], ws[..n], p);
      DecodeStored(mem, own, bs, e, vs[n], ws[n], p + Times(n, Moved(e, bs)));
      DecodeLast(mem, bs, e, vs, ws, p, p + Times(n, Moved(e, bs)));
    }
  }

  lemma DecodeNoElems(mem: Mem, bs: nat, e: Ty, p: nat)
    ensures Gives(DecSeq(mem, bs, e, p, []), [], p, ReadableSeq(mem, bs, e, [], p))
  {
  }

  /** From all elements but the last to all of them. */
  lemma DecodeLast(mem: Mem, bs: nat, e: Ty, vs: seq<Value>, ws: seq<Value>, p: nat, at: nat)
    requires vs != [] && |vs| == |ws| && at == p + Times(|vs| - 1, Moved(e, bs))
    requires (forall v :: v in vs ==> Typed(e, v, bs)) && (forall w :: w in ws ==> Typed(e, w, bs))
    requires var n := |vs| - 1;
      && Gives(DecSeq(mem, bs, e, p, ws[..n]), vs[..n], at, ReadableSeq(mem, bs, e, vs[..n], p))
      && Gives(Dec(mem, bs, e, at, ws[n]), vs[n], at + Moved(e, bs), Readable(mem, bs, e, vs[n], at))
    ensures Gives(DecSeq(mem, bs, e, p, ws), vs, p + Times(|vs|, Moved(e, bs)), ReadableSeq(mem, bs, e, vs, p))
  {
    hide Dec, Readable, Typed, Moved;
    var n := |vs| - 1;
    var pre := DecSeq(mem, bs, e, p, ws[..n]);
    if pre.Some? {
      SnocGives(pre.value, Dec(mem, bs, e, at, ws[n]), vs, at + Moved(e, bs),
                ReadableSeq(mem, bs, e, vs[..n], p), Readable(mem, bs, e, vs[n], at));
    }
  }

  /** A sequence is right exactly when its front and its last element are. */
  lemma SnocGives(
    pre: Got<seq<Value>>, last: Option<Got<Value>>, vs: seq<Value>, end: int, okPre: bool, okLast: bool)
    requires |vs| == |pre.value| + 1
    requires pre.value == vs[..|vs| - 1] <==> okPre
    requires Gives(last, vs[|vs| - 1], end, okLast)
    ensures Gives(Snoc(pre, last), vs, end, okPre && okLast)
  {
    if last.Some? {
      var got := pre.value + [last.value.value];
      assert got[..|vs| - 1] == pre.value && got[|vs| - 1] == last.value.value;
      assert vs == vs[..|vs| - 1] + [vs[|vs| - 1]];
    }
  }

  lemma {:induction false} DecodeStoredFields(
    mem: Mem, own: set<nat>, bs: nat, t: Ty, vs: seq<Value>, ws: seq<Value>, p: nat, k: nat)
    requires BlockSize(bs) && t.Struct? && Wf(t, bs) && NoPlainSlice(t, bs) && k <= |t.fields| == |vs| == |ws|
    requires forall i :: 0 <= i < |vs| ==> Typed(t.fields[i].ty, vs[i], bs) && Typed(t.fields[i].ty, ws[i], bs)
    requires forall i :: 0 <= i < |vs| ==>
      if t.fields[i].ignore then ws[i] == vs[i] else Fits(t.fields[i].ty, vs[i], ws[i], bs)
    requires StoredFields(mem, own, bs, t, vs, p, k)
    ensures Gives(DecFields(mem, bs, t, p, ws, k), vs[..k], p + FieldsMoved(t, bs, k),
                  ReadableFields(mem, bs, t, vs, p, k))
    decreases t, 1, k
  {
    hide Wf, NoPlainSlice, Typed, Fits, Dec, DecFields, Readable, ReadableFields, Moved, Stored, PadBefore, Gives;
    if k == 0 {
      DecodeNoFields(mem, bs, t, vs, ws, p);
    } else {
      DecodeStoredFields(mem, own, bs, t, vs, ws, p, k - 1);
      if t.fields[k - 1].ignore {
        DecodeIgnored(mem, bs, t, vs, ws, p, k - 1);
      } else {
        PadNotNegative(t, bs, k - 1);
        var at := p + FieldsMoved(t, bs, k - 1) + PadBefore(t, bs, k - 1);
        FieldNoPlainSlice(t, bs, k - 1);
        DecodeStored(mem, own, bs, t.fields[k - 1].ty, vs[k - 1], ws[k - 1], at);
        DecodeKept(mem, bs, t, vs, ws, p, k - 1, at);
      }
    }
  }

  lemma DecodeNoFields(mem: Mem, bs: nat, t: Ty, vs: seq<Value>, ws: seq<Value>, p: nat)
    requires t.Struct? && |t.fields| == |vs| == |ws|
    requires forall i :: 0 <= i < |vs| ==> Typed(t.fields[i].ty, vs[i], bs) && Typed(t.fields[i].ty, ws[i], bs)
    ensures Gives(DecFields(mem, bs, t, p, ws, 0), vs[..0], p + FieldsMoved(t, bs, 0),
                  ReadableFields(mem, bs, t, vs, p, 0))
  {
  }

  lemma FieldNoPlainSlice(t: Ty, bs: nat, k: nat)
    requires t.Struct? && k < |t.fields| && Wf(t, bs) && NoPlainSlice(t, bs)
    ensures Wf(t.fields[k].ty, bs) && NoPlainSlice(t.fields[k].ty, bs)
  {
  }

  lemma PadNotNegative(t: Ty, bs: nat, k: nat)
    requires t.Struct? && k < |t.fields| && Wf(t, bs) && bs > 0
    ensures FieldsMoved(t, bs, k) >= 0 && PadBefore(t, bs, k) >= 0
  {
    FieldsMovedBound(t, bs, k);
    FieldSizesPositive(t, bs, k);
    SizesPositive(t.fields[k].ty, bs);
    PadBeforeSign(t, bs, k);
  }

  lemma DecodeIgnored(mem: Mem, bs: nat, t: Ty, vs: seq<Value>, ws: seq<Value>, p: nat, k: nat)
    requires t.Struct? && k < |t.fields| == |vs| == |ws| && t.fields[k].ignore && ws[k] == vs[k]
    requires forall i :: 0 <= i < |vs| ==> Typed(t.fields[i].ty, vs[i], bs) && Typed(t.fields[i].ty, ws[i], bs)
    requires Gives(DecFields(mem, bs, t, p, ws, k), vs[..k], p + FieldsMoved(t, bs, k),
                  ReadableFields(mem, bs, t, vs, p, k))
    ensures Gives(DecFields(mem, bs, t, p, ws, k + 1), vs[..k + 1], p + FieldsMoved(t, bs, k + 1),
                  ReadableFields(mem, bs, t, vs, p, k + 1))
  {
    hide Dec, Readable, Typed, Moved, Sum, Sizes, FieldSizes, PadBefore;
    var pre := DecFields(mem, bs, t, p, ws, k);
    assert vs[..k + 1][..k] == vs[..k];
    if pre.Some? {
      SnocGives(pre.value, Some(Got(ws[k], pre.value.ptr)), vs[..k + 1], p + FieldsMoved(t, bs, k),
                ReadableFields(mem, bs, t, vs, p, k), true);
    }
  }

  lemma DecodeKept(mem: Mem, bs: nat, t: Ty, vs: seq<Value>, ws: seq<Value>, p: nat, k: nat, at: nat)
    requires t.Struct? && k < |t.fields| == |vs| == |ws| && !t.fields[k].ignore
    requires forall i :: 0 <= i < |vs| ==> Typed(t.fields[i].ty, vs[i], bs) && Typed(t.fields[i].ty, ws[i], bs)
    requires at == p + FieldsMoved(t, bs, k) + PadBefore(t, bs, k)
    requires Gives(DecFields(mem, bs, t, p, ws, k), vs[..k], p + FieldsMoved(t, bs, k),
                  ReadableFields(mem, bs, t, vs, p, k))
    requires Gives(Dec(mem, bs, t.fields[k].ty, at, ws[k]), vs[k], at + Moved(t.fields[k].ty, bs),
                   Readable(mem, bs, t.fields[k].ty, vs[k], at))
    ensures Gives(DecFields(mem, bs, t, p, ws, k + 1), vs[..k + 1], p + FieldsMoved(t, bs, k + 1),
                  ReadableFields(mem, bs, t, vs, p, k + 1))
  {
    hide Dec, Readable, Typed, Moved, Sum, Sizes, FieldSizes, PadBefore;
    var pre, ty := DecFields(mem, bs, t, p, ws, k), t.fields[k].ty;
    assert vs[..k + 1][..k] == vs[..k];
    if pre.Some? {
      SnocGives(pre.value, Dec(mem, bs, ty, at, ws[k]), vs[..k + 1], at + Moved(ty, bs),
                ReadableFields(mem, bs, t, vs, p, k), Readable(mem, bs, ty, vs[k], at));
    }
  }
}

/** Types, host values and the size lists a type is compiled to (package encoding). */
module CodecTypes {
  import opened Bits

  type byte = x: int | 0 <= x < 256

  /** A finite host type.  `Scalar` stands for every fixed-width kind, floats included; `Word` for
      int, uint and uintptr.  A struct field carries its host offset and its "ignore" tag. */
  datatype Ty =
    | Scalar(size: nat)
    | Word
    | Array(elem: Ty, count: nat)
    | Pointer(elem: Ty)
    | Slice(elem: Ty)
    | Str
    | Struct(fields: seq<Field>, hostSize: nat)

  datatype Field = Field(ty: Ty, offset: nat, ignore: bool)

  /** A host value.  What is copied in one piece, a plain array or struct included, is its host image. */
  datatype Value =
    | VBytes(bytes: seq<byte>)
    | VNil
    | VPtr(target: Value)
    | VSeq(elems: seq<Value>)
    | VStr(chars: seq<byte>)

  const HOST_WORD: nat := 8

  predicate BlockSize(bs: nat) { bs == 4 || bs == 8 }

  /** Whether elements or fields of this type need a handler of their own. */
  predicate Custom(t: Ty, bs: nat) {
    match t
    case Scalar(_) => false
    case Word => bs != HOST_WORD
    case _ => true
  }

  function HostSize(t: Ty): nat {
    match t
    case Scalar(n) => n
    case Word => HOST_WORD
    case Array(e, c) => Times(c, HostSize(e))
    case Pointer(_) => HOST_WORD
    case Slice(_) => 3 * HOST_WORD
    case Str => 2 * HOST_WORD
    case Struct(_, n) => n
  }

  function Times(n: nat, m: int): (r: int)
    ensures m >= 0 ==> r >= 0
  {
    if n == 0 then 0 else Times(n - 1, m) + m
  }

  function Sum(s: seq<int>): int {
    if s == [] then 0 else Sum(s[..|s| - 1]) + s[|s| - 1]
  }

  function Max(s: seq<int>): (m: int)
    ensures m >= 0 && (m > 0 ==> m in s) && forall x :: x in s ==> x <= m
  {
    if s == [] then 0
    else
      var m, x := Max(s[..|s| - 1]), s[|s| - 1];
      assert s == s[..|s| - 1] + [x];
      if x > m then x else m
  }

  function First(s: seq<int>): int {
    if s == [] then 0 else s[0]
  }

  function Repeat(s: seq<int>, n: nat): seq<int> {
    if n == 0 then [] else Repeat(s, n - 1) + s
  }

  /** A struct whose fields are all copied verbatim goes out as one host image. */
  predicate Raw(fields: seq<Field>, bs: nat) {
    forall f :: f in fields ==> !f.ignore && !Custom(f.ty, bs)
  }

  /** Sizes of the chunks between consecutive field offsets of a raw struct, the last one left out. */
  function RawChunks(fields: seq<Field>): seq<int> {
    if fields == [] then []
    else
      var n := |fields| - 1;
      var s := fields[n].offset - (if n == 0 then 0 else fields[n - 1].offset);
      RawChunks(fields[..n]) + (if s != 0 then [s] else [])
  }

  function LastOffset(fields: seq<Field>): nat {
    if fields == [] then 0 else fields[|fields| - 1].offset
  }

  /** Padding in front of a field whose size list starts with `first`, at declared offset `off`. */
  function FieldPad(off: int, first: int): int {
    if off < 0 || first < 0 then 0 else Align(off, first) - off
  }

  function PadEntry(pad: int): seq<int> {
    if pad == 0 then [] else [pad]
  }

  /** The size list of a type. */
  function Sizes(t: Ty, bs: nat): seq<int>
    decreases t, 1
  {
    match t
    case Scalar(n) => [n]
    case Word => [bs]
    case Array(e, c) => if Custom(e, bs) then Repeat(Sizes(e, bs), c) else Repeat([HostSize(e)], c)
    case Pointer(_) => [bs]
    case Slice(_) => [bs]
    case Str => [bs, bs]
    case Struct(fs, n) =>
      if Raw(fs, bs) then RawChunks(fs) + [n - LastOffset(fs)]
      else FieldSizes(t, bs, |fs|) + TailEntry(FieldSizes(t, bs, |fs|))
  }

  /** The size list of the first `k` fields of a custom struct, laid out one after the other. */
  function FieldSizes(t: Ty, bs: nat, k: nat): seq<int>
    requires t.Struct? && k <= |t.fields|
    decreases t, 0, k
  {
    if k == 0 then []
    else
      var pre, f := FieldSizes(t, bs, k - 1), t.fields[k - 1];
      if f.ignore then pre
      else pre + PadEntry(FieldPad(Sum(pre), First(Sizes(f.ty, bs)))) + Sizes(f.ty, bs)
  }

  function TailPad(sizes: seq<int>): int {
    FieldPad(Sum(sizes), Max(sizes))
  }

  function TailEntry(sizes: seq<int>): seq<int> {
    if TailPad(sizes) > 0 then [TailPad(sizes)] else []
  }

  function Total(t: Ty, bs: nat): int { Sum(Sizes(t, bs)) }

  /** How far a handler really moves its stream: a string uses one of the two words it declares. */
  function Moved(t: Ty, bs: nat): int
    decreases t, 1
  {
    match t
    case Str => bs
    case Array(e, c) => if Custom(e, bs) then Times(c, Moved(e, bs)) else Total(t, bs)
    case Struct(fs, _) =>
      if Raw(fs, bs) then Total(t, bs)
      else FieldsMoved(t, bs, |fs|) + Sum(TailEntry(FieldSizes(t, bs, |fs|)))
    case _ => Total(t, bs)
  }

  /** Padding in front of field `k` of a custom struct. */
  function PadBefore(t: Ty, bs: nat, k: nat): int
    requires t.Struct? && k < |t.fields|
  {
    FieldPad(Sum(FieldSizes(t, bs, k)), First(Sizes(t.fields[k].ty, bs)))
  }

  /** How far the first `k` fields of a custom struct move the stream. */
  function FieldsMoved(t: Ty, bs: nat, k: nat): int
    requires t.Struct? && k <= |t.fields|
    decreases t, 0, k
  {
    if k == 0 then 0
    else
      var pre, f := FieldsMoved(t, bs, k - 1), t.fields[k - 1];
      if f.ignore then pre else pre + PadBefore(t, bs, k - 1) + Moved(f.ty, bs)
  }

  // ----- well-formed types and values

  /** No zero-size member, offsets as a compiler lays them out, and array and slice elements whose
      encoded size is their host size, so that stepping through host memory by it is right. */
  predicate Wf(t: Ty, bs: nat)
    decreases t
  {
    match t
    case Scalar(n) => n > 0
    case Word => true
    case Array(e, c) => c > 0 && Wf(e, bs) && (Custom(e, bs) ==> Total(e, bs) == HostSize(e))
    case Pointer(e) => Wf(e, bs)
    case Slice(e) => Wf(e, bs) && (Custom(e, bs) ==> Total(e, bs) == HostSize(e))
    case Str => true
    case Struct(fs, n) =>
      && (forall f :: f in fs ==> Wf(f.ty, bs))
      && (exists f :: f in fs && !f.ignore)
      && fs[0].offset == 0
      && (forall i, j :: 0 <= i < j < |fs| ==> fs[i].offset < fs[j].offset)
      && LastOffset(fs) < n
  }

  predicate Typed(t: Ty, v: Value, bs: nat)
    decreases t
  {
    match t
    case Scalar(n) => v.VBytes? && |v.bytes| == n
    case Word => v.VBytes? && |v.bytes| == HOST_WORD
    case Array(e, c) =>
      if Custom(e, bs) then v.VSeq? && |v.elems| == c && forall x :: x in v.elems ==> Typed(e, x, bs)
      else v.VBytes? && |v.bytes| == Times(c, HostSize(e))
    case Pointer(e) => v.VNil? || (v.VPtr? && Typed(e, v.target, bs))
    case Slice(e) =>
      if Custom(e, bs) then v.VSeq? && forall x :: x in v.elems ==> Typed(e, x, bs)
      else v.VBytes?
    case Str => v.VStr?
    case Struct(fs, n) =>
      if Raw(fs, bs) then v.VBytes? && |v.bytes| == n
      else v.VSeq? && |v.elems| == |fs| && forall i :: 0 <= i < |fs| ==> Typed(fs[i].ty, v.elems[i], bs)
  }

  /** The zero value a decoder allocates behind a nil pointer. */
  function Zero(t: Ty, bs: nat): Value
    decreases t
  {
    match t
    case Scalar(n) => VBytes(Zeros(n))
    case Word => VBytes(Zeros(HOST_WORD))
    case Array(e, c) => if Custom(e, bs) then VSeq(seq(c, _ => Zero(e, bs))) else VBytes(Zeros(Times(c, HostSize(e))))
    case Pointer(_) => VNil
    case Slice(e) => if Custom(e, bs) then VSeq([]) else VBytes([])
    case Str => VStr([])
    case Struct(fs, n) =>
      if Raw(fs, bs) then VBytes(Zeros(n))
      else VSeq(seq(|fs|, i requires 0 <= i < |fs| => Zero(fs[i].ty, bs)))
  }

  function Zeros(n: int): seq<byte> {
    if n <= 0 then [] else Zeros(n - 1) + [0]
  }
}

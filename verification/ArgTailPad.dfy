/** A struct that does not come back when it is passed as an argument: the padding at the end of a struct is to
    its largest size entry (encoding/encode_struct.go), here 12. */
module ArgTailPad {
  import Bits
  import opened Wrappers
  import opened CodecTypes
  import opened CodecMemory
  import opened RegStreamSpec
  import opened ArgScripts
  import opened ArgCodec

  /** `struct { uint32; complex64; uint64 }` */
  function Inner(): Ty {
    Struct([Field(Scalar(4), 0, false), Field(Scalar(8), 4, false), Field(Scalar(8), 16, false)], 24)
  }

  /** `struct { Inner; [1]uint8 }` */
  function Outer(): Ty {
    Struct([Field(Inner(), 0, false), Field(Array(Scalar(1), 1), 24, false)], 32)
  }

  /** `struct { Outer; uint32 }` */
  function Tailed(): Ty {
    Struct([Field(Outer(), 0, false), Field(Scalar(4), 32, false)], 40)
  }

  function InnerOuter(n: seq<byte>, b: seq<byte>): Value {
    VSeq([VBytes(n), VBytes(b)])
  }

  function TailedValue(n: seq<byte>, b: seq<byte>, x: seq<byte>): Value {
    VSeq([InnerOuter(n, b), VBytes(x)])
  }

  lemma InnerSizes()
    ensures Raw(Inner().fields, HOST_WORD) && Sizes(Inner(), HOST_WORD) == [4, 12, 8]
  {
    var fs := Inner().fields;
    assert fs[..3] == fs && fs[..2][..1] == fs[..1] && fs[..1][..0] == [];
    assert RawChunks(fs[..1]) == [];
    assert RawChunks(fs[..2]) == [4];
    assert RawChunks(fs) == [4, 12];
  }

  lemma Alignments()
    ensures Bits.Align(0, 4) == 0 && Bits.Align(24, 1) == 24 && Bits.Align(36, 4) == 36
    ensures Bits.Align(25, 12) == 36 && Bits.Align(40, 12) == 48
  {
    Bits.KeepAll(24);
    Bits.KeepAll(9);
    Bits.KeepAll(2);
    assert Bits.AndNot(1, 1) == 0;
    assert Bits.AndNot(19, 1) == 18;
    assert Bits.AndNot(39, 3) == 36;
    assert Bits.AndNot(4, 1) == 4;
    assert Bits.AndNot(9, 2) == 9;
    assert Bits.AndNot(18, 5) == 18;
    assert Bits.AndNot(36, 11) == 36;
    Bits.KeepAll(3);
    assert Bits.AndNot(6, 1) == 6;
    assert Bits.AndNot(12, 2) == 12;
    assert Bits.AndNot(25, 5) == 24;
    assert Bits.AndNot(51, 11) == 48;
  }

  lemma SumMaxNext(s: seq<int>, x: int)
    ensures Sum(s + [x]) == Sum(s) + x && Max(s + [x]) == if x > Max(s) then x else Max(s)
  {
    assert (s + [x])[..|s|] == s;
  }

  lemma SumsUp()
    ensures Sum([]) == 0 && Sum([4, 12, 8]) == 24
    ensures Sum([4, 12, 8, 1]) == 25 && Max([4, 12, 8, 1]) == 12
    ensures Sum([4, 12, 8, 1, 11]) == 36
    ensures Sum([4, 12, 8, 1, 11, 4]) == 40 && Max([4, 12, 8, 1, 11, 4]) == 12
  {
    hide Sum, Max;
    SumMaxNone();
    SumMaxNext([], 4);
    SumMaxNext([4], 12);
    SumMaxNext([4, 12], 8);
    SumMaxNext([4, 12, 8], 1);
    SumMaxNext([4, 12, 8, 1], 11);
    SumMaxNext([4, 12, 8, 1, 11], 4);
    assert [] + [4] == [4] && [4] + [12] == [4, 12] && [4, 12] + [8] == [4, 12, 8];
    assert [4, 12, 8] + [1] == [4, 12, 8, 1] && [4, 12, 8, 1] + [11] == [4, 12, 8, 1, 11];
    assert [4, 12, 8, 1, 11] + [4] == [4, 12, 8, 1, 11, 4];
  }

  lemma SumMaxNone()
    ensures Sum([]) == 0 && Max([]) == 0
  {
  }

  /** The sizes of Inner and the array, padded to the largest of them, which is 12. */
  lemma OuterSizes()
    ensures !Raw(Outer().fields, HOST_WORD) && PadBefore(Outer(), HOST_WORD, 0) == 0 == PadBefore(Outer(), HOST_WORD, 1)
    ensures TailPad(FieldSizes(Outer(), HOST_WORD, 2)) == 11
    ensures Sizes(Outer(), HOST_WORD) == [4, 12, 8, 1, 11]
  {
    var t := Outer();
    InnerSizes();
    Alignments();
    SumsUp();
    hide Sum, Max, Bits.Align;
    assert t.fields[0] in t.fields && Custom(t.fields[0].ty, HOST_WORD);
    FieldStep(t, 0, [], [4, 12, 8]);
    assert Repeat([1], 0) + [1] == [1] && Repeat([1], 1) == [1];
    FieldStep(t, 1, [4, 12, 8], [1]);
    assert [4, 12, 8] + [1] == [4, 12, 8, 1];
    assert [4, 12, 8, 1] + [11] == [4, 12, 8, 1, 11];
  }

  /** One more field that needs no padding. */
  lemma FieldStep(t: Ty, i: nat, pre: seq<int>, own: seq<int>)
    requires t.Struct? && i < |t.fields| && !t.fields[i].ignore && own != []
    requires (i == 0 && pre == []) || FieldSizes(t, HOST_WORD, i) == pre
    requires Sizes(t.fields[i].ty, HOST_WORD) == own
    requires Sum(pre) >= 0 && own[0] >= 0 && Bits.Align(Sum(pre), own[0]) == Sum(pre)
    ensures PadBefore(t, HOST_WORD, i) == 0 && FieldSizes(t, HOST_WORD, i + 1) == pre + own
  {
    hide Sizes, Sum, Bits.Align;
    assert pre + [] + own == pre + own;
  }

  lemma TailedSizes()
    ensures !Raw(Tailed().fields, HOST_WORD)
    ensures PadBefore(Tailed(), HOST_WORD, 0) == 0 == PadBefore(Tailed(), HOST_WORD, 1)
    ensures TailPad(FieldSizes(Tailed(), HOST_WORD, 2)) == 8
  {
    var t := Tailed();
    OuterSizes();
    Alignments();
    SumsUp();
    hide Sum, Max, Bits.Align;
    assert t.fields[0] in t.fields && Custom(t.fields[0].ty, HOST_WORD);
    FieldStep(t, 0, [], [4, 12, 8, 1, 11]);
    FieldStep(t, 1, [4, 12, 8, 1, 11], [4]);
    assert [4, 12, 8, 1, 11] + [4] == [4, 12, 8, 1, 11, 4];
  }

  /** A struct of two kept fields that needs handlers of its own. */
  predicate TwoFields(t: Ty, a: Ty, b: Ty) {
    && t.Struct? && |t.fields| == 2 && t.fields[0] == Field(a, 0, false)
    && t.fields[1].ty == b && !t.fields[1].ignore && 0 < t.fields[1].offset < t.hostSize
    && !Raw(t.fields, HOST_WORD)
  }

  lemma TwoFieldsOk(t: Ty, a: Ty, b: Ty, v: Value, u: Value)
    requires TwoFields(t, a, b) && Flat(a) && Flat(b) && Typed(a, v, HOST_WORD) && Typed(b, u, HOST_WORD)
    ensures Flat(t) && Typed(t, VSeq([v, u]), HOST_WORD)
    ensures Wf(a, HOST_WORD) && Wf(b, HOST_WORD) ==> Wf(t, HOST_WORD)
  {
    hide Raw;
    assert t.fields == [t.fields[0], t.fields[1]] && t.fields[0] in t.fields;
    hide Custom;
  }

  lemma TwoFieldsScript(t: Ty, a: Ty, b: Ty, v: Value, u: Value)
    requires TwoFields(t, a, b) && Flat(a) && Flat(b) && Typed(a, v, HOST_WORD) && Typed(b, u, HOST_WORD)
    requires PadBefore(t, HOST_WORD, 0) == 0 == PadBefore(t, HOST_WORD, 1)
    ensures Flat(t) && Typed(t, VSeq([v, u]), HOST_WORD)
    ensures Script(t, VSeq([v, u])) ==
      Script(a, v) + (Script(b, u) + PadOp(TailPad(FieldSizes(t, HOST_WORD, 2))))
  {
    TwoFieldsOk(t, a, b, v, u);
    TwoFieldsUnfold(t, v, u);
    Regroup(Script(a, v), Script(b, u), PadOp(TailPad(FieldSizes(t, HOST_WORD, 2))));
    hide Typed, Flat, Script, PadBefore, TailPad, FieldSizes, Raw;
  }

  lemma Regroup(a: seq<Op>, b: seq<Op>, c: seq<Op>)
    ensures PadOp(0) == [] && PadOp(0) + (a + (PadOp(0) + (b + []))) + c == a + (b + c)
  {
  }

  lemma TwoFieldsUnfold(t: Ty, v: Value, u: Value)
    requires t.Struct? && |t.fields| == 2 && Flat(t) && Typed(t, VSeq([v, u]), HOST_WORD) && !Raw(t.fields, HOST_WORD)
    requires forall i :: 0 <= i < 2 ==> !t.fields[i].ignore
    ensures t.fields[0] in t.fields && t.fields[1] in t.fields
    ensures Typed(t.fields[0].ty, v, HOST_WORD) && Typed(t.fields[1].ty, u, HOST_WORD)
    ensures var pad := i requires 0 <= i < 2 => PadOp(PadBefore(t, HOST_WORD, i));
      Script(t, VSeq([v, u])) ==
        pad(0) + (Script(t.fields[0].ty, v) + (pad(1) + (Script(t.fields[1].ty, u) + [])))
        + PadOp(TailPad(FieldSizes(t, HOST_WORD, 2)))
  {
    assert t.fields[0] in t.fields && t.fields[1] in t.fields;
    var vs := [v, u];
    assert Typed(t.fields[0].ty, vs[0], HOST_WORD) && Typed(t.fields[1].ty, vs[1], HOST_WORD);
    FieldUnfold(t, vs, 0);
    FieldUnfold(t, vs, 1);
    assert ScriptFields(t, vs, 2) == [];
    hide Typed, Flat, PadOp, PadBefore, ScriptFields, FieldSizes;
  }

  lemma InnerOk(n: seq<byte>)
    requires |n| == 24
    ensures Wf(Inner(), HOST_WORD) && Flat(Inner()) && Typed(Inner(), VBytes(n), HOST_WORD)
    ensures Script(Inner(), VBytes(n)) == [Data(n)]
  {
    InnerSizes();
    hide Raw, Custom;
    assert Inner().fields[0] in Inner().fields;
  }

  lemma ArrayOk(b: seq<byte>)
    requires |b| == 1
    ensures var t := Array(Scalar(1), 1);
      && Wf(t, HOST_WORD) && Flat(t) && Typed(t, VBytes(b), HOST_WORD) && Script(t, VBytes(b)) == [Data(b)]
  {
    assert Times(1, 1) == Times(0, 1) + 1;
  }

  /** What the handlers do: the skip of 11 ends in the middle of the fifth register. */
  function TailedOps(n: seq<byte>, b: seq<byte>, x: seq<byte>, rest: seq<Op>): seq<Op> {
    [Data(n)] + ([Data(b)] + ([Pad(11)] + ([Data(x)] + ([Pad(8)] + rest))))
  }

  lemma OuterScript(n: seq<byte>, b: seq<byte>)
    requires |n| == 24 && |b| == 1
    ensures Wf(Outer(), HOST_WORD) && Flat(Outer()) && Typed(Outer(), InnerOuter(n, b), HOST_WORD)
    ensures Script(Outer(), InnerOuter(n, b)) == [Data(n)] + ([Data(b)] + [Pad(11)])
  {
    InnerOk(n);
    ArrayOk(b);
    OuterSizes();
    hide Raw, FieldSizes, TailPad, PadBefore, Sizes, Typed, Flat, Wf, Script, Inner;
    var a := Array(Scalar(1), 1);
    TwoFieldsOk(Outer(), Inner(), a, VBytes(n), VBytes(b));
    TwoFieldsScript(Outer(), Inner(), a, VBytes(n), VBytes(b));
  }

  lemma TailedScript(n: seq<byte>, b: seq<byte>, x: seq<byte>)
    requires |n| == 24 && |b| == 1 && |x| == 4
    ensures Wf(Tailed(), HOST_WORD) && Flat(Tailed()) && Typed(Tailed(), TailedValue(n, b, x), HOST_WORD)
    ensures Script(Tailed(), TailedValue(n, b, x)) == TailedOps(n, b, x, [])
  {
    OuterScript(n, b);
    TailedSizes();
    ScalarOk(x);
    hide Raw, FieldSizes, TailPad, PadBefore, Sizes, Typed, Flat, Wf, Script, Outer, InnerOuter, TailedOps;
    TwoFieldsOk(Tailed(), Outer(), Scalar(4), InnerOuter(n, b), VBytes(x));
    TwoFieldsScript(Tailed(), Outer(), Scalar(4), InnerOuter(n, b), VBytes(x));
    TailedAssoc(n, b, x);
  }

  lemma TailedAssoc(n: seq<byte>, b: seq<byte>, x: seq<byte>)
    ensures ([Data(n)] + ([Data(b)] + [Pad(11)])) + ([Data(x)] + [Pad(8)]) == TailedOps(n, b, x, [])
  {
    assert [Pad(8)] + [] == [Pad(8)];
  }

  lemma ScalarOk(x: seq<byte>)
    requires |x| == 4
    ensures Wf(Scalar(4), HOST_WORD) && Flat(Scalar(4)) && Typed(Scalar(4), VBytes(x), HOST_WORD)
    ensures Script(Scalar(4), VBytes(x)) == [Data(x)]
  {
  }

  lemma ReadData(regs: seq<seq<byte>>, mem: Mem, base: nat, p: Pos, value: seq<byte>, b: seq<byte>, rest: seq<Op>)
    requires Shaped(regs, value)
    ensures var x := GetCached(regs, mem, base, p, value, |b|);
      var y := ReadImage(regs, mem, base, Advance(p, |b|), Kept(regs, p, value, |b|), rest);
      x.Some? && y.Some? ==> ReadImage(regs, mem, base, p, value, [Data(b)] + rest) == Some([x.value] + y.value)
  {
    hide Get, GetCached, Kept, Advance;
    assert ([Data(b)] + rest)[1..] == rest;
  }

  lemma ReadPad(regs: seq<seq<byte>>, mem: Mem, base: nat, p: Pos, value: seq<byte>, n: nat, rest: seq<Op>)
    requires Shaped(regs, value)
    ensures ReadImage(regs, mem, base, p, value, [Pad(n)] + rest) == ReadImage(regs, mem, base, p.Skip(n), value, rest)
  {
    hide Get, GetCached, Kept, Advance;
    assert ([Pad(n)] + rest)[1..] == rest;
  }

  lemma WriteFirst(w: Writer, op: Op, rest: seq<Op>)
    requires Shaped(w.regs, w.value)
    ensures WriteOps(w, [op] + rest) == WriteOps(WriteOp(w, op), rest)
  {
    assert ([op] + rest)[1..] == rest;
  }

  /** A whole register at a time. */
  lemma PutWord(w: Writer, b: seq<byte>)
    requires Shaped(w.regs, w.value) && w.pos.InRegs() && w.pos.groff % 8 == 0 && |b| == 8
    ensures Put(w, b) == Writer(w.regs[w.pos.groff / 8 := b], w.stack, Pos(w.pos.groff + 8, w.pos.stoff), b)
  {
    PutChunk(w, b);
    assert Splice(w.value, 0, b) == b;
  }

  /** The registers after Inner has been written. */
  lemma PutInner(w: Writer, n: seq<byte>)
    requires Shaped(w.regs, w.value) && w.pos == Pos(0, 0) && |n| == 24
    ensures Put(w, n) == Writer(w.regs[0 := n[..8]][1 := n[8..16]][2 := n[16..]], w.stack, Pos(24, 0), n[16..])
  {
    hide Put;
    PutConcat(w, n[..8], n[8..16]);
    PutConcat(w, n[..8] + n[8..16], n[16..]);
    assert n[..8] + n[8..16] + n[16..] == n;
    PutWord(w, n[..8]);
    PutWord(Put(w, n[..8]), n[8..16]);
    PutWord(Put(Put(w, n[..8]), n[8..16]), n[16..]);
  }

  /** The registers of the whole value: the fourth has what was kept of the third behind its first byte. */
  lemma WriteTailed(w: Writer, n: seq<byte>, b: seq<byte>, x: seq<byte>)
    requires Shaped(w.regs, w.value) && w.pos == Pos(0, 0) && |n| == 24 && |b| == 1 && |x| == 4
    ensures WriteOps(w, TailedOps(n, b, x, [Align])).regs ==
      w.regs[0 := n[..8]][1 := n[8..16]][2 := n[16..]][3 := b + n[17..]][4 := b + n[17..20] + x]
  {
    hide WriteOps, Put;
    var last := [Op.Align];
    WriteFirst(w, Data(n), [Data(b)] + ([Pad(11)] + ([Data(x)] + ([Pad(8)] + last))));
    PutInner(w, n);
    var w1 := Put(w, n);
    WriteFirst(w1, Data(b), [Pad(11)] + ([Data(x)] + ([Pad(8)] + last)));
    PutChunk(w1, b);
    assert Splice(n[16..], 0, b) == b + n[17..];
    var w2 := Put(w1, b);
    WriteFirst(w2, Pad(11), [Data(x)] + ([Pad(8)] + last));
    var w3 := WriteOp(w2, Pad(11));
    WriteFirst(w3, Data(x), [Pad(8)] + last);
    PutChunk(w3, x);
    assert Splice(b + n[17..], 4, x) == b + n[17..20] + x;
    var w4 := Put(w3, x);
    WriteFirst(w4, Pad(8), last);
    assert last + [] == last;
    WriteFirst(WriteOp(w4, Pad(8)), Align, []);
    WriteNone(WriteOp(WriteOp(w4, Pad(8)), Align));
  }

  lemma WriteNone(w: Writer)
    requires Shaped(w.regs, w.value)
    ensures WriteOps(w, []) == w
  {
  }

  /** Reading three registers. */
  lemma GetInner(regs: seq<seq<byte>>, mem: Mem, base: nat)
    requires Shaped(regs, Fill(8))
    ensures GetCached(regs, mem, base, Pos(0, 0), Fill(8), 24) == Some(regs[0] + regs[1] + regs[2])
    ensures Advance(Pos(0, 0), 24) == Pos(24, 0) && Kept(regs, Pos(0, 0), Fill(8), 24) == regs[2]
  {
    hide Get, Advance;
    AdvanceInRegs(Pos(0, 0), 8);
    AdvanceInRegs(Pos(0, 0), 16);
    AdvanceInRegs(Pos(0, 0), 24);
    GetConcat(regs, mem, base, Pos(0, 0), 8, 8);
    GetConcat(regs, mem, base, Pos(0, 0), 16, 8);
    GetChunk(regs, mem, base, Pos(0, 0), 8);
    GetChunk(regs, mem, base, Pos(8, 0), 8);
    GetChunk(regs, mem, base, Pos(16, 0), 8);
    assert regs[0][0..8] == regs[0] && regs[1][0..8] == regs[1] && regs[2][0..8] == regs[2];
  }

  lemma GetOne(regs: seq<seq<byte>>, mem: Mem, base: nat, value: seq<byte>)
    requires Shaped(regs, value)
    ensures GetCached(regs, mem, base, Pos(24, 0), value, 1) == Some(regs[3][..1])
    ensures Advance(Pos(24, 0), 1) == Pos(25, 0) && Kept(regs, Pos(24, 0), value, 1) == regs[3]
  {
    hide Get, Advance;
    AdvanceInRegs(Pos(24, 0), 1);
    GetChunk(regs, mem, base, Pos(24, 0), 1);
  }

  /** Four bytes from the middle of the fifth register come out of the image that is kept. */
  lemma GetStale(regs: seq<seq<byte>>, mem: Mem, base: nat, value: seq<byte>)
    requires Shaped(regs, value)
    ensures GetCached(regs, mem, base, Pos(36, 0), value, 4) == Some(value[4..8])
    ensures Advance(Pos(36, 0), 4) == Pos(40, 0)
  {
    AdvanceInRegs(Pos(36, 0), 4);
    hide Advance;
    assert Get(regs, mem, base, Advance(Pos(36, 0), 4), 0) == Some([]);
    assert value[4..8] + [] == value[4..8];
  }

  lemma ReadEnd(regs: seq<seq<byte>>, mem: Mem, base: nat, p: Pos, value: seq<byte>)
    requires Shaped(regs, value)
    ensures ReadImage(regs, mem, base, p, value, [Pad(8)] + [Op.Align]) == Some([])
  {
    ReadPad(regs, mem, base, p, value, 8, [Op.Align]);
    assert [Op.Align][1..] == [];
  }

  /** What is read of the whole value: the third piece is the rest of the fourth register. */
  lemma ReadTailed(regs: seq<seq<byte>>, mem: Mem, base: nat, n: seq<byte>, b: seq<byte>, x: seq<byte>)
    requires Shaped(regs, Fill(8)) && |n| == 24 && |b| == 1 && |x| == 4
    ensures ReadImage(regs, mem, base, Pos(0, 0), Fill(8), TailedOps(n, b, x, [Align])) ==
      Some([regs[0] + regs[1] + regs[2], regs[3][..1], regs[3][4..8]])
  {
    hide ReadImage, GetCached, Kept, Advance;
    var end := [Pad(8)] + [Op.Align];
    GetInner(regs, mem, base);
    GetOne(regs, mem, base, regs[2]);
    GetStale(regs, mem, base, regs[3]);
    ReadEnd(regs, mem, base, Pos(40, 0), Kept(regs, Pos(36, 0), regs[3], 4));
    ReadData(regs, mem, base, Pos(36, 0), regs[3], x, end);
    ReadPad(regs, mem, base, Pos(25, 0), regs[3], 11, [Data(x)] + end);
    ReadData(regs, mem, base, Pos(24, 0), regs[2], b, [Pad(11)] + ([Data(x)] + end));
    ReadData(regs, mem, base, Pos(0, 0), Fill(8), n, [Data(b)] + ([Pad(11)] + ([Data(x)] + end)));
    assert [regs[0] + regs[1] + regs[2]] + ([regs[3][..1]] + ([regs[3][4..8]] + []))
        == [regs[0] + regs[1] + regs[2], regs[3][..1], regs[3][4..8]];
  }

  /** A value of this type, passed as the only argument. */
  function TailedArgs(n: seq<byte>, b: seq<byte>, x: seq<byte>): (args: seq<Arg>)
    requires |n| == 24 && |b| == 1 && |x| == 4
    ensures Types(args) == [Tailed()] && forall a :: a in args ==> ArgOk(a)
  {
    TailedScript(n, b, x);
    hide Wf, Typed, Flat, Script, Tailed;
    [Arg(Tailed(), TailedValue(n, b, x))]
  }

  lemma TailedArgOps(n: seq<byte>, b: seq<byte>, x: seq<byte>)
    requires |n| == 24 && |b| == 1 && |x| == 4
    ensures ArgOps(Scripts(TailedArgs(n, b, x))) == TailedOps(n, b, x, [Align])
  {
    TailedScript(n, b, x);
    hide Wf, Typed, Flat, Script, Tailed;
    var args := TailedArgs(n, b, x);
    assert Scripts(args)[1..] == [];
    assert Scripts(args)[0] == TailedOps(n, b, x, []);
    assert ArgOps(Scripts(args)) == TailedOps(n, b, x, []) + ([Op.Align] + []);
    TailedThen(n, b, x);
  }

  lemma TailedThen(n: seq<byte>, b: seq<byte>, x: seq<byte>)
    ensures TailedOps(n, b, x, []) + ([Op.Align] + []) == TailedOps(n, b, x, [Align])
  {
  }

  /** The skip of 11 leaves the fourth register loaded, not the fifth. */
  lemma TailedBad(n: seq<byte>, b: seq<byte>, x: seq<byte>, rest: seq<Op>)
    requires |n| == 24 && |b| == 1 && |x| == 4
    ensures !GoodOps(Pos(0, 0), true, TailedOps(n, b, x, rest))
  {
    hide GoodOps;
    var last := [Data(x)] + ([Pad(8)] + rest);
    AdvanceInRegs(Pos(0, 0), 24);
    AdvanceInRegs(Pos(24, 0), 1);
    GoodFirst(Pos(0, 0), true, Data(n), [Data(b)] + ([Pad(11)] + last));
    GoodFirst(Pos(24, 0), true, Data(b), [Pad(11)] + last);
    GoodFirst(Pos(25, 0), true, Pad(11), last);
    GoodFirst(Pos(36, 0), false, Data(x), [Pad(8)] + rest);
  }

  lemma GoodFirst(p: Pos, loaded: bool, op: Op, rest: seq<Op>)
    ensures GoodOps(p, loaded, [op] + rest) <==>
      (op.Data? && Inside(p) ==> loaded) && GoodOps(Move(p, op), NowLoaded(p, loaded, op), rest)
  {
    assert ([op] + rest)[1..] == rest;
  }

  lemma TailedData(n: seq<byte>, b: seq<byte>, x: seq<byte>)
    ensures DataOf(TailedOps(n, b, x, [Align])) == [n, b, x]
  {
    hide DataOf;
    var end := [Pad(8)] + [Op.Align];
    DataFirst(Data(n), [Data(b)] + ([Pad(11)] + ([Data(x)] + end)));
    DataFirst(Data(b), [Pad(11)] + ([Data(x)] + end));
    DataFirst(Pad(11), [Data(x)] + end);
    DataFirst(Data(x), end);
    DataFirst(Pad(8), [Op.Align]);
    assert [Op.Align] + [] == [Op.Align];
    DataFirst(Align, []);
    DataNone();
  }

  lemma DataFirst(op: Op, rest: seq<Op>)
    ensures DataOf([op] + rest) == (if op.Data? then [op.bytes] else []) + DataOf(rest)
  {
    assert ([op] + rest)[1..] == rest;
  }

  lemma DataNone()
    ensures DataOf([]) == []
  {
  }

  /** Its last field comes back as bytes 20 to 23 of the inner struct, whatever it was and whatever is in
      registers and stack. */
  lemma TailPadLost(regs: seq<seq<byte>>, n: seq<byte>, b: seq<byte>, x: seq<byte>)
    requires Shaped(regs, Fill(8)) && |n| == 24 && |b| == 1 && |x| == 4
    ensures (forall t :: t in [Tailed()] ==> Wf(t, HOST_WORD) && Flat(t)) && !GoodArgs([Tailed()])
    ensures var (w, ops) := (Writer(regs, [], Pos(0, 0), Fill(8)), ArgOps(Scripts(TailedArgs(n, b, x))));
      && DataOf(ops) == [n, b, x]
      && forall mem: Mem, base: nat ::
           ReadImage(WriteOps(w, ops).regs, mem, base, Pos(0, 0), Fill(8), ops) == Some([n, b, n[20..24]])
  {
    hide ArgOk, Script, Tailed, TailedArgs, GoodOps, ReadImage, WriteOps, TailedOps, DataOf, ArgOps, GoodArgs;
    var args, w, ops := TailedArgs(n, b, x), Writer(regs, [], Pos(0, 0), Fill(8)), TailedOps(n, b, x, [Align]);
    AllOkAre(args);
    GoodByTypes(args);
    TailedArgOps(n, b, x);
    TailedBad(n, b, x, [Align]);
    TailedData(n, b, x);
    WriteTailed(w, n, b, x);
    var end := WriteOps(w, ops).regs;
    assert end[0] + end[1] + end[2] == n && end[3][..1] == b && end[3][4..8] == n[20..24];
    forall mem: Mem, base: nat
      ensures ReadImage(end, mem, base, Pos(0, 0), Fill(8), ops) == Some([n, b, n[20..24]])
    {
      ReadTailed(end, mem, base, n, b, x);
    }
  }

  lemma AllOkAre(args: seq<Arg>)
    requires forall a :: a in args ==> ArgOk(a)
    ensures AllOk(args)
  {
  }
}

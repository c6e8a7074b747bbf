/** When an argument script comes back: the exact condition, on its shape alone
    (internal/debugger/arm64/stream.go). */
module RegStreamExact {
  import Bits
  import opened Wrappers
  import opened CodecTypes
  import opened CodecMemory
  import opened RegStreamSpec

  // ----- scripts of the same shape

  /** The same operation, but for the bytes it writes. */
  predicate SameOp(a: Op, b: Op) {
    if a.Data? && b.Data? then |a.bytes| == |b.bytes| else a == b
  }

  predicate SameShape(a: seq<Op>, b: seq<Op>) {
    |a| == |b| && forall i :: 0 <= i < |a| ==> SameOp(a[i], b[i])
  }

  lemma ShapeConcat(a: seq<Op>, a': seq<Op>, b: seq<Op>, b': seq<Op>)
    requires SameShape(a, a') && SameShape(b, b')
    ensures SameShape(a + b, a' + b')
  {
    hide SameOp;
  }

  lemma Assoc<T>(a: seq<T>, b: seq<T>, c: seq<T>)
    ensures (a + b) + c == a + (b + c)
  {
  }

  lemma {:induction false} GoodShape(p: Pos, loaded: bool, a: seq<Op>, b: seq<Op>)
    requires SameShape(a, b)
    ensures GoodOps(p, loaded, a) <==> GoodOps(p, loaded, b)
    decreases |a|
  {
    hide SameReg, Inside, Advance, Bits.Align;
    if a != [] {
      assert SameOp(a[0], b[0]);
      assert forall i :: 0 <= i < |a[1..]| ==> SameOp(a[1..][i], b[1..][i]) by {
        assert forall i :: 0 <= i < |a[1..]| ==> a[1..][i] == a[i + 1] && b[1..][i] == b[i + 1];
      }
      GoodShape(Move(p, a[0]), NowLoaded(p, loaded, a[0]), a[1..], b[1..]);
    }
  }

  lemma {:induction false} ReadShape(
    regs: seq<seq<byte>>, mem: Mem, base: nat, p: Pos, value: seq<byte>, a: seq<Op>, b: seq<Op>)
    requires Shaped(regs, value) && SameShape(a, b)
    ensures ReadImage(regs, mem, base, p, value, a) == ReadImage(regs, mem, base, p, value, b)
    decreases |a|
  {
    hide GetCached, Kept, Advance, Bits.Align;
    if a != [] {
      assert SameOp(a[0], b[0]);
      assert forall i :: 0 <= i < |a[1..]| ==> SameOp(a[1..][i], b[1..][i]) by {
        assert forall i :: 0 <= i < |a[1..]| ==> a[1..][i] == a[i + 1] && b[1..][i] == b[i + 1];
      }
      ReadShape(regs, mem, base, Move(p, a[0]), KeptAfter(regs, p, value, a[0]), a[1..], b[1..]);
    }
  }

  lemma {:induction false} DataConcat(a: seq<Op>, b: seq<Op>)
    ensures DataOf(a + b) == DataOf(a) + DataOf(b)
    decreases |a|
  {
    if a == [] {
      assert [] + b == b && [] + DataOf(b) == DataOf(b);
    } else {
      assert (a + b)[1..] == a[1..] + b;
      DataConcat(a[1..], b);
      var h := if a[0].Data? then [a[0].bytes] else [];
      assert h + (DataOf(a[1..]) + DataOf(b)) == (h + DataOf(a[1..])) + DataOf(b);
    }
  }

  lemma {:induction false} DataShape(a: seq<Op>, b: seq<Op>)
    requires SameShape(a, b)
    ensures |DataOf(a)| == |DataOf(b)|
    decreases |a|
  {
    if a != [] {
      assert SameOp(a[0], b[0]);
      assert forall i :: 0 <= i < |a[1..]| ==> SameOp(a[1..][i], b[1..][i]) by {
        assert forall i :: 0 <= i < |a[1..]| ==> a[1..][i] == a[i + 1] && b[1..][i] == b[i + 1];
      }
      DataShape(a[1..], b[1..]);
    }
  }

  lemma SplitAt(a: seq<seq<byte>>, b: seq<seq<byte>>, a': seq<seq<byte>>, b': seq<seq<byte>>)
    requires a + b == a' + b' && |a| == |a'|
    ensures a == a' && b == b'
  {
    assert a == (a + b)[..|a|] && b == (a + b)[|a|..];
    assert a' == (a' + b')[..|a|] && b' == (a' + b')[|a|..];
  }

  // ----- the register whose image is kept

  /** The image of register `c`, or the first image for 8. */
  function Image(regs: seq<seq<byte>>, first: seq<byte>, c: nat): (v: seq<byte>)
    requires Shaped(regs, first)
    ensures |v| == 8
  {
    if c < 8 then regs[c] else first
  }

  /** None that is still ahead is kept, and inside a register its own exactly if it is loaded. */
  predicate KeepsImage(p: Pos, c: nat, loaded: bool) {
    && (c < 8 ==> 8 * c < p.groff)
    && (Inside(p) ==> (loaded <==> c == p.groff / 8))
  }

  /** The number of the register whose image is kept after one more operation. */
  function NextKept(p: Pos, c: nat, op: Op): nat {
    if op.Data? && op.bytes != [] && p.InRegs() then
      if p.groff + |op.bytes| > REG_BYTES then 7 else (p.groff + |op.bytes| - 1) / 8
    else c
  }

  function KeptNumber(p: Pos, c: nat, ops: seq<Op>): nat
    decreases |ops|
  {
    if ops == [] then c else KeptNumber(Move(p, ops[0]), NextKept(p, c, ops[0]), ops[1..])
  }

  lemma NextImage(regs: seq<seq<byte>>, first: seq<byte>, p: Pos, c: nat, loaded: bool, op: Op)
    requires Shaped(regs, first) && KeepsImage(p, c, loaded)
    requires op.Data? ==> op.bytes != [] && (Inside(p) ==> loaded)
    ensures KeptAfter(regs, p, Image(regs, first, c), op) == Image(regs, first, NextKept(p, c, op))
    ensures KeepsImage(Move(p, op), NextKept(p, c, op), NowLoaded(p, loaded, op))
  {
    match op
    case Data(b) => AdvanceInRegs(p, |b|);
    case Pad(n) =>
    case Align => AlignsTo8(p.groff);
  }

  predicate NoEmpty(ops: seq<Op>) {
    forall op :: op in ops && op.Data? ==> op.bytes != []
  }

  /** What a good script keeps is the image of one register behind the position, whatever the others hold. */
  lemma {:induction false} KeptIs(regs: seq<seq<byte>>, first: seq<byte>, p: Pos, c: nat, loaded: bool, ops: seq<Op>)
    requires Shaped(regs, first) && KeepsImage(p, c, loaded) && NoEmpty(ops) && GoodOps(p, loaded, ops)
    ensures KeptAll(regs, p, Image(regs, first, c), ops) == Image(regs, first, KeptNumber(p, c, ops))
    ensures KeepsImage(MoveAll(p, ops), KeptNumber(p, c, ops), LoadedAfter(p, loaded, ops))
    decreases |ops|
  {
    hide KeptAfter, Image, NextKept, KeepsImage, SameReg, Inside, Advance, Bits.Align;
    if ops != [] {
      assert ops[0] in ops && forall op :: op in ops[1..] ==> op in ops;
      NextImage(regs, first, p, c, loaded, ops[0]);
      KeptIs(regs, first, Move(p, ops[0]), NextKept(p, c, ops[0]), NowLoaded(p, loaded, ops[0]), ops[1..]);
    }
  }

  // ----- registers behind the position are not written

  ghost predicate SameBelow(g: nat, regs: seq<seq<byte>>, regs': seq<seq<byte>>)
    requires |regs| == |regs'| == 8
  {
    forall i :: 0 <= i < 8 && 8 * i + 8 <= g ==> regs'[i] == regs[i]
  }

  lemma {:induction false} PutBelow(w: Writer, b: seq<byte>)
    requires Shaped(w.regs, w.value)
    ensures Put(w, b).pos == Advance(w.pos, |b|) && SameBelow(w.pos.groff, w.regs, Put(w, b).regs)
    decreases |b|
  {
    if b != [] {
      PutBelow(w, b[..|b| - 1]);
      AdvanceInRegs(w.pos, |b| - 1);
    }
  }

  lemma WriteOpBelow(w: Writer, op: Op)
    requires Shaped(w.regs, w.value)
    ensures WriteOp(w, op).pos == Move(w.pos, op) && SameBelow(w.pos.groff, w.regs, WriteOp(w, op).regs)
    ensures Move(w.pos, op).groff >= w.pos.groff
  {
    match op
    case Data(b) =>
      AdvanceInRegs(w.pos, |b|);
      PutBelow(w, b);
    case Pad(n) =>
    case Align => AlignsTo8(w.pos.groff);
  }

  lemma {:induction false} WriteOpsBelow(w: Writer, ops: seq<Op>)
    requires Shaped(w.regs, w.value)
    ensures WriteOps(w, ops).pos == MoveAll(w.pos, ops) && SameBelow(w.pos.groff, w.regs, WriteOps(w, ops).regs)
    decreases |ops|
  {
    hide WriteOp, Move;
    if ops != [] {
      WriteOpBelow(w, ops[0]);
      WriteOpsBelow(WriteOp(w, ops[0]), ops[1..]);
    }
  }

  // ----- a bad script does not come back

  /** The first data to be read inside a register that is not loaded. */
  lemma {:induction false} FirstBad(p: Pos, loaded: bool, ops: seq<Op>) returns (i: nat)
    requires !GoodOps(p, loaded, ops)
    ensures i < |ops| && ops[i].Data? && GoodOps(p, loaded, ops[..i])
    ensures Inside(MoveAll(p, ops[..i])) && !LoadedAfter(p, loaded, ops[..i])
    decreases |ops|
  {
    hide SameReg, Inside, Advance, Bits.Align;
    if ops[0].Data? && Inside(p) && !loaded {
      assert ops[..0] == [];
      return 0;
    }
    i := FirstBad(Move(p, ops[0]), NowLoaded(p, loaded, ops[0]), ops[1..]);
    assert ops[..i + 1][1..] == ops[1..][..i] && ops[..i + 1][0] == ops[0];
    return i + 1;
  }

  lemma {:induction false} ReadLength(
    regs: seq<seq<byte>>, mem: Mem, base: nat, p: Pos, value: seq<byte>, ops: seq<Op>)
    requires Shaped(regs, value)
    ensures var r := ReadImage(regs, mem, base, p, value, ops); r.Some? ==> |r.value| == |DataOf(ops)|
    decreases |ops|
  {
    hide GetCached, Kept, Move;
    if ops != [] {
      ReadLength(regs, mem, base, Move(p, ops[0]), KeptAfter(regs, p, value, ops[0]), ops[1..]);
    }
  }

  /** The first byte read inside a register is that of the kept image. */
  lemma ReadsImage(
    regs: seq<seq<byte>>, mem: Mem, base: nat, p: Pos, value: seq<byte>, b: seq<byte>, rest: seq<Op>)
    requires Shaped(regs, value) && Inside(p) && b != [] && b[0] != value[p.groff % 8]
    ensures ReadImage(regs, mem, base, p, value, [Data(b)] + rest) != Some([b] + DataOf(rest))
  {
    hide Get, Kept, Advance;
    assert ([Data(b)] + rest)[1..] == rest;
    var r := ReadImage(regs, mem, base, p, value, [Data(b)] + rest);
    if r.Some? {
      var x := GetCached(regs, mem, base, p, value, |b|);
      assert r.value[0] == x.value && x.value[0] == value[p.groff % 8];
      assert ([b] + DataOf(rest))[0] == b;
    }
  }

  /** A script that is not good can be given data, as many bytes at the same places, that do not come back
      from the registers it leaves. */
  lemma BadScriptLost(w: Writer, ops: seq<Op>) returns (ops': seq<Op>)
    requires Shaped(w.regs, w.value) && w.pos == Pos(0, 0) && NoEmpty(ops) && !GoodOps(w.pos, true, ops)
    ensures SameShape(ops, ops')
    ensures forall mem: Mem, base: nat ::
      ReadImage(WriteOps(w, ops').regs, mem, base, w.pos, w.value, ops') != Some(DataOf(ops'))
  {
    hide GoodOps, WriteOps, MoveAll, ReadImage, KeptAll, DataOf, LoadedAfter, KeptNumber;
    var i := FirstBad(w.pos, true, ops);
    var a, rest := ops[..i], ops[i + 1..];
    var wa, p, c := WriteOps(w, a), MoveAll(w.pos, a), KeptNumber(w.pos, 8, a);
    var image := Image(wa.regs, w.value, c);
    var x: byte := if image[p.groff % 8] == 0 then 1 else 0;
    assert ops[i] in ops && forall op :: op in a ==> op in ops;
    var b: seq<byte> := seq(|ops[i].bytes|, _ => x);
    ops' := a + ([Data(b)] + rest);
    var end := WriteOps(w, ops');
    WriteOpsConcat(w, a, [Data(b)] + rest);
    WriteOpsBelow(w, a);
    WriteOpsBelow(wa, [Data(b)] + rest);
    KeptIs(end.regs, w.value, w.pos, 8, true, a);
    assert Image(end.regs, w.value, c) == image;
    forall mem: Mem, base: nat
      ensures ReadImage(end.regs, mem, base, w.pos, w.value, ops') != Some(DataOf(ops'))
    {
      ReadsImage(end.regs, mem, base, p, image, b, rest);
      NotBack(end.regs, mem, base, w.pos, w.value, a, b, rest);
    }
  }

  lemma NotBack(
    regs: seq<seq<byte>>, mem: Mem, base: nat, p: Pos, value: seq<byte>, a: seq<Op>, b: seq<byte>, rest: seq<Op>)
    requires Shaped(regs, value)
    requires ReadImage(regs, mem, base, MoveAll(p, a), KeptAll(regs, p, value, a), [Data(b)] + rest)
          != Some([b] + DataOf(rest))
    ensures ReadImage(regs, mem, base, p, value, a + ([Data(b)] + rest)) != Some(DataOf(a + ([Data(b)] + rest)))
  {
    hide ReadImage, KeptAll, MoveAll;
    var tail := [Data(b)] + rest;
    assert tail[1..] == rest;
    ReadImageConcat(regs, mem, base, p, value, a, tail);
    ReadLength(regs, mem, base, p, value, a);
    DataConcat(a, tail);
    hide DataOf;
    var r := ReadImage(regs, mem, base, p, value, a);
    var s := ReadImage(regs, mem, base, MoveAll(p, a), KeptAll(regs, p, value, a), tail);
    if r.Some? && s.Some? && r.value + s.value == DataOf(a) + DataOf(tail) {
      SplitAt(r.value, s.value, DataOf(a), DataOf(tail));
    }
  }

  /** What a script writes is what it reads, once its stack image is in place. */
  ghost predicate ComesBack(w: Writer, ops: seq<Op>)
    requires Shaped(w.regs, w.value)
  {
    forall mem: Mem, base: nat :: Holds(mem, base, WriteOps(w, ops).stack) ==>
      ReadImage(WriteOps(w, ops).regs, mem, base, w.pos, w.value, ops) == Some(DataOf(ops))
  }

  /** The condition is exact: a script comes back with any data, in any registers, if and only if no data in
      it follow a skip into a register that is not loaded. */
  lemma ScriptIsExact(w: Writer, ops: seq<Op>)
    requires Shaped(w.regs, w.value) && w.pos == Pos(0, 0) && NoEmpty(ops)
    ensures (forall ops' :: SameShape(ops, ops') ==> ComesBack(w, ops')) <==> GoodOps(Pos(0, 0), true, ops)
  {
    hide GoodOps, WriteOps, ReadImage, ReadOps, DataOf, SameShape;
    if GoodOps(Pos(0, 0), true, ops) {
      forall ops' | SameShape(ops, ops') ensures ComesBack(w, ops') {
        GoodShape(w.pos, true, ops, ops');
        GoodComesBack(w, ops');
      }
    } else {
      var bad := BadScriptLost(w, ops);
      LostNotBack(w, bad);
    }
  }

  lemma LostNotBack(w: Writer, ops: seq<Op>)
    requires Shaped(w.regs, w.value)
    requires forall mem: Mem, base: nat ::
      ReadImage(WriteOps(w, ops).regs, mem, base, w.pos, w.value, ops) != Some(DataOf(ops))
    ensures !ComesBack(w, ops)
  {
    hide WriteOps, ReadImage, DataOf;
    var stack := WriteOps(w, ops).stack;
    var mem: Mem := map x | 0 <= x < |stack| :: stack[x];
    assert Holds(mem, 0, stack);
  }

  lemma GoodComesBack(w: Writer, ops: seq<Op>)
    requires Shaped(w.regs, w.value) && w.pos == Pos(0, 0) && GoodOps(w.pos, true, ops)
    ensures ComesBack(w, ops)
  {
    hide GoodOps, WriteOps, ReadImage, ReadOps, DataOf;
    forall mem: Mem, base: nat | Holds(mem, base, WriteOps(w, ops).stack)
      ensures ReadImage(WriteOps(w, ops).regs, mem, base, w.pos, w.value, ops) == Some(DataOf(ops))
    {
      ScriptRoundTrip(w, true, ops, mem, base);
      GoodReadIsFlat(WriteOps(w, ops).regs, mem, base, w.pos, w.value, true, ops);
    }
  }
}

/** Eight 64-bit argument registers followed by a stack, as one stream of bytes: the simple form, one
    byte at a time (internal/debugger/arm64/stream.go). */
module RegStreamSpec {
  import opened Bits
  import opened Ranges
  import opened Wrappers
  import opened CodecTypes
  import opened CodecMemory

  const REG_BYTES: nat := 64  // eight registers of eight bytes

  /** Register bytes and stack bytes consumed so far. */
  datatype Pos = Pos(groff: nat, stoff: nat) {
    predicate InRegs() { groff < REG_BYTES }
    function Next(): Pos { if InRegs() then Pos(groff + 1, stoff) else Pos(groff, stoff + 1) }
    function Skip(n: nat): Pos { if InRegs() then Pos(groff + n, stoff) else Pos(groff, stoff + n) }
    function Align(): Pos { Pos(Bits.Align(groff, 8), Bits.Align(stoff, 4)) }

    /** The byte at this position lies before position `q` is reached. */
    predicate Before(q: Pos) {
      if InRegs() then groff < q.groff else !q.InRegs() && stoff < q.stoff
    }
  }

  /** A stream being written: the registers, the growing stack image, the position and the register
      image kept from the last register access. */
  datatype Writer = Writer(regs: seq<seq<byte>>, stack: seq<byte>, pos: Pos, value: seq<byte>)

  predicate Shaped(regs: seq<seq<byte>>, value: seq<byte>) {
    |regs| == 8 && |value| == 8 && forall i :: 0 <= i < 8 ==> |regs[i]| == 8
  }

  /** In the middle of a register the kept image is that register's. */
  predicate Loaded(regs: seq<seq<byte>>, pos: Pos, value: seq<byte>)
    requires Shaped(regs, value)
  {
    pos.InRegs() && pos.groff % 8 != 0 ==> value == regs[pos.groff / 8]
  }

  predicate Ready(w: Writer) {
    Shaped(w.regs, w.value) && Loaded(w.regs, w.pos, w.value)
  }

  /** Overwrites `buf` at `off`, growing it with zeros where it is too short. */
  function WriteAt(buf: seq<byte>, b: seq<byte>, off: nat): (r: seq<byte>)
    ensures |r| == if off + |b| > |buf| then off + |b| else |buf|
    ensures forall i :: 0 <= i < |b| ==> r[off + i] == b[i]
    ensures forall i :: 0 <= i < |buf| && (i < off || off + |b| <= i) ==> r[i] == buf[i]
    ensures forall i :: |buf| <= i < off ==> r[i] == 0
  {
    var grown := if off + |b| > |buf| then buf + Fill(off + |b| - |buf|) else buf;
    grown[..off] + b + grown[off + |b|..]
  }

  function Fill(n: nat): seq<byte> {
    seq(n, _ => 0)
  }

  function PutByte(w: Writer, x: byte): Writer
    requires Shaped(w.regs, w.value)
  {
    if w.pos.InRegs() then
      var v := w.value[w.pos.groff % 8 := x];
      w.(value := v, regs := w.regs[w.pos.groff / 8 := v], pos := w.pos.Next())
    else w.(stack := WriteAt(w.stack, [x], w.pos.stoff), pos := w.pos.Next())
  }

  /** Writing `b`, byte after byte. */
  function Put(w: Writer, b: seq<byte>): (w': Writer)
    requires Shaped(w.regs, w.value)
    ensures Shaped(w'.regs, w'.value)
    decreases |b|
  {
    if b == [] then w else PutByte(Put(w, b[..|b| - 1]), b[|b| - 1])
  }

  function Advance(p: Pos, n: nat): Pos {
    if n == 0 then p else Advance(p, n - 1).Next()
  }

  /** The byte at position `p`, from the registers or from the stack at `base` in guest memory. */
  function ByteAt(regs: seq<seq<byte>>, mem: Mem, base: nat, p: Pos): Option<byte>
    requires |regs| == 8 && forall i :: 0 <= i < 8 ==> |regs[i]| == 8
  {
    if p.InRegs() then Some(regs[p.groff / 8][p.groff % 8])
    else if base + p.stoff in mem then Some(mem[base + p.stoff])
    else None
  }

  /** Reading `n` bytes at `p`, byte after byte. */
  function Get(regs: seq<seq<byte>>, mem: Mem, base: nat, p: Pos, n: nat): (r: Option<seq<byte>>)
    requires |regs| == 8 && forall i :: 0 <= i < 8 ==> |regs[i]| == 8
    ensures r.Some? ==> |r.value| == n
  {
    if n == 0 then Some([])
    else
      match Get(regs, mem, base, p, n - 1)
      case None => None
      case Some(b) =>
        match ByteAt(regs, mem, base, Advance(p, n - 1))
        case None => None
        case Some(x) => Some(b + [x])
  }

  lemma GetSnoc(regs: seq<seq<byte>>, mem: Mem, base: nat, p: Pos, n: nat, b: seq<byte>, x: byte)
    requires |regs| == 8 && forall i :: 0 <= i < 8 ==> |regs[i]| == 8
    requires n > 0 && Get(regs, mem, base, p, n - 1) == Some(b)
    requires ByteAt(regs, mem, base, Advance(p, n - 1)) == Some(x)
    ensures Get(regs, mem, base, p, n) == Some(b + [x])
  {
    hide ByteAt, Advance;
  }

  // ----- consecutive writes and reads

  /** Two writes in a row are one write of the concatenation: registers, stack and position. */
  lemma {:induction false} PutConcat(w: Writer, a: seq<byte>, b: seq<byte>)
    requires Shaped(w.regs, w.value)
    ensures Put(Put(w, a), b) == Put(w, a + b)
    decreases |b|
  {
    if b == [] {
      assert a + b == a;
    } else {
      assert (a + b)[..|a + b| - 1] == a + b[..|b| - 1];
      PutConcat(w, a, b[..|b| - 1]);
    }
  }

  lemma {:induction false} AdvanceAdds(p: Pos, n: nat, m: nat)
    ensures Advance(Advance(p, n), m) == Advance(p, n + m)
    decreases m
  {
    if m > 0 {
      AdvanceAdds(p, n, m - 1);
    }
  }

  /** Reading in two chunks is reading in one. */
  lemma {:induction false} GetConcat(regs: seq<seq<byte>>, mem: Mem, base: nat, p: Pos, n: nat, m: nat)
    requires |regs| == 8 && forall i :: 0 <= i < 8 ==> |regs[i]| == 8
    ensures Get(regs, mem, base, p, n + m) ==
      (match Get(regs, mem, base, p, n)
       case None => None
       case Some(a) =>
         match Get(regs, mem, base, Advance(p, n), m)
         case None => None
         case Some(b) => Some(a + b))
    decreases m
  {
    hide ByteAt, Advance;
    if m == 0 {
      assert Advance(Advance(p, n), 0) == Advance(p, n) by { AdvanceAdds(p, n, 0); }
      var r := Get(regs, mem, base, p, n);
      assert r.Some? ==> r.value + [] == r.value;
    } else {
      GetConcat(regs, mem, base, p, n, m - 1);
      AdvanceAdds(p, n, m - 1);
      var a, b := Get(regs, mem, base, p, n), Get(regs, mem, base, Advance(p, n), m - 1);
      if a.Some? && b.Some? {
        var x := ByteAt(regs, mem, base, Advance(p, n + m - 1));
        assert x.Some? ==> a.value + (b.value + [x.value]) == (a.value + b.value) + [x.value];
      }
    }
  }

  // ----- what is written stays

  /** The byte of a writer at position `p`. */
  predicate HasByte(w: Writer, p: Pos, x: byte)
    requires Shaped(w.regs, w.value)
  {
    if p.InRegs() then w.regs[p.groff / 8][p.groff % 8] == x
    else p.stoff < |w.stack| && w.stack[p.stoff] == x
  }

  /** Everything written before the position of `w` is still there in `w'`. */
  ghost predicate KeepsPast(w: Writer, w': Writer)
    requires Shaped(w.regs, w.value) && Shaped(w'.regs, w'.value)
  {
    forall p: Pos, x: byte :: p.Before(w.pos) && HasByte(w, p, x) ==> HasByte(w', p, x)
  }

  lemma PutByteKeeps(w: Writer, x: byte)
    requires Ready(w)
    ensures var w' := PutByte(w, x);
      Ready(w') && w'.pos == w.pos.Next() && HasByte(w', w.pos, x) && KeepsPast(w, w')
  {
    var w' := PutByte(w, x);
    var g := w.pos.groff;
    if w.pos.InRegs() {
      forall p: Pos, y: byte | p.Before(w.pos) && HasByte(w, p, y) ensures HasByte(w', p, y) {
        if p.groff / 8 == g / 8 {
          assert p.groff % 8 != g % 8 && g % 8 != 0;
        }
      }
      assert (g + 1) % 8 != 0 ==> (g + 1) / 8 == g / 8;
    }
  }

  lemma {:induction false} PutKeeps(w: Writer, b: seq<byte>)
    requires Ready(w)
    ensures var w' := Put(w, b);
      && Ready(w') && w'.pos == Advance(w.pos, |b|) && KeepsPast(w, w')
      && (forall i :: 0 <= i < |b| ==> HasByte(w', Advance(w.pos, i), b[i]))
    decreases |b|
  {
    hide HasByte, PutByte, WriteAt;
    if b != [] {
      var n := |b| - 1;
      PutKeeps(w, b[..n]);
      PutByteKeeps(Put(w, b[..n]), b[n]);
      AdvanceBefore(w.pos, n);
    }
  }

  lemma {:induction false} AdvanceBefore(p: Pos, n: nat)
    ensures forall i :: 0 <= i < n ==> Advance(p, i).Before(Advance(p, n))
    ensures forall q: Pos :: q.Before(p) ==> q.Before(Advance(p, n))
    decreases n
  {
    if n > 0 {
      AdvanceBefore(p, n - 1);
    }
  }

  /** A write of `b`; an empty one still stores the kept image or grows the stack image. */
  function WriteSpec(w: Writer, b: seq<byte>): (w': Writer)
    requires Shaped(w.regs, w.value)
    ensures Shaped(w'.regs, w'.value)
  {
    if b != [] then Put(w, b)
    else if !w.pos.InRegs() then w.(stack := WriteAt(w.stack, [], w.pos.stoff))
    else if w.pos.groff % 8 > 0 then w.(regs := w.regs[w.pos.groff / 8 := w.value])
    else w
  }

  /** With the image loaded an empty write changes nothing, but for zeros that may follow the stack
      image. */
  lemma EmptyWrite(w: Writer)
    requires Ready(w)
    ensures var w' := WriteSpec(w, []);
      w' == w.(stack := w'.stack) && w.stack <= w'.stack
      && forall i :: |w.stack| <= i < |w'.stack| ==> w'.stack[i] == 0
  {
    if w.pos.InRegs() && w.pos.groff % 8 > 0 {
      assert w.regs[w.pos.groff / 8 := w.value] == w.regs;
    }
  }

  // ----- scripts: writes, skips and alignments in any order

  datatype Op = Data(bytes: seq<byte>) | Pad(n: nat) | Align

  function Move(p: Pos, op: Op): Pos {
    match op
    case Data(b) => Advance(p, |b|)
    case Pad(n) => p.Skip(n)
    case Align => p.Align()
  }

  /** A skip must not end inside a register whose image has not been loaded. */
  predicate GoodSkip(p: Pos, n: nat) {
    var q := p.Skip(n);
    q.InRegs() && q.groff % 8 != 0 ==> p.groff % 8 != 0 && q.groff / 8 == p.groff / 8
  }

  /** Past the first byte of a register. */
  predicate Inside(p: Pos) {
    p.InRegs() && p.groff % 8 != 0
  }

  /** Whether a skip from `p` to `q` stays inside the register it started inside of. */
  predicate SameReg(p: Pos, q: Pos) {
    Inside(p) && q.InRegs() && q.groff / 8 == p.groff / 8
  }

  /** No data follow a skip that ended inside a register whose image is not loaded, before the position
      leaves that register again; `loaded` says whether the image is loaded at `p`. */
  predicate GoodOps(p: Pos, loaded: bool, ops: seq<Op>)
    decreases |ops|
  {
    ops != [] ==>
      match ops[0]
      case Data(b) => (Inside(p) ==> loaded) && GoodOps(Advance(p, |b|), true, ops[1..])
      case Pad(n) => GoodOps(p.Skip(n), loaded && SameReg(p, p.Skip(n)), ops[1..])
      case Align => GoodOps(p.Align(), true, ops[1..])
  }

  function WriteOp(w: Writer, op: Op): (w': Writer)
    requires Shaped(w.regs, w.value)
    ensures Shaped(w'.regs, w'.value)
  {
    match op
    case Data(b) => WriteSpec(w, b)
    case _ => w.(pos := Move(w.pos, op))
  }

  function WriteOps(w: Writer, ops: seq<Op>): (w': Writer)
    requires Shaped(w.regs, w.value)
    ensures Shaped(w'.regs, w'.value)
    decreases |ops|
  {
    if ops == [] then w else WriteOps(WriteOp(w, ops[0]), ops[1..])
  }

  function DataOf(ops: seq<Op>): seq<seq<byte>>
    decreases |ops|
  {
    if ops == [] then [] else (if ops[0].Data? then [ops[0].bytes] else []) + DataOf(ops[1..])
  }

  /** The same script read back: as many bytes as were written, the same skips and alignments. */
  function ReadOps(regs: seq<seq<byte>>, mem: Mem, base: nat, p: Pos, ops: seq<Op>): Option<seq<seq<byte>>>
    requires |regs| == 8 && forall i :: 0 <= i < 8 ==> |regs[i]| == 8
    decreases |ops|
  {
    if ops == [] then Some([])
    else if !ops[0].Data? then ReadOps(regs, mem, base, Move(p, ops[0]), ops[1..])
    else
      match Get(regs, mem, base, p, |ops[0].bytes|)
      case None => None
      case Some(b) =>
        match ReadOps(regs, mem, base, Move(p, ops[0]), ops[1..])
        case None => None
        case Some(rest) => Some([b] + rest)
  }

  lemma WriteOpKeeps(w: Writer, op: Op)
    requires Shaped(w.regs, w.value) && (op.Data? ==> Ready(w))
    ensures var w' := WriteOp(w, op);
      && w'.pos == Move(w.pos, op) && KeepsPast(w, w') && (op.Data? ==> Ready(w'))
      && (forall p: Pos :: p.Before(w.pos) ==> p.Before(w'.pos))
  {
    match op
    case Data(b) =>
      if b == [] {
        EmptyWrite(w);
      } else {
        PutKeeps(w, b);
      }
      AdvanceBefore(w.pos, |b|);
    case Pad(n) =>
    case Align =>
      AlignsTo8(w.pos.groff);
      AlignBounds(w.pos.stoff, 4);
  }

  lemma AlignsTo8(x: nat)
    ensures Bits.Align(x, 8) >= x && Bits.Align(x, 8) % 8 == 0
  {
    assert Pow2(0) == 1 && Pow2(1) == 2 && Pow2(2) == 4 && Pow2(3) == 8;
    AlignIsLeastMultiple(x, 3);
  }

  lemma {:induction false} WriteOpsKeep(w: Writer, loaded: bool, ops: seq<Op>)
    requires Shaped(w.regs, w.value) && (loaded ==> Ready(w)) && GoodOps(w.pos, loaded, ops)
    ensures KeepsPast(w, WriteOps(w, ops))
    decreases |ops|
  {
    if ops != [] {
      WriteOpKeeps(w, ops[0]);
      AlignedLoaded(w, ops[0]);
      WriteOpsKeep(WriteOp(w, ops[0]), NowLoaded(w.pos, loaded, ops[0]), ops[1..]);
    }
  }

  /** Whether the image is loaded after one more operation. */
  predicate NowLoaded(p: Pos, loaded: bool, op: Op) {
    op.Pad? ==> loaded && SameReg(p, p.Skip(op.n))
  }

  lemma AlignedLoaded(w: Writer, op: Op)
    requires Shaped(w.regs, w.value)
    ensures op == Align ==> Ready(WriteOp(w, op))
    ensures op.Pad? && Ready(w) && SameReg(w.pos, w.pos.Skip(op.n)) ==> Ready(WriteOp(w, op))
  {
    AlignsTo8(w.pos.groff);
  }

  lemma ByteFound(w: Writer, mem: Mem, base: nat, p: Pos, x: byte)
    requires Shaped(w.regs, w.value) && Holds(mem, base, w.stack) && HasByte(w, p, x)
    ensures ByteAt(w.regs, mem, base, p) == Some(x)
  {
  }

  /** Reading back what a writer has at `n` consecutive positions. */
  lemma {:induction false} GetFinds(w: Writer, mem: Mem, base: nat, p: Pos, b: seq<byte>)
    requires Shaped(w.regs, w.value) && Holds(mem, base, w.stack)
    requires forall i :: 0 <= i < |b| ==> HasByte(w, Advance(p, i), b[i])
    ensures Get(w.regs, mem, base, p, |b|) == Some(b)
    decreases |b|
  {
    hide HasByte, ByteAt, Advance, Holds;
    if b != [] {
      var n := |b| - 1;
      forall i | 0 <= i < |b[..n]| ensures HasByte(w, Advance(p, i), b[..n][i]) {
        assert b[..n][i] == b[i];
      }
      GetFinds(w, mem, base, p, b[..n]);
      assert HasByte(w, Advance(p, n), b[n]);
      ByteFound(w, mem, base, Advance(p, n), b[n]);
      GetSnoc(w.regs, mem, base, p, n + 1, b[..n], b[n]);
      assert b[..n] + [b[n]] == b;
    }
  }

  /** The round trip over a flat stream: whatever was written, in whatever chunks across registers and
      the boundary to the stack, with skips and alignments between, is read back by the same script. */
  lemma {:induction false} ScriptRoundTrip(w: Writer, loaded: bool, ops: seq<Op>, mem: Mem, base: nat)
    requires Shaped(w.regs, w.value) && (loaded ==> Ready(w)) && GoodOps(w.pos, loaded, ops)
    requires Holds(mem, base, WriteOps(w, ops).stack)
    ensures ReadOps(WriteOps(w, ops).regs, mem, base, w.pos, ops) == Some(DataOf(ops))
    decreases |ops|
  {
    if ops != [] {
      var w1, end := WriteOp(w, ops[0]), WriteOps(w, ops);
      WriteOpKeeps(w, ops[0]);
      AlignedLoaded(w, ops[0]);
      WriteOpsKeep(w1, NowLoaded(w.pos, loaded, ops[0]), ops[1..]);
      ScriptRoundTrip(w1, NowLoaded(w.pos, loaded, ops[0]), ops[1..], mem, base);
      assert [] + DataOf(ops[1..]) == DataOf(ops[1..]);
      if ops[0].Data? && ops[0].bytes != [] {
        var b := ops[0].bytes;
        PutKeeps(w, b);
        AdvanceBefore(w.pos, |b|);
        forall i | 0 <= i < |b| ensures HasByte(end, Advance(w.pos, i), b[i]) {
          assert Advance(w.pos, i).Before(w1.pos) && HasByte(w1, Advance(w.pos, i), b[i]);
        }
        GetFinds(end, mem, base, w.pos, b);
      }
    }
  }

  // ----- chunks

  /** A register image with `b` put in at offset `k`. */
  function Splice(v: seq<byte>, k: nat, b: seq<byte>): (r: seq<byte>)
    requires k + |b| <= |v|
    ensures |r| == |v|
  {
    v[..k] + b + v[k + |b|..]
  }

  lemma SpliceSnoc(v: seq<byte>, k: nat, b: seq<byte>)
    requires b != [] && k + |b| <= |v|
    ensures Splice(v, k, b) == Splice(v, k, b[..|b| - 1])[k + |b| - 1 := b[|b| - 1]]
    ensures Splice(v, k, []) == v
  {
  }

  lemma SameRegister(g: nat, n: nat)
    requires g % 8 + n < 8
    ensures (g + n) / 8 == g / 8 && (g + n) % 8 == g % 8 + n
  {
  }

  /** Bytes that fit the rest of the current register go in with one register write. */
  lemma {:induction false} PutChunk(w: Writer, b: seq<byte>)
    requires Shaped(w.regs, w.value) && w.pos.InRegs() && 0 < |b| <= 8 - w.pos.groff % 8
    ensures var v := Splice(w.value, w.pos.groff % 8, b);
      Put(w, b) == w.(value := v, regs := w.regs[w.pos.groff / 8 := v], pos := Pos(w.pos.groff + |b|, w.pos.stoff))
    decreases |b|
  {
    hide Splice;
    var n := |b| - 1;
    SpliceSnoc(w.value, w.pos.groff % 8, b);
    SameRegister(w.pos.groff, n);
    if n == 0 {
      assert b[..0] == [];
    } else {
      PutChunk(w, b[..n]);
      var q := w.pos.groff / 8;
      var v0, v := Splice(w.value, w.pos.groff % 8, b[..n]), Splice(w.value, w.pos.groff % 8, b);
      assert w.regs[q := v0][q := v] == w.regs[q := v];
    }
  }

  lemma WriteAtSnoc(buf: seq<byte>, b: seq<byte>, off: nat)
    requires b != []
    ensures var n := |b| - 1;
      WriteAt(WriteAt(buf, b[..n], off), [b[n]], off + n) == WriteAt(buf, b, off)
  {
    hide WriteAt;
    var n := |b| - 1;
    var r0, r := WriteAt(WriteAt(buf, b[..n], off), [b[n]], off + n), WriteAt(buf, b, off);
    forall i | 0 <= i < |r| ensures r0[i] == r[i] {
      if off <= i < off + n {
        assert WriteAt(buf, b[..n], off)[off + (i - off)] == b[..n][i - off];
        assert r[off + (i - off)] == b[i - off];
      } else if i == off + n {
        assert r0[off + n + 0] == [b[n]][0];
        assert r[off + n] == b[n];
      }
    }
  }

  /** Past the registers a write is one write to the stack image. */
  lemma {:induction false} PutStack(w: Writer, b: seq<byte>)
    requires Shaped(w.regs, w.value) && !w.pos.InRegs() && b != []
    ensures Put(w, b) == w.(stack := WriteAt(w.stack, b, w.pos.stoff), pos := Pos(w.pos.groff, w.pos.stoff + |b|))
    decreases |b|
  {
    hide WriteAt;
    var n := |b| - 1;
    if n == 0 {
      assert b[..0] == [] && b == [b[0]];
    } else {
      PutStack(w, b[..n]);
      WriteAtSnoc(w.stack, b, w.pos.stoff);
    }
  }

  lemma {:induction false} AdvanceInRegs(p: Pos, n: nat)
    ensures p.InRegs() && p.groff + n <= REG_BYTES ==> Advance(p, n) == Pos(p.groff + n, p.stoff)
    ensures p.InRegs() && p.groff + n > REG_BYTES ==>
      Advance(p, n) == Pos(REG_BYTES, p.stoff + (p.groff + n - REG_BYTES))
    ensures !p.InRegs() ==> Advance(p, n) == Pos(p.groff, p.stoff + n)
    decreases n
  {
    if n > 0 {
      AdvanceInRegs(p, n - 1);
    }
  }

  lemma GetNone(regs: seq<seq<byte>>, mem: Mem, base: nat, p: Pos)
    requires |regs| == 8 && forall i :: 0 <= i < 8 ==> |regs[i]| == 8
    ensures Get(regs, mem, base, p, 0) == Some([])
  {
  }

  /** One register read serves as many bytes as are left in the register. */
  lemma {:induction false} GetChunk(regs: seq<seq<byte>>, mem: Mem, base: nat, p: Pos, n: nat)
    requires |regs| == 8 && forall i :: 0 <= i < 8 ==> |regs[i]| == 8
    requires p.InRegs() && n <= 8 - p.groff % 8
    ensures Get(regs, mem, base, p, n) == Some(regs[p.groff / 8][p.groff % 8..p.groff % 8 + n])
    ensures Advance(p, n) == Pos(p.groff + n, p.stoff)
    decreases n
  {
    hide Get, Advance;
    var r, k := regs[p.groff / 8], p.groff % 8;
    AdvanceInRegs(p, n);
    if n > 0 {
      GetChunk(regs, mem, base, p, n - 1);
      SameRegister(p.groff, n - 1);
      var last := Pos(p.groff + n - 1, p.stoff);
      assert last.InRegs() && ByteAt(regs, mem, base, last) == Some(r[k + n - 1]);
      GetSnoc(regs, mem, base, p, n, r[k..k + n - 1], r[k + n - 1]);
      assert r[k..k + n - 1] + [r[k + n - 1]] == r[k..k + n];
    } else {
      GetNone(regs, mem, base, p);
      assert r[k..k] == [];
    }
  }

  lemma {:induction false} GetStack(regs: seq<seq<byte>>, mem: Mem, base: nat, p: Pos, n: nat)
    requires |regs| == 8 && forall i :: 0 <= i < 8 ==> |regs[i]| == 8
    requires !p.InRegs()
    ensures Get(regs, mem, base, p, n) == Read(mem, base + p.stoff, n)
    ensures Advance(p, n) == Pos(p.groff, p.stoff + n)
    decreases n
  {
    if n > 0 {
      GetStack(regs, mem, base, p, n - 1);
      var a := base + p.stoff;
      var r0, r := Read(mem, a, n - 1), Read(mem, a, n);
      if r0.Some? && a + n - 1 in mem {
        assert r.Some? && r.value == r0.value + [mem[a + n - 1]];
      }
      assert r.Some? ==> r0.Some?;
    } else {
      assert Read(mem, base + p.stoff, 0) == Some([]);
    }
  }

  // ----- the kept register image

  /** What a reader in the middle of a register hands out: first the rest of the kept image. */
  function GetCached(regs: seq<seq<byte>>, mem: Mem, base: nat, p: Pos, value: seq<byte>, n: nat): Option<seq<byte>>
    requires Shaped(regs, value)
  {
    if p.InRegs() && p.groff % 8 > 0 then
      var k := p.groff % 8;
      var m := FromImage(p, n);
      match Get(regs, mem, base, Advance(p, m), n - m)
      case None => None
      case Some(b) => Some(value[k..k + m] + b)
    else Get(regs, mem, base, p, n)
  }

  /** How many of `n` bytes come out of the kept image. */
  function FromImage(p: Pos, n: nat): (m: nat)
    ensures m <= n && p.groff % 8 + m <= 8
  {
    if n < 8 - p.groff % 8 then n else 8 - p.groff % 8
  }

  /** Reading is exact if and only if the kept image agrees with the register on the bytes it serves,
      or nothing is served at all. */
  lemma CachedIsExact(regs: seq<seq<byte>>, mem: Mem, base: nat, p: Pos, value: seq<byte>, n: nat)
    requires Shaped(regs, value)
    ensures Loaded(regs, p, value) ==> GetCached(regs, mem, base, p, value, n) == Get(regs, mem, base, p, n)
    ensures p.InRegs() && p.groff % 8 > 0 && Get(regs, mem, base, p, n).Some? ==>
      var k, m := p.groff % 8, FromImage(p, n);
      GetCached(regs, mem, base, p, value, n) == Get(regs, mem, base, p, n)
      <==> value[k..k + m] == regs[p.groff / 8][k..k + m]
  {
    hide Get;
    if p.InRegs() && p.groff % 8 > 0 {
      var k, m := p.groff % 8, FromImage(p, n);
      GetConcat(regs, mem, base, p, m, n - m);
      GetChunk(regs, mem, base, p, m);
      var rest := Get(regs, mem, base, Advance(p, m), n - m);
      if rest.Some? {
        SameTail(value[k..k + m], regs[p.groff / 8][k..k + m], rest.value);
      }
    }
  }

  lemma SameTail(a: seq<byte>, b: seq<byte>, t: seq<byte>)
    requires |a| == |b|
    ensures a + t == b + t <==> a == b
  {
    assert (a + t)[..|a|] == a && (b + t)[..|b|] == b;
  }

  // ----- scripts as the source reads them

  /** The image kept after reading `n` bytes: that of the last register touched. */
  function Kept(regs: seq<seq<byte>>, p: Pos, value: seq<byte>, n: nat): (v: seq<byte>)
    requires Shaped(regs, value)
    ensures Shaped(regs, v)
  {
    if !p.InRegs() || n == 0 then value
    else
      var last := if p.groff + n > REG_BYTES then 7 else (p.groff + n - 1) / 8;
      if p.groff % 8 > 0 && last == p.groff / 8 then value else regs[last]
  }

  /** A script read with the kept image, which serves the rest of a register read or skipped into. */
  function ReadImage(regs: seq<seq<byte>>, mem: Mem, base: nat, p: Pos, value: seq<byte>, ops: seq<Op>)
    : Option<seq<seq<byte>>>
    requires Shaped(regs, value)
    decreases |ops|
  {
    if ops == [] then Some([])
    else if !ops[0].Data? then ReadImage(regs, mem, base, Move(p, ops[0]), value, ops[1..])
    else
      var n := |ops[0].bytes|;
      match GetCached(regs, mem, base, p, value, n)
      case None => None
      case Some(b) =>
        match ReadImage(regs, mem, base, Move(p, ops[0]), Kept(regs, p, value, n), ops[1..])
        case None => None
        case Some(rest) => Some([b] + rest)
  }

  /** Reading leaves the right image loaded. */
  lemma KeptLoaded(regs: seq<seq<byte>>, p: Pos, value: seq<byte>, n: nat)
    requires Shaped(regs, value) && Loaded(regs, p, value)
    ensures Loaded(regs, Advance(p, n), Kept(regs, p, value, n))
  {
    AdvanceInRegs(p, n);
    if p.InRegs() && n > 0 && p.groff + n <= REG_BYTES && (p.groff + n) % 8 != 0 {
      SameRegister(p.groff + n - 1, 1);
    }
  }

  /** If no skip ends inside a register that is not loaded, the kept image never shows: reading with it
      is reading byte by byte. */
  lemma {:induction false} GoodReadIsFlat(
    regs: seq<seq<byte>>, mem: Mem, base: nat, p: Pos, value: seq<byte>, loaded: bool, ops: seq<Op>)
    requires Shaped(regs, value) && (loaded ==> Loaded(regs, p, value)) && GoodOps(p, loaded, ops)
    ensures ReadImage(regs, mem, base, p, value, ops) == ReadOps(regs, mem, base, p, ops)
    decreases |ops|
  {
    hide Get, GetCached, Kept, Advance, Bits.Align;
    if ops != [] {
      match ops[0]
      case Data(b) =>
        CachedIsExact(regs, mem, base, p, value, |b|);
        KeptLoaded(regs, p, value, |b|);
        GoodReadIsFlat(regs, mem, base, Move(p, ops[0]), Kept(regs, p, value, |b|), true, ops[1..]);
      case Pad(n) =>
        GoodReadIsFlat(regs, mem, base, p.Skip(n), value, loaded && SameReg(p, p.Skip(n)), ops[1..]);
      case Align =>
        AlignsTo8(p.groff);
        GoodReadIsFlat(regs, mem, base, p.Align(), value, true, ops[1..]);
    }
  }

  /** After a skip of `n` the next `m` bytes are read as they are, whatever the registers hold. */
  ghost predicate SkipReadsRight(p: Pos, n: nat, m: nat) {
    forall regs: seq<seq<byte>>, mem: Mem, base: nat, value: seq<byte> ::
      Shaped(regs, value) && Loaded(regs, p, value) ==>
        GetCached(regs, mem, base, p.Skip(n), value, m) == Get(regs, mem, base, p.Skip(n), m)
  }

  /** So the condition on skips is exact: the next bytes read after a skip are right for all contents of
      the registers if and only if it does not end inside a register that has not been loaded. */
  lemma SkipIsSafe(p: Pos, n: nat, m: nat)
    requires m > 0
    ensures SkipReadsRight(p, n, m) <==> GoodSkip(p, n)
  {
    if GoodSkip(p, n) {
      forall regs: seq<seq<byte>>, mem: Mem, base: nat, value: seq<byte>
        | Shaped(regs, value) && Loaded(regs, p, value)
        ensures GetCached(regs, mem, base, p.Skip(n), value, m) == Get(regs, mem, base, p.Skip(n), m)
      {
        CachedIsExact(regs, mem, base, p.Skip(n), value, m);
      }
    } else {
      BadSkipShows(p, n, m);
    }
  }

  function Ones(): (v: seq<byte>)
    ensures |v| == 8 && forall i :: 0 <= i < 8 ==> v[i] == 1
  {
    [1, 1, 1, 1, 1, 1, 1, 1]
  }

  /** All registers zero but the loaded one, if there is one, whose image is all ones. */
  function OneLoaded(p: Pos): (regs: seq<seq<byte>>)
    ensures |regs| == 8
    ensures forall i :: 0 <= i < 8 ==> regs[i] == if i == p.groff / 8 && p.groff % 8 > 0 then Ones() else Fill(8)
  {
    seq(8, i => if i == p.groff / 8 && p.groff % 8 > 0 then Ones() else Fill(8))
  }

  lemma BadSkipShows(p: Pos, n: nat, m: nat)
    requires m > 0 && !GoodSkip(p, n)
    ensures !SkipReadsRight(p, n, m)
  {
    hide Get, GetCached;
    var q, regs, value := p.Skip(n), OneLoaded(p), Ones();
    var low := Span(0, q.stoff + m);
    var mem: Mem := map x | x in low :: 0;
    GetSome(regs, mem, q, m);
    CachedIsExact(regs, mem, 0, q, value, m);
    var k := q.groff % 8;
    assert regs[q.groff / 8] == Fill(8);
    assert value[k..k + FromImage(q, m)][0] != regs[q.groff / 8][k..k + FromImage(q, m)][0];
    assert GetCached(regs, mem, 0, p.Skip(n), value, m) != Get(regs, mem, 0, p.Skip(n), m);
  }

  lemma {:induction false} GetSome(regs: seq<seq<byte>>, mem: Mem, p: Pos, n: nat)
    requires |regs| == 8 && forall i :: 0 <= i < 8 ==> |regs[i]| == 8
    requires forall x: nat :: x < p.stoff + n ==> x in mem
    ensures Get(regs, mem, 0, p, n).Some?
    decreases n
  {
    if n > 0 {
      GetSome(regs, mem, p, n - 1);
      AdvanceInRegs(p, n - 1);
    }
  }

  // ----- argument lists

  /** The scripts of the arguments, each followed by an alignment. */
  function ArgOps(args: seq<seq<Op>>): seq<Op>
    decreases |args|
  {
    if args == [] then [] else args[0] + ([Align] + ArgOps(args[1..]))
  }

  function MoveAll(p: Pos, ops: seq<Op>): Pos
    decreases |ops|
  {
    if ops == [] then p else MoveAll(Move(p, ops[0]), ops[1..])
  }

  /** Aligning goes to the next register, or past the registers to the next four bytes of the stack, unless
      the position is there. */
  lemma PosAligns(p: Pos)
    ensures LeastUp(p.groff, p.Align().groff, 8) && LeastUp(p.stoff, p.Align().stoff, 4)
  {
    assert Pow2(0) == 1 && Pow2(1) == 2 && Pow2(2) == 4 && Pow2(3) == 8;
    hide Bits.Align, Pow2, LeastUp;
    AlignIsLeastMultiple(p.groff, 3);
    AlignIsLeastMultiple(p.stoff, 2);
  }

  lemma {:induction false} MoveAllConcat(p: Pos, a: seq<Op>, b: seq<Op>)
    ensures MoveAll(p, a + b) == MoveAll(MoveAll(p, a), b)
    decreases |a|
  {
    hide Move;
    if a == [] {
      assert [] + b == b;
    } else {
      assert (a + b)[1..] == a[1..] + b;
      MoveAllConcat(Move(p, a[0]), a[1..], b);
    }
  }

  /** So every argument starts at a register, or on the stack at a multiple of 4. */
  lemma {:induction false} ArgStarts(p: Pos, args: seq<seq<Op>>, i: nat)
    requires p.groff % 8 == 0 && p.stoff % 4 == 0 && i <= |args|
    ensures var q := MoveAll(p, ArgOps(args[..i]));
      q.groff % 8 == 0 && q.stoff % 4 == 0
    decreases i
  {
    hide Bits.Align, Advance;
    if i == 0 {
      assert args[..0] == [] && ArgOps(args[..0]) == [];
    } else {
      var q, rest := MoveAll(p, args[0]), ArgOps(args[1..][..i - 1]);
      assert args[..i][1..] == args[1..][..i - 1] && args[..i][0] == args[0];
      PosAligns(q);
      MoveAllConcat(p, args[0], [Align] + rest);
      assert ([Align] + rest)[1..] == rest;
      ArgStarts(q.Align(), args[1..], i - 1);
    }
  }

  lemma {:induction false} WriteOpsConcat(w: Writer, a: seq<Op>, b: seq<Op>)
    requires Shaped(w.regs, w.value)
    ensures WriteOps(WriteOps(w, a), b) == WriteOps(w, a + b)
    decreases |a|
  {
    if a == [] {
      assert [] + b == b;
    } else {
      assert (a + b)[1..] == a[1..] + b;
      WriteOpsConcat(WriteOp(w, a[0]), a[1..], b);
    }
  }

  /** Outside a register it does not matter what is loaded. */
  lemma {:induction false} LoadedOutside(p: Pos, ops: seq<Op>)
    requires !Inside(p)
    ensures GoodOps(p, false, ops) <==> GoodOps(p, true, ops)
  {
  }

  predicate LoadedAfter(p: Pos, loaded: bool, ops: seq<Op>)
    decreases |ops|
  {
    if ops == [] then loaded else LoadedAfter(Move(p, ops[0]), NowLoaded(p, loaded, ops[0]), ops[1..])
  }

  lemma {:induction false} GoodOpsConcat(p: Pos, loaded: bool, a: seq<Op>, b: seq<Op>)
    ensures GoodOps(p, loaded, a + b) <==>
      GoodOps(p, loaded, a) && GoodOps(MoveAll(p, a), LoadedAfter(p, loaded, a), b)
    decreases |a|
  {
    hide SameReg, Inside, Advance, Bits.Align;
    if a == [] {
      assert [] + b == b;
    } else {
      assert (a + b)[1..] == a[1..] + b;
      GoodOpsConcat(Move(p, a[0]), NowLoaded(p, loaded, a[0]), a[1..], b);
    }
  }

  /** The padding of `n` at offset `off` ends at a multiple of 8, or is the least one to a multiple of a
      smaller power of two. */
  predicate PadTo(off: nat, n: nat, a: nat) {
    if a == 8 then (off + n) % 8 == 0 else a > 0 && n < a && (off + n) % a == 0
  }

  predicate PadsWell(off: nat, n: nat) {
    exists a :: a in {1, 2, 4, 8} && PadTo(off, n, a)
  }

  /** Data and padding of this kind only, from offset `off` on. */
  predicate LaidOut(off: nat, ops: seq<Op>)
    decreases |ops|
  {
    ops != [] ==>
      match ops[0]
      case Data(b) => LaidOut(off + |b|, ops[1..])
      case Pad(n) => PadsWell(off, n) && LaidOut(off + n, ops[1..])
      case Align => false
  }

  /** Such a padding does not end inside a register it did not start inside of. */
  lemma PadIsGood(p: Pos, off: nat, n: nat, a: nat)
    requires p.InRegs() ==> p.groff % 8 == off % 8
    requires a in {1, 2, 4, 8} && PadTo(off, n, a)
    ensures Inside(p.Skip(n)) ==> SameReg(p, p.Skip(n))
  {
    if p.InRegs() {
      PadEnds(off, n, a);
      ModEight(p.groff, n);
      if p.groff % 8 + n < 8 {
        SameRegister(p.groff, n);
      }
    }
  }

  /** The padding ends at a register boundary or stays within the register. */
  lemma PadEnds(off: nat, n: nat, a: nat)
    requires a in {1, 2, 4, 8} && PadTo(off, n, a)
    ensures var k := off % 8;
      (k + n) % 8 == 0 || (k > 0 && k + n < 8)
  {
    ModEight(off, n);
    if a <= 4 {
      PadWithin(off % 8, n, a);
    }
  }

  lemma PadWithin(k: nat, n: nat, a: nat)
    requires a in {1, 2, 4} && k < 8 && n < a && (k + n) % a == 0
    ensures k + n == 8 || k + n < 8
    ensures k == 0 ==> n == 0
  {
    if a == 2 {
      assert k + n == 2 * ((k + n) / 2);
    } else if a == 4 {
      assert k + n == 4 * ((k + n) / 4);
    }
  }

  lemma ModEight(x: nat, n: nat)
    ensures (x + n) % 8 == (x % 8 + n) % 8 && (x + n) % 4 == (x % 8 + n) % 4 && (x + n) % 2 == (x % 8 + n) % 2
  {
    var q, y := x / 8, x % 8 + n;
    DivUnique(x + n, 8, q + y / 8, y % 8);
    DivUnique(x + n, 4, 2 * q + y / 4, y % 4);
    DivUnique(x + n, 2, 4 * q + y / 2, y % 2);
  }

  /** A script laid out from a register boundary never reads from a register that is not loaded. */
  lemma {:induction false} LaidOutGood(p: Pos, off: nat, ops: seq<Op>)
    requires (p.InRegs() ==> p.groff % 8 == off % 8) && LaidOut(off, ops)
    ensures GoodOps(p, true, ops)
    decreases |ops|
  {
    hide SameReg, PadTo, Advance;
    if ops != [] {
      match ops[0]
      case Data(b) =>
        AdvanceInRegs(p, |b|);
        ModEight(p.groff, |b|);
        ModEight(off, |b|);
        LaidOutGood(Advance(p, |b|), off + |b|, ops[1..]);
      case Pad(n) =>
        var a :| a in {1, 2, 4, 8} && PadTo(off, n, a);
        PadIsGood(p, off, n, a);
        ModEight(p.groff, n);
        ModEight(off, n);
        LaidOutGood(p.Skip(n), off + n, ops[1..]);
        if !Inside(p.Skip(n)) {
          LoadedOutside(p.Skip(n), ops[1..]);
        }
    }
  }

  /** Argument lists laid out like this are good. */
  lemma {:induction false} ArgOpsGood(p: Pos, args: seq<seq<Op>>)
    requires p.groff % 8 == 0 && forall arg :: arg in args ==> LaidOut(0, arg)
    ensures GoodOps(p, true, ArgOps(args))
    decreases |args|
  {
    if args != [] {
      hide LaidOut, SameReg, Inside, Advance, Bits.Align;
      var q, rest := MoveAll(p, args[0]), ArgOps(args[1..]);
      LaidOutGood(p, 0, args[0]);
      AlignsTo8(q.groff);
      ArgOpsGood(q.Align(), args[1..]);
      assert ([Align] + rest)[1..] == rest;
      GoodOpsConcat(p, true, args[0], [Align] + rest);
    }
  }

  /** Reading two scripts one after the other, with the image the first one leaves. */
  lemma {:induction false} ReadImageConcat(
    regs: seq<seq<byte>>, mem: Mem, base: nat, p: Pos, value: seq<byte>, a: seq<Op>, b: seq<Op>)
    requires Shaped(regs, value)
    ensures ReadImage(regs, mem, base, p, value, a + b) ==
      Both(ReadImage(regs, mem, base, p, value, a),
           ReadImage(regs, mem, base, MoveAll(p, a), KeptAll(regs, p, value, a), b))
    decreases |a|
  {
    hide GetCached, Kept, Move;
    if a == [] {
      assert [] + b == b;
      var r := ReadImage(regs, mem, base, p, value, b);
      assert r.Some? ==> [] + r.value == r.value;
    } else {
      assert (a + b)[1..] == a[1..] + b;
      var v := KeptAfter(regs, p, value, a[0]);
      ReadImageConcat(regs, mem, base, Move(p, a[0]), v, a[1..], b);
      var x := ReadImage(regs, mem, base, Move(p, a[0]), v, a[1..]);
      var y := ReadImage(regs, mem, base, MoveAll(p, a), KeptAll(regs, p, value, a), b);
      if a[0].Data? && x.Some? && y.Some? {
        var h := GetCached(regs, mem, base, p, value, |a[0].bytes|);
        assert h.Some? ==> [h.value] + (x.value + y.value) == ([h.value] + x.value) + y.value;
      }
    }
  }

  function Both(a: Option<seq<seq<byte>>>, b: Option<seq<seq<byte>>>): Option<seq<seq<byte>>> {
    if a.None? || b.None? then None else Some(a.value + b.value)
  }

  function KeptAfter(regs: seq<seq<byte>>, p: Pos, value: seq<byte>, op: Op): (v: seq<byte>)
    requires Shaped(regs, value)
    ensures Shaped(regs, v)
  {
    if op.Data? then Kept(regs, p, value, |op.bytes|) else value
  }

  function KeptAll(regs: seq<seq<byte>>, p: Pos, value: seq<byte>, ops: seq<Op>): (v: seq<byte>)
    requires Shaped(regs, value)
    ensures Shaped(regs, v)
    decreases |ops|
  {
    if ops == [] then value else KeptAll(regs, Move(p, ops[0]), KeptAfter(regs, p, value, ops[0]), ops[1..])
  }

  /** The stack image never runs ahead of the stack offset. */
  lemma {:induction false} PutBound(w: Writer, b: seq<byte>)
    requires Shaped(w.regs, w.value) && |w.stack| <= w.pos.stoff
    ensures |Put(w, b).stack| <= Put(w, b).pos.stoff
    decreases |b|
  {
    if b != [] {
      PutBound(w, b[..|b| - 1]);
    }
  }

  lemma {:induction false} WriteOpsBound(w: Writer, ops: seq<Op>)
    requires Shaped(w.regs, w.value) && |w.stack| <= w.pos.stoff
    ensures |WriteOps(w, ops).stack| <= WriteOps(w, ops).pos.stoff
    decreases |ops|
  {
    if ops != [] {
      match ops[0] {
        case Data(b) =>
          if b != [] {
            PutBound(w, b);
          }
        case Pad(n) =>
        case Align => AlignBounds(w.pos.stoff, 4);
      }
      WriteOpsBound(WriteOp(w, ops[0]), ops[1..]);
    }
  }
}

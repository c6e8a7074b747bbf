/** The ARM64 argument stream as the source moves it, whole registers at a time, and the argument lists
    written to and read from it (internal/debugger/arm64/stream.go, internal/debugger/arm64/arm64.go). */
module RegStream {
  import opened CodecTypes
  import opened CodecMemory
  import opened RegStreamSpec
  import Bits
  import opened Wrappers

  /** The register context of a task, with guest memory for its stack. */
  class Context {
    var regs: seq<seq<byte>>  // X0 to X7, little-endian images
    var sp: nat
    var mem: Mem

    constructor (regs: seq<seq<byte>>, sp: nat, mem: Mem)
      ensures this.regs == regs && this.sp == sp && this.mem == mem
    {
      this.regs, this.sp, this.mem := regs, sp, mem;
    }

    /** Moves the stack pointer down by the 16-byte aligned size. */
    method StackAlloc(size: nat) returns (ok: bool)
      modifies this`sp
      ensures ok == (Bits.Align(size, 16) <= old(sp))
      ensures sp == if ok then old(sp) - Bits.Align(size, 16) else old(sp)
    {
      ok := Bits.Align(size, 16) <= sp;
      if ok {
        sp := sp - Bits.Align(size, 16);
      }
    }
  }

  /** One stream over the registers of a context; a writer spills into `buf`, a reader reads on from
      `base` in guest memory. */
  class Stream {
    const ctx: Context
    const base: nat
    var groff: nat
    var stoff: nat
    var value: seq<byte>
    var buf: seq<byte>

    constructor (ctx: Context, base: nat)
      ensures this.ctx == ctx && this.base == base
      ensures groff == 0 && stoff == 0 && value == Fill(8) && buf == []
    {
      this.ctx, this.base := ctx, base;
      groff, stoff, value, buf := 0, 0, Fill(8), [];
    }

    function State(): Writer
      reads this, ctx
    {
      Writer(ctx.regs, buf, Pos(groff, stoff), value)
    }

    method Skip(n: nat)
      modifies this`groff, this`stoff
      ensures Pos(groff, stoff) == Pos(old(groff), old(stoff)).Skip(n)
    {
      if groff < REG_BYTES {
        groff := groff + n;
      } else {
        stoff := stoff + n;
      }
    }

    method Align()
      modifies this`groff, this`stoff
      ensures Pos(groff, stoff) == Pos(old(groff), old(stoff)).Align()
    {
      stoff := Bits.Align(stoff, 4);
      groff := Bits.Align(groff, 8);
    }

    /** Writes register by register, then to the stack image: the same as byte by byte. */
    method Write(b: seq<byte>) returns (n: nat)
      requires Shaped(ctx.regs, value)
      modifies this, ctx`regs
      ensures n == |b| && State() == WriteSpec(old(State()), b) && Shaped(ctx.regs, value)
    {
      hide Put, Splice, WriteAt;
      if groff >= REG_BYTES {
        if b != [] {
          PutStack(State(), b);
        }
        buf := WriteAt(buf, b, stoff);
        stoff := stoff + |b|;
        return |b|;
      }
      ghost var w0 := State();
      var i, count := 0, groff / 8;
      if groff % 8 > 0 {
        i := if |b| < 8 - groff % 8 then |b| else 8 - groff % 8;
        StartChunk(State(), b[..i]);
        value := Splice(value, groff % 8, b[..i]);
        ctx.regs := ctx.regs[count := value];
        groff := groff + i;
        count := count + 1;
      }
      PutNothing(w0);
      while i < |b|
        invariant 0 <= i <= |b| && Shaped(ctx.regs, value)
        invariant i < |b| ==> groff % 8 == 0 && count == groff / 8
        invariant b == [] ==> State() == WriteSpec(w0, b)
        invariant b != [] ==> State() == Put(w0, b[..i])
      {
        ghost var done := b[..i];
        if groff >= REG_BYTES {
          PutStack(State(), b[i..]);
          PutConcat(w0, done, b[i..]);
          assert done + b[i..] == b;
          buf := WriteAt(buf, b[i..], stoff);
          stoff := stoff + (|b| - i);
          return |b|;
        }
        var m := if |b| - i < 8 then |b| - i else 8;
        PutChunk(State(), b[i..i + m]);
        PutConcat(w0, done, b[i..i + m]);
        assert done + b[i..i + m] == b[..i + m];
        value := Splice(value, 0, b[i..i + m]);
        ctx.regs := ctx.regs[count := value];
        i := i + m;
        groff := groff + m;
        count := count + 1;
      }
      assert b[..i] == b;
      return i;
    }

    /** Reads register by register, then from guest memory. */
    method Read(n: nat) returns (r: Option<seq<byte>>)
      requires Shaped(ctx.regs, value)
      modifies this`groff, this`stoff, this`value
      ensures r == GetCached(ctx.regs, ctx.mem, base, Pos(old(groff), old(stoff)), old(value), n)
      ensures Shaped(ctx.regs, value)
      ensures r.Some? ==> Pos(groff, stoff) == Advance(Pos(old(groff), old(stoff)), n)
      ensures r.Some? ==> value == Kept(ctx.regs, Pos(old(groff), old(stoff)), old(value), n)
    {
      hide Get, GetCached, Served, Advance, Kept;
      ghost var p := Pos(groff, stoff);
      ghost var regs, mem, v0 := ctx.regs, ctx.mem, value;
      if groff >= REG_BYTES {
        GetStack(regs, mem, base, p, n);
        CachedPlain(regs, mem, base, p, v0, n);
        KeptStays(regs, p, v0, n);
        r := CodecMemory.Read(ctx.mem, base + stoff, n);
        stoff := stoff + n;
        return;
      }
      var b: seq<byte>, count := [], groff / 8;
      if groff % 8 > 0 {
        var m := FromImage(Pos(groff, stoff), n);
        b := value[groff % 8..groff % 8 + m];
        GetChunk(regs, mem, base, p, m);
        KeptStays(regs, p, v0, m);
        groff := groff + m;
        count := count + 1;
      }
      AdvanceNone(p);
      KeptStays(regs, p, v0, 0);
      ghost var head := b;
      CachedStart(regs, mem, base, p, v0, n, head);
      while |b| < n
        invariant |head| <= |b| <= n && Shaped(ctx.regs, value) && ctx.regs == regs && ctx.mem == mem
        invariant Pos(groff, stoff) == Advance(p, |b|)
        invariant |b| < n ==> groff % 8 == 0 && count == groff / 8
        invariant Served(regs, mem, base, p, v0, n, b)
        invariant value == Kept(regs, p, v0, |b|)
      {
        ghost var q := Pos(groff, stoff);
        if groff >= REG_BYTES {
          GetStack(regs, mem, base, q, n - |b|);
          ServedLast(regs, mem, base, p, v0, n, b);
          var rest := CodecMemory.Read(ctx.mem, base + stoff, n - |b|);
          stoff := stoff + (n - |b|);
          AdvanceAdds(p, |b|, n - |b|);
          KeptPast(regs, p, v0, |b|, n);
          return if rest.None? then None else Some(b + rest.value);
        }
        value := ctx.regs[count];
        var m := if n - |b| < 8 then n - |b| else 8;
        GetChunk(regs, mem, base, q, m);
        AdvanceAdds(p, |b|, m);
        ServedMore(regs, mem, base, p, v0, n, b, value[..m]);
        KeptNext(regs, p, v0, |b|, m);
        b := b + value[..m];
        groff := groff + m;
        count := count + 1;
      }
      ServedAll(regs, mem, base, p, v0, n, b);
      return Some(b);
    }

    /** Writes a script: data, skips and alignments. */
    method WriteScript(ops: seq<Op>)
      requires Shaped(ctx.regs, value)
      modifies this, ctx`regs
      ensures Shaped(ctx.regs, value) && State() == WriteOps(old(State()), ops)
    {
      hide WriteSpec, Bits.Align;
      ghost var w0 := State();
      var i := 0;
      assert ops[0..] == ops;
      while i < |ops|
        invariant 0 <= i <= |ops| && Shaped(ctx.regs, value)
        invariant WriteOps(State(), ops[i..]) == WriteOps(w0, ops)
      {
        assert ops[i..][0] == ops[i] && ops[i..][1..] == ops[i + 1..];
        match ops[i] {
          case Data(b) =>
            var n := Write(b);
          case Pad(n) => Skip(n);
          case Align => Align();
        }
        i := i + 1;
      }
      assert ops[i..] == [];
    }

    /** Reads as much as a script has written, with its skips and alignments. */
    method ReadScript(ops: seq<Op>) returns (r: Option<seq<seq<byte>>>)
      requires Shaped(ctx.regs, value)
      modifies this`groff, this`stoff, this`value
      ensures Shaped(ctx.regs, value)
      ensures r == ReadImage(ctx.regs, ctx.mem, base, Pos(old(groff), old(stoff)), old(value), ops)
      ensures r.Some? ==> Pos(groff, stoff) == MoveAll(Pos(old(groff), old(stoff)), ops)
      ensures r.Some? ==> value == KeptAll(ctx.regs, Pos(old(groff), old(stoff)), old(value), ops)
    {
      hide GetCached, Kept, Advance, Bits.Align;
      ghost var p0, v0, regs, mem := Pos(groff, stoff), value, ctx.regs, ctx.mem;
      var got: seq<seq<byte>>, i := [], 0;
      assert ops[0..] == ops;
      ReadStart(regs, mem, base, p0, v0, ops);
      while i < |ops|
        invariant 0 <= i <= |ops| && Shaped(regs, value) && ctx.regs == regs && ctx.mem == mem
        invariant ReadImage(regs, mem, base, p0, v0, ops) ==
          Both(Some(got), ReadImage(regs, mem, base, Pos(groff, stoff), value, ops[i..]))
        invariant MoveAll(Pos(groff, stoff), ops[i..]) == MoveAll(p0, ops)
        invariant KeptAll(regs, Pos(groff, stoff), value, ops[i..]) == KeptAll(regs, p0, v0, ops)
      {
        assert ops[i..][0] == ops[i] && ops[i..][1..] == ops[i + 1..];
        match ops[i] {
          case Data(d) =>
            ReadNext(regs, mem, base, Pos(groff, stoff), value, ops[i..], got);
            var b := Read(|d|);
            if b.None? {
              return None;
            }
            got := got + [b.value];
          case Pad(n) => Skip(n);
          case Align => Align();
        }
        i := i + 1;
      }
      assert ops[i..] == [] && got + [] == got;
      return Some(got);
    }
  }

  lemma ReadStart(regs: seq<seq<byte>>, mem: Mem, base: nat, p: Pos, value: seq<byte>, ops: seq<Op>)
    requires Shaped(regs, value)
    ensures var r := ReadImage(regs, mem, base, p, value, ops); r == Both(Some([]), r)
  {
    var r := ReadImage(regs, mem, base, p, value, ops);
    assert r.Some? ==> [] + r.value == r.value;
  }

  lemma ReadNext(regs: seq<seq<byte>>, mem: Mem, base: nat, p: Pos, value: seq<byte>, ops: seq<Op>, got: seq<seq<byte>>)
    requires Shaped(regs, value) && ops != [] && ops[0].Data?
    ensures var n := |ops[0].bytes|;
      var b := GetCached(regs, mem, base, p, value, n);
      var next := ReadImage(regs, mem, base, Advance(p, n), Kept(regs, p, value, n), ops[1..]);
      Both(Some(got), ReadImage(regs, mem, base, p, value, ops)) ==
        if b.None? then None else Both(Some(got + [b.value]), next)
  {
    hide GetCached, Kept, Advance;
    var n := |ops[0].bytes|;
    var b := GetCached(regs, mem, base, p, value, n);
    var next := ReadImage(regs, mem, base, Advance(p, n), Kept(regs, p, value, n), ops[1..]);
    if b.Some? && next.Some? {
      assert got + ([b.value] + next.value) == (got + [b.value]) + next.value;
    }
  }

  /** Nothing read from a new register: the image stays. */
  lemma KeptStays(regs: seq<seq<byte>>, p: Pos, value: seq<byte>, n: nat)
    requires Shaped(regs, value)
    requires !p.InRegs() || n == 0 || (p.groff % 8 > 0 && n <= 8 - p.groff % 8)
    ensures Kept(regs, p, value, n) == value
  {
    if p.InRegs() && n > 0 {
      SameRegister(p.groff, n - 1);
    }
  }

  /** Another chunk, from the start of a register: that register's image is kept. */
  lemma KeptNext(regs: seq<seq<byte>>, p: Pos, value: seq<byte>, n: nat, m: nat)
    requires Shaped(regs, value) && 0 < m <= 8 && Advance(p, n).InRegs() && Advance(p, n).groff % 8 == 0
    requires p.InRegs()
    ensures Kept(regs, p, value, n + m) == regs[Advance(p, n).groff / 8]
  {
    AdvanceInRegs(p, n);
    var q := p.groff + n;
    SameRegister(q, m - 1);
  }

  /** Reading on from the stack: the image stays. */
  lemma KeptPast(regs: seq<seq<byte>>, p: Pos, value: seq<byte>, n: nat, n': nat)
    requires Shaped(regs, value) && p.InRegs() && !Advance(p, n).InRegs() && n <= n'
    ensures Kept(regs, p, value, n') == Kept(regs, p, value, n)
  {
    AdvanceInRegs(p, n);
  }

  lemma AdvanceNone(p: Pos)
    ensures Advance(p, 0) == p
  {
  }

  lemma PutNothing(w: Writer)
    requires Shaped(w.regs, w.value)
    ensures Put(w, []) == w
    ensures w.pos.InRegs() && w.pos.groff % 8 == 0 ==> WriteSpec(w, []) == w
  {
  }

  /** The partial register at the start of a write. */
  lemma StartChunk(w: Writer, b: seq<byte>)
    requires Shaped(w.regs, w.value) && w.pos.InRegs() && w.pos.groff % 8 > 0 && |b| <= 8 - w.pos.groff % 8
    ensures var v := Splice(w.value, w.pos.groff % 8, b);
      var w' := w.(value := v, regs := w.regs[w.pos.groff / 8 := v], pos := Pos(w.pos.groff + |b|, w.pos.stoff));
      w' == if b == [] then WriteSpec(w, []) else Put(w, b)
  {
    if b == [] {
      SpliceSnoc(w.value, w.pos.groff % 8, [0]);
    } else {
      PutChunk(w, b);
    }
  }

  /** A read of `n` bytes has produced `b` so far; what is still to come starts at the next position. */
  ghost predicate Served(regs: seq<seq<byte>>, mem: Mem, base: nat, p: Pos, value: seq<byte>, n: nat, b: seq<byte>)
    requires Shaped(regs, value) && |b| <= n
  {
    GetCached(regs, mem, base, p, value, n) ==
      match Get(regs, mem, base, Advance(p, |b|), n - |b|)
      case None => None
      case Some(rest) => Some(b + rest)
  }

  lemma CachedPlain(regs: seq<seq<byte>>, mem: Mem, base: nat, p: Pos, value: seq<byte>, n: nat)
    requires Shaped(regs, value) && !(p.InRegs() && p.groff % 8 > 0)
    ensures GetCached(regs, mem, base, p, value, n) == Get(regs, mem, base, p, n)
  {
  }

  lemma CachedStart(
    regs: seq<seq<byte>>, mem: Mem, base: nat, p: Pos, value: seq<byte>, n: nat, head: seq<byte>)
    requires Shaped(regs, value)
    requires var k := p.groff % 8;
      head == if p.InRegs() && k > 0 then value[k..k + FromImage(p, n)] else []
    ensures |head| <= n && Served(regs, mem, base, p, value, n, head)
  {
    if !(p.InRegs() && p.groff % 8 > 0) {
      var r := Get(regs, mem, base, p, n);
      assert Advance(p, 0) == p;
      assert r.Some? ==> [] + r.value == r.value;
    }
  }

  lemma ServedMore(
    regs: seq<seq<byte>>, mem: Mem, base: nat, p: Pos, value: seq<byte>, n: nat, b: seq<byte>, c: seq<byte>)
    requires Shaped(regs, value) && |b| + |c| <= n && Served(regs, mem, base, p, value, n, b)
    requires Get(regs, mem, base, Advance(p, |b|), |c|) == Some(c)
    ensures Served(regs, mem, base, p, value, n, b + c)
  {
    hide Get, GetCached;
    GetConcat(regs, mem, base, Advance(p, |b|), |c|, n - |b| - |c|);
    AdvanceAdds(p, |b|, |c|);
    var r := Get(regs, mem, base, Advance(p, |b| + |c|), n - |b| - |c|);
    assert r.Some? ==> b + (c + r.value) == (b + c) + r.value;
  }

  lemma ServedLast(regs: seq<seq<byte>>, mem: Mem, base: nat, p: Pos, value: seq<byte>, n: nat, b: seq<byte>)
    requires Shaped(regs, value) && |b| <= n && Served(regs, mem, base, p, value, n, b)
    ensures GetCached(regs, mem, base, p, value, n) ==
      (match Get(regs, mem, base, Advance(p, |b|), n - |b|)
       case None => None
       case Some(rest) => Some(b + rest))
  {
  }

  lemma ServedAll(regs: seq<seq<byte>>, mem: Mem, base: nat, p: Pos, value: seq<byte>, n: nat, b: seq<byte>)
    requires Shaped(regs, value) && |b| == n && Served(regs, mem, base, p, value, n, b)
    ensures GetCached(regs, mem, base, p, value, n) == Some(b)
  {
    assert b + [] == b;
  }

  // ----- argument lists

  /** Puts what did not fit the registers into a new stack area. */
  method Spill(ctx: Context, stream: Stream) returns (ok: bool)
    requires stream.ctx == ctx && |stream.buf| <= stream.stoff
    modifies ctx`sp, ctx`mem
    ensures ok <==> stream.stoff == 0 || HasRoom(old(ctx.mem), old(ctx.sp), old(stream.State()))
    ensures ok ==> Holds(ctx.mem, ctx.sp, stream.buf)
    ensures ctx.sp == SpAfter(old(ctx.sp), stream.stoff)
    ensures ctx.mem == if ok && stream.stoff != 0 then Store(old(ctx.mem), ctx.sp, stream.buf) else old(ctx.mem)
  {
    if stream.stoff == 0 {
      return true;
    }
    ok := ctx.StackAlloc(stream.stoff);
    if !ok || !Mapped(ctx.mem, ctx.sp, |stream.buf|) {
      return false;
    }
    ctx.mem := Store(ctx.mem, ctx.sp, stream.buf);
  }

  /** The stack pointer below an area of the given size, if there is one and it can be had. */
  function SpAfter(sp: nat, size: nat): nat {
    if size == 0 || Bits.Align(size, 16) > sp then sp else sp - Bits.Align(size, 16)
  }

  /** The arguments that spill fit below the stack pointer, in mapped memory. */
  predicate HasRoom(mem: Mem, sp: nat, end: Writer) {
    var size := Bits.Align(end.pos.stoff, 16);
    size <= sp && Mapped(mem, sp - size, |end.stack|)
  }

  lemma NoArgs(w: Writer)
    requires Shaped(w.regs, w.value)
    ensures WriteOps(w, ArgOps([])) == w
  {
  }

  lemma ArgNext(w: Writer, args: seq<seq<Op>>)
    requires Shaped(w.regs, w.value) && args != []
    ensures var w1 := WriteOps(w, args[0]);
      WriteOps(w, ArgOps(args)) == WriteOps(w1.(pos := w1.pos.Align()), ArgOps(args[1..]))
  {
    hide WriteSpec, Bits.Align;
    var rest := ArgOps(args[1..]);
    WriteOpsConcat(w, args[0], [Op.Align] + rest);
    assert ([Op.Align] + rest)[1..] == rest;
  }

  lemma ReadNothing(regs: seq<seq<byte>>, mem: Mem, base: nat, p: Pos, value: seq<byte>)
    requires Shaped(regs, value)
    ensures ReadImage(regs, mem, base, p, value, ArgOps([])) == Some([])
  {
  }

  lemma ArgReadNext(
    regs: seq<seq<byte>>, mem: Mem, base: nat, p: Pos, value: seq<byte>, args: seq<seq<Op>>, got: seq<seq<byte>>)
    requires Shaped(regs, value) && args != []
    ensures var b := ReadImage(regs, mem, base, p, value, args[0]);
      var next := ReadImage(regs, mem, base, MoveAll(p, args[0]).Align(), KeptAll(regs, p, value, args[0]),
                            ArgOps(args[1..]));
      Both(Some(got), ReadImage(regs, mem, base, p, value, ArgOps(args))) ==
        if b.None? then None else Both(Some(got + b.value), next)
  {
    hide GetCached, Kept, Advance, MoveAll, KeptAll, Bits.Align;
    var rest := ArgOps(args[1..]);
    ReadImageConcat(regs, mem, base, p, value, args[0], [Op.Align] + rest);
    assert ([Op.Align] + rest)[1..] == rest;
    var b := ReadImage(regs, mem, base, p, value, args[0]);
    var next := ReadImage(regs, mem, base, MoveAll(p, args[0]).Align(), KeptAll(regs, p, value, args[0]), rest);
    if b.Some? && next.Some? {
      assert got + (b.value + next.value) == (got + b.value) + next.value;
    }
  }

  /** A script written by one stream and, once its stack image is in place, read by another: what was
      written comes back, whatever the chunks, if no skip ends inside a register that is not loaded. */
  method ScriptThereAndBack(ctx: Context, base: nat, ops: seq<Op>) returns (ok: bool, r: Option<seq<seq<byte>>>)
    requires Shaped(ctx.regs, Fill(8))
    modifies ctx
    ensures Shaped(ctx.regs, Fill(8))
    ensures var end := WriteOps(Writer(old(ctx.regs), [], Pos(0, 0), Fill(8)), ops);
      ctx.regs == end.regs && ok == Mapped(old(ctx.mem), base, |end.stack|)
    ensures ok ==> r == ReadImage(ctx.regs, ctx.mem, base, Pos(0, 0), Fill(8), ops)
    ensures ok && GoodOps(Pos(0, 0), true, ops) ==> r == Some(DataOf(ops))
  {
    hide WriteOps, ReadOps, ReadImage, GoodOps;
    var out := new Stream(ctx, 0);
    ghost var w0 := out.State();
    out.WriteScript(ops);
    ok, r := Mapped(ctx.mem, base, |out.buf|), None;
    if ok {
      ctx.mem := Store(ctx.mem, base, out.buf);
      var in_ := new Stream(ctx, base);
      r := in_.ReadScript(ops);
      if GoodOps(Pos(0, 0), true, ops) {
        ScriptRoundTrip(w0, true, ops, ctx.mem, base);
        GoodReadIsFlat(ctx.regs, ctx.mem, base, Pos(0, 0), Fill(8), true, ops);
      }
    }
  }
}

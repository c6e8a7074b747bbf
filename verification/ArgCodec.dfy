/** Arguments of any flat type written to and read from the ARM64 argument stream by the handlers of their
    types (package encoding over internal/debugger/arm64/stream.go). */
module ArgCodec {
  import Bits
  import opened Wrappers
  import opened CodecTypes
  import opened CodecLayout
  import opened CodecMemory
  import opened CodecDecode
  import opened RegStreamSpec
  import opened RegStreamExact
  import opened RegStream
  import opened ArgScripts

  // ----- encoding

  /** The encode handler of type `t` on the stream. */
  method EncodeArg(stream: Stream, t: Ty, v: Value)
    requires Shaped(stream.ctx.regs, stream.value) && Wf(t, HOST_WORD) && Flat(t) && Typed(t, v, HOST_WORD)
    modifies stream, stream.ctx`regs
    ensures Shaped(stream.ctx.regs, stream.value)
    ensures stream.State() == WriteOps(old(stream.State()), Script(t, v))
    decreases t, 3, 0
  {
    hide Wf, Typed, WriteSpec;
    TypeFacts(t, v);
    match t
    case Array(e, c) =>
      if Custom(e, HOST_WORD) {
        EncodeArgElems(stream, e, v.elems);
      } else {
        EncodeArgImage(stream, v.bytes);
      }
    case Struct(fs, n) =>
      if Raw(fs, HOST_WORD) {
        EncodeArgImage(stream, v.bytes);
      } else {
        EncodeArgStruct(stream, t, v);
      }
    case Scalar(_) => EncodeArgImage(stream, v.bytes);
    case Word => EncodeArgImage(stream, v.bytes);
    case _ =>
  }

  lemma TypeFacts(t: Ty, v: Value)
    requires Wf(t, HOST_WORD) && Flat(t) && Typed(t, v, HOST_WORD)
    ensures t.Scalar? || t.Word? ==> v.VBytes?
    ensures t.Array? ==> Wf(t.elem, HOST_WORD) && Flat(t.elem)
    ensures t.Array? && Custom(t.elem, HOST_WORD) ==>
      v.VSeq? && |v.elems| == t.count && forall x :: x in v.elems ==> Typed(t.elem, x, HOST_WORD)
    ensures t.Array? && !Custom(t.elem, HOST_WORD) ==> v.VBytes? && |v.bytes| == Times(t.count, HostSize(t.elem))
    ensures t.Struct? && Raw(t.fields, HOST_WORD) ==> v.VBytes? && |v.bytes| == t.hostSize
    ensures t.Struct? && !Raw(t.fields, HOST_WORD) ==>
      v.VSeq? && |v.elems| == |t.fields|
      && forall i :: 0 <= i < |v.elems| ==> Typed(t.fields[i].ty, v.elems[i], HOST_WORD)
  {
  }

  method EncodeArgImage(stream: Stream, b: seq<byte>)
    requires Shaped(stream.ctx.regs, stream.value)
    modifies stream, stream.ctx`regs
    ensures Shaped(stream.ctx.regs, stream.value)
    ensures stream.State() == WriteOps(old(stream.State()), [Data(b)])
  {
    hide WriteSpec;
    ghost var w := stream.State();
    assert [Data(b)][1..] == [] && WriteOps(WriteOp(w, Data(b)), []) == WriteOp(w, Data(b));
    var n := stream.Write(b);
  }

  method EncodeArgElems(stream: Stream, e: Ty, vs: seq<Value>)
    requires Shaped(stream.ctx.regs, stream.value) && Wf(e, HOST_WORD) && Flat(e)
    requires forall v :: v in vs ==> Typed(e, v, HOST_WORD)
    modifies stream, stream.ctx`regs
    ensures Shaped(stream.ctx.regs, stream.value)
    ensures stream.State() == WriteOps(old(stream.State()), ScriptSeq(e, vs))
    decreases e, 4, 0
  {
    hide Wf, Typed, Script, WriteOp;
    ghost var w0 := stream.State();
    var i := 0;
    assert vs[0..] == vs;
    while i < |vs|
      invariant 0 <= i <= |vs| && Shaped(stream.ctx.regs, stream.value)
      invariant WriteOps(stream.State(), ScriptSeq(e, vs[i..])) == WriteOps(w0, ScriptSeq(e, vs))
    {
      assert vs[i..][0] == vs[i] && vs[i..][1..] == vs[i + 1..];
      WriteOpsConcat(stream.State(), Script(e, vs[i]), ScriptSeq(e, vs[i + 1..]));
      EncodeArg(stream, e, vs[i]);
      i := i + 1;
    }
    assert vs[i..] == [];
  }

  /** The pad of a field or a tail; the source skips only if there is one. */
  method EncodeArgPad(stream: Stream, n: nat)
    requires Shaped(stream.ctx.regs, stream.value)
    modifies stream`groff, stream`stoff
    ensures stream.State() == WriteOps(old(stream.State()), PadOp(n))
  {
    ghost var w := stream.State();
    assert n > 0 ==> [Pad(n)][1..] == [] && WriteOps(WriteOp(w, Pad(n)), []) == WriteOp(w, Pad(n));
    if n > 0 {
      stream.Skip(n);
    }
  }

  method EncodeArgStruct(stream: Stream, t: Ty, v: Value)
    requires t.Struct? && !Raw(t.fields, HOST_WORD)
    requires Shaped(stream.ctx.regs, stream.value) && Wf(t, HOST_WORD) && Flat(t) && Typed(t, v, HOST_WORD)
    modifies stream, stream.ctx`regs
    ensures Shaped(stream.ctx.regs, stream.value)
    ensures stream.State() == WriteOps(old(stream.State()), Script(t, v))
    decreases t, 2, 0
  {
    hide Wf, Typed, WriteOps, FieldSizes, ScriptFields, PadOp;
    TypeFacts(t, v);
    TailNotNegative(t);
    ghost var w0 := stream.State();
    EncodeArgFields(stream, t, v.elems);
    EncodeArgPad(stream, TailPad(FieldSizes(t, HOST_WORD, |t.fields|)));
    WriteOpsConcat(w0, ScriptFields(t, v.elems, 0), PadOp(TailPad(FieldSizes(t, HOST_WORD, |t.fields|))));
  }

  lemma TailNotNegative(t: Ty)
    requires t.Struct? && Wf(t, HOST_WORD)
    ensures TailPad(FieldSizes(t, HOST_WORD, |t.fields|)) >= 0
  {
    FieldSizesPositive(t, HOST_WORD, |t.fields|);
    TailSum(FieldSizes(t, HOST_WORD, |t.fields|));
  }

  method EncodeArgFields(stream: Stream, t: Ty, vs: seq<Value>)
    requires t.Struct? && Shaped(stream.ctx.regs, stream.value) && Wf(t, HOST_WORD) && Flat(t) && |vs| == |t.fields|
    requires forall j :: 0 <= j < |vs| ==> Typed(t.fields[j].ty, vs[j], HOST_WORD)
    modifies stream, stream.ctx`regs
    ensures Shaped(stream.ctx.regs, stream.value)
    ensures stream.State() == WriteOps(old(stream.State()), ScriptFields(t, vs, 0))
    decreases t, 1, 0
  {
    hide Wf, Typed, Script, WriteOp, PadOp, PadBefore, FieldSizes;
    ghost var w0 := stream.State();
    var i := 0;
    while i < |vs|
      invariant 0 <= i <= |vs| && Shaped(stream.ctx.regs, stream.value)
      invariant WriteOps(stream.State(), ScriptFields(t, vs, i)) == WriteOps(w0, ScriptFields(t, vs, 0))
    {
      var f := t.fields[i];
      if !f.ignore {
        assert f in t.fields;
        FieldWf(t, HOST_WORD, i);
        SumNext(t, i);
        ghost var w := stream.State();
        ghost var pad, s, rest := PadOp(PadBefore(t, HOST_WORD, i)), Script(f.ty, vs[i]), ScriptFields(t, vs, i + 1);
        WriteOpsConcat(w, pad, s + rest);
        WriteOpsConcat(WriteOps(w, pad), s, rest);
        EncodeArgPad(stream, PadBefore(t, HOST_WORD, i));
        EncodeArg(stream, f.ty, vs[i]);
      }
      i := i + 1;
    }
  }

  // ----- decoding

  /** A decode handler has read `ops` and got the values with these data, or failed. */
  ghost predicate Decoded(
    regs: seq<seq<byte>>, mem: Mem, base: nat, p: Pos, image: seq<byte>, ops: seq<Op>, ok: bool, data: seq<seq<byte>>,
    p': Pos, image': seq<byte>)
    requires Shaped(regs, image)
  {
    && ReadImage(regs, mem, base, p, image, ops) == (if ok then Some(data) else None)
    && (ok ==> p' == MoveAll(p, ops) && image' == KeptAll(regs, p, image, ops))
  }

  /** The decode handler of type `t`; `w` is what the destination holds so far.  What it returns has the
      data that the script of the type reads, and agrees with `w` on ignored fields. */
  method DecodeArg(stream: Stream, t: Ty, w: Value) returns (r: Option<Value>)
    requires Shaped(stream.ctx.regs, stream.value) && Wf(t, HOST_WORD) && Flat(t) && Typed(t, w, HOST_WORD)
    modifies stream`groff, stream`stoff, stream`value
    ensures Shaped(stream.ctx.regs, stream.value)
    ensures r.Some? ==> Typed(t, r.value, HOST_WORD) && Fits(t, r.value, w, HOST_WORD)
    ensures Decoded(stream.ctx.regs, stream.ctx.mem, stream.base, old(stream.State().pos), old(stream.value),
                    Script(t, w), r.Some?, if r.Some? then DataOf(Script(t, r.value)) else [],
                    stream.State().pos, stream.value)
    decreases t, 3, 0
  {
    hide Wf, ReadImage, KeptAll, MoveAll;
    TypeFacts(t, w);
    match t
    case Array(e, c) =>
      if Custom(e, HOST_WORD) {
        var vs := DecodeArgElems(stream, e, w.elems);
        r := if vs.None? then None else Some(VSeq(vs.value));
      } else {
        r := DecodeArgImage(stream, w.bytes);
      }
    case Struct(fs, n) =>
      if Raw(fs, HOST_WORD) {
        r := DecodeArgImage(stream, w.bytes);
      } else {
        r := DecodeArgStruct(stream, t, w);
      }
    case Scalar(_) => r := DecodeArgImage(stream, w.bytes);
    case Word => r := DecodeArgImage(stream, w.bytes);
    case _ => r := None;
  }

  method DecodeArgImage(stream: Stream, w: seq<byte>) returns (r: Option<Value>)
    requires Shaped(stream.ctx.regs, stream.value)
    modifies stream`groff, stream`stoff, stream`value
    ensures Shaped(stream.ctx.regs, stream.value)
    ensures r.Some? ==> r.value.VBytes? && |r.value.bytes| == |w|
    ensures Decoded(stream.ctx.regs, stream.ctx.mem, stream.base, old(stream.State().pos), old(stream.value),
                    [Data(w)], r.Some?, if r.Some? then DataOf([Data(r.value.bytes)]) else [],
                    stream.State().pos, stream.value)
  {
    hide Kept, Advance;
    ReadOne(stream.ctx.regs, stream.ctx.mem, stream.base, stream.State().pos, stream.value, w);
    CachedLength(stream.ctx.regs, stream.ctx.mem, stream.base, stream.State().pos, stream.value, |w|);
    hide GetCached, ReadImage;
    var b := stream.Read(|w|);
    if b.None? {
      return None;
    }
    ImageData(b.value);
    return Some(VBytes(b.value));
  }

  lemma CachedLength(regs: seq<seq<byte>>, mem: Mem, base: nat, p: Pos, value: seq<byte>, n: nat)
    requires Shaped(regs, value)
    ensures var b := GetCached(regs, mem, base, p, value, n); b.Some? ==> |b.value| == n
  {
    hide Get, Advance;
  }

  lemma ReadOne(regs: seq<seq<byte>>, mem: Mem, base: nat, p: Pos, value: seq<byte>, w: seq<byte>)
    requires Shaped(regs, value)
    ensures var b := GetCached(regs, mem, base, p, value, |w|);
      ReadImage(regs, mem, base, p, value, [Data(w)]) == if b.None? then None else Some([b.value])
    ensures MoveAll(p, [Data(w)]) == Advance(p, |w|) && KeptAll(regs, p, value, [Data(w)]) == Kept(regs, p, value, |w|)
  {
    hide GetCached, Kept, Advance;
    assert [Data(w)][1..] == [];
    var b := GetCached(regs, mem, base, p, value, |w|);
    assert b.Some? ==> [b.value] + [] == [b.value];
  }

  /** Reading `a`, then `b`. */
  lemma DecodedThen(
    regs: seq<seq<byte>>, mem: Mem, base: nat, p: Pos, image: seq<byte>, a: seq<Op>, b: seq<Op>,
    data: seq<seq<byte>>, p1: Pos, image1: seq<byte>, ok: bool, data2: seq<seq<byte>>, p2: Pos, image2: seq<byte>)
    requires Shaped(regs, image) && Shaped(regs, image1)
    requires Decoded(regs, mem, base, p, image, a, true, data, p1, image1)
    requires Decoded(regs, mem, base, p1, image1, b, ok, data2, p2, image2)
    ensures Decoded(regs, mem, base, p, image, a + b, ok, data + data2, p2, image2)
  {
    hide ReadImage, MoveAll, KeptAll;
    ReadImageConcat(regs, mem, base, p, image, a, b);
    MoveConcat(regs, p, image, a, b);
  }

  lemma DecodedFails(
    regs: seq<seq<byte>>, mem: Mem, base: nat, p: Pos, image: seq<byte>, a: seq<Op>, b: seq<Op>,
    d: seq<seq<byte>>, d': seq<seq<byte>>, p': Pos, image': seq<byte>)
    requires Shaped(regs, image) && Decoded(regs, mem, base, p, image, a, false, d, p', image')
    ensures Decoded(regs, mem, base, p, image, a + b, false, d', p', image')
  {
    hide ReadImage, MoveAll, KeptAll;
    ReadImageConcat(regs, mem, base, p, image, a, b);
  }

  lemma {:induction false} MoveConcat(regs: seq<seq<byte>>, p: Pos, value: seq<byte>, a: seq<Op>, b: seq<Op>)
    requires Shaped(regs, value)
    ensures MoveAll(p, a + b) == MoveAll(MoveAll(p, a), b)
    ensures KeptAll(regs, p, value, a + b) == KeptAll(regs, MoveAll(p, a), KeptAll(regs, p, value, a), b)
    decreases |a|
  {
    hide Move, KeptAfter;
    if a == [] {
      assert [] + b == b;
    } else {
      assert (a + b)[1..] == a[1..] + b;
      MoveConcat(regs, Move(p, a[0]), KeptAfter(regs, p, value, a[0]), a[1..], b);
    }
  }

  lemma DecodedNone(regs: seq<seq<byte>>, mem: Mem, base: nat, p: Pos, image: seq<byte>)
    requires Shaped(regs, image)
    ensures Decoded(regs, mem, base, p, image, [], true, [], p, image)
  {
  }

  lemma DecodedPad(regs: seq<seq<byte>>, mem: Mem, base: nat, p: Pos, image: seq<byte>, n: nat)
    requires Shaped(regs, image)
    ensures Decoded(regs, mem, base, p, image, PadOp(n), true, [], if n > 0 then p.Skip(n) else p, image)
  {
    assert n > 0 ==> [Pad(n)][1..] == [];
  }

  lemma ScriptSeqSnoc(e: Ty, vs: seq<Value>, x: Value)
    requires Flat(e) && Typed(e, x, HOST_WORD) && forall v :: v in vs ==> Typed(e, v, HOST_WORD)
    ensures (forall v :: v in vs + [x] ==> Typed(e, v, HOST_WORD))
    ensures ScriptSeq(e, vs + [x]) == ScriptSeq(e, vs) + Script(e, x)
  {
    hide Typed, Script;
    ScriptSeqSplit(e, vs, [x]);
    assert [x][1..] == [] && ScriptSeq(e, [x]) == Script(e, x) + [] == Script(e, x);
  }

  lemma {:induction false} ScriptSeqSplit(e: Ty, vs: seq<Value>, ws: seq<Value>)
    requires Flat(e)
    requires (forall v :: v in vs ==> Typed(e, v, HOST_WORD)) && forall w :: w in ws ==> Typed(e, w, HOST_WORD)
    ensures forall v :: v in vs + ws ==> Typed(e, v, HOST_WORD)
    ensures ScriptSeq(e, vs + ws) == ScriptSeq(e, vs) + ScriptSeq(e, ws)
    decreases |vs|
  {
    hide Typed, Script;
    if vs == [] {
      assert [] + ws == ws && [] + ScriptSeq(e, ws) == ScriptSeq(e, ws);
    } else {
      assert (vs + ws)[1..] == vs[1..] + ws;
      ScriptSeqSplit(e, vs[1..], ws);
      Assoc(Script(e, vs[0]), ScriptSeq(e, vs[1..]), ScriptSeq(e, ws));
    }
  }

  method DecodeArgElems(stream: Stream, e: Ty, ws: seq<Value>) returns (r: Option<seq<Value>>)
    requires Shaped(stream.ctx.regs, stream.value) && Wf(e, HOST_WORD) && Flat(e)
    requires forall w :: w in ws ==> Typed(e, w, HOST_WORD)
    modifies stream`groff, stream`stoff, stream`value
    ensures Shaped(stream.ctx.regs, stream.value)
    ensures r.Some? ==>
      && |r.value| == |ws| && (forall v :: v in r.value ==> Typed(e, v, HOST_WORD))
      && (forall i :: 0 <= i < |ws| ==> Fits(e, r.value[i], ws[i], HOST_WORD))
    ensures Decoded(stream.ctx.regs, stream.ctx.mem, stream.base, old(stream.State().pos), old(stream.value),
                    ScriptSeq(e, ws), r.Some?, if r.Some? then DataOf(ScriptSeq(e, r.value)) else [],
                    stream.State().pos, stream.value)
    decreases e, 4, 0
  {
    hide Wf, Typed, Fits, Script, ScriptSeq, Decoded, DataOf;
    ghost var regs, mem, base, p0, v0 := stream.ctx.regs, stream.ctx.mem, stream.base, stream.State().pos, stream.value;
    var vs: seq<Value>, i := [], 0;
    NoElems(regs, mem, base, p0, v0, e, ws);
    while i < |ws|
      invariant 0 <= i <= |ws| && |vs| == i && Shaped(regs, stream.value)
      invariant stream.ctx.regs == regs && stream.ctx.mem == mem
      invariant forall v :: v in vs ==> Typed(e, v, HOST_WORD)
      invariant forall j :: 0 <= j < i ==> Fits(e, vs[j], ws[j], HOST_WORD)
      invariant Decoded(regs, mem, base, p0, v0, ScriptSeq(e, ws[..i]), true, DataOf(ScriptSeq(e, vs)),
                        stream.State().pos, stream.value)
    {
      ghost var p1, v1 := stream.State().pos, stream.value;
      ScriptSeqSnoc(e, ws[..i], ws[i]);
      assert ws[..i] + [ws[i]] == ws[..i + 1];
      var x := DecodeArg(stream, e, ws[i]);
      DecodedThen(regs, mem, base, p0, v0, ScriptSeq(e, ws[..i]), Script(e, ws[i]), DataOf(ScriptSeq(e, vs)), p1, v1,
                  x.Some?, if x.Some? then DataOf(Script(e, x.value)) else [], stream.State().pos, stream.value);
      if x.None? {
        ScriptSeqSplit(e, ws[..i + 1], ws[i + 1..]);
        assert ws[..i + 1] + ws[i + 1..] == ws;
        DecodedFails(regs, mem, base, p0, v0, ScriptSeq(e, ws[..i + 1]), ScriptSeq(e, ws[i + 1..]),
                     DataOf(ScriptSeq(e, vs)) + [], [], stream.State().pos, stream.value);
        return None;
      }
      ScriptSeqSnoc(e, vs, x.value);
      DataConcat(ScriptSeq(e, vs), Script(e, x.value));
      vs := vs + [x.value];
      i := i + 1;
    }
    assert ws[..i] == ws;
    return Some(vs);
  }

  lemma NoElems(regs: seq<seq<byte>>, mem: Mem, base: nat, p: Pos, image: seq<byte>, e: Ty, ws: seq<Value>)
    requires Shaped(regs, image) && Flat(e) && forall w :: w in ws ==> Typed(e, w, HOST_WORD)
    ensures Decoded(regs, mem, base, p, image, ScriptSeq(e, ws[..0]), true, DataOf(ScriptSeq(e, [])), p, image)
  {
  }

  method DecodeArgStruct(stream: Stream, t: Ty, w: Value) returns (r: Option<Value>)
    requires t.Struct? && !Raw(t.fields, HOST_WORD)
    requires Shaped(stream.ctx.regs, stream.value) && Wf(t, HOST_WORD) && Flat(t) && Typed(t, w, HOST_WORD)
    modifies stream`groff, stream`stoff, stream`value
    ensures Shaped(stream.ctx.regs, stream.value)
    ensures r.Some? ==> Typed(t, r.value, HOST_WORD) && Fits(t, r.value, w, HOST_WORD)
    ensures Decoded(stream.ctx.regs, stream.ctx.mem, stream.base, old(stream.State().pos), old(stream.value),
                    Script(t, w), r.Some?, if r.Some? then DataOf(Script(t, r.value)) else [],
                    stream.State().pos, stream.value)
    decreases t, 2, 0
  {
    hide Wf, FieldSizes, ScriptFields, PadOp, Decoded, DataOf;
    TypeFacts(t, w);
    TailNotNegative(t);
    ghost var regs, mem, base, p0, v0 := stream.ctx.regs, stream.ctx.mem, stream.base, stream.State().pos, stream.value;
    var vs := DecodeArgFields(stream, t, w.elems);
    var n := TailPad(FieldSizes(t, HOST_WORD, |t.fields|));
    if vs.None? {
      DecodedFails(regs, mem, base, p0, v0, ScriptFields(t, w.elems, 0), PadOp(n), [], [],
                   stream.State().pos, stream.value);
      return None;
    }
    ghost var p1, v1 := stream.State().pos, stream.value;
    DecodedPad(regs, mem, base, p1, v1, n);
    DecodedThen(regs, mem, base, p0, v0, ScriptFields(t, w.elems, 0), PadOp(n),
                DataOf(ScriptFields(t, vs.value, 0)), p1, v1, true, [], if n > 0 then p1.Skip(n) else p1, v1);
    if n > 0 {
      stream.Skip(n);
    }
    PadData(n);
    DataConcat(ScriptFields(t, vs.value, 0), PadOp(n));
    return Some(VSeq(vs.value));
  }

  /** The data of the first fields, as far as they have been decoded. */
  ghost function FieldData(t: Ty, vs: seq<Value>): seq<seq<byte>>
    requires t.Struct? && Flat(t) && |vs| <= |t.fields|
    requires forall j :: 0 <= j < |vs| ==> Typed(t.fields[j].ty, vs[j], HOST_WORD)
    decreases |vs|
  {
    if vs == [] then []
    else
      var n := |vs| - 1;
      assert t.fields[n] in t.fields;
      FieldData(t, vs[..n]) + if t.fields[n].ignore then [] else DataOf(Script(t.fields[n].ty, vs[n]))
  }

  lemma {:induction false} FieldDataAll(t: Ty, vs: seq<Value>, i: nat)
    requires t.Struct? && Flat(t) && i <= |vs| == |t.fields|
    requires forall j :: 0 <= j < |vs| ==> Typed(t.fields[j].ty, vs[j], HOST_WORD)
    ensures FieldData(t, vs) == FieldData(t, vs[..i]) + DataOf(ScriptFields(t, vs, i))
    decreases |vs| - i
  {
    hide Typed, Script, ScriptFields, DataOf, FieldData;
    if i == |vs| {
      NoFieldData(t, vs);
      assert vs[..i] == vs && FieldData(t, vs) + [] == FieldData(t, vs);
    } else {
      FieldDataAll(t, vs, i + 1);
      FieldDataSplits(t, vs, i);
      assert vs[..i + 1] == vs[..i] + [vs[i]];
      FieldDataSnoc(t, vs[..i], vs[i]);
      if !t.fields[i].ignore {
        Assoc(FieldData(t, vs[..i]), DataOf(Script(t.fields[i].ty, vs[i])), DataOf(ScriptFields(t, vs, i + 1)));
      }
    }
  }

  lemma NoFieldData(t: Ty, vs: seq<Value>)
    requires t.Struct? && Flat(t) && |vs| == |t.fields|
    requires forall j :: 0 <= j < |vs| ==> Typed(t.fields[j].ty, vs[j], HOST_WORD)
    ensures DataOf(ScriptFields(t, vs, |vs|)) == []
  {
  }

  /** What is still to be read of a struct from field `i` on. */
  ghost predicate FieldsLeft(
    regs: seq<seq<byte>>, mem: Mem, base: nat, p0: Pos, v0: seq<byte>, t: Ty, ws: seq<Value>, i: nat,
    data: seq<seq<byte>>, p: Pos, v: seq<byte>)
    requires t.Struct? && Flat(t) && i <= |ws| == |t.fields| && Shaped(regs, v0) && Shaped(regs, v)
    requires forall j :: 0 <= j < |ws| ==> Typed(t.fields[j].ty, ws[j], HOST_WORD)
  {
    var all, rest := ScriptFields(t, ws, 0), ScriptFields(t, ws, i);
    && ReadImage(regs, mem, base, p0, v0, all) == Both(Some(data), ReadImage(regs, mem, base, p, v, rest))
    && MoveAll(p0, all) == MoveAll(p, rest) && KeptAll(regs, p0, v0, all) == KeptAll(regs, p, v, rest)
  }

  lemma FieldsStart(
    regs: seq<seq<byte>>, mem: Mem, base: nat, p0: Pos, v0: seq<byte>, t: Ty, ws: seq<Value>)
    requires t.Struct? && Flat(t) && |ws| == |t.fields| && Shaped(regs, v0)
    requires forall j :: 0 <= j < |ws| ==> Typed(t.fields[j].ty, ws[j], HOST_WORD)
    ensures FieldsLeft(regs, mem, base, p0, v0, t, ws, 0, [], p0, v0)
  {
    hide ReadImage, ScriptFields;
    var r := ReadImage(regs, mem, base, p0, v0, ScriptFields(t, ws, 0));
    assert r.Some? ==> [] + r.value == r.value;
  }

  lemma FieldsFinish(
    regs: seq<seq<byte>>, mem: Mem, base: nat, p0: Pos, v0: seq<byte>, t: Ty, ws: seq<Value>,
    data: seq<seq<byte>>, p: Pos, v: seq<byte>)
    requires t.Struct? && Flat(t) && |ws| == |t.fields| && Shaped(regs, v0) && Shaped(regs, v)
    requires forall j :: 0 <= j < |ws| ==> Typed(t.fields[j].ty, ws[j], HOST_WORD)
    requires FieldsLeft(regs, mem, base, p0, v0, t, ws, |ws|, data, p, v)
    ensures Decoded(regs, mem, base, p0, v0, ScriptFields(t, ws, 0), true, data, p, v)
  {
    assert data + [] == data;
  }

  lemma FieldsSkip(
    regs: seq<seq<byte>>, mem: Mem, base: nat, p0: Pos, v0: seq<byte>, t: Ty, ws: seq<Value>, i: nat,
    data: seq<seq<byte>>, p: Pos, v: seq<byte>)
    requires t.Struct? && Flat(t) && i < |ws| == |t.fields| && Shaped(regs, v0) && Shaped(regs, v)
    requires forall j :: 0 <= j < |ws| ==> Typed(t.fields[j].ty, ws[j], HOST_WORD)
    requires t.fields[i].ignore && FieldsLeft(regs, mem, base, p0, v0, t, ws, i, data, p, v)
    ensures FieldsLeft(regs, mem, base, p0, v0, t, ws, i + 1, data, p, v)
  {
    hide ReadImage, MoveAll, KeptAll, Typed;
  }

  /** One field more: its padding, then its own script. */
  lemma FieldsNext(
    regs: seq<seq<byte>>, mem: Mem, base: nat, p0: Pos, v0: seq<byte>, t: Ty, ws: seq<Value>, i: nat,
    data: seq<seq<byte>>, p: Pos, v: seq<byte>, ok: bool, own: seq<seq<byte>>, p1: Pos, v1: seq<byte>)
    requires t.Struct? && Flat(t) && i < |ws| == |t.fields| && Shaped(regs, v0) && Shaped(regs, v) && Shaped(regs, v1)
    requires forall j :: 0 <= j < |ws| ==> Typed(t.fields[j].ty, ws[j], HOST_WORD)
    requires !t.fields[i].ignore && FieldsLeft(regs, mem, base, p0, v0, t, ws, i, data, p, v)
    requires PadBefore(t, HOST_WORD, i) >= 0
    requires var n := PadBefore(t, HOST_WORD, i);
      t.fields[i] in t.fields
      && Decoded(regs, mem, base, if n > 0 then p.Skip(n) else p, v, Script(t.fields[i].ty, ws[i]), ok, own, p1, v1)
    ensures if ok then FieldsLeft(regs, mem, base, p0, v0, t, ws, i + 1, data + own, p1, v1)
            else ReadImage(regs, mem, base, p0, v0, ScriptFields(t, ws, 0)).None?
  {
    hide ReadImage, MoveAll, KeptAll, Typed, Script, PadBefore, PadOp, Decoded, ScriptFields;
    var n := PadBefore(t, HOST_WORD, i);
    var pad, s, rest := PadOp(n), Script(t.fields[i].ty, ws[i]), ScriptFields(t, ws, i + 1);
    FieldUnfold(t, ws, i);
    DecodedPad(regs, mem, base, p, v, n);
    DecodedThen(regs, mem, base, p, v, pad, s, [], if n > 0 then p.Skip(n) else p, v, ok, own, p1, v1);
    assert [] + own == own && pad + (s + rest) == (pad + s) + rest;
    DecodedMeans(regs, mem, base, p, v, pad + s, ok, own, p1, v1);
    ReadImageConcat(regs, mem, base, p, v, pad + s, rest);
    MoveConcat(regs, p, v, pad + s, rest);
    if ok {
      var r := ReadImage(regs, mem, base, p1, v1, rest);
      assert r.Some? ==> data + (own + r.value) == (data + own) + r.value;
    }
  }

  lemma DecodedMeans(
    regs: seq<seq<byte>>, mem: Mem, base: nat, p: Pos, image: seq<byte>, ops: seq<Op>, ok: bool, data: seq<seq<byte>>,
    p': Pos, image': seq<byte>)
    requires Shaped(regs, image) && Decoded(regs, mem, base, p, image, ops, ok, data, p', image')
    ensures ReadImage(regs, mem, base, p, image, ops) == (if ok then Some(data) else None)
    ensures ok ==> p' == MoveAll(p, ops) && image' == KeptAll(regs, p, image, ops)
  {
  }

  lemma DecodedFailed(
    regs: seq<seq<byte>>, mem: Mem, base: nat, p: Pos, image: seq<byte>, ops: seq<Op>, p': Pos, image': seq<byte>)
    requires Shaped(regs, image) && ReadImage(regs, mem, base, p, image, ops).None?
    ensures Decoded(regs, mem, base, p, image, ops, false, [], p', image')
  {
  }

  lemma FieldUnfold(t: Ty, ws: seq<Value>, i: nat)
    requires t.Struct? && Flat(t) && i < |ws| == |t.fields| && !t.fields[i].ignore
    requires forall j :: 0 <= j < |ws| ==> Typed(t.fields[j].ty, ws[j], HOST_WORD)
    ensures t.fields[i] in t.fields
    ensures ScriptFields(t, ws, i) ==
      PadOp(PadBefore(t, HOST_WORD, i)) + (Script(t.fields[i].ty, ws[i]) + ScriptFields(t, ws, i + 1))
  {
    hide Typed, Script, PadBefore, PadOp;
  }

  method DecodeArgFields(stream: Stream, t: Ty, ws: seq<Value>) returns (r: Option<seq<Value>>)
    requires t.Struct? && Shaped(stream.ctx.regs, stream.value) && Wf(t, HOST_WORD) && Flat(t) && |ws| == |t.fields|
    requires forall j :: 0 <= j < |ws| ==> Typed(t.fields[j].ty, ws[j], HOST_WORD)
    modifies stream`groff, stream`stoff, stream`value
    ensures Shaped(stream.ctx.regs, stream.value)
    ensures r.Some? ==>
      && |r.value| == |ws|
      && (forall j :: 0 <= j < |ws| ==> Typed(t.fields[j].ty, r.value[j], HOST_WORD))
      && (forall j :: 0 <= j < |ws| ==> if t.fields[j].ignore then ws[j] == r.value[j]
                                        else Fits(t.fields[j].ty, r.value[j], ws[j], HOST_WORD))
    ensures Decoded(stream.ctx.regs, stream.ctx.mem, stream.base, old(stream.State().pos), old(stream.value),
                    ScriptFields(t, ws, 0), r.Some?, if r.Some? then DataOf(ScriptFields(t, r.value, 0)) else [],
                    stream.State().pos, stream.value)
    decreases t, 1, 0
  {
    hide Wf, Typed, Fits, Script, ScriptFields, FieldsLeft, FieldData, Decoded, DataOf, PadBefore, ReadImage;
    ghost var regs, mem, base, p0, v0 := stream.ctx.regs, stream.ctx.mem, stream.base, stream.State().pos, stream.value;
    var vs: seq<Value>, i := [], 0;
    FieldsStart(regs, mem, base, p0, v0, t, ws);
    NoFieldYet(t);
    while i < |ws|
      invariant 0 <= i <= |ws| && |vs| == i && Shaped(regs, stream.value)
      invariant stream.ctx.regs == regs && stream.ctx.mem == mem
      invariant forall j :: 0 <= j < i ==> Typed(t.fields[j].ty, vs[j], HOST_WORD)
      invariant forall j :: 0 <= j < i ==> if t.fields[j].ignore then ws[j] == vs[j]
                                           else Fits(t.fields[j].ty, vs[j], ws[j], HOST_WORD)
      invariant FieldsLeft(regs, mem, base, p0, v0, t, ws, i, FieldData(t, vs), stream.State().pos, stream.value)
    {
      var f := t.fields[i];
      assert f in t.fields;
      ghost var p, v := stream.State().pos, stream.value;
      if f.ignore {
        FieldsSkip(regs, mem, base, p0, v0, t, ws, i, FieldData(t, vs), p, v);
        FieldDataSnoc(t, vs, ws[i]);
        vs := vs + [ws[i]];
      } else {
        FieldWf(t, HOST_WORD, i);
        SumNext(t, i);
        var n := PadBefore(t, HOST_WORD, i);
        if n > 0 {
          stream.Skip(n);
        }
        var x := DecodeArg(stream, f.ty, ws[i]);
        FieldsNext(regs, mem, base, p0, v0, t, ws, i, FieldData(t, vs), p, v, x.Some?,
                   if x.Some? then DataOf(Script(f.ty, x.value)) else [], stream.State().pos, stream.value);
        if x.None? {
          DecodedFailed(regs, mem, base, p0, v0, ScriptFields(t, ws, 0), stream.State().pos, stream.value);
          return None;
        }
        FieldDataSnoc(t, vs, x.value);
        vs := vs + [x.value];
      }
      i := i + 1;
    }
    FieldsFinish(regs, mem, base, p0, v0, t, ws, FieldData(t, vs), stream.State().pos, stream.value);
    FieldDataAll(t, vs, 0);
    assert vs[..0] == [] && [] + DataOf(ScriptFields(t, vs, 0)) == DataOf(ScriptFields(t, vs, 0));
    return Some(vs);
  }

  lemma NoFieldYet(t: Ty)
    requires t.Struct? && Flat(t)
    ensures FieldData(t, []) == []
  {
  }

  lemma FieldDataSnoc(t: Ty, vs: seq<Value>, x: Value)
    requires t.Struct? && Flat(t) && |vs| < |t.fields| && Typed(t.fields[|vs|].ty, x, HOST_WORD)
    requires forall j :: 0 <= j < |vs| ==> Typed(t.fields[j].ty, vs[j], HOST_WORD)
    ensures t.fields[|vs|] in t.fields
    ensures forall j :: 0 <= j < |vs + [x]| ==> Typed(t.fields[j].ty, (vs + [x])[j], HOST_WORD)
    ensures FieldData(t, vs + [x]) ==
      FieldData(t, vs) + if t.fields[|vs|].ignore then [] else DataOf(Script(t.fields[|vs|].ty, x))
    ensures t.fields[|vs|].ignore ==> FieldData(t, vs + [x]) == FieldData(t, vs)
  {
    hide Typed, Script, DataOf;
    assert (vs + [x])[..|vs|] == vs;
  }

  // ----- argument lists

  datatype Arg = Arg(t: Ty, v: Value)

  ghost predicate ArgOk(a: Arg) {
    Wf(a.t, HOST_WORD) && Flat(a.t) && Typed(a.t, a.v, HOST_WORD)
  }

  /** Destination `d` may hold `v` after a decode: the same type, and the same ignored fields. */
  ghost predicate OkFor(d: Arg, v: Value) {
    ArgOk(d) && ArgOk(Arg(d.t, v)) && Fits(d.t, v, d.v, HOST_WORD)
  }

  ghost predicate AllFor(dests: seq<Arg>, vs: seq<Value>) {
    |vs| <= |dests| && forall i :: 0 <= i < |vs| ==> OkFor(dests[i], vs[i])
  }

  function Scripts(args: seq<Arg>): (r: seq<seq<Op>>)
    requires forall a :: a in args ==> ArgOk(a)
    ensures |r| == |args|
    ensures forall i :: 0 <= i < |args| ==> ArgOk(args[i]) && r[i] == Script(args[i].t, args[i].v)
  {
    seq(|args|, i requires 0 <= i < |args| => assert ArgOk(args[i]); Script(args[i].t, args[i].v))
  }

  /** The same arguments with all of their bytes zero: what they do to the stream depends on their types. */
  function Blank(ts: seq<Ty>): (r: seq<Arg>)
    requires forall t :: t in ts ==> Wf(t, HOST_WORD) && Flat(t)
    ensures |r| == |ts| && (forall a :: a in r ==> ArgOk(a))
    ensures forall i :: 0 <= i < |ts| ==> r[i].t == ts[i]
  {
    var r := seq(|ts|, i requires 0 <= i < |ts| => Arg(ts[i], Zero(ts[i], HOST_WORD)));
    assert forall a :: a in r ==> ArgOk(a) by {
      forall i | 0 <= i < |ts| ensures ArgOk(r[i]) {
        ZeroTyped(ts[i], HOST_WORD);
      }
    }
    r
  }

  /** What the types alone settle: no padding between two pieces of data ends inside a register that is not
      loaded. */
  predicate GoodArgs(ts: seq<Ty>)
    requires forall t :: t in ts ==> Wf(t, HOST_WORD) && Flat(t)
  {
    GoodOps(Pos(0, 0), true, ArgOps(Scripts(Blank(ts))))
  }

  function Types(args: seq<Arg>): (ts: seq<Ty>)
    ensures |ts| == |args| && forall i :: 0 <= i < |args| ==> ts[i] == args[i].t
  {
    seq(|args|, i requires 0 <= i < |args| => args[i].t)
  }

  ghost predicate AllOk(args: seq<Arg>) {
    forall i :: 0 <= i < |args| ==> ArgOk(args[i])
  }

  lemma TypesOk(args: seq<Arg>)
    requires AllOk(args)
    ensures forall a :: a in args ==> ArgOk(a)
    ensures forall t :: t in Types(args) ==> Wf(t, HOST_WORD) && Flat(t)
  {
    forall t | t in Types(args) ensures Wf(t, HOST_WORD) && Flat(t) {
      var i :| 0 <= i < |args| && Types(args)[i] == t;
      assert ArgOk(args[i]);
    }
  }

  lemma {:induction false} ArgsShape(a: seq<Arg>, b: seq<Arg>)
    requires (forall x :: x in a ==> ArgOk(x)) && (forall x :: x in b ==> ArgOk(x))
    requires |a| == |b| && forall i :: 0 <= i < |a| ==> a[i].t == b[i].t
    ensures SameShape(ArgOps(Scripts(a)), ArgOps(Scripts(b)))
    decreases |a|
  {
    hide ArgOk, Script, SameShape;
    if a == [] {
      NoShape();
      assert Scripts(a) == [] && Scripts(b) == [];
    } else {
      assert Scripts(a)[1..] == Scripts(a[1..]) && Scripts(b)[1..] == Scripts(b[1..]);
      assert forall i :: 0 <= i < |a[1..]| ==> a[1..][i] == a[i + 1] && b[1..][i] == b[i + 1];
      ArgsShape(a[1..], b[1..]);
      OkFacts(a[0]);
      OkFacts(b[0]);
      ScriptShape(a[0].t, a[0].v, b[0].v);
      AlignShape();
      ShapeConcat([Op.Align], [Op.Align], ArgOps(Scripts(a[1..])), ArgOps(Scripts(b[1..])));
      ShapeConcat(Script(a[0].t, a[0].v), Script(b[0].t, b[0].v),
                  [Op.Align] + ArgOps(Scripts(a[1..])), [Op.Align] + ArgOps(Scripts(b[1..])));
    }
  }

  lemma AlignShape()
    ensures SameShape([Op.Align], [Op.Align])
  {
  }

  lemma NoShape()
    ensures SameShape([], [])
  {
  }

  lemma OkFacts(a: Arg)
    requires ArgOk(a)
    ensures Wf(a.t, HOST_WORD) && Flat(a.t) && Typed(a.t, a.v, HOST_WORD)
  {
  }

  /** The condition does not look at the values. */
  lemma GoodByTypes(args: seq<Arg>)
    requires AllOk(args)
    ensures forall a :: a in args ==> ArgOk(a)
    ensures forall t :: t in Types(args) ==> Wf(t, HOST_WORD) && Flat(t)
    ensures GoodArgs(Types(args)) <==> GoodOps(Pos(0, 0), true, ArgOps(Scripts(args)))
  {
    hide ArgOk, GoodOps, SameShape;
    TypesOk(args);
    ArgsShape(Blank(Types(args)), args);
    GoodShape(Pos(0, 0), true, ArgOps(Scripts(Blank(Types(args)))), ArgOps(Scripts(args)));
  }

  /** A sufficient condition on the sizes of the types. */
  lemma NeatArgsAreGood(ts: seq<Ty>)
    requires forall t :: t in ts ==> Wf(t, HOST_WORD) && Flat(t) && Neat(t)
    ensures GoodArgs(ts)
  {
    hide GoodOps, LaidOut, Wf, Neat;
    var args := Blank(ts);
    forall s | s in Scripts(args) ensures LaidOut(0, s) {
      var i :| 0 <= i < |args| && Scripts(args)[i] == s;
      assert ts[i] in ts && args[i] in args;
      OkFacts(args[i]);
      NeatLaidOut(ts[i], args[i].v, 0);
    }
    ArgOpsGood(Pos(0, 0), Scripts(args));
  }

  /** Writes arguments of any flat types, each by its handler, and what is left over to the stack. */
  method WriteArgs(ctx: Context, args: seq<Arg>) returns (ok: bool)
    requires Shaped(ctx.regs, Fill(8)) && forall a :: a in args ==> ArgOk(a)
    modifies ctx
    ensures Shaped(ctx.regs, Fill(8))
    ensures var end := WriteOps(Writer(old(ctx.regs), [], Pos(0, 0), Fill(8)), ArgOps(Scripts(args)));
      && ctx.regs == end.regs
      && (ok <==> end.pos.stoff == 0 || HasRoom(old(ctx.mem), old(ctx.sp), end))
      && (ok ==> Holds(ctx.mem, ctx.sp, end.stack))
      && ctx.sp == SpAfter(old(ctx.sp), end.pos.stoff)
      && ctx.mem == if ok && end.pos.stoff != 0 then Store(old(ctx.mem), ctx.sp, end.stack) else old(ctx.mem)
  {
    hide WriteSpec, WriteOps, ArgOps, Bits.Align, ArgOk, Script;
    var stream := new Stream(ctx, 0);
    ghost var w0, ops := stream.State(), Scripts(args);
    var i := 0;
    assert ops[0..] == ops;
    while i < |args|
      invariant 0 <= i <= |args| && Shaped(ctx.regs, stream.value)
      invariant WriteOps(stream.State(), ArgOps(ops[i..])) == WriteOps(w0, ArgOps(ops))
      invariant ctx.mem == old(ctx.mem) && ctx.sp == old(ctx.sp)
    {
      ArgNext(stream.State(), ops[i..]);
      assert ops[i..][0] == ops[i] && ops[i..][1..] == ops[i + 1..];
      OkFacts(args[i]);
      EncodeArg(stream, args[i].t, args[i].v);
      stream.Align();
      i := i + 1;
    }
    assert ops[i..] == [];
    NoArgs(stream.State());
    WriteOpsBound(w0, ArgOps(ops));
    ok := Spill(ctx, stream);
  }

  /** Reads arguments of these types into these destinations. */
  method ReadArgs(ctx: Context, dests: seq<Arg>) returns (r: Option<seq<Value>>)
    requires Shaped(ctx.regs, Fill(8)) && forall a :: a in dests ==> ArgOk(a)
    ensures r.Some? ==> |r.value| == |dests| && AllFor(dests, r.value)
    ensures ReadImage(ctx.regs, ctx.mem, ctx.sp, Pos(0, 0), Fill(8), ArgOps(Scripts(dests))) ==
      (if r.None? then None else Some(AllData(dests, r.value)))
  {
    hide ReadImage, ArgOps, Script, Fits, AllData, Wf, Typed, Decoded, Bits.Align, DataOf;
    ghost var ops := Scripts(dests);
    var stream := new Stream(ctx, ctx.sp);
    var vs: seq<Value>, i := [], 0;
    assert ops[0..] == ops;
    ReadStart(ctx.regs, ctx.mem, ctx.sp, Pos(0, 0), Fill(8), ArgOps(ops));
    NoData(dests);
    while i < |dests|
      invariant 0 <= i <= |dests| && |vs| == i && Shaped(ctx.regs, stream.value)
      invariant AllFor(dests, vs)
      invariant ReadImage(ctx.regs, ctx.mem, ctx.sp, Pos(0, 0), Fill(8), ArgOps(ops)) ==
        Both(Some(AllData(dests, vs)),
             ReadImage(ctx.regs, ctx.mem, ctx.sp, stream.State().pos, stream.value, ArgOps(ops[i..])))
    {
      assert dests[i] in dests;
      ghost var p, v, data := stream.State().pos, stream.value, AllData(dests, vs);
      ArgReadNext(ctx.regs, ctx.mem, ctx.sp, p, v, ops[i..], data);
      assert ops[i..][0] == ops[i] && ops[i..][1..] == ops[i + 1..];
      var x := DecodeArg(stream, dests[i].t, dests[i].v);
      DecodedMeans(ctx.regs, ctx.mem, ctx.sp, p, v, ops[i], x.Some?,
                   if x.Some? then DataOf(Script(dests[i].t, x.value)) else [], stream.State().pos, stream.value);
      if x.None? {
        return None;
      }
      stream.Align();
      DataSnoc(dests, vs, x.value);
      vs := vs + [x.value];
      i := i + 1;
    }
    assert ops[i..] == [];
    ReadNothing(ctx.regs, ctx.mem, ctx.sp, stream.State().pos, stream.value);
    assert AllData(dests, vs) + [] == AllData(dests, vs);
    return Some(vs);
  }

  /** The data of the first values of an argument list. */
  ghost function AllData(dests: seq<Arg>, vs: seq<Value>): seq<seq<byte>>
    requires AllFor(dests, vs)
    decreases |vs|
  {
    if vs == [] then []
    else
      var n := |vs| - 1;
      assert OkFor(dests[n], vs[n]);
      AllData(dests, vs[..n]) + DataOf(Script(dests[n].t, vs[n]))
  }

  lemma NoData(dests: seq<Arg>)
    ensures AllData(dests, []) == []
  {
  }

  lemma {:induction false} DataSnoc(dests: seq<Arg>, vs: seq<Value>, x: Value)
    requires |vs| < |dests| && AllFor(dests, vs) && OkFor(dests[|vs|], x)
    ensures AllFor(dests, vs + [x])
    ensures AllData(dests, vs + [x]) == AllData(dests, vs) + DataOf(Script(dests[|vs|].t, x))
  {
    hide Script, DataOf, Typed, Fits, Wf, Flat;
    forall i | 0 <= i < |vs + [x]| ensures OkFor(dests[i], (vs + [x])[i]) {
      if i < |vs| {
        assert OkFor(dests[i], vs[i]);
      }
    }
    assert (vs + [x])[..|vs|] == vs;
  }

  function Values(args: seq<Arg>): (vs: seq<Value>)
    ensures |vs| == |args| && forall i :: 0 <= i < |args| ==> vs[i] == args[i].v
  {
    seq(|args|, i requires 0 <= i < |args| => args[i].v)
  }

  /** The data of a list of arguments, from its script and from its values. */
  lemma {:induction false} ArgsData(args: seq<Arg>, dests: seq<Arg>, k: nat)
    requires AllOk(args) && k <= |args| == |dests| && AllFor(dests, Values(args))
    requires forall i :: 0 <= i < |args| ==> dests[i].t == args[i].t
    ensures forall a :: a in args ==> ArgOk(a)
    ensures AllData(dests, Values(args)[..k]) + DataOf(ArgOps(Scripts(args)[k..])) == DataOf(ArgOps(Scripts(args)))
    decreases k
  {
    hide Script, ArgOk, DataOf, ArgOps, AllFor, OkFor;
    AllForPart(dests, Values(args), k);
    if k == 0 {
      NoData(dests);
      assert Scripts(args)[0..] == Scripts(args) && Values(args)[..0] == [];
      assert [] + DataOf(ArgOps(Scripts(args))) == DataOf(ArgOps(Scripts(args)));
    } else {
      var s, vs := Scripts(args), Values(args);
      ArgsData(args, dests, k - 1);
      assert ArgOk(args[k - 1]);
      OkFacts(args[k - 1]);
      AllForPart(dests, vs, k - 1);
      hide AllData;
      assert vs[..k] == vs[..k - 1] + [vs[k - 1]];
      DataSnoc(dests, vs[..k - 1], vs[k - 1]);
      assert s[k - 1..][0] == s[k - 1] && s[k - 1..][1..] == s[k..];
      OneArgData(s[k - 1], s[k..]);
      assert s[k - 1..] == [s[k - 1]] + s[k..];
      Assoc(AllData(dests, vs[..k - 1]), DataOf(s[k - 1]), DataOf(ArgOps(s[k..])));
    }
  }

  lemma AllForPart(dests: seq<Arg>, vs: seq<Value>, k: nat)
    requires AllFor(dests, vs) && k <= |vs|
    ensures AllFor(dests, vs[..k]) && (k < |vs| ==> OkFor(dests[k], vs[k]))
  {
  }

  lemma OneArgData(s: seq<Op>, rest: seq<seq<Op>>)
    ensures DataOf(ArgOps([s] + rest)) == DataOf(s) + DataOf(ArgOps(rest))
  {
    assert ([s] + rest)[1..] == rest;
    var x := ArgOps(rest);
    DataConcat(s, [Op.Align] + x);
    assert ([Op.Align] + x)[1..] == x && [] + DataOf(x) == DataOf(x);
  }

  lemma AllDataArgs(args: seq<Arg>, dests: seq<Arg>)
    requires AllOk(args) && |args| == |dests| && AllFor(dests, Values(args))
    requires forall i :: 0 <= i < |args| ==> dests[i].t == args[i].t
    ensures forall a :: a in args ==> ArgOk(a)
    ensures AllData(dests, Values(args)) == DataOf(ArgOps(Scripts(args)))
  {
    hide Script, ArgOk, AllData;
    ArgsData(args, dests, |args|);
    assert Values(args)[..|args|] == Values(args) && Scripts(args)[|args|..] == [];
    assert DataOf(ArgOps([])) == [];
    assert AllData(dests, Values(args)) + [] == AllData(dests, Values(args));
  }

  /** Values with the same data, fitting the same destinations, are the same. */
  lemma {:induction false} SameArgs(dests: seq<Arg>, vs: seq<Value>, us: seq<Value>)
    requires |vs| == |us| && AllFor(dests, vs) && AllFor(dests, us)
    requires AllData(dests, vs) == AllData(dests, us)
    ensures vs == us
    decreases |vs|
  {
    hide Script, Fits, DataOf, ArgOk, SameShape;
    if vs != [] {
      var n := |vs| - 1;
      assert OkFor(dests[n], vs[n]) && OkFor(dests[n], us[n]);
      OkFacts(Arg(dests[n].t, vs[n]));
      OkFacts(Arg(dests[n].t, us[n]));
      OkFacts(dests[n]);
      ScriptShape(dests[n].t, vs[n], us[n]);
      DataShape(Script(dests[n].t, vs[n]), Script(dests[n].t, us[n]));
      var a, b := AllData(dests, vs[..n]), AllData(dests, us[..n]);
      SplitAt(a, DataOf(Script(dests[n].t, vs[n])), b, DataOf(Script(dests[n].t, us[n])));
      SameData(dests[n].t, vs[n], us[n], dests[n].v);
      SameArgs(dests, vs[..n], us[..n]);
      assert vs == vs[..n] + [vs[n]] && us == us[..n] + [us[n]];
    }
  }

  /** Arguments written and read again: structs, arrays and integers of any flat types come back, in
      registers and spilled, if their types are good; in any case exactly if the data do. */
  method ArgsThereAndBack(ctx: Context, args: seq<Arg>, dests: seq<Arg>) returns (ok: bool, r: Option<seq<Value>>)
    requires Shaped(ctx.regs, Fill(8)) && AllOk(args) && AllOk(dests) && |args| == |dests|
    requires forall i :: 0 <= i < |args| ==> dests[i].t == args[i].t
    requires AllFor(dests, Values(args))
    modifies ctx
    ensures Shaped(ctx.regs, Fill(8))
    ensures (forall a :: a in args ==> ArgOk(a)) && forall t :: t in Types(args) ==> Wf(t, HOST_WORD) && Flat(t)
    ensures ctx.regs == WriteOps(Writer(old(ctx.regs), [], Pos(0, 0), Fill(8)), ArgOps(Scripts(args))).regs
    ensures r == Some(Values(args)) <==> DataBack(ctx.regs, ctx.mem, ctx.sp, ArgOps(Scripts(args)))
    ensures ok && GoodArgs(Types(args)) ==> r == Some(Values(args))
  {
    GoodByTypes(args);
    TypesOk(dests);
    hide ArgOk, GoodArgs, Fits, Script, WriteOps, ReadImage, GoodOps, HasRoom, AllData, DataBack;
    ok := WriteArgs(ctx, args);
    r := ReadArgs(ctx, dests);
    BackAgain(ctx.regs, ctx.mem, ctx.sp, args, dests, r);
    if ok && GoodArgs(Types(args)) {
      GoodDataBack(Writer(old(ctx.regs), [], Pos(0, 0), Fill(8)), ctx.mem, ctx.sp, ArgOps(Scripts(args)));
    }
  }

  /** Reading a script from the start gives the data of the script. */
  predicate DataBack(regs: seq<seq<byte>>, mem: Mem, base: nat, ops: seq<Op>)
    requires Shaped(regs, Fill(8))
  {
    ReadImage(regs, mem, base, Pos(0, 0), Fill(8), ops) == Some(DataOf(ops))
  }

  lemma GoodDataBack(w: Writer, mem: Mem, base: nat, ops: seq<Op>)
    requires Shaped(w.regs, w.value) && w.pos == Pos(0, 0) && w.value == Fill(8) && GoodOps(w.pos, true, ops)
    requires Holds(mem, base, WriteOps(w, ops).stack)
    ensures Shaped(WriteOps(w, ops).regs, Fill(8)) && DataBack(WriteOps(w, ops).regs, mem, base, ops)
  {
    hide ReadImage, WriteOps, GoodOps;
    GoodComesBack(w, ops);
  }

  /** The values come back exactly if their data do. */
  lemma BackAgain(regs: seq<seq<byte>>, mem: Mem, sp: nat, args: seq<Arg>, dests: seq<Arg>, r: Option<seq<Value>>)
    requires Shaped(regs, Fill(8)) && AllOk(args) && AllOk(dests) && |args| == |dests|
    requires forall a :: a in args ==> ArgOk(a)
    requires forall a :: a in dests ==> ArgOk(a)
    requires forall i :: 0 <= i < |args| ==> dests[i].t == args[i].t
    requires AllFor(dests, Values(args))
    requires r.Some? ==> |r.value| == |dests| && AllFor(dests, r.value)
    requires ReadImage(regs, mem, sp, Pos(0, 0), Fill(8), ArgOps(Scripts(dests))) ==
      (if r.None? then None else Some(AllData(dests, r.value)))
    ensures r == Some(Values(args)) <==> DataBack(regs, mem, sp, ArgOps(Scripts(args)))
  {
    hide ArgOk, Fits, Script, ReadImage, SameShape, AllData;
    ArgsShape(args, dests);
    ReadShape(regs, mem, sp, Pos(0, 0), Fill(8), ArgOps(Scripts(args)), ArgOps(Scripts(dests)));
    AllDataArgs(args, dests);
    if r.Some? && AllData(dests, r.value) == AllData(dests, Values(args)) {
      SameArgs(dests, r.value, Values(args));
    }
  }
}

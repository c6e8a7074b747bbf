/** Which argument lists come back: the condition on their types is exact (internal/debugger/arm64/arm64.go). */
module ArgExact {
  import opened CodecTypes
  import opened CodecLayout
  import opened CodecMemory
  import opened RegStreamSpec
  import opened RegStreamExact
  import opened ArgScripts
  import opened ArgCodec

  // ----- no data of a well-formed type are empty

  lemma NoEmptyConcat(a: seq<Op>, b: seq<Op>)
    requires NoEmpty(a) && NoEmpty(b)
    ensures NoEmpty(a + b)
  {
  }

  lemma ImageNotEmpty(v: Value)
    requires v.VBytes? && v.bytes != []
    ensures NoEmpty([Data(v.bytes)])
  {
  }

  lemma NothingEmpty(n: int)
    ensures NoEmpty([]) && NoEmpty(PadOp(n)) && NoEmpty([Op.Align])
  {
  }

  lemma {:induction false} TimesPositive(n: nat, m: nat)
    requires n > 0 && m > 0
    ensures Times(n, m) > 0
  {
    assert Times(n, m) == Times(n - 1, m) + m;
  }

  lemma {:induction false} ScriptNoEmpty(t: Ty, v: Value)
    requires Wf(t, HOST_WORD) && Flat(t) && Typed(t, v, HOST_WORD)
    ensures NoEmpty(Script(t, v))
    decreases t, 1, 0
  {
    hide NoEmpty, FieldSizes, Sum, PadOp;
    match t
    case Array(e, c) =>
      if Custom(e, HOST_WORD) {
        SeqNoEmpty(e, v.elems);
      } else {
        TimesPositive(c, HostSize(e));
        ImageNotEmpty(v);
      }
    case Struct(fs, n) =>
      if Raw(fs, HOST_WORD) {
        ImageNotEmpty(v);
      } else {
        var pad := TailPad(FieldSizes(t, HOST_WORD, |fs|));
        FieldsNoEmpty(t, v.elems, 0);
        NothingEmpty(pad);
        NoEmptyConcat(ScriptFields(t, v.elems, 0), PadOp(pad));
      }
    case Scalar(_) => ImageNotEmpty(v);
    case Word => ImageNotEmpty(v);
  }

  lemma {:induction false} SeqNoEmpty(e: Ty, vs: seq<Value>)
    requires Wf(e, HOST_WORD) && Flat(e) && forall v :: v in vs ==> Typed(e, v, HOST_WORD)
    ensures NoEmpty(ScriptSeq(e, vs))
    decreases e, 2, |vs|
  {
    hide NoEmpty, Script, Wf, Typed;
    if vs == [] {
      NothingEmpty(0);
    } else {
      ScriptNoEmpty(e, vs[0]);
      SeqNoEmpty(e, vs[1..]);
      NoEmptyConcat(Script(e, vs[0]), ScriptSeq(e, vs[1..]));
    }
  }

  lemma {:induction false} FieldsNoEmpty(t: Ty, vs: seq<Value>, i: nat)
    requires t.Struct? && Wf(t, HOST_WORD) && Flat(t) && i <= |t.fields| == |vs|
    requires forall j :: 0 <= j < |vs| ==> Typed(t.fields[j].ty, vs[j], HOST_WORD)
    ensures NoEmpty(ScriptFields(t, vs, i))
    decreases t, 0, |vs| - i
  {
    hide NoEmpty, Script, Wf, Typed, PadOp, PadBefore;
    if i == |vs| {
      NothingEmpty(0);
    } else {
      FieldsNoEmpty(t, vs, i + 1);
      if !t.fields[i].ignore {
        assert t.fields[i] in t.fields;
        FieldWf(t, HOST_WORD, i);
        ScriptNoEmpty(t.fields[i].ty, vs[i]);
        NothingEmpty(PadBefore(t, HOST_WORD, i));
        NoEmptyConcat(Script(t.fields[i].ty, vs[i]), ScriptFields(t, vs, i + 1));
        NoEmptyConcat(PadOp(PadBefore(t, HOST_WORD, i)), Script(t.fields[i].ty, vs[i]) + ScriptFields(t, vs, i + 1));
      }
    }
  }

  lemma {:induction false} ArgsNoEmpty(args: seq<Arg>)
    requires forall a :: a in args ==> ArgOk(a)
    ensures NoEmpty(ArgOps(Scripts(args)))
    decreases |args|
  {
    hide NoEmpty, Script, ArgOk;
    NothingEmpty(0);
    if args == [] {
      assert Scripts(args) == [];
    } else {
      var rest := ArgOps(Scripts(args[1..]));
      assert Scripts(args)[1..] == Scripts(args[1..]);
      ArgsNoEmpty(args[1..]);
      OkFacts(args[0]);
      ScriptNoEmpty(args[0].t, args[0].v);
      NoEmptyConcat([Op.Align], rest);
      NoEmptyConcat(Script(args[0].t, args[0].v), [Op.Align] + rest);
    }
  }

  // ----- any data of the right lengths are those of a value

  lemma ShapeSplit(a: seq<Op>, b: seq<Op>, ops: seq<Op>)
    requires SameShape(a + b, ops)
    ensures |a| <= |ops| && SameShape(a, ops[..|a|]) && SameShape(b, ops[|a|..])
    ensures ops == ops[..|a|] + ops[|a|..]
  {
    hide SameOp;
    forall i | 0 <= i < |a| ensures SameOp(a[i], ops[..|a|][i]) {
      assert SameOp((a + b)[i], ops[i]);
    }
    forall i | 0 <= i < |b| ensures SameOp(b[i], ops[|a|..][i]) {
      assert SameOp((a + b)[|a| + i], ops[|a| + i]);
    }
  }

  lemma PadFixed(n: int, ops: seq<Op>)
    requires SameShape(PadOp(n), ops)
    ensures ops == PadOp(n)
  {
    if n > 0 {
      assert SameOp(PadOp(n)[0], ops[0]);
    }
  }

  lemma AlignFixed(ops: seq<Op>)
    requires SameShape([Op.Align], ops)
    ensures ops == [Op.Align]
  {
    assert SameOp([Op.Align][0], ops[0]);
  }

  lemma ImageOf(v: Value, ops: seq<Op>) returns (v': Value)
    requires v.VBytes? && SameShape([Data(v.bytes)], ops)
    ensures v'.VBytes? && |v'.bytes| == |v.bytes| && ops == [Data(v'.bytes)]
  {
    assert SameOp([Data(v.bytes)][0], ops[0]);
    v' := VBytes(ops[0].bytes);
  }

  /** A script of the shape of a type is the script of a value of the type. */
  lemma {:induction false} ValueOf(t: Ty, w: Value, ops: seq<Op>) returns (v: Value)
    requires Flat(t) && Typed(t, w, HOST_WORD) && SameShape(Script(t, w), ops)
    ensures Typed(t, v, HOST_WORD) && Script(t, v) == ops
    decreases t, 1, 0
  {
    hide SameShape, FieldSizes, Sum, PadOp;
    match t
    case Array(e, c) =>
      if Custom(e, HOST_WORD) {
        var vs := SeqOf(e, w.elems, ops);
        v := VSeq(vs);
      } else {
        v := ImageOf(w, ops);
      }
    case Struct(fs, n) =>
      if Raw(fs, HOST_WORD) {
        v := ImageOf(w, ops);
      } else {
        var all, pad := ScriptFields(t, w.elems, 0), TailPad(FieldSizes(t, HOST_WORD, |fs|));
        ShapeSplit(all, PadOp(pad), ops);
        PadFixed(pad, ops[|all|..]);
        var vs := FieldsOf(t, w.elems, 0, ops[..|all|]);
        v := VSeq(vs);
      }
    case Scalar(_) => v := ImageOf(w, ops);
    case Word => v := ImageOf(w, ops);
    case _ =>
  }

  lemma {:induction false} SeqOf(e: Ty, ws: seq<Value>, ops: seq<Op>) returns (vs: seq<Value>)
    requires Flat(e) && (forall w :: w in ws ==> Typed(e, w, HOST_WORD)) && SameShape(ScriptSeq(e, ws), ops)
    ensures |vs| == |ws| && (forall v :: v in vs ==> Typed(e, v, HOST_WORD)) && ScriptSeq(e, vs) == ops
    decreases e, 2, |ws|
  {
    hide Script, Typed, SameOp;
    if ws == [] {
      vs := [];
    } else {
      var s := Script(e, ws[0]);
      ShapeSplit(s, ScriptSeq(e, ws[1..]), ops);
      var v := ValueOf(e, ws[0], ops[..|s|]);
      var rest := SeqOf(e, ws[1..], ops[|s|..]);
      vs := [v] + rest;
      assert vs[1..] == rest;
    }
  }

  lemma {:induction false} FieldsOf(t: Ty, ws: seq<Value>, i: nat, ops: seq<Op>) returns (vs: seq<Value>)
    requires t.Struct? && Flat(t) && i <= |t.fields| == |ws|
    requires forall j :: 0 <= j < |ws| ==> Typed(t.fields[j].ty, ws[j], HOST_WORD)
    requires SameShape(ScriptFields(t, ws, i), ops)
    ensures |vs| == |ws| && forall j :: 0 <= j < |vs| ==> Typed(t.fields[j].ty, vs[j], HOST_WORD)
    ensures ScriptFields(t, vs, i) == ops
    decreases t, 0, |ws| - i
  {
    hide Script, Typed, SameOp, PadOp, PadBefore;
    if i == |ws| {
      vs := ws;
    } else if t.fields[i].ignore {
      vs := FieldsOf(t, ws, i + 1, ops);
    } else {
      assert t.fields[i] in t.fields;
      var pad, s := PadBefore(t, HOST_WORD, i), Script(t.fields[i].ty, ws[i]);
      ShapeSplit(PadOp(pad), s + ScriptFields(t, ws, i + 1), ops);
      PadFixed(pad, ops[..|PadOp(pad)|]);
      var tail := ops[|PadOp(pad)|..];
      ShapeSplit(s, ScriptFields(t, ws, i + 1), tail);
      var v := ValueOf(t.fields[i].ty, ws[i], tail[..|s|]);
      var rest := FieldsOf(t, ws, i + 1, tail[|s|..]);
      vs := rest[i := v];
      FieldsFrom(t, rest, vs, i + 1);
    }
  }

  /** The script of the fields from `i` on is that of their values alone. */
  lemma {:induction false} FieldsFrom(t: Ty, vs: seq<Value>, vs': seq<Value>, i: nat)
    requires t.Struct? && Flat(t) && i <= |t.fields| == |vs| == |vs'|
    requires forall j :: 0 <= j < |vs| ==>
      Typed(t.fields[j].ty, vs[j], HOST_WORD) && Typed(t.fields[j].ty, vs'[j], HOST_WORD)
    requires forall j :: i <= j < |vs| ==> vs[j] == vs'[j]
    ensures ScriptFields(t, vs, i) == ScriptFields(t, vs', i)
    decreases |vs| - i
  {
    hide Script, Typed, PadOp, PadBefore;
    if i < |vs| {
      FieldsFrom(t, vs, vs', i + 1);
    }
  }

  lemma {:induction false} ArgsOf(args: seq<Arg>, ops: seq<Op>) returns (args': seq<Arg>)
    requires (forall a :: a in args ==> ArgOk(a)) && SameShape(ArgOps(Scripts(args)), ops)
    ensures (forall a :: a in args' ==> ArgOk(a)) && Types(args') == Types(args)
    ensures ArgOps(Scripts(args')) == ops
    decreases |args|
  {
    hide Script, SameOp, ArgOk;
    if args == [] {
      args' := [];
      assert Scripts(args) == [] == Scripts(args');
    } else {
      OkFacts(args[0]);
      var s, rest := Script(args[0].t, args[0].v), ArgOps(Scripts(args[1..]));
      assert Scripts(args)[1..] == Scripts(args[1..]);
      ShapeSplit(s, [Op.Align] + rest, ops);
      ShapeSplit([Op.Align], rest, ops[|s|..]);
      AlignFixed(ops[|s|..][..1]);
      var v := ValueOf(args[0].t, args[0].v, ops[..|s|]);
      var more := ArgsOf(args[1..], ops[|s|..][1..]);
      args' := [Arg(args[0].t, v)] + more;
      IsOk(args'[0]);
      ArgsFirst(args'[0], more);
      TypesFirst(args, args', more);
    }
  }

  lemma ArgsFirst(a: Arg, more: seq<Arg>)
    requires ArgOk(a) && forall x :: x in more ==> ArgOk(x)
    ensures ArgOps(Scripts([a] + more)) == Script(a.t, a.v) + ([Op.Align] + ArgOps(Scripts(more)))
  {
    hide ArgOk, Script;
    assert Scripts([a] + more)[1..] == Scripts(more);
  }

  lemma TypesFirst(args: seq<Arg>, args': seq<Arg>, more: seq<Arg>)
    requires args != [] && args' != [] && args'[0].t == args[0].t && args'[1..] == more
    requires Types(more) == Types(args[1..])
    ensures Types(args') == Types(args)
  {
    assert Types(args') == [args[0].t] + Types(more);
    assert Types(args) == [args[0].t] + Types(args[1..]);
  }

  lemma IsOk(a: Arg)
    requires Wf(a.t, HOST_WORD) && Flat(a.t) && Typed(a.t, a.v, HOST_WORD)
    ensures ArgOk(a)
  {
  }

  // ----- the condition is exact

  /** Every list of arguments of these types comes back from these registers and the stack. */
  ghost predicate AllComeBack(ts: seq<Ty>, regs: seq<seq<byte>>)
    requires Shaped(regs, Fill(8))
  {
    forall args: seq<Arg> :: (forall a :: a in args ==> ArgOk(a)) && Types(args) == ts ==>
      ComesBack(Writer(regs, [], Pos(0, 0), Fill(8)), ArgOps(Scripts(args)))
  }

  /** Types that are not good have arguments that do not come back, whatever is in the registers before. */
  lemma BadArgsLost(ts: seq<Ty>, regs: seq<seq<byte>>) returns (args: seq<Arg>)
    requires Shaped(regs, Fill(8)) && forall t :: t in ts ==> Wf(t, HOST_WORD) && Flat(t)
    requires !GoodArgs(ts)
    ensures (forall a :: a in args ==> ArgOk(a)) && Types(args) == ts
    ensures var (w, ops) := (Writer(regs, [], Pos(0, 0), Fill(8)), ArgOps(Scripts(args)));
      !ComesBack(w, ops) && forall mem: Mem, base: nat :: !DataBack(WriteOps(w, ops).regs, mem, base, ops)
  {
    hide GoodOps, WriteOps, ReadImage, DataOf, ArgOk, ArgOps, SameShape, NoEmpty;
    var w, ops := Writer(regs, [], Pos(0, 0), Fill(8)), ArgOps(Scripts(Blank(ts)));
    ArgsNoEmpty(Blank(ts));
    var bad := BadScriptLost(w, ops);
    args := ArgsOf(Blank(ts), bad);
    assert Types(Blank(ts)) == ts;
    LostNotBack(w, bad);
  }

  /** Arguments come back, whatever they are and whatever is in the registers before, if and only if their
      types are good. */
  lemma GoodArgsExact(ts: seq<Ty>, regs: seq<seq<byte>>)
    requires Shaped(regs, Fill(8)) && forall t :: t in ts ==> Wf(t, HOST_WORD) && Flat(t)
    ensures AllComeBack(ts, regs) <==> GoodArgs(ts)
  {
    hide GoodArgs, ComesBack, ArgOk;
    if GoodArgs(ts) {
      var w := Writer(regs, [], Pos(0, 0), Fill(8));
      forall args: seq<Arg> | (forall a :: a in args ==> ArgOk(a)) && Types(args) == ts
        ensures ComesBack(w, ArgOps(Scripts(args)))
      {
        GoodByTypes(args);
        GoodComesBack(w, ArgOps(Scripts(args)));
      }
    } else {
      var args := BadArgsLost(ts, regs);
    }
  }
}

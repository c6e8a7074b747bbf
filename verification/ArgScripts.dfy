/** What the encode handlers of a type do to the ARM64 argument stream, as a script computed from the size
    lists of the type (encoding/encode_struct.go, internal/debugger/arm64/arm64.go). */
module ArgScripts {
  import Bits
  import opened CodecTypes
  import opened CodecLayout
  import opened CodecDecode
  import opened RegStreamSpec
  import opened RegStreamExact

  /** Nothing that is kept refers to memory of its own. */
  predicate Flat(t: Ty)
    decreases t
  {
    match t
    case Array(e, _) => Flat(e)
    case Pointer(_) => false
    case Slice(_) => false
    case Str => false
    case Struct(fs, _) => forall f :: f in fs && !f.ignore ==> Flat(f.ty)
    case _ => true
  }

  function PadOp(n: int): seq<Op> {
    if n > 0 then [Pad(n)] else []
  }

  /** The writes and skips of the handler of `t`, with 8-byte words. */
  function Script(t: Ty, v: Value): seq<Op>
    requires Typed(t, v, HOST_WORD) && Flat(t)
    decreases t, 1, 0
  {
    match t
    case Array(e, _) => if Custom(e, HOST_WORD) then ScriptSeq(e, v.elems) else [Data(v.bytes)]
    case Struct(fs, _) =>
      if Raw(fs, HOST_WORD) then [Data(v.bytes)]
      else ScriptFields(t, v.elems, 0) + PadOp(TailPad(FieldSizes(t, HOST_WORD, |fs|)))
    case Scalar(_) => [Data(v.bytes)]
    case Word => [Data(v.bytes)]
    case _ => []
  }

  function ScriptSeq(e: Ty, vs: seq<Value>): seq<Op>
    requires Flat(e) && forall v :: v in vs ==> Typed(e, v, HOST_WORD)
    decreases e, 2, |vs|
  {
    if vs == [] then [] else Script(e, vs[0]) + ScriptSeq(e, vs[1..])
  }

  /** The fields of a custom struct from number `i` on. */
  function ScriptFields(t: Ty, vs: seq<Value>, i: nat): seq<Op>
    requires t.Struct? && Flat(t) && i <= |t.fields| == |vs|
    requires forall j :: 0 <= j < |vs| ==> Typed(t.fields[j].ty, vs[j], HOST_WORD)
    decreases t, 0, |vs| - i
  {
    if i == |vs| then []
    else if t.fields[i].ignore then ScriptFields(t, vs, i + 1)
    else
      assert t.fields[i] in t.fields;
      PadOp(PadBefore(t, HOST_WORD, i)) + (Script(t.fields[i].ty, vs[i]) + ScriptFields(t, vs, i + 1))
  }

  // ----- what depends on the type alone

  lemma {:induction false} ScriptShape(t: Ty, v: Value, w: Value)
    requires Flat(t) && Typed(t, v, HOST_WORD) && Typed(t, w, HOST_WORD)
    ensures SameShape(Script(t, v), Script(t, w))
    decreases t, 1, 0
  {
    hide SameOp, FieldSizes, Sum;
    ImageShape(v, w);
    match t
    case Array(e, _) =>
      if Custom(e, HOST_WORD) {
        SeqShape(e, v.elems, w.elems);
      }
    case Struct(fs, _) =>
      if !Raw(fs, HOST_WORD) {
        FieldsShape(t, v.elems, w.elems, 0);
        PadShape(TailPad(FieldSizes(t, HOST_WORD, |fs|)));
      }
    case _ =>
  }

  lemma ImageShape(v: Value, w: Value)
    ensures v.VBytes? && w.VBytes? && |v.bytes| == |w.bytes| ==> SameShape([Data(v.bytes)], [Data(w.bytes)])
  {
  }

  lemma PadShape(n: int)
    ensures SameShape(PadOp(n), PadOp(n))
  {
  }

  lemma {:induction false} SeqShape(e: Ty, vs: seq<Value>, ws: seq<Value>)
    requires Flat(e) && |vs| == |ws|
    requires (forall v :: v in vs ==> Typed(e, v, HOST_WORD)) && (forall w :: w in ws ==> Typed(e, w, HOST_WORD))
    ensures SameShape(ScriptSeq(e, vs), ScriptSeq(e, ws))
    decreases e, 2, |vs|
  {
    hide Script, Typed, SameOp;
    if vs != [] {
      ScriptShape(e, vs[0], ws[0]);
      SeqShape(e, vs[1..], ws[1..]);
    }
  }

  lemma {:induction false} FieldsShape(t: Ty, vs: seq<Value>, ws: seq<Value>, i: nat)
    requires t.Struct? && Flat(t) && i <= |t.fields| == |vs| == |ws|
    requires forall j :: 0 <= j < |vs| ==>
      Typed(t.fields[j].ty, vs[j], HOST_WORD) && Typed(t.fields[j].ty, ws[j], HOST_WORD)
    ensures SameShape(ScriptFields(t, vs, i), ScriptFields(t, ws, i))
    decreases t, 0, |vs| - i
  {
    hide Script, Typed, SameOp, PadBefore, PadOp;
    if i < |vs| {
      FieldsShape(t, vs, ws, i + 1);
      if !t.fields[i].ignore {
        assert t.fields[i] in t.fields;
        ScriptShape(t.fields[i].ty, vs[i], ws[i]);
        PadShape(PadBefore(t, HOST_WORD, i));
      }
    }
  }

  // ----- the data of a script determine the value

  lemma PadData(n: int)
    ensures DataOf(PadOp(n)) == []
  {
  }

  lemma ImageData(b: seq<byte>)
    ensures DataOf([Data(b)]) == [b]
  {
    assert [Data(b)][1..] == [];
  }

  /** Two values with the same data that fit the same destination are the same. */
  lemma {:induction false} SameData(t: Ty, v: Value, v': Value, w: Value)
    requires Flat(t) && Typed(t, v, HOST_WORD) && Typed(t, v', HOST_WORD) && Typed(t, w, HOST_WORD)
    requires Fits(t, v, w, HOST_WORD) && Fits(t, v', w, HOST_WORD)
    requires DataOf(Script(t, v)) == DataOf(Script(t, v'))
    ensures v == v'
    decreases t, 1, 0
  {
    hide FieldSizes, Sum, DataOf;
    match t
    case Array(e, _) =>
      if Custom(e, HOST_WORD) {
        SameSeqData(e, v.elems, v'.elems, w.elems);
      } else {
        ImageData(v.bytes);
        ImageData(v'.bytes);
      }
    case Struct(fs, _) =>
      if Raw(fs, HOST_WORD) {
        ImageData(v.bytes);
        ImageData(v'.bytes);
      } else {
        var pad := PadOp(TailPad(FieldSizes(t, HOST_WORD, |fs|)));
        PadData(TailPad(FieldSizes(t, HOST_WORD, |fs|)));
        DataConcat(ScriptFields(t, v.elems, 0), pad);
        DataConcat(ScriptFields(t, v'.elems, 0), pad);
        var a, a' := DataOf(ScriptFields(t, v.elems, 0)), DataOf(ScriptFields(t, v'.elems, 0));
        assert a + [] == a && a' + [] == a';
        SameFieldData(t, v.elems, v'.elems, w.elems, 0);
        assert v.elems[0..] == v.elems && v'.elems[0..] == v'.elems;
      }
    case Scalar(_) =>
      ImageData(v.bytes);
      ImageData(v'.bytes);
    case Word =>
      ImageData(v.bytes);
      ImageData(v'.bytes);
    case _ =>
  }

  lemma {:induction false} SameSeqData(e: Ty, vs: seq<Value>, vs': seq<Value>, ws: seq<Value>)
    requires Flat(e) && |vs| == |vs'| == |ws|
    requires (forall v :: v in vs ==> Typed(e, v, HOST_WORD)) && (forall v :: v in vs' ==> Typed(e, v, HOST_WORD))
    requires forall w :: w in ws ==> Typed(e, w, HOST_WORD)
    requires forall i :: 0 <= i < |vs| ==> Fits(e, vs[i], ws[i], HOST_WORD) && Fits(e, vs'[i], ws[i], HOST_WORD)
    requires DataOf(ScriptSeq(e, vs)) == DataOf(ScriptSeq(e, vs'))
    ensures vs == vs'
    decreases e, 2, |vs|
  {
    hide Script, Typed, Fits, DataOf, SameShape;
    if vs != [] {
      ScriptShape(e, vs[0], vs'[0]);
      DataShape(Script(e, vs[0]), Script(e, vs'[0]));
      DataConcat(Script(e, vs[0]), ScriptSeq(e, vs[1..]));
      DataConcat(Script(e, vs'[0]), ScriptSeq(e, vs'[1..]));
      SplitAt(DataOf(Script(e, vs[0])), DataOf(ScriptSeq(e, vs[1..])),
              DataOf(Script(e, vs'[0])), DataOf(ScriptSeq(e, vs'[1..])));
      SameData(e, vs[0], vs'[0], ws[0]);
      SameSeqData(e, vs[1..], vs'[1..], ws[1..]);
      assert vs == [vs[0]] + vs[1..] && vs' == [vs'[0]] + vs'[1..];
    }
  }

  lemma {:induction false} SameFieldData(t: Ty, vs: seq<Value>, vs': seq<Value>, ws: seq<Value>, i: nat)
    requires t.Struct? && Flat(t) && i <= |t.fields| == |vs| == |vs'| == |ws|
    requires forall j :: 0 <= j < |vs| ==>
      && Typed(t.fields[j].ty, vs[j], HOST_WORD)
      && Typed(t.fields[j].ty, vs'[j], HOST_WORD)
      && Typed(t.fields[j].ty, ws[j], HOST_WORD)
    requires forall j :: 0 <= j < |vs| ==>
      if t.fields[j].ignore then ws[j] == vs[j] && ws[j] == vs'[j]
      else Fits(t.fields[j].ty, vs[j], ws[j], HOST_WORD) && Fits(t.fields[j].ty, vs'[j], ws[j], HOST_WORD)
    requires DataOf(ScriptFields(t, vs, i)) == DataOf(ScriptFields(t, vs', i))
    ensures vs[i..] == vs'[i..]
    decreases t, 0, |vs| - i
  {
    hide Script, Typed, Fits, DataOf, SameShape, PadBefore, PadOp;
    if i < |vs| {
      if !t.fields[i].ignore {
        FieldDataSplits(t, vs, i);
        FieldDataSplits(t, vs', i);
        assert t.fields[i] in t.fields;
        var ty := t.fields[i].ty;
        ScriptShape(ty, vs[i], vs'[i]);
        DataShape(Script(ty, vs[i]), Script(ty, vs'[i]));
        SplitAt(DataOf(Script(ty, vs[i])), DataOf(ScriptFields(t, vs, i + 1)),
                DataOf(Script(ty, vs'[i])), DataOf(ScriptFields(t, vs', i + 1)));
        SameData(ty, vs[i], vs'[i], ws[i]);
      }
      SameFieldData(t, vs, vs', ws, i + 1);
      assert vs[i..] == [vs[i]] + vs[i + 1..] && vs'[i..] == [vs'[i]] + vs'[i + 1..];
    }
  }

  lemma FieldDataSplits(t: Ty, vs: seq<Value>, i: nat)
    requires t.Struct? && Flat(t) && i < |t.fields| == |vs|
    requires forall j :: 0 <= j < |vs| ==> Typed(t.fields[j].ty, vs[j], HOST_WORD)
    ensures t.fields[i] in t.fields
    ensures DataOf(ScriptFields(t, vs, i)) ==
      if t.fields[i].ignore then DataOf(ScriptFields(t, vs, i + 1))
      else DataOf(Script(t.fields[i].ty, vs[i])) + DataOf(ScriptFields(t, vs, i + 1))
  {
    hide Script, Typed, DataOf, PadBefore, PadOp;
    assert t.fields[i] in t.fields;
    if !t.fields[i].ignore {
      var pad, s, rest := PadOp(PadBefore(t, HOST_WORD, i)), Script(t.fields[i].ty, vs[i]), ScriptFields(t, vs, i + 1);
      PadData(PadBefore(t, HOST_WORD, i));
      DataConcat(pad, s + rest);
      DataConcat(s, rest);
      assert [] + (DataOf(s) + DataOf(rest)) == DataOf(s) + DataOf(rest);
    }
  }

  // ----- where the paddings end

  /** How far a script moves, in bytes. */
  function Len(ops: seq<Op>): nat
    decreases |ops|
  {
    if ops == [] then 0
    else (match ops[0] case Data(b) => |b| case Pad(n) => n case Align => 0) + Len(ops[1..])
  }

  lemma {:induction false} LenConcat(a: seq<Op>, b: seq<Op>)
    ensures Len(a + b) == Len(a) + Len(b)
    decreases |a|
  {
    if a == [] {
      assert [] + b == b;
    } else {
      assert (a + b)[1..] == a[1..] + b;
      LenConcat(a[1..], b);
    }
  }

  lemma LenOne(op: Op)
    requires !op.Align?
    ensures Len([op]) == if op.Data? then |op.bytes| else op.n
  {
    assert [op][1..] == [];
  }

  lemma {:induction false} LaidOutConcat(off: nat, a: seq<Op>, b: seq<Op>)
    ensures LaidOut(off, a + b) <==> LaidOut(off, a) && LaidOut(off + Len(a), b)
    decreases |a|
  {
    hide PadTo;
    if a == [] {
      assert [] + b == b;
    } else {
      assert (a + b)[1..] == a[1..] + b;
      match a[0]
      case Data(d) => LaidOutConcat(off + |d|, a[1..], b);
      case Pad(n) => LaidOutConcat(off + n, a[1..], b);
      case Align =>
    }
  }

  /** A script moves by the declared size of its type: nothing kept in it is a string. */
  lemma {:induction false} LenScript(t: Ty, v: Value)
    requires Wf(t, HOST_WORD) && Flat(t) && Typed(t, v, HOST_WORD)
    ensures Len(Script(t, v)) == Total(t, HOST_WORD)
    decreases t, 1, 0
  {
    hide FieldSizes, Sum, Len;
    match t
    case Scalar(n) =>
      LenOne(Data(v.bytes));
      SumSingle(n);
    case Word =>
      LenOne(Data(v.bytes));
      SumSingle(HOST_WORD);
    case Array(e, c) =>
      if Custom(e, HOST_WORD) {
        LenSeq(e, v.elems);
        CustomArrayTotal(e, c, HOST_WORD);
      } else {
        LenOne(Data(v.bytes));
        PlainArrayTotal(e, c, HOST_WORD);
      }
    case Struct(fs, n) =>
      if Raw(fs, HOST_WORD) {
        LenOne(Data(v.bytes));
        RawTotal(t, HOST_WORD);
      } else {
        LenStruct(t, v);
      }
  }

  lemma {:induction false} LenStruct(t: Ty, v: Value)
    requires t.Struct? && !Raw(t.fields, HOST_WORD)
    requires Wf(t, HOST_WORD) && Flat(t) && Typed(t, v, HOST_WORD)
    ensures Len(Script(t, v)) == Total(t, HOST_WORD)
    decreases t, 0, |t.fields| + 1
  {
    hide FieldSizes, Sum, Len, Wf, ScriptFields;
    var sizes := FieldSizes(t, HOST_WORD, |t.fields|);
    LenFields(t, v.elems, 0);
    SumFirst(t);
    FieldSizesPositive(t, HOST_WORD, |t.fields|);
    TailSum(sizes);
    SumConcat(sizes, TailEntry(sizes));
    LenPad(TailPad(sizes));
    LenConcat(ScriptFields(t, v.elems, 0), PadOp(TailPad(sizes)));
  }

  lemma SumFirst(t: Ty)
    requires t.Struct?
    ensures Sum(FieldSizes(t, HOST_WORD, 0)) == 0
  {
  }

  lemma LenPad(n: nat)
    ensures Len(PadOp(n)) == n
  {
    LenOne(Pad(n));
  }

  lemma {:induction false} LenSeq(e: Ty, vs: seq<Value>)
    requires Wf(e, HOST_WORD) && Flat(e) && forall v :: v in vs ==> Typed(e, v, HOST_WORD)
    ensures Len(ScriptSeq(e, vs)) == Times(|vs|, Total(e, HOST_WORD))
    decreases e, 2, |vs|
  {
    hide Script, Typed, Wf, Total;
    if vs != [] {
      LenScript(e, vs[0]);
      LenSeq(e, vs[1..]);
      LenConcat(Script(e, vs[0]), ScriptSeq(e, vs[1..]));
    }
  }

  lemma {:induction false} LenFields(t: Ty, vs: seq<Value>, i: nat)
    requires t.Struct? && Wf(t, HOST_WORD) && Flat(t) && i <= |t.fields| == |vs|
    requires forall j :: 0 <= j < |vs| ==> Typed(t.fields[j].ty, vs[j], HOST_WORD)
    ensures Sum(FieldSizes(t, HOST_WORD, i)) + Len(ScriptFields(t, vs, i))
         == Sum(FieldSizes(t, HOST_WORD, |t.fields|))
    decreases t, 0, |vs| - i
  {
    hide Script, Typed, Wf, Sum, FieldSizes, PadOp, PadBefore, Len;
    if i < |vs| {
      LenFields(t, vs, i + 1);
      SumNext(t, i);
      if !t.fields[i].ignore {
        assert t.fields[i] in t.fields;
        FieldWf(t, HOST_WORD, i);
        LenScript(t.fields[i].ty, vs[i]);
        var s, rest := Script(t.fields[i].ty, vs[i]), ScriptFields(t, vs, i + 1);
        LenPad(PadBefore(t, HOST_WORD, i));
        LenConcat(PadOp(PadBefore(t, HOST_WORD, i)), s + rest);
        LenConcat(s, rest);
      }
    } else {
      LenNone();
    }
  }

  lemma LenNone()
    ensures Len([]) == 0
  {
  }

  /** Sizes up to a field, its padding and its own size lead up to the next. */
  lemma SumNext(t: Ty, i: nat)
    requires t.Struct? && Wf(t, HOST_WORD) && i < |t.fields|
    ensures t.fields[i].ignore ==> Sum(FieldSizes(t, HOST_WORD, i + 1)) == Sum(FieldSizes(t, HOST_WORD, i))
    ensures !t.fields[i].ignore ==>
      && PadBefore(t, HOST_WORD, i) >= 0
      && Sum(FieldSizes(t, HOST_WORD, i + 1))
         == Sum(FieldSizes(t, HOST_WORD, i)) + PadBefore(t, HOST_WORD, i) + Total(t.fields[i].ty, HOST_WORD)
    ensures Sum(FieldSizes(t, HOST_WORD, i)) >= 0
  {
    hide Sum, Sizes, Wf;
    FieldSizesPositive(t, HOST_WORD, i);
    SumPositive(FieldSizes(t, HOST_WORD, i));
    if !t.fields[i].ignore {
      FieldWf(t, HOST_WORD, i);
      SizesPositive(t.fields[i].ty, HOST_WORD);
      PadBeforeSign(t, HOST_WORD, i);
      var pre, pad, own := FieldSizes(t, HOST_WORD, i), PadBefore(t, HOST_WORD, i), Sizes(t.fields[i].ty, HOST_WORD);
      SumSingle(pad);
      SumEmpty();
      SumConcat(pre, PadEntry(pad));
      SumConcat(pre + PadEntry(pad), own);
    }
  }

  /** Sizes to which the source pads without ending inside a register it did not start inside of. */
  predicate Regular(a: int) {
    a > 0 && (a == 1 || a == 2 || a == 4 || a % 8 == 0)
  }

  /** The script of the type has paddings of its own. */
  predicate Padded(t: Ty)
    decreases t
  {
    match t
    case Array(e, _) => Custom(e, HOST_WORD) && Padded(e)
    case Struct(fs, _) => !Raw(fs, HOST_WORD)
    case _ => false
  }

  /** Everything a field or a tail is padded to is regular, and whatever has paddings of its own starts at a
      multiple of 8. */
  predicate Neat(t: Ty)
    decreases t
  {
    match t
    case Array(e, _) =>
      Custom(e, HOST_WORD) ==> Neat(e) && (Padded(e) ==> Total(e, HOST_WORD) % 8 == 0)
    case Struct(fs, _) =>
      !Raw(fs, HOST_WORD) ==>
        && Regular(Max(FieldSizes(t, HOST_WORD, |fs|)))
        && (forall f :: f in fs && !f.ignore ==>
              var a := First(Sizes(f.ty, HOST_WORD));
              Regular(a) && Neat(f.ty) && (Padded(f.ty) ==> a % 8 == 0))
    case _ => true
  }

  /** The padding of the source up to a regular size ends at a multiple of that size, or of 8. */
  lemma {:induction false} RegularPad(off: nat, rel: nat, a: nat)
    requires Regular(a) && off % 8 == 0
    ensures FieldPad(rel, a) >= 0
    ensures PadTo(off + rel, FieldPad(rel, a), if a % 8 == 0 then 8 else a) && PadsWell(off + rel, FieldPad(rel, a))
  {
    hide Bits.Align;
    Bits.AlignBounds(rel, a);
    var n := FieldPad(rel, a);
    ModUp(off, rel + n);
    if a % 8 == 0 {
      AlignsToEight(rel, a);
      assert PadTo(off + rel, n, 8);
    } else {
      AlignsToSmall(rel, a);
      assert PadTo(off + rel, n, a);
    }
  }

  /** Aligning to any multiple of 8, a power of two or not, ends at a multiple of 8. */
  lemma {:induction false} AlignsToEight(x: nat, a: nat)
    requires a > 0 && a % 8 == 0
    ensures Bits.Align(x, a) % 8 == 0
  {
    assert Bits.Pow2(0) == 1 && Bits.Pow2(1) == 2 && Bits.Pow2(2) == 4 && Bits.Pow2(3) == 8;
    Bits.AlignsToPowers(x, a, 3);
  }

  lemma {:induction false} AlignsToSmall(x: nat, a: nat)
    requires a == 1 || a == 2 || a == 4
    ensures Bits.Align(x, a) % a == 0
  {
    assert Bits.Pow2(0) == 1 && Bits.Pow2(1) == 2 && Bits.Pow2(2) == 4;
    hide Bits.Align, Bits.Pow2;
    Bits.AlignIsLeastMultiple(x, if a == 1 then 0 else if a == 2 then 1 else 2);
  }

  lemma ModUp(off: nat, x: nat)
    requires off % 8 == 0
    ensures (off + x) % 8 == x % 8 && (off + x) % 4 == x % 4 && (off + x) % 2 == x % 2
  {
    ModEight(off, x);
  }

  /** The condition on the sizes of a type is enough: its script is laid out well. */
  lemma {:induction false} NeatLaidOut(t: Ty, v: Value, off: nat)
    requires Wf(t, HOST_WORD) && Flat(t) && Typed(t, v, HOST_WORD) && Neat(t)
    requires Padded(t) ==> off % 8 == 0
    ensures LaidOut(off, Script(t, v))
    decreases t, 1, 0
  {
    hide FieldSizes, Sum, PadTo;
    OneLaidOut(off, v);
    match t
    case Array(e, c) =>
      if Custom(e, HOST_WORD) {
        NeatSeq(e, v.elems, off);
      }
    case Struct(fs, n) =>
      if !Raw(fs, HOST_WORD) {
        NeatStruct(t, v, off);
      }
    case _ =>
  }

  lemma OneLaidOut(off: nat, v: Value)
    ensures v.VBytes? ==> LaidOut(off, [Data(v.bytes)])
  {
  }

  lemma {:induction false} NeatSeq(e: Ty, vs: seq<Value>, off: nat)
    requires Wf(e, HOST_WORD) && Flat(e) && Neat(e) && forall v :: v in vs ==> Typed(e, v, HOST_WORD)
    requires Padded(e) ==> off % 8 == 0 && Total(e, HOST_WORD) % 8 == 0
    ensures LaidOut(off, ScriptSeq(e, vs))
    decreases e, 2, |vs|
  {
    hide Script, Typed, Wf, Total, Neat, Padded;
    if vs != [] {
      LenScript(e, vs[0]);
      NeatLaidOut(e, vs[0], off);
      if Padded(e) {
        ModUp(off, Total(e, HOST_WORD));
      }
      NeatSeq(e, vs[1..], off + Total(e, HOST_WORD));
      LaidOutConcat(off, Script(e, vs[0]), ScriptSeq(e, vs[1..]));
    }
  }

  lemma {:induction false} NeatStruct(t: Ty, v: Value, off: nat)
    requires t.Struct? && !Raw(t.fields, HOST_WORD) && off % 8 == 0
    requires Wf(t, HOST_WORD) && Flat(t) && Typed(t, v, HOST_WORD) && Neat(t)
    ensures LaidOut(off, Script(t, v))
    decreases t, 0, |t.fields| + 1
  {
    hide FieldSizes, Sum, Len, Wf, ScriptFields, PadTo;
    var sizes := FieldSizes(t, HOST_WORD, |t.fields|);
    SumFirst(t);
    NeatFields(t, v.elems, 0, off);
    LenFields(t, v.elems, 0);
    FieldSizesPositive(t, HOST_WORD, |t.fields|);
    SumPositive(sizes);
    RegularPad(off, Sum(sizes), Max(sizes));
    PadLaidOut(off + Sum(sizes), TailPad(sizes));
    LaidOutConcat(off, ScriptFields(t, v.elems, 0), PadOp(TailPad(sizes)));
  }

  lemma PadLaidOut(off: nat, n: nat)
    requires PadsWell(off, n)
    ensures LaidOut(off, PadOp(n))
  {
    hide PadsWell;
    assert n > 0 ==> [Pad(n)][1..] == [];
  }

  lemma {:induction false} NeatFields(t: Ty, vs: seq<Value>, i: nat, off: nat)
    requires t.Struct? && !Raw(t.fields, HOST_WORD) && off % 8 == 0 && Wf(t, HOST_WORD) && Flat(t) && Neat(t)
    requires i <= |t.fields| == |vs| && Sum(FieldSizes(t, HOST_WORD, i)) >= 0
    requires forall j :: 0 <= j < |vs| ==> Typed(t.fields[j].ty, vs[j], HOST_WORD)
    ensures LaidOut(off + Sum(FieldSizes(t, HOST_WORD, i)), ScriptFields(t, vs, i))
    decreases t, 0, |vs| - i
  {
    hide Script, Typed, Wf, Sum, FieldSizes, PadOp, LaidOut, PadTo, PadsWell, Padded;
    if i == |vs| {
      NothingLaidOut(off + Sum(FieldSizes(t, HOST_WORD, i)));
    } else {
      SumNext(t, i);
      if i + 1 < |vs| {
        SumNext(t, i + 1);
      } else {
        LenFields(t, vs, i);
      }
      SumStays(t, i);
      NeatFields(t, vs, i + 1, off);
      if !t.fields[i].ignore {
        NeatField(t, vs, i, off);
      }
    }
  }

  lemma SumStays(t: Ty, i: nat)
    requires t.Struct? && Wf(t, HOST_WORD) && i < |t.fields|
    ensures Sum(FieldSizes(t, HOST_WORD, i + 1)) >= 0
  {
    FieldSizesPositive(t, HOST_WORD, i + 1);
    SumPositive(FieldSizes(t, HOST_WORD, i + 1));
  }

  lemma NothingLaidOut(off: nat)
    ensures LaidOut(off, [])
  {
  }

  lemma {:induction false} NeatField(t: Ty, vs: seq<Value>, i: nat, off: nat)
    requires t.Struct? && !Raw(t.fields, HOST_WORD) && off % 8 == 0 && Wf(t, HOST_WORD) && Flat(t) && Neat(t)
    requires i < |t.fields| == |vs| && !t.fields[i].ignore && Sum(FieldSizes(t, HOST_WORD, i)) >= 0
    requires forall j :: 0 <= j < |vs| ==> Typed(t.fields[j].ty, vs[j], HOST_WORD)
    requires Sum(FieldSizes(t, HOST_WORD, i + 1)) >= 0
    requires LaidOut(off + Sum(FieldSizes(t, HOST_WORD, i + 1)), ScriptFields(t, vs, i + 1))
    ensures LaidOut(off + Sum(FieldSizes(t, HOST_WORD, i)), ScriptFields(t, vs, i))
    decreases t, 0, |vs| - i - 1
  {
    hide Script, Typed, Wf, Sum, FieldSizes, PadOp, LaidOut, PadTo, PadsWell, Padded, Len, Sizes, First, Bits.Align;
    var f, pos := t.fields[i], off + Sum(FieldSizes(t, HOST_WORD, i));
    assert f in t.fields;
    var pad := PadBefore(t, HOST_WORD, i);
    SumNext(t, i);
    FieldWf(t, HOST_WORD, i);
    RegularPad(off, Sum(FieldSizes(t, HOST_WORD, i)), First(Sizes(f.ty, HOST_WORD)));
    PadLaidOut(pos, pad);
    LenPad(pad);
    if Padded(f.ty) {
      AlignsToEight(Sum(FieldSizes(t, HOST_WORD, i)), First(Sizes(f.ty, HOST_WORD)));
      ModUp(off, Sum(FieldSizes(t, HOST_WORD, i)) + pad);
    }
    hide Neat, Regular, Flat, PadBefore;
    NeatLaidOut(f.ty, vs[i], pos + pad);
    LenScript(f.ty, vs[i]);
    var s, rest := Script(f.ty, vs[i]), ScriptFields(t, vs, i + 1);
    LaidOutConcat(pos + pad, s, rest);
    LaidOutConcat(pos, PadOp(pad), s + rest);
  }
}

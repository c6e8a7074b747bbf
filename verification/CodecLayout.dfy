/** What the size lists add up to, and how far handlers move a stream. */
module CodecLayout {
  import opened Bits
  import opened CodecTypes

  ghost predicate Positive(s: seq<int>) {
    forall i :: 0 <= i < |s| ==> s[i] > 0
  }

  lemma {:induction false} SumConcat(a: seq<int>, b: seq<int>)
    ensures Sum(a + b) == Sum(a) + Sum(b)
    decreases |b|
  {
    if b == [] {
      assert a + b == a;
    } else {
      assert (a + b)[..|a + b| - 1] == a + b[..|b| - 1];
      SumConcat(a, b[..|b| - 1]);
    }
  }

  lemma {:induction false} SumRepeat(s: seq<int>, n: nat)
    ensures Sum(Repeat(s, n)) == Times(n, Sum(s))
  {
    if n > 0 {
      SumRepeat(s, n - 1);
      SumConcat(Repeat(s, n - 1), s);
    }
  }

  lemma {:induction false} RepeatPositive(s: seq<int>, n: nat)
    requires Positive(s)
    ensures Positive(Repeat(s, n)) && (n > 0 && s != [] ==> Repeat(s, n) != [])
  {
    if n > 0 {
      RepeatPositive(s, n - 1);
    }
  }

  lemma {:induction false} SumPositive(s: seq<int>)
    requires Positive(s)
    ensures Sum(s) >= 0 && (s != [] ==> Sum(s) > 0 && 0 < Max(s) && 0 < First(s))
  {
    if s != [] {
      SumPositive(s[..|s| - 1]);
      assert s[|s| - 1] in s;
    }
  }

  /** A positive alignment never pads backwards; alignment 0, that of a zero-size field, rewinds the
      stream to the start of the struct. */
  lemma PadSign(off: nat, first: nat)
    ensures FieldPad(off, first) >= 0 <==> first > 0 || off == 0
    ensures first == 0 ==> off + FieldPad(off, first) == 0
    ensures first > 0 ==> FieldPad(off, first) < first
  {
    AlignBounds(off, first);
  }

  function EmptyFieldStruct(): Ty {
    Struct([Field(Scalar(4), 0, false), Field(Struct([], 0), 4, false), Field(Scalar(4), 4, false)], 8)
  }

  /** The field at offset 4 is an empty struct: its pad is -4, so the field after it starts at offset 0
      again, on top of the first. */
  lemma EmptyFieldRewinds(bs: nat)
    ensures var t := EmptyFieldStruct();
      && !Raw(t.fields, bs) && PadBefore(t, bs, 0) == 0 && PadBefore(t, bs, 1) == -4
      && FieldsMoved(t, bs, 2) + PadBefore(t, bs, 2) == 0
  {
    var t := EmptyFieldStruct();
    FirstField(t, bs);
    SecondPad(t, bs);
    FirstTwo(t, bs);
  }

  lemma FirstField(t: Ty, bs: nat)
    requires t == EmptyFieldStruct()
    ensures !Raw(t.fields, bs) && PadBefore(t, bs, 0) == 0
    ensures FieldSizes(t, bs, 1) == [4] && FieldsMoved(t, bs, 1) == 4
  {
    hide Sum, Align;
    assert t.fields[1] in t.fields && Custom(t.fields[1].ty, bs);
    SumEmpty();
    SumSingle(4);
    AlignAtZero();
    assert FieldSizes(t, bs, 0) == [];
    assert [] + [] + [4] == [4];
  }

  lemma SecondPad(t: Ty, bs: nat)
    requires t == EmptyFieldStruct() && FieldSizes(t, bs, 1) == [4]
    ensures Sizes(t.fields[1].ty, bs) == [0] && Total(t.fields[1].ty, bs) == 0 && PadBefore(t, bs, 1) == -4
  {
    hide Sum, Align, FieldSizes;
    assert RawChunks([]) + [0] == [0];
    SumSingle(4);
    SumSingle(0);
    AlignBounds(4, 0);
  }

  lemma FirstTwo(t: Ty, bs: nat)
    requires t == EmptyFieldStruct() && FieldSizes(t, bs, 1) == [4] && Sizes(t.fields[1].ty, bs) == [0]
    requires PadBefore(t, bs, 1) == -4 && FieldsMoved(t, bs, 1) == 4 && Total(t.fields[1].ty, bs) == 0
    ensures FieldsMoved(t, bs, 2) == 0 && PadBefore(t, bs, 2) == 0
  {
    hide Sum, Raw, Align;
    assert FieldSizes(t, bs, 2) == [4] + [-4] + [0];
    SumConcat([4], [-4]);
    SumConcat([4] + [-4], [0]);
    SumSingle(4);
    SumSingle(-4);
    SumSingle(0);
    AlignBounds(0, 4);
    AlignAtZero();
  }

  lemma AlignAtZero()
    ensures Align(0, 4) == 0
  {
    assert AndNot(1, 1) == 0;
  }

  // ----- alignment

  /** A pad up to a power of two is the least that ends at a multiple of it; up to any other size it ends at
      a multiple of each power of two in it. */
  lemma PadAligns(off: nat, first: nat, k: nat)
    requires first > 0
    ensures Pow2(k) > 0
    ensures first == Pow2(k) ==> LeastUp(off, off + FieldPad(off, first), first)
    ensures first % Pow2(k) == 0 ==> (off + FieldPad(off, first)) % Pow2(k) == 0
  {
    AlignIsLeastMultiple(off, k);
    if first % Pow2(k) == 0 {
      AlignsToPowers(off, first, k);
    }
  }

  /** Where field `i` of a custom struct starts, as declared by the size lists. */
  function FieldStart(t: Ty, bs: nat, i: nat): int
    requires t.Struct? && i < |t.fields|
  {
    Sum(FieldSizes(t, bs, i)) + PadBefore(t, bs, i)
  }

  /** The layout of a custom struct, field by field: each kept field starts at the least multiple of its
      first size at or above the end of the one before, if that size is a power of two, and at a multiple
      of every power of two in it in any case; it ends its own size further on. */
  lemma FieldPlaced(t: Ty, bs: nat, i: nat, k: nat)
    requires t.Struct? && Wf(t, bs) && bs > 0 && i < |t.fields| && !t.fields[i].ignore
    ensures Pow2(k) > 0
    ensures var (a, end) := (First(Sizes(t.fields[i].ty, bs)), Sum(FieldSizes(t, bs, i)));
      && a > 0 && 0 <= end <= FieldStart(t, bs, i)
      && (a == Pow2(k) ==> LeastUp(end, FieldStart(t, bs, i), a))
      && (a % Pow2(k) == 0 ==> FieldStart(t, bs, i) % Pow2(k) == 0)
      && Sum(FieldSizes(t, bs, i + 1)) == FieldStart(t, bs, i) + Total(t.fields[i].ty, bs)
  {
    hide Sum, Sizes, Wf, FieldPad, LeastUp;
    var f, pre := t.fields[i], FieldSizes(t, bs, i);
    FieldWf(t, bs, i);
    FieldSizesPositive(t, bs, i);
    SumPositive(pre);
    SizesPositive(f.ty, bs);
    SumPositive(Sizes(f.ty, bs));
    PadBeforeSign(t, bs, i);
    PadAligns(Sum(pre), First(Sizes(f.ty, bs)), k);
    var pad := PadBefore(t, bs, i);
    SumSingle(pad);
    SumEmpty();
    SumConcat(pre, PadEntry(pad));
    SumConcat(pre + PadEntry(pad), Sizes(f.ty, bs));
  }

  /** The whole struct takes the least multiple of its largest size that holds the fields, if that size is a
      power of two, and a multiple of every power of two in it in any case. */
  lemma StructPlaced(t: Ty, bs: nat, k: nat)
    requires t.Struct? && !Raw(t.fields, bs) && Wf(t, bs) && bs > 0
    ensures Pow2(k) > 0
    ensures var sizes := FieldSizes(t, bs, |t.fields|);
      && Max(sizes) > 0 && Max(sizes) in sizes && 0 <= Sum(sizes) <= Total(t, bs)
      && (Max(sizes) == Pow2(k) ==> LeastUp(Sum(sizes), Total(t, bs), Max(sizes)))
      && (Max(sizes) % Pow2(k) == 0 ==> Total(t, bs) % Pow2(k) == 0)
  {
    hide Sum, FieldPad, LeastUp;
    var sizes := FieldSizes(t, bs, |t.fields|);
    FieldSizesPositive(t, bs, |t.fields|);
    SumPositive(sizes);
    TailSum(sizes);
    SumConcat(sizes, TailEntry(sizes));
    PadAligns(Sum(sizes), Max(sizes), k);
  }

  // ----- raw structs

  /** The size list of a plain struct has one entry for each field: the distance to the next one. */
  lemma {:induction false} RawChunksAre(fs: seq<Field>)
    requires fs != [] && fs[0].offset == 0
    requires forall i, j :: 0 <= i < j < |fs| ==> fs[i].offset < fs[j].offset
    ensures |RawChunks(fs)| == |fs| - 1
    ensures forall i :: 0 <= i < |fs| - 1 ==> RawChunks(fs)[i] == fs[i + 1].offset - fs[i].offset
    decreases |fs|
  {
    var n := |fs| - 1;
    if n == 0 {
      assert fs[..0] == [];
    } else {
      RawChunksAre(fs[..n]);
    }
  }

  lemma {:induction false} RawChunksSum(fs: seq<Field>)
    requires fs != [] ==> fs[0].offset == 0
    ensures Sum(RawChunks(fs)) == LastOffset(fs)
    decreases |fs|
  {
    hide Sum;
    SumEmpty();
    if fs != [] {
      var n := |fs| - 1;
      RawChunksSum(fs[..n]);
      var s := fs[n].offset - (if n == 0 then 0 else fs[n - 1].offset);
      SumConcat(RawChunks(fs[..n]), if s != 0 then [s] else []);
      SumSingle(s);
      if n > 0 {
        assert LastOffset(fs[..n]) == fs[n - 1].offset;
      }
    }
  }

  lemma {:induction false} RawChunksPositive(fs: seq<Field>)
    requires fs != [] ==> fs[0].offset == 0
    requires forall i, j :: 0 <= i < j < |fs| ==> fs[i].offset < fs[j].offset
    ensures Positive(RawChunks(fs))
    decreases |fs|
  {
    if fs != [] {
      RawChunksPositive(fs[..|fs| - 1]);
    }
  }

  lemma SumSingle(x: int)
    ensures Sum([x]) == x
  {
    assert [x][..0] == [];
  }

  /** The chunks of a raw struct add up to its host size: the one write is the whole host image. */
  lemma RawTotal(t: Ty, bs: nat)
    requires t.Struct? && Raw(t.fields, bs) && (t.fields != [] ==> t.fields[0].offset == 0)
    ensures Total(t, bs) == t.hostSize
  {
    hide Sum, RawChunks;
    RawChunksSum(t.fields);
    SumConcat(RawChunks(t.fields), [t.hostSize - LastOffset(t.fields)]);
    SumSingle(t.hostSize - LastOffset(t.fields));
  }

  lemma PlainArrayTotal(e: Ty, c: nat, bs: nat)
    requires !Custom(e, bs)
    ensures Total(Array(e, c), bs) == Times(c, HostSize(e))
  {
    SumRepeat([HostSize(e)], c);
    SumSingle(HostSize(e));
  }

  lemma CustomArrayTotal(e: Ty, c: nat, bs: nat)
    requires Custom(e, bs)
    ensures Total(Array(e, c), bs) == Times(c, Total(e, bs))
  {
    SumRepeat(Sizes(e, bs), c);
  }

  // ----- every entry is positive

  lemma {:induction false} SizesPositive(t: Ty, bs: nat)
    requires Wf(t, bs) && bs > 0
    ensures Positive(Sizes(t, bs)) && Sizes(t, bs) != []
    decreases t, 1
  {
    match t
    case Array(e, c) =>
      SizesPositive(e, bs);
      RepeatPositive(if Custom(e, bs) then Sizes(e, bs) else [HostSize(e)], c);
    case Struct(fs, n) =>
      if Raw(fs, bs) {
        RawChunksPositive(fs);
      } else {
        FieldSizesPositive(t, bs, |fs|);
      }
    case _ =>
  }

  lemma {:induction false} FieldSizesPositive(t: Ty, bs: nat, k: nat)
    requires t.Struct? && Wf(t, bs) && bs > 0 && k <= |t.fields|
    ensures Positive(FieldSizes(t, bs, k))
    ensures (exists i :: 0 <= i < k && !t.fields[i].ignore) ==> FieldSizes(t, bs, k) != []
    decreases t, 0, k
  {
    hide Sizes, Sum, FieldPad, First, Wf;
    if k > 0 {
      FieldWf(t, bs, k - 1);
      FieldSizesPositive(t, bs, k - 1);
      SizesPositive(t.fields[k - 1].ty, bs);
      PadBeforeSign(t, bs, k - 1);
    }
  }

  lemma PadBeforeSign(t: Ty, bs: nat, k: nat)
    requires t.Struct? && k < |t.fields|
    requires Positive(FieldSizes(t, bs, k)) && Positive(Sizes(t.fields[k].ty, bs)) && Sizes(t.fields[k].ty, bs) != []
    ensures PadBefore(t, bs, k) >= 0
  {
    SumPositive(FieldSizes(t, bs, k));
    SumPositive(Sizes(t.fields[k].ty, bs));
    PadSign(Sum(FieldSizes(t, bs, k)), First(Sizes(t.fields[k].ty, bs)));
  }

  lemma TailSum(sizes: seq<int>)
    requires Positive(sizes)
    ensures TailPad(sizes) >= 0 && Sum(TailEntry(sizes)) == TailPad(sizes) && Positive(TailEntry(sizes))
  {
    SumPositive(sizes);
    if sizes != [] {
      PadSign(Sum(sizes), Max(sizes));
    } else {
      AlignBounds(0, 0);
    }
    SumSingle(TailPad(sizes));
  }

  // ----- movement against declared size

  lemma {:induction false} TimesMono(n: nat, a: int, b: int)
    requires a <= b
    ensures Times(n, a) <= Times(n, b)
  {
    if n > 0 {
      TimesMono(n - 1, a, b);
    }
  }

  /** Repetition tells different sizes apart. */
  lemma {:induction false} TimesStrict(n: nat, a: int, b: int)
    requires a <= b && n > 0
    ensures Times(n, a) == Times(n, b) <==> a == b
  {
    TimesMono(n - 1, a, b);
  }

  lemma {:induction false} TimesCount(i: nat, n: nat, m: int)
    requires i <= n && m >= 0
    ensures Times(i, m) <= Times(n, m)
  {
    if i < n {
      TimesCount(i, n - 1, m);
    }
  }

  /** No string sits in the memory of the value itself; behind a pointer or a slice it may. */
  predicate NoInlineString(t: Ty, bs: nat)
    decreases t
  {
    match t
    case Str => false
    case Array(e, _) => NoInlineString(e, bs)
    case Struct(fs, _) => forall f :: f in fs && !f.ignore ==> NoInlineString(f.ty, bs)
    case _ => true
  }

  /** A handler moves its stream by at most the declared size, and by exactly that if and only if no
      string occurs inline. */
  lemma {:induction false} MovedBound(t: Ty, bs: nat)
    requires Wf(t, bs) && bs > 0
    ensures 0 < Moved(t, bs) <= Total(t, bs)
    ensures NoInlineString(t, bs) <==> Moved(t, bs) == Total(t, bs)
    decreases t, 1
  {
    SizesPositive(t, bs);
    SumPositive(Sizes(t, bs));
    match t
    case Array(e, c) =>
      if Custom(e, bs) {
        MovedBound(e, bs);
        CustomArrayTotal(e, c, bs);
        TimesMono(c, Moved(e, bs), Total(e, bs));
        TimesStrict(c, Moved(e, bs), Total(e, bs));
        TimesCount(1, c, Moved(e, bs));
        assert Times(1, Moved(e, bs)) == Times(0, Moved(e, bs)) + Moved(e, bs);
      }
    case Struct(fs, n) =>
      if !Raw(fs, bs) {
        var sizes := FieldSizes(t, bs, |fs|);
        FieldSizesPositive(t, bs, |fs|);
        FieldsMovedBound(t, bs, |fs|);
        TailSum(sizes);
        SumConcat(sizes, TailEntry(sizes));
      }
    case Str =>
      SumConcat([bs], [bs]);
      SumSingle(bs);
      assert [bs] + [bs] == [bs, bs];
    case _ =>
  }

  lemma {:induction false} FieldsMovedBound(t: Ty, bs: nat, k: nat)
    requires t.Struct? && Wf(t, bs) && bs > 0 && k <= |t.fields|
    ensures 0 <= FieldsMoved(t, bs, k) <= Sum(FieldSizes(t, bs, k))
    ensures (exists i :: 0 <= i < k && !t.fields[i].ignore) ==> FieldsMoved(t, bs, k) > 0
    ensures (forall i :: 0 <= i < k && !t.fields[i].ignore ==> NoInlineString(t.fields[i].ty, bs))
      <==> FieldsMoved(t, bs, k) == Sum(FieldSizes(t, bs, k))
    decreases t, 0, k
  {
    hide Sum, Sizes, Moved, FieldPad, NoInlineString, Wf;
    SumEmpty();
    if k > 0 {
      var f, pre := t.fields[k - 1], FieldSizes(t, bs, k - 1);
      FieldWf(t, bs, k - 1);
      FieldsMovedBound(t, bs, k - 1);
      if !f.ignore {
        MovedBound(f.ty, bs);
        FieldSizesPositive(t, bs, k - 1);
        SizesPositive(f.ty, bs);
        PadBeforeSign(t, bs, k - 1);
        var pad := PadBefore(t, bs, k - 1);
        SumSingle(pad);
        SumConcat(pre, PadEntry(pad));
        SumConcat(pre + PadEntry(pad), Sizes(f.ty, bs));
      }
    }
  }

  lemma FieldWf(t: Ty, bs: nat, k: nat)
    requires t.Struct? && Wf(t, bs) && k < |t.fields|
    ensures Wf(t.fields[k].ty, bs)
  {
  }

  lemma SumEmpty()
    ensures Sum([]) == 0
  {
  }

  /** The string exception: two words declared, one consumed. */
  lemma StringDeclaresTwice(bs: nat)
    ensures Total(Str, bs) == 2 * bs && Moved(Str, bs) == bs
  {
    SumConcat([bs], [bs]);
    SumSingle(bs);
    assert [bs] + [bs] == [bs, bs];
  }

  // ----- the compile-time loops over the fields of a struct

  /** The size list as the source builds it: first look for a reason to go field by field, collecting
      offset differences on the way; failing that the struct is one raw image. */
  method StructSizes(t: Ty, bs: nat) returns (size: seq<int>, raw: bool)
    requires t.Struct?
    ensures raw == Raw(t.fields, bs)
    ensures size == Sizes(t, bs)
  {
    var offset, needCustom;
    size, offset, needCustom := RawPass(t, bs);
    if !needCustom {
      return size + [t.hostSize - offset], true;
    }
    size := FieldPass(t, bs);
    var pad := FieldPad(Sum(size), Max(size));
    if pad > 0 {
      size := size + [pad];
    }
    return size, false;
  }

  method RawPass(t: Ty, bs: nat) returns (size: seq<int>, offset: nat, needCustom: bool)
    requires t.Struct?
    ensures needCustom <==> !Raw(t.fields, bs)
    ensures !needCustom ==> size == RawChunks(t.fields) && offset == LastOffset(t.fields)
  {
    size, offset, needCustom := [], 0, false;
    var i := 0;
    while i < |t.fields|
      invariant 0 <= i <= |t.fields| && !needCustom
      invariant Raw(t.fields[..i], bs)
      invariant size == RawChunks(t.fields[..i]) && offset == LastOffset(t.fields[..i])
    {
      var f := t.fields[i];
      if f.ignore || Custom(f.ty, bs) {
        needCustom := true;
        return;
      }
      assert t.fields[..i + 1][..i] == t.fields[..i];
      var s := f.offset - offset;
      if s != 0 {
        size := size + [s];
      }
      offset := f.offset;
      i := i + 1;
    }
    assert t.fields[..i] == t.fields;
  }

  method FieldPass(t: Ty, bs: nat) returns (size: seq<int>)
    requires t.Struct?
    ensures size == FieldSizes(t, bs, |t.fields|)
  {
    hide Sizes, Sum, FieldPad, First;
    size := [];
    var i := 0;
    while i < |t.fields|
      invariant 0 <= i <= |t.fields| && size == FieldSizes(t, bs, i)
    {
      var f := t.fields[i];
      if !f.ignore {
        var fieldSize := Sizes(f.ty, bs);
        var pad := FieldPad(Sum(size), First(fieldSize));
        size := size + PadEntry(pad) + fieldSize;
      }
      i := i + 1;
    }
  }
}

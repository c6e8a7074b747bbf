/** Where integer arguments end up: the first eight in X0 to X7, the others in the slots of the stack
    (internal/debugger/arm64/arm64.go, internal/debugger/arm64/stream.go). */
module ArgIntegers {
  import Bits
  import opened CodecTypes
  import opened RegStreamSpec
  import opened RegStreamExact

  /** Arguments of up to eight bytes, each written in one piece. */
  predicate Small(args: seq<seq<byte>>) {
    forall i :: 0 <= i < |args| ==> 0 < |args[i]| <= 8
  }

  predicate Full(args: seq<seq<byte>>) {
    forall i :: 0 <= i < |args| ==> |args[i]| == 8
  }

  function Pieces(args: seq<seq<byte>>): (r: seq<seq<Op>>)
    ensures |r| == |args| && forall i :: 0 <= i < |args| ==> r[i] == [Data(args[i])]
  {
    seq(|args|, i requires 0 <= i < |args| => [Data(args[i])])
  }

  lemma {:induction false} ArgOpsConcat(a: seq<seq<Op>>, b: seq<seq<Op>>)
    ensures ArgOps(a + b) == ArgOps(a) + ArgOps(b)
    decreases |a|
  {
    if a == [] {
      assert [] + b == b && [] + ArgOps(b) == ArgOps(b);
    } else {
      assert (a + b)[1..] == a[1..] + b;
      ArgOpsConcat(a[1..], b);
      assert a[0] + ([Align] + (ArgOps(a[1..]) + ArgOps(b))) == (a[0] + ([Align] + ArgOps(a[1..]))) + ArgOps(b);
    }
  }

  lemma OneArg(b: seq<byte>, rest: seq<seq<Op>>)
    ensures ArgOps([[Data(b)]] + rest) == [Data(b)] + ([Align] + ArgOps(rest))
  {
    assert ([[Data(b)]] + rest)[1..] == rest;
  }

  lemma MovePiece(p: Pos, b: seq<byte>)
    ensures MoveAll(p, [Data(b)] + ([Align] + [])) == Advance(p, |b|).Align()
  {
    hide Advance, Bits.Align;
    var tail := [Op.Align] + [];
    assert ([Data(b)] + tail)[1..] == tail && tail[1..] == [];
    assert MoveAll(Advance(p, |b|), tail) == MoveAll(Advance(p, |b|).Align(), []);
  }

  /** The position after one argument of up to eight bytes. */
  lemma AfterOne(p: Pos, b: seq<byte>)
    requires p.groff % 8 == 0 && p.stoff % 4 == 0 && 0 < |b| <= 8 && (p.InRegs() || |b| == 8)
    ensures MoveAll(p, [Data(b)] + ([Align] + [])) ==
      if p.InRegs() then Pos(p.groff + 8, p.stoff) else Pos(p.groff, p.stoff + 8)
  {
    MovePiece(p, b);
    AdvanceInRegs(p, |b|);
    hide Advance, MoveAll;
    var q := Advance(p, |b|);
    PosAligns(q);
    hide Bits.Align;
    UpTo(p.groff, q.groff, q.Align().groff, 8);
    UpTo(p.stoff, q.stoff, q.Align().stoff, 4);
  }

  /** The least multiple at or above something within one step, or two, of a multiple. */
  lemma UpTo(from: nat, x: nat, to: nat, a: nat)
    requires (a == 8 || a == 4) && from % a == 0 && Bits.LeastUp(x, to, a)
    ensures x == from ==> to == from
    ensures from < x <= from + a ==> to == from + a
    ensures a == 4 && x == from + 8 ==> to == from + 8
  {
    assert (from + a) % a == 0 && (from + 8) % a == 0;
  }

  /** The `i`-th argument starts at register `i`, or at the slot of the stack that its number gives. */
  lemma {:induction false} ArgumentStart(args: seq<seq<byte>>, i: nat)
    requires Small(args) && i <= |args| && (i <= 8 || Full(args))
    ensures MoveAll(Pos(0, 0), ArgOps(Pieces(args[..i]))) == Slot(i)
    decreases i
  {
    hide Bits.Align, Advance, MoveAll, ArgOps;
    if i == 0 {
      assert Pieces(args[..0]) == [];
      NoMove();
      assert Slot(0) == Pos(0, 0);
    } else {
      var n := i - 1;
      ArgumentStart(args, n);
      assert 0 < |args[n]| <= 8 && (n < 8 || |args[n]| == 8);
      PiecesLast(args, n);
      hide Small, Full, Pieces, Slot;
      MoveAllConcat(Pos(0, 0), ArgOps(Pieces(args[..n])), [Data(args[n])] + ([Align] + []));
      AfterSlot(n, args[n]);
    }
  }

  lemma AfterSlot(n: nat, b: seq<byte>)
    requires 0 < |b| <= 8 && (n < 8 || |b| == 8)
    ensures MoveAll(Slot(n), [Data(b)] + ([Align] + [])) == Slot(n + 1)
  {
    hide MoveAll;
    assert 8 * n % 8 == 0 && 8 * (n - 8) % 4 == 0;
    AfterOne(Slot(n), b);
  }

  lemma PiecesLast(args: seq<seq<byte>>, n: nat)
    requires n < |args|
    ensures ArgOps(Pieces(args[..n + 1])) == ArgOps(Pieces(args[..n])) + ([Data(args[n])] + ([Align] + []))
  {
    hide ArgOps;
    assert Pieces(args[..n + 1]) == Pieces(args[..n]) + ([[Data(args[n])]] + []);
    ArgOpsConcat(Pieces(args[..n]), [[Data(args[n])]] + []);
    OneArg(args[n], []);
    NoMove();
  }

  /** Where argument number `i` starts. */
  function Slot(i: nat): Pos {
    if i <= 8 then Pos(8 * i, 0) else Pos(64, 8 * (i - 8))
  }

  lemma NoMove()
    ensures ArgOps([]) == [] && MoveAll(Pos(0, 0), []) == Pos(0, 0)
  {
  }

  /** What is written for one argument is at its positions in the end. */
  lemma ArgumentStays(w: Writer, b: seq<byte>, rest: seq<seq<byte>>, j: nat)
    requires Shaped(w.regs, w.value) && w.pos.groff % 8 == 0 && Small(rest) && j < |b|
    ensures var end := WriteOps(w, [Data(b)] + ([Align] + ArgOps(Pieces(rest))));
      HasByte(end, Advance(w.pos, j), b[j])
  {
    var w1, tail := Put(w, b), [Op.Align] + ArgOps(Pieces(rest));
    PutKeeps(w, b);
    AlignsTo8(w1.pos.groff);
    hide Bits.Align;
    PiecesGood(w1.pos.Align(), rest);
    assert tail[1..] == ArgOps(Pieces(rest)) && ([Data(b)] + tail)[1..] == tail;
    hide HasByte, Put, Advance, Bits.Align, ArgOps;
    WriteOpsKeep(w1, true, tail);
    AdvanceBefore(w.pos, |b|);
    assert Advance(w.pos, j).Before(w1.pos);
    assert WriteOps(w, [Data(b)] + tail) == WriteOps(w1, tail);
  }

  lemma PiecesGood(p: Pos, args: seq<seq<byte>>)
    requires p.groff % 8 == 0
    ensures GoodOps(p, true, ArgOps(Pieces(args)))
  {
    forall s | s in Pieces(args) ensures LaidOut(0, s) {
      var i :| 0 <= i < |args| && s == Pieces(args)[i];
      assert s[1..] == [];
    }
    ArgOpsGood(p, Pieces(args));
  }

  /** However many arguments of up to eight bytes there are, the first eight are at the start of X0 to X7, in
      their order, lowest byte first; and those behind them, if all have eight bytes, are one after the other
      in the stack image. */
  lemma IntegersInOrder(regs: seq<seq<byte>>, args: seq<seq<byte>>, i: nat, j: nat)
    requires Shaped(regs, Fill(8)) && Small(args) && i < |args| && j < |args[i]| && (i < 8 || Full(args))
    ensures var end := WriteOps(Writer(regs, [], Pos(0, 0), Fill(8)), ArgOps(Pieces(args)));
      if i < 8 then end.regs[i][j] == args[i][j]
      else 8 * (i - 8) + j < |end.stack| && end.stack[8 * (i - 8) + j] == args[i][j]
  {
    hide WriteOps, HasByte, Advance, MoveAll;
    var w, pre, rest := Writer(regs, [], Pos(0, 0), Fill(8)), args[..i], args[i + 1..];
    var p := Slot(i);
    assert Pieces(args) == Pieces(pre) + ([[Data(args[i])]] + Pieces(rest));
    ArgOpsConcat(Pieces(pre), [[Data(args[i])]] + Pieces(rest));
    OneArg(args[i], Pieces(rest));
    WriteOpsConcat(w, ArgOps(Pieces(pre)), [Data(args[i])] + ([Align] + ArgOps(Pieces(rest))));
    ArgumentStart(args, i);
    var w1 := WriteOps(w, ArgOps(Pieces(pre)));
    WriteOpsBelow(w, ArgOps(Pieces(pre)));
    assert w1.pos == p;
    ArgumentStays(w1, args[i], rest, j);
    AdvanceInRegs(p, j);
    ByteIs(WriteOps(w, ArgOps(Pieces(args))), i, j, args[i][j]);
  }

  lemma ByteIs(end: Writer, i: nat, j: nat, x: byte)
    requires Shaped(end.regs, end.value) && j < 8
    requires HasByte(end, if i < 8 then Pos(8 * i + j, 0) else Pos(64, 8 * (i - 8) + j), x)
    ensures if i < 8 then end.regs[i][j] == x
            else 8 * (i - 8) + j < |end.stack| && end.stack[8 * (i - 8) + j] == x
  {
    if i < 8 {
      Bits.DivUnique(8 * i + j, 8, i, j);
    }
  }
}

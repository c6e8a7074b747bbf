/** Guest memory as a partial map of bytes, and what it means for a value to be stored in it. */
module CodecMemory {
  import Bits
  import opened Ranges
  import opened Wrappers
  import opened CodecTypes

  type Mem = map<nat, byte>

  predicate Mapped(mem: Mem, addr: nat, n: int) {
    forall x :: addr <= x < addr + n ==> x in mem
  }

  function Read(mem: Mem, addr: nat, n: nat): (r: Option<seq<byte>>)
    ensures r.Some? <==> Mapped(mem, addr, n)
    ensures r.Some? ==> |r.value| == n
    ensures r.Some? ==> forall i :: 0 <= i < n ==> r.value[i] == mem[addr + i]
  {
    if Mapped(mem, addr, n) then Some(seq(n, i requires 0 <= i < n => mem[addr + i])) else None
  }

  function Store(mem: Mem, addr: nat, b: seq<byte>): Mem {
    map x | x in mem :: if Within(x, addr, |b|) then b[x - addr] else mem[x]
  }

  predicate Holds(mem: Mem, addr: nat, b: seq<byte>) {
    forall x :: addr <= x < addr + |b| ==> x in mem && mem[x] == b[x - addr]
  }

  lemma HoldsRead(mem: Mem, addr: nat, b: seq<byte>)
    requires Holds(mem, addr, b)
    ensures Read(mem, addr, |b|) == Some(b)
  {
    var r := Read(mem, addr, |b|);
    assert r.Some?;
    forall i | 0 <= i < |b| ensures r.value[i] == b[i] {
      assert mem[addr + i] == b[addr + i - addr];
    }
    assert r.value == b;
  }

  // ----- little-endian words

  function Pow256(k: nat): nat {
    if k == 0 then 1 else 256 * Pow256(k - 1)
  }

  function LE(n: nat, k: nat): (b: seq<byte>)
    ensures |b| == k
  {
    if k == 0 then [] else [n % 256] + LE(n / 256, k - 1)
  }

  function FromLE(b: seq<byte>): nat {
    if b == [] then 0 else b[0] + 256 * FromLE(b[1..])
  }

  /** The lowest byte comes first. */
  lemma {:induction false} LEByte(n: nat, k: nat, i: nat)
    requires i < k
    ensures Pow256(i) > 0 && LE(n, k)[i] == n / Pow256(i) % 256
    decreases i
  {
    if i > 0 {
      LEByte(n / 256, k - 1, i - 1);
      Bits.DivTwice(n, 256, Pow256(i - 1));
    }
  }

  /** `k` bytes hold any number below 256^k, and a larger one only up to its low bytes. */
  lemma {:induction false} LERoundTrip(n: nat, k: nat)
    ensures FromLE(LE(n, k)) == n <==> n < Pow256(k)
    ensures FromLE(LE(n, k)) < Pow256(k)
    decreases k
  {
    if k > 0 {
      LERoundTrip(n / 256, k - 1);
      assert LE(n, k)[1..] == LE(n / 256, k - 1);
    }
  }

  // ----- strings, read sixteen bytes at a time

  const CHUNK: nat := 16

  function FirstNul(b: seq<byte>): (i: nat)
    ensures i <= |b| && (i < |b| ==> b[i] == 0) && forall j :: 0 <= j < i ==> b[j] != 0
    decreases |b|
  {
    if b == [] || b[0] == 0 then 0 else 1 + FirstNul(b[1..])
  }

  function Above(mem: Mem, addr: nat): set<nat> {
    set x | x in mem && x >= addr
  }

  function ReadString(mem: Mem, addr: nat): Option<seq<byte>>
    decreases Above(mem, addr)
  {
    match Read(mem, addr, CHUNK)
    case None => None
    case Some(buf) =>
      var i := FirstNul(buf);
      if i < CHUNK then Some(buf[..i])
      else
        assert addr in Above(mem, addr) && addr !in Above(mem, addr + CHUNK);
        match ReadString(mem, addr + CHUNK)
        case None => None
        case Some(rest) => Some(buf + rest)
  }

  /** Bytes that have to be mapped for a string whose first NUL is at index `k` to be read. */
  function ChunkSpan(k: nat): nat {
    CHUNK * (k / CHUNK + 1)
  }

  /** Reading back finds the bytes up to the first NUL, provided whole chunks are mapped that far. */
  lemma {:induction false} ReadStringFinds(mem: Mem, addr: nat, b: seq<byte>)
    requires Holds(mem, addr, b) && FirstNul(b) < |b|
    ensures var k := FirstNul(b);
      ReadString(mem, addr) == if Mapped(mem, addr, ChunkSpan(k)) then Some(b[..k]) else None
    decreases |b|
  {
    hide FirstNul, Holds;
    var k := FirstNul(b);
    if Mapped(mem, addr, CHUNK) {
      var buf := Read(mem, addr, CHUNK).value;
      ChunkMatches(mem, addr, b, buf);
      if k >= CHUNK {
        FirstNulDrop(b, CHUNK);
        ReadStringFinds(mem, addr + CHUNK, b[CHUNK..]);
        SpanStep(mem, addr, k);
        assert buf + b[CHUNK..][..k - CHUNK] == b[..k];
      }
    } else {
      assert ChunkSpan(k) >= CHUNK;
    }
  }

  /** The first chunk of a string agrees with it, and so do their first NULs. */
  lemma ChunkMatches(mem: Mem, addr: nat, b: seq<byte>, buf: seq<byte>)
    requires Holds(mem, addr, b) && FirstNul(b) < |b|
    requires Read(mem, addr, CHUNK) == Some(buf)
    ensures var k := FirstNul(b);
      if k < CHUNK then FirstNul(buf) == k && buf[..k] == b[..k]
      else FirstNul(buf) == CHUNK && buf == b[..CHUNK] && Holds(mem, addr + CHUNK, b[CHUNK..])
  {
    hide FirstNul;
    var k := FirstNul(b);
    forall i | 0 <= i < CHUNK && i < |b| ensures buf[i] == b[i] {
      assert mem[addr + i] == b[addr + i - addr];
    }
    if k < CHUNK {
      FirstNulIs(buf, k);
    } else {
      FirstNulIs(buf, CHUNK);
      assert buf == b[..CHUNK];
    }
  }

  lemma FirstNulIs(b: seq<byte>, k: nat)
    requires k <= |b| && (k < |b| ==> b[k] == 0) && forall j :: 0 <= j < k ==> b[j] != 0
    ensures FirstNul(b) == k
  {
  }

  lemma SpanStep(mem: Mem, addr: nat, k: nat)
    requires k >= CHUNK && Mapped(mem, addr, CHUNK)
    ensures Mapped(mem, addr, ChunkSpan(k)) <==> Mapped(mem, addr + CHUNK, ChunkSpan(k - CHUNK))
  {
    assert ChunkSpan(k) == CHUNK + ChunkSpan(k - CHUNK);
  }

  lemma {:induction false} FirstNulDrop(b: seq<byte>, n: nat)
    requires n <= FirstNul(b)
    ensures FirstNul(b[n..]) == FirstNul(b) - n
    decreases n
  {
    if n == 0 {
      assert b[0..] == b;
    } else {
      FirstNulDrop(b[1..], n - 1);
      assert b[1..][n - 1..] == b[n..];
    }
  }

  lemma FirstNulAppend(s: seq<byte>)
    ensures FirstNul(s + [0]) <= |s|
    ensures FirstNul(s + [0]) == |s| <==> 0 !in s
    ensures (s + [0])[..FirstNul(s + [0])] == s <==> 0 !in s
  {
    var z := s + [0];
    var k := FirstNul(z);
    assert z[|s|] == 0;
    forall j | 0 <= j < |s| ensures z[j] == s[j] {
    }
    if 0 in s {
      var i :| 0 <= i < |s| && s[i] == 0;
      assert z[i] == 0;
    }
  }

  // ----- stored values

  /** `[addr, addr + n)` is mapped and belongs to `own`. */
  ghost predicate Owns(mem: Mem, own: set<nat>, addr: nat, n: int) {
    forall x: nat :: Within(x, addr, n) ==> x in mem && x in own
  }

  /** The address in the pointer slot at `p`. */
  function Slot(mem: Mem, bs: nat, p: nat): nat {
    match Read(mem, p, bs)
    case None => 0
    case Some(b) => FromLE(b)
  }

  ghost predicate Image(mem: Mem, own: set<nat>, addr: nat, b: seq<byte>) {
    Owns(mem, own, addr, |b|) && Holds(mem, addr, b)
  }

  /** Memory holds value `v` of type `t` at `p`, everything behind its pointers included, entirely
      within the bytes `own`.  A nil pointer leaves an address in its slot all the same. */
  ghost predicate Stored(mem: Mem, own: set<nat>, bs: nat, t: Ty, v: Value, p: nat)
    requires Typed(t, v, bs)
    decreases t, 1, 0
  {
    match t
    case Scalar(_) => Image(mem, own, p, v.bytes)
    case Word => Image(mem, own, p, v.bytes[..if bs < HOST_WORD then bs else HOST_WORD])
    case Array(e, c) =>
      if Custom(e, bs) then StoredSeq(mem, own, bs, e, v.elems, p) else Image(mem, own, p, v.bytes)
    case Pointer(e) =>
      && Owns(mem, own, p, bs) && Slot(mem, bs, p) > 0
      && (v.VPtr? ==> Stored(mem, own, bs, e, v.target, Slot(mem, bs, p)))
    case Slice(e) =>
      && Owns(mem, own, p, bs) && Slot(mem, bs, p) > 0
      && if Custom(e, bs) then StoredSeq(mem, own, bs, e, v.elems, Slot(mem, bs, p))
         else Image(mem, own, Slot(mem, bs, p), v.bytes)
    case Str =>
      Owns(mem, own, p, bs) && Slot(mem, bs, p) > 0 && Image(mem, own, Slot(mem, bs, p), v.chars + [0])
    case Struct(fs, _) =>
      if Raw(fs, bs) then Image(mem, own, p, v.bytes) else StoredFields(mem, own, bs, t, v.elems, p, |fs|)
  }

  /** Elements one after the other, each as far on as its predecessor moved the stream. */
  ghost predicate StoredSeq(mem: Mem, own: set<nat>, bs: nat, e: Ty, vs: seq<Value>, p: nat)
    requires forall v :: v in vs ==> Typed(e, v, bs)
    decreases e, 2, |vs|
  {
    if vs == [] then true
    else
      var n := |vs| - 1;
      StoredSeq(mem, own, bs, e, vs[..n], p) && StoredAt(mem, own, bs, e, vs[n], p + Times(n, Moved(e, bs)))
  }

  ghost predicate StoredAt(mem: Mem, own: set<nat>, bs: nat, t: Ty, v: Value, p: int)
    requires Typed(t, v, bs)
    decreases t, 1, 1
  {
    p >= 0 && Stored(mem, own, bs, t, v, p)
  }

  /** The first `k` fields of a custom struct, padding skipped and ignored fields left out. */
  ghost predicate StoredFields(mem: Mem, own: set<nat>, bs: nat, t: Ty, vs: seq<Value>, p: nat, k: nat)
    requires t.Struct? && k <= |t.fields| == |vs|
    requires forall i :: 0 <= i < |vs| ==> Typed(t.fields[i].ty, vs[i], bs)
    decreases t, 0, k
  {
    if k == 0 then true
    else
      var f := t.fields[k - 1];
      && StoredFields(mem, own, bs, t, vs, p, k - 1)
      && (!f.ignore ==>
            StoredAt(mem, own, bs, f.ty, vs[k - 1], p + FieldsMoved(t, bs, k - 1) + PadBefore(t, bs, k - 1)))
  }

  /** `n` keeps what `m` has on `own`. */
  ghost predicate Keeps(m: Mem, n: Mem, own: set<nat>) {
    forall x :: x in own && x in m ==> x in n && n[x] == m[x]
  }

  /** A stored value survives whatever happens outside the bytes it owns. */
  lemma {:induction false} StoredFrame(
    m: Mem, n: Mem, own: set<nat>, own': set<nat>, bs: nat, t: Ty, v: Value, p: nat)
    requires Typed(t, v, bs) && Stored(m, own, bs, t, v, p)
    requires Keeps(m, n, own) && own <= own'
    ensures Stored(n, own', bs, t, v, p)
    decreases t, 1, 0
  {
    match t
    case Array(e, c) =>
      if Custom(e, bs) {
        StoredSeqFrame(m, n, own, own', bs, e, v.elems, p);
      }
    case Pointer(e) =>
      SlotFrame(m, n, own, bs, p);
      if v.VPtr? {
        StoredFrame(m, n, own, own', bs, e, v.target, Slot(m, bs, p));
      }
    case Slice(e) =>
      SlotFrame(m, n, own, bs, p);
      if Custom(e, bs) {
        StoredSeqFrame(m, n, own, own', bs, e, v.elems, Slot(m, bs, p));
      } else {
        ImageFrame(m, n, own, own', Slot(m, bs, p), v.bytes);
      }
    case Str =>
      SlotFrame(m, n, own, bs, p);
      ImageFrame(m, n, own, own', Slot(m, bs, p), v.chars + [0]);
    case Struct(fs, _) =>
      if !Raw(fs, bs) {
        StoredFieldsFrame(m, n, own, own', bs, t, v.elems, p, |fs|);
      } else {
        ImageFrame(m, n, own, own', p, v.bytes);
      }
    case _ =>
  }

  lemma ImageFrame(m: Mem, n: Mem, own: set<nat>, own': set<nat>, p: nat, b: seq<byte>)
    requires Image(m, own, p, b) && Keeps(m, n, own) && own <= own'
    ensures Image(n, own', p, b)
  {
    forall x | p <= x < p + |b| ensures x in n && n[x] == b[x - p] {
      assert Within(x, p, |b|);
    }
  }

  lemma SlotFrame(m: Mem, n: Mem, own: set<nat>, bs: nat, p: nat)
    requires Owns(m, own, p, bs) && Keeps(m, n, own)
    ensures Slot(n, bs, p) == Slot(m, bs, p)
  {
    forall x | p <= x < p + bs ensures x in m && x in n && m[x] == n[x] {
      assert Within(x, p, bs);
    }
    assert Read(m, p, bs).value == Read(n, p, bs).value;
  }

  lemma {:induction false} StoredSeqFrame(
    m: Mem, n: Mem, own: set<nat>, own': set<nat>, bs: nat, e: Ty, vs: seq<Value>, p: nat)
    requires (forall v :: v in vs ==> Typed(e, v, bs)) && StoredSeq(m, own, bs, e, vs, p)
    requires Keeps(m, n, own) && own <= own'
    ensures StoredSeq(n, own', bs, e, vs, p)
    decreases e, 2, |vs|
  {
    hide Stored, Moved, Typed, Times;
    if vs != [] {
      var k := |vs| - 1;
      StoredSeqFrame(m, n, own, own', bs, e, vs[..k], p);
      StoredFrame(m, n, own, own', bs, e, vs[k], p + Times(k, Moved(e, bs)));
    }
  }

  lemma {:induction false} StoredFieldsFrame(
    m: Mem, n: Mem, own: set<nat>, own': set<nat>, bs: nat, t: Ty, vs: seq<Value>, p: nat, k: nat)
    requires t.Struct? && k <= |t.fields| == |vs|
    requires forall i :: 0 <= i < |vs| ==> Typed(t.fields[i].ty, vs[i], bs)
    requires StoredFields(m, own, bs, t, vs, p, k) && Keeps(m, n, own) && own <= own'
    ensures StoredFields(n, own', bs, t, vs, p, k)
    decreases t, 0, k
  {
    hide Stored, Moved, Typed, FieldsMoved, PadBefore, Keeps;
    if k > 0 {
      StoredFieldsFrame(m, n, own, own', bs, t, vs, p, k - 1);
      if !t.fields[k - 1].ignore {
        StoredFrame(m, n, own, own', bs, t.fields[k - 1].ty, vs[k - 1],
                    p + FieldsMoved(t, bs, k - 1) + PadBefore(t, bs, k - 1));
      }
    }
  }
}

/** Control addresses as a pool of bounded channels, and the choice of handlers for an interrupt. */
module HookSpec {

  /** A trap instruction and the address after it, which is where the trap is reported. */
  datatype CtrlAddr = CtrlAddr(lo: nat, hi: nat)

  const INSN: nat := 4  // bytes of a trap instruction on ARM and ARM64

  datatype Chan = Chan(cap: nat, queue: seq<CtrlAddr>)

  function Pool(chs: seq<Chan>): multiset<CtrlAddr>
    decreases |chs|
  {
    if chs == [] then multiset{} else Pool(chs[..|chs| - 1]) + multiset(chs[|chs| - 1].queue)
  }

  function Caps(chs: seq<Chan>): nat
    decreases |chs|
  {
    if chs == [] then 0 else Caps(chs[..|chs| - 1]) + chs[|chs| - 1].cap
  }

  predicate Bounded(chs: seq<Chan>) {
    forall i :: 0 <= i < |chs| ==> |chs[i].queue| <= chs[i].cap
  }

  lemma {:induction false} PoolUpdateAt(chs: seq<Chan>, i: nat, ch: Chan, a: CtrlAddr)
    requires i < |chs|
    ensures Pool(chs[i := ch])[a] + multiset(chs[i].queue)[a] == Pool(chs)[a] + multiset(ch.queue)[a]
    decreases |chs|
  {
    hide Pool;
    var n := |chs| - 1;
    PoolLast(chs, a);
    PoolLast(chs[i := ch], a);
    if i == n {
      assert chs[i := ch][..n] == chs[..n];
    } else {
      assert chs[i := ch][..n] == chs[..n][i := ch];
      PoolUpdateAt(chs[..n], i, ch, a);
    }
  }

  lemma PoolLast(chs: seq<Chan>, a: CtrlAddr)
    requires chs != []
    ensures Pool(chs)[a] == Pool(chs[..|chs| - 1])[a] + multiset(chs[|chs| - 1].queue)[a]
  {
  }

  lemma {:induction false} CapsUpdate(chs: seq<Chan>, i: nat, ch: Chan)
    requires i < |chs| && ch.cap == chs[i].cap
    ensures Caps(chs[i := ch]) == Caps(chs)
    decreases |chs|
  {
    var n := |chs| - 1;
    if i == n {
      assert chs[i := ch][..n] == chs[..n];
    } else {
      assert chs[i := ch][..n] == chs[..n][i := ch];
      CapsUpdate(chs[..n], i, ch);
    }
  }

  lemma PoolUpdate(chs: seq<Chan>, i: nat, ch: Chan)
    requires i < |chs|
    ensures forall a :: Pool(chs[i := ch])[a] + multiset(chs[i].queue)[a] == Pool(chs)[a] + multiset(ch.queue)[a]
    ensures ch.cap == chs[i].cap ==> Caps(chs[i := ch]) == Caps(chs)
  {
    hide Pool, Caps;
    forall a ensures Pool(chs[i := ch])[a] + multiset(chs[i].queue)[a] == Pool(chs)[a] + multiset(ch.queue)[a] {
      PoolUpdateAt(chs, i, ch, a);
    }
    if ch.cap == chs[i].cap {
      CapsUpdate(chs, i, ch);
    }
  }

  lemma {:induction false} PoolHas(chs: seq<Chan>, i: nat, a: CtrlAddr)
    requires i < |chs| && a in chs[i].queue
    ensures a in Pool(chs)
    decreases |chs|
  {
    var n := |chs| - 1;
    if i < n {
      PoolHas(chs[..n], i, a);
    }
  }

  /** Pigeonhole: fewer pooled addresses than capacity leaves a channel with room. */
  lemma {:induction false} RoomLeft(chs: seq<Chan>)
    requires Bounded(chs) && |Pool(chs)| < Caps(chs)
    ensures exists i :: 0 <= i < |chs| && |chs[i].queue| < chs[i].cap
    decreases |chs|
  {
    if chs != [] {
      var n := |chs| - 1;
      if |chs[n].queue| == chs[n].cap {
        RoomLeft(chs[..n]);
        var i :| 0 <= i < n && |chs[..n][i].queue| < chs[..n][i].cap;
        assert |chs[i].queue| < chs[i].cap;
      }
    }
  }

  /** What is pooled and what is live partition what was issued, each address once. */
  ghost predicate Conserved(chs: seq<Chan>, live: set<CtrlAddr>, issued: set<CtrlAddr>) {
    Bounded(chs) && Pool(chs) + multiset(live) == multiset(issued) && Caps(chs) == |issued|
  }

  lemma OneCount(chs: seq<Chan>, live: set<CtrlAddr>, issued: set<CtrlAddr>, a: CtrlAddr)
    requires Pool(chs) + multiset(live) == multiset(issued)
    ensures Pool(chs)[a] + (if a in live then 1 else 0) == if a in issued then 1 else 0
  {
    assert (Pool(chs) + multiset(live))[a] == multiset(issued)[a];
    assert multiset(live)[a] == if a in live then 1 else 0;
    assert multiset(issued)[a] == if a in issued then 1 else 0;
  }

  lemma ByCounts(p: multiset<CtrlAddr>, live: set<CtrlAddr>, issued: set<CtrlAddr>)
    requires forall a :: p[a] + (if a in live then 1 else 0) == if a in issued then 1 else 0
    ensures p + multiset(live) == multiset(issued)
  {
    forall a ensures (p + multiset(live))[a] == multiset(issued)[a] {
      assert multiset(live)[a] == if a in live then 1 else 0;
      assert multiset(issued)[a] == if a in issued then 1 else 0;
    }
  }

  /** A live address is not pooled, and no address is pooled twice or lost. */
  lemma ConservedMeans(chs: seq<Chan>, live: set<CtrlAddr>, issued: set<CtrlAddr>)
    requires Conserved(chs, live, issued)
    ensures forall a :: a in issued <==> a in live || a in Pool(chs)
    ensures forall a :: Pool(chs)[a] == if a in issued && a !in live then 1 else 0
  {
    forall a
      ensures a in live ==> a in issued
      ensures Pool(chs)[a] == if a in issued && a !in live then 1 else 0
    {
      OneCount(chs, live, issued, a);
    }
    forall a ensures a in issued <==> a in live || a in Pool(chs) {
      assert a in Pool(chs) <==> Pool(chs)[a] > 0;
    }
  }

  lemma TakeConserves(chs: seq<Chan>, live: set<CtrlAddr>, issued: set<CtrlAddr>, i: nat)
    requires Conserved(chs, live, issued) && i < |chs| && chs[i].queue != []
    ensures var a := chs[i].queue[0];
      && a in issued && a !in live
      && Conserved(chs[i := chs[i].(queue := chs[i].queue[1..])], live + {a}, issued)
  {
    hide Pool, Caps;
    var a, ch := chs[i].queue[0], chs[i].(queue := chs[i].queue[1..]);
    PoolHas(chs, i, a);
    ConservedMeans(chs, live, issued);
    PoolUpdate(chs, i, ch);
    assert chs[i].queue == [a] + ch.queue;
    var p := Pool(chs[i := ch]);
    forall x ensures p[x] + (if x in live + {a} then 1 else 0) == if x in issued then 1 else 0 {
      OneCount(chs, live, issued, x);
      assert multiset(chs[i].queue)[x] == multiset{a}[x] + multiset(ch.queue)[x];
    }
    ByCounts(p, live + {a}, issued);
  }

  lemma GiveConserves(chs: seq<Chan>, live: set<CtrlAddr>, issued: set<CtrlAddr>, i: nat, a: CtrlAddr)
    requires Conserved(chs, live, issued) && i < |chs| && |chs[i].queue| < chs[i].cap && a in live
    ensures Conserved(chs[i := chs[i].(queue := chs[i].queue + [a])], live - {a}, issued)
  {
    hide Pool, Caps;
    var ch := chs[i].(queue := chs[i].queue + [a]);
    PoolUpdate(chs, i, ch);
    var p := Pool(chs[i := ch]);
    forall x ensures p[x] + (if x in live - {a} then 1 else 0) == if x in issued then 1 else 0 {
      OneCount(chs, live, issued, x);
      assert multiset(ch.queue)[x] == multiset(chs[i].queue)[x] + multiset{a}[x];
    }
    ByCounts(p, live - {a}, issued);
  }

  /** While an address is live there is room to give it back. */
  lemma LiveHasRoom(chs: seq<Chan>, live: set<CtrlAddr>, issued: set<CtrlAddr>, a: CtrlAddr)
    requires Conserved(chs, live, issued) && a in live
    ensures exists i :: 0 <= i < |chs| && |chs[i].queue| < chs[i].cap
  {
    assert |Pool(chs) + multiset(live)| == |issued|;
    assert a in multiset(live);
    RoomLeft(chs);
  }

  lemma GrowConserves(
    chs: seq<Chan>, live: set<CtrlAddr>, issued: set<CtrlAddr>, ch: Chan, fresh_: set<CtrlAddr>)
    requires Conserved(chs, live, issued) && fresh_ !! issued
    requires multiset(ch.queue) == multiset(fresh_) && |ch.queue| == ch.cap
    ensures Conserved(chs + [ch], live, issued + fresh_)
  {
    assert (chs + [ch])[..|chs|] == chs;
    assert multiset(issued + fresh_) == multiset(issued) + multiset(fresh_);
    assert |multiset(fresh_)| == |fresh_|;
  }

  /** Channel `i` is the first that holds an address. */
  predicate FirstFull(chs: seq<Chan>, i: nat) {
    i < |chs| && chs[i].queue != [] && forall j :: 0 <= j < i ==> chs[j].queue == []
  }

  /** The oldest address of channel `i` is taken out and nothing else changes. */
  function TakeFrom(chs: seq<Chan>, i: nat): seq<Chan>
    requires i < |chs| && chs[i].queue != []
  {
    chs[i := chs[i].(queue := chs[i].queue[1..])]
  }

  // ----- dispatching an interrupt

  /** A handler in the interrupt table: one made by addControl covers exactly the reporting address. */
  datatype Hook =
    | Control(addr: CtrlAddr)
    | User(id: nat, first: nat, last: nat)
  {
    function Begin(): nat { if Control? then addr.hi else first }
    function End(): nat { if Control? then addr.hi + 1 else last }
  }

  predicate Covers(h: Hook, pc: nat) {
    h.Begin() <= pc < h.End()
  }

  /** A handler with an empty range is global, but not for control traps. */
  predicate IsValid(h: Hook, pc: nat, isCtrl: bool) {
    if !isCtrl && h.Begin() > h.End() then true else Covers(h, pc)
  }

  predicate IsControl(ranges: seq<(nat, nat)>, pc: nat) {
    exists i :: 0 <= i < |ranges| && ranges[i].0 < pc <= ranges[i].1
  }

  const DONE: int := -1
  const NEXT: int := 0

  /** What a handler answers; a control handler always answers DONE. */
  function Answer(h: Hook, users: map<nat, int>): int {
    if h.Control? then DONE else if h.id in users then users[h.id] else NEXT
  }

  /** The handlers called when the table is walked in this order. */
  function Called(order: seq<Hook>, pc: nat, isCtrl: bool, users: map<nat, int>): seq<Hook>
    decreases |order|
  {
    if order == [] then []
    else if !IsValid(order[0], pc, isCtrl) then Called(order[1..], pc, isCtrl, users)
    else if Answer(order[0], users) == DONE then [order[0]]
    else [order[0]] + Called(order[1..], pc, isCtrl, users)
  }

  lemma CalledUnfold(order: seq<Hook>, pc: nat, isCtrl: bool, users: map<nat, int>)
    requires order != []
    ensures Called(order, pc, isCtrl, users) ==
      if !IsValid(order[0], pc, isCtrl) then Called(order[1..], pc, isCtrl, users)
      else if Answer(order[0], users) == DONE then [order[0]]
      else [order[0]] + Called(order[1..], pc, isCtrl, users)
  {
  }

  /** A user handler that ends the walk at a control address before the control handler is reached. */
  predicate Shadows(h: Hook, a: CtrlAddr, users: map<nat, int>) {
    h.User? && Covers(h, a.hi) && Answer(h, users) == DONE
  }

  /** The user handlers among these that are called at a control address. */
  function Covering(order: seq<Hook>, a: CtrlAddr): seq<Hook>
    decreases |order|
  {
    if order == [] then []
    else (if order[0].User? && Covers(order[0], a.hi) then [order[0]] else []) + Covering(order[1..], a)
  }

  /** The control handler of `a` is the `k`-th of the walk, and the only one for its address. */
  predicate ControlAt(order: seq<Hook>, a: CtrlAddr, k: nat) {
    && k < |order| && order[k] == Control(a) && (forall i :: 0 <= i < k ==> order[i] != Control(a))
    && (forall h :: h in order && h.Control? && h.addr.hi == a.hi ==> h == Control(a))
  }

  /** A trap at a live control address reaches its control handler if and only if no user handler ahead
      of it covers the address and answers DONE; the handlers called before it are then the covering
      user handlers ahead of it.  Either way the last answer is DONE, so the task is not cancelled. */
  lemma {:induction false} ControlIsCalled(order: seq<Hook>, a: CtrlAddr, users: map<nat, int>, k: nat)
    requires ControlAt(order, a, k)
    ensures var called := Called(order, a.hi, true, users);
      && (Control(a) in called <==> forall i :: 0 <= i < k ==> !Shadows(order[i], a, users))
      && (Control(a) in called ==> called == Covering(order[..k], a) + [Control(a)])
      && called != [] && Answer(called[|called| - 1], users) == DONE
    decreases |order|
  {
    if k == 0 {
      assert Covering(order[..0], a) + [Control(a)] == [Control(a)];
    } else {
      hide Called, Covering, Covers, Answer;
      var rest := order[1..];
      assert forall i :: 0 <= i < k - 1 ==> rest[i] == order[i + 1];
      assert order[0] in order && forall h :: h in rest ==> h in order;
      ControlIsCalled(rest, a, users, k - 1);
      CoveringFirst(order, a, k);
      CalledFirst(order, a, users);
      if order[0].User? && Covers(order[0], a.hi) && !Shadows(order[0], a, users) {
        assert [order[0]] + (Covering(rest[..k - 1], a) + [Control(a)])
            == ([order[0]] + Covering(rest[..k - 1], a)) + [Control(a)];
      }
    }
  }

  /** The first handler of a walk at a control address ends it, is passed or is not called. */
  lemma CalledFirst(order: seq<Hook>, a: CtrlAddr, users: map<nat, int>)
    requires order != [] && order[0] != Control(a)
    requires forall h :: h in order && h.Control? && h.addr.hi == a.hi ==> h == Control(a)
    ensures var rest := Called(order[1..], a.hi, true, users);
      Called(order, a.hi, true, users) ==
        if Shadows(order[0], a, users) then [order[0]]
        else if order[0].User? && Covers(order[0], a.hi) then [order[0]] + rest
        else rest
    ensures Shadows(order[0], a, users) ==> Answer(order[0], users) == DONE
  {
    assert order[0] in order;
  }

  lemma CoveringFirst(order: seq<Hook>, a: CtrlAddr, k: nat)
    requires 0 < k <= |order|
    ensures var rest := Covering(order[1..][..k - 1], a);
      Covering(order[..k], a) == if order[0].User? && Covers(order[0], a.hi) then [order[0]] + rest else rest
  {
    assert order[..k][1..] == order[1..][..k - 1];
    var rest := Covering(order[1..][..k - 1], a);
    assert [] + rest == rest;
  }

  /** A walk of the table: every handler once, in some order. */
  ghost predicate Walks(order: seq<Hook>, table: set<Hook>) {
    (forall h :: h in order <==> h in table) && forall i, j :: 0 <= i < j < |order| ==> order[i] != order[j]
  }

  lemma {:induction false} WalkExists(table: set<Hook>) returns (order: seq<Hook>)
    ensures Walks(order, table)
    decreases table
  {
    if table == {} {
      order := [];
    } else {
      var h :| h in table;
      var rest := WalkExists(table - {h});
      order := [h] + rest;
    }
  }

  lemma WalkReaches(order: seq<Hook>, table: set<Hook>, a: CtrlAddr) returns (k: nat)
    requires (forall h :: h in order <==> h in table) && Control(a) in table
    requires forall h :: h in table && h.Control? && h.addr.hi == a.hi ==> h == Control(a)
    ensures ControlAt(order, a, k)
  {
    k := FirstOf(order, Control(a));
  }

  lemma {:induction false} FirstOf(order: seq<Hook>, h: Hook) returns (k: nat)
    requires h in order
    ensures k < |order| && order[k] == h && forall i :: 0 <= i < k ==> order[i] != h
    decreases |order|
  {
    if order[0] == h {
      k := 0;
    } else {
      k := FirstOf(order[1..], h);
      k := k + 1;
    }
  }

  ghost predicate CalledInEveryWalk(table: set<Hook>, a: CtrlAddr, users: map<nat, int>) {
    forall order :: Walks(order, table) ==> Control(a) in Called(order, a.hi, true, users)
  }

  /** The control handler is called in every order of the walk if and only if no user handler of the
      table covers its address and answers DONE. */
  lemma CalledInEveryOrder(table: set<Hook>, a: CtrlAddr, users: map<nat, int>)
    requires Control(a) in table
    requires forall h :: h in table && h.Control? && h.addr.hi == a.hi ==> h == Control(a)
    ensures CalledInEveryWalk(table, a, users) <==> forall h :: h in table ==> !Shadows(h, a, users)
  {
    if h :| h in table && Shadows(h, a, users) {
      var rest := WalkExists(table - {h});
      var order := [h] + rest;
      assert Walks(order, table);
      assert order[0] == h && Called(order, a.hi, true, users) == [h];
    } else {
      forall order | Walks(order, table) ensures Control(a) in Called(order, a.hi, true, users) {
        var k := WalkReaches(order, table, a);
        ControlIsCalled(order, a, users, k);
      }
    }
  }

  /** One that comes first: the control handler is not called. */
  lemma UserShadowsControl(a: CtrlAddr, rest: seq<Hook>)
    ensures Called([User(0, a.hi, a.hi + 1)] + rest, a.hi, true, map[0 := DONE]) == [User(0, a.hi, a.hi + 1)]
  {
  }

  // ----- an ordinary interrupt

  /** Away from the control addresses a user handler applies if its range is empty, which makes it global,
      or has the address; a control handler applies at its own address. */
  predicate Applies(h: Hook, pc: nat) {
    match h
    case Control(a) => pc == a.hi
    case User(_, first, last) => first > last || first <= pc < last
  }

  /** The handler answers DONE, or NEXT as one that leaves no answer does. */
  predicate Ends(h: Hook, users: map<nat, int>) {
    h.Control? || (h.id in users && users[h.id] == DONE)
  }

  predicate PassesOn(h: Hook, users: map<nat, int>) {
    h.User? && (h.id in users ==> users[h.id] == NEXT)
  }

  function Applying(order: seq<Hook>, pc: nat): seq<Hook>
    decreases |order|
  {
    if order == [] then [] else (if Applies(order[0], pc) then [order[0]] else []) + Applying(order[1..], pc)
  }

  /** The walk stops at the `n`-th handler, the first that applies and answers DONE, or at the end. */
  predicate StopsAt(order: seq<Hook>, pc: nat, users: map<nat, int>, n: nat) {
    && n <= |order| && (forall i :: 0 <= i < n ==> !(Applies(order[i], pc) && Ends(order[i], users)))
    && (n < |order| ==> Applies(order[n], pc) && Ends(order[n], users))
  }

  lemma {:induction false} StopExists(order: seq<Hook>, pc: nat, users: map<nat, int>) returns (n: nat)
    ensures StopsAt(order, pc, users, n)
    decreases |order|
  {
    if order == [] || (Applies(order[0], pc) && Ends(order[0], users)) {
      return 0;
    }
    n := StopExists(order[1..], pc, users);
    assert forall i :: 0 < i < |order| ==> order[i] == order[1..][i - 1];
    return n + 1;
  }

  /** At an ordinary interrupt the handlers that apply are called, in the order of the walk, up to the first
      that answers DONE. */
  lemma {:induction false} OrdinaryCalled(order: seq<Hook>, pc: nat, users: map<nat, int>, n: nat)
    requires StopsAt(order, pc, users, n)
    ensures Called(order, pc, false, users) ==
      Applying(order[..n], pc) + if n < |order| then [order[n]] else []
    decreases |order|
  {
    if order != [] {
      hide Called, Applying, Applies, Ends;
      CalledOrApplying(order, pc, users);
      if n == 0 {
        ApplyingNone(pc);
        assert order[..0] == [] && [] + [order[0]] == [order[0]];
      } else {
        var rest := order[1..];
        assert forall i :: 0 <= i < |rest| ==> rest[i] == order[i + 1];
        OrdinaryCalled(rest, pc, users, n - 1);
        assert order[..n][1..] == rest[..n - 1] && order[..n][0] == order[0];
        ApplyingFirst(order[..n], pc);
        var tail := Applying(rest[..n - 1], pc);
        assert [order[0]] + (tail + if n < |order| then [order[n]] else [])
            == ([order[0]] + tail) + if n < |order| then [order[n]] else [];
      }
    } else {
      ApplyingNone(pc);
    }
  }

  lemma ApplyingNone(pc: nat)
    ensures Applying([], pc) == []
  {
  }

  lemma ApplyingFirst(order: seq<Hook>, pc: nat)
    requires order != []
    ensures Applying(order, pc) ==
      if Applies(order[0], pc) then [order[0]] + Applying(order[1..], pc) else Applying(order[1..], pc)
  {
    assert [] + Applying(order[1..], pc) == Applying(order[1..], pc);
  }

  lemma CalledOrApplying(order: seq<Hook>, pc: nat, users: map<nat, int>)
    requires order != []
    ensures Called(order, pc, false, users) ==
      if !Applies(order[0], pc) then Called(order[1..], pc, false, users)
      else if Ends(order[0], users) then [order[0]]
      else [order[0]] + Called(order[1..], pc, false, users)
  {
  }

  /** So a handler is called if and only if it applies and none ahead of it that applies answers DONE. */
  lemma {:induction false} CalledAt(order: seq<Hook>, pc: nat, users: map<nat, int>, k: nat)
    requires k < |order| && forall i :: 0 <= i < k ==> order[i] != order[k]
    ensures order[k] in Called(order, pc, false, users) <==>
      Applies(order[k], pc) && forall i :: 0 <= i < k ==> !(Applies(order[i], pc) && Ends(order[i], users))
    decreases k
  {
    hide Called, Applies, Ends;
    CalledOrApplying(order, pc, users);
    if k == 0 {
      if !Applies(order[0], pc) {
        OnlyApplying(order[1..], pc, users);
      }
    } else {
      var rest := order[1..];
      assert forall i :: 0 <= i < |rest| ==> rest[i] == order[i + 1];
      CalledAt(rest, pc, users, k - 1);
    }
  }

  lemma {:induction false} OnlyApplying(order: seq<Hook>, pc: nat, users: map<nat, int>)
    ensures forall h :: h in Called(order, pc, false, users) ==> Applies(h, pc)
    decreases |order|
  {
    hide Called, Applies, Ends;
    if order == [] {
      CalledNone(pc, false, users);
    } else {
      CalledOrApplying(order, pc, users);
      OnlyApplying(order[1..], pc, users);
    }
  }

  lemma CalledNone(pc: nat, isCtrl: bool, users: map<nat, int>)
    ensures Called([], pc, isCtrl, users) == []
  {
  }

  /** What an ordinary interrupt comes to: the handlers called, and whether the task is cancelled, which it
      is if and only if no handler that applies answers DONE and the last that applies, if there is any,
      passes on. */
  ghost predicate Dispatches(order: seq<Hook>, pc: nat, users: map<nat, int>, called: seq<Hook>, cancelled: bool) {
    exists n: nat :: StopsAt(order, pc, users, n)
      && called == Applying(order[..n], pc) + (if n < |order| then [order[n]] else [])
      && (cancelled <==> n == |order| && (called == [] || PassesOn(called[|called| - 1], users)))
  }

  lemma OrdinaryDispatch(order: seq<Hook>, pc: nat, users: map<nat, int>, called: seq<Hook>, cancelled: bool)
    requires called == Called(order, pc, false, users)
    requires cancelled <==> called == [] || Answer(called[|called| - 1], users) == NEXT
    ensures Dispatches(order, pc, users, called, cancelled)
  {
    hide Called, Applying, Applies;
    var n := StopExists(order, pc, users);
    OrdinaryCalled(order, pc, users, n);
  }

  /** With no user handler over the address the control handler is called alone. */
  lemma {:induction false} CoveringNone(order: seq<Hook>, a: CtrlAddr)
    requires forall h :: h in order && h.User? ==> !Covers(h, a.hi)
    ensures Covering(order, a) == []
    decreases |order|
  {
    if order != [] {
      CoveringNone(order[1..], a);
    }
  }
}

/** The hook manager: control addresses, interrupt handlers and their dispatch
    (internal/debugger/hook.go). */
module Hooks {
  import opened HookSpec
  import opened Wrappers

  class HookManager {
    const regionSize: nat  // what a request for 0x1000 bytes comes to in whole pages
    var mapAddr: nat       // the region source hands out increasing addresses
    var ctrlAddrs: seq<Chan>
    var ctrlRange: seq<(nat, nat)>
    var intrHooks: set<Hook>
    ghost var live: set<CtrlAddr>
    ghost var issued: set<CtrlAddr>

    constructor (regionSize: nat)
      requires regionSize >= 0x1000
      ensures this.regionSize == regionSize && Valid() && live == {} && issued == {} && intrHooks == {}
    {
      this.regionSize := regionSize;
      mapAddr := 0x400000;
      ctrlAddrs, ctrlRange, intrHooks := [], [], {};
      live, issued := {}, {};
    }

    /** An address of a mapped trap instruction that isControl recognises. */
    ghost predicate Known(a: CtrlAddr)
      reads this
    {
      a.hi == a.lo + INSN && a.hi <= mapAddr && IsControl(ctrlRange, a.hi)
    }

    ghost predicate Valid()
      reads this
    {
      && regionSize >= 0x1000
      && Conserved(ctrlAddrs, live, issued)
      && (forall a :: a in issued ==> Known(a))
      && (forall a :: a in live <==> Control(a) in intrHooks)
    }

    /** Issues all addresses of a new region as a new, full channel.  `gap` bytes went to other clients
        of the region source since; `mapOk` says whether the mapping succeeds. */
    method AllocCtrlAddrs(gap: nat, mapOk: bool) returns (ok: bool)
      requires Valid()
      modifies this
      ensures Valid() && ok == mapOk && live == old(live) && intrHooks == old(intrHooks) && old(issued) <= issued
      ensures ok ==> |ctrlAddrs| == |old(ctrlAddrs)| + 1 && ctrlAddrs[|ctrlAddrs| - 1].queue != []
      ensures !ok ==> ctrlAddrs == old(ctrlAddrs)
    {
      hide IsControl, Conserved;
      var base := mapAddr + gap;
      mapAddr := base + regionSize;
      if !mapOk {
        return false;
      }
      var queue, end;
      ghost var fresh_;
      queue, end, fresh_ := FillQueue(base);
      GrowConserves(ctrlAddrs, live, issued, Chan(|queue|, queue), fresh_);
      ctrlAddrs := ctrlAddrs + [Chan(|queue|, queue)];
      RangesGrow(ctrlRange, (base, end + INSN));
      ctrlRange := ctrlRange + [(base, end + INSN)];
      issued := issued + fresh_;
      return true;
    }

    /** One address for every instruction that fits the region at `base`. */
    method FillQueue(base: nat) returns (queue: seq<CtrlAddr>, end: nat, ghost fresh_: set<CtrlAddr>)
      requires regionSize >= 0x1000
      ensures base < end <= base + regionSize && |queue| == regionSize / INSN && queue != []
      ensures multiset(queue) == multiset(fresh_)
      ensures forall a :: a in fresh_ ==> a.hi == a.lo + INSN && base <= a.lo && a.hi <= end
    {
      var count := regionSize / INSN;
      var k := 0;
      queue, end, fresh_ := [], base, {};
      while k < count
        invariant 0 <= k <= count && end == base + INSN * k && |queue| == k
        invariant multiset(queue) == multiset(fresh_)
        invariant forall a :: a in fresh_ ==> a.hi == a.lo + INSN && base <= a.lo && a.hi <= end
      {
        var a := CtrlAddr(end, end + INSN);
        assert a !in fresh_;
        queue := queue + [a];
        fresh_ := fresh_ + {a};
        end := end + INSN;
        k := k + 1;
      }
    }

    /** A pooled address from the first channel that has one. */
    method TryTake() returns (r: Option<CtrlAddr>)
      requires Valid()
      modifies this`ctrlAddrs, this`live
      ensures r.Some? ==> r.value in issued && r.value !in old(live) && live == old(live) + {r.value}
      ensures r.Some? ==> Conserved(ctrlAddrs, live, issued)
      ensures r.None? ==> live == old(live) && ctrlAddrs == old(ctrlAddrs)
      ensures r.None? <==> forall i :: 0 <= i < |old(ctrlAddrs)| ==> old(ctrlAddrs)[i].queue == []
      ensures forall i: nat :: FirstFull(old(ctrlAddrs), i) ==>
        r == Some(old(ctrlAddrs)[i].queue[0]) && ctrlAddrs == TakeFrom(old(ctrlAddrs), i)
    {
      var i := 0;
      while i < |ctrlAddrs|
        invariant 0 <= i <= |ctrlAddrs|
        invariant forall j :: 0 <= j < i ==> ctrlAddrs[j].queue == []
      {
        if ctrlAddrs[i].queue != [] {
          var a := ctrlAddrs[i].queue[0];
          TakeConserves(ctrlAddrs, live, issued, i);
          ctrlAddrs := ctrlAddrs[i := ctrlAddrs[i].(queue := ctrlAddrs[i].queue[1..])];
          live := live + {a};
          return Some(a);
        }
        i := i + 1;
      }
      return None;
    }

    /** A free control address, from a new region if need be; it is not in use and has no handler. */
    method CtrlAddrAlloc(gap: nat, mapOk: bool) returns (r: Option<CtrlAddr>)
      requires Valid()
      modifies this
      ensures Conserved(ctrlAddrs, live, issued) && (forall a :: a in issued ==> Known(a))
      ensures intrHooks == old(intrHooks) && old(issued) <= issued
      ensures r.Some? ==> r.value in issued && r.value !in old(live) && live == old(live) + {r.value}
      ensures r.None? <==> !mapOk && forall i :: 0 <= i < |old(ctrlAddrs)| ==> old(ctrlAddrs)[i].queue == []
      ensures r.None? ==> Valid() && live == old(live)
      ensures forall i: nat :: FirstFull(old(ctrlAddrs), i) ==>
        r == Some(old(ctrlAddrs)[i].queue[0]) && ctrlAddrs == TakeFrom(old(ctrlAddrs), i)
        && issued == old(issued) && mapAddr == old(mapAddr)
    {
      r := TryTake();
      if r.None? {
        var ok := AllocCtrlAddrs(gap, mapOk);
        if ok {
          r := TryTake();
        }
      }
    }

    /** Gives a live address back.  There always is a channel with room, so none is ever lost. */
    method CtrlAddrFree(a: CtrlAddr) returns (ghost kept: bool)
      requires Conserved(ctrlAddrs, live, issued) && a in live
      modifies this`ctrlAddrs, this`live
      ensures kept && live == old(live) - {a} && Conserved(ctrlAddrs, live, issued) && a in Pool(ctrlAddrs)
    {
      LiveHasRoom(ctrlAddrs, live, issued, a);
      var i := 0;
      while i < |ctrlAddrs|
        invariant 0 <= i <= |ctrlAddrs|
        invariant forall j :: 0 <= j < i ==> |ctrlAddrs[j].queue| >= ctrlAddrs[j].cap
      {
        if |ctrlAddrs[i].queue| < ctrlAddrs[i].cap {
          GiveConserves(ctrlAddrs, live, issued, i, a);
          ctrlAddrs := ctrlAddrs[i := ctrlAddrs[i].(queue := ctrlAddrs[i].queue + [a])];
          live := live - {a};
          PoolHas(ctrlAddrs, i, a);
          return true;
        }
        i := i + 1;
      }
      assert false;
    }

    method AddControl(gap: nat, mapOk: bool) returns (r: Option<CtrlAddr>)
      requires Valid()
      modifies this
      ensures Valid()
      ensures r.Some? ==> live == old(live) + {r.value} && r.value !in old(live)
      ensures r.Some? ==> intrHooks == old(intrHooks) + {Control(r.value)}
      ensures r.None? <==> !mapOk && forall i :: 0 <= i < |old(ctrlAddrs)| ==> old(ctrlAddrs)[i].queue == []
      ensures r.None? ==> live == old(live) && intrHooks == old(intrHooks)
      ensures forall i: nat :: FirstFull(old(ctrlAddrs), i) ==>
        r == Some(old(ctrlAddrs)[i].queue[0]) && ctrlAddrs == TakeFrom(old(ctrlAddrs), i)
        && issued == old(issued) && mapAddr == old(mapAddr)
    {
      r := CtrlAddrAlloc(gap, mapOk);
      if r.Some? {
        intrHooks := intrHooks + {Control(r.value)};
      }
    }

    /** Closing removes the handler first, then returns the address to the pool. */
    method CloseControl(a: CtrlAddr)
      requires Valid() && a in live
      modifies this
      ensures Valid() && live == old(live) - {a} && intrHooks == old(intrHooks) - {Control(a)} && issued == old(issued)
    {
      intrHooks := intrHooks - {Control(a)};
      ghost var kept := CtrlAddrFree(a);
    }

    method AddHook(h: Hook)
      requires Valid() && h.User?
      modifies this`intrHooks
      ensures Valid() && intrHooks == old(intrHooks) + {h}
    {
      intrHooks := intrHooks + {h};
    }

    method CloseHook(h: Hook)
      requires Valid() && h.User?
      modifies this`intrHooks
      ensures Valid() && intrHooks == old(intrHooks) - {h}
    {
      intrHooks := intrHooks - {h};
    }

    /** Walks the table in some order, calling the handlers valid for `pc` until one answers DONE; the
        task is cancelled if the last answer was NEXT. */
    method HandleInterrupt(pc: nat, order: seq<Hook>, users: map<nat, int>)
      returns (called: seq<Hook>, cancelled: bool)
      requires forall h :: h in order <==> h in intrHooks
      ensures called == Called(order, pc, IsControl(ctrlRange, pc), users)
      ensures cancelled <==> called == [] || Answer(called[|called| - 1], users) == NEXT
      ensures Ordinary(ctrlRange, pc) ==> Dispatches(order, pc, users, called, cancelled)
    {
      hide IsControl, IsValid, Ordinary, Dispatches, Called, Answer;
      var result, i := NEXT, 0;
      var isCtrl := IsControl(ctrlRange, pc);
      called := [];
      while i < |order|
        invariant 0 <= i <= |order|
        invariant Called(order, pc, isCtrl, users) == called + Called(order[i..], pc, isCtrl, users)
        invariant result == if called == [] then NEXT else Answer(called[|called| - 1], users)
      {
        var h := order[i];
        assert order[i..][0] == h && order[i..][1..] == order[i + 1..];
        CalledUnfold(order[i..], pc, isCtrl, users);
        if IsValid(h, pc, isCtrl) {
          called := called + [h];
          result := Answer(h, users);
          if result == DONE {
            break;
          }
        }
        i := i + 1;
      }
      cancelled := result == NEXT;
      CalledNone(pc, isCtrl, users);
      OrdinaryMeans(ctrlRange, pc);
      if !isCtrl {
        OrdinaryDispatch(order, pc, users, called, cancelled);
      }
    }

    /** A trap at a live control address is recognised and the task is never cancelled.  Its control
        handler is called exactly if no user handler ahead of it in the walk covers the address and
        answers DONE, in every order exactly if there is none in the table; it is called alone if none
        covers the address. */
    method ControlTrap(a: CtrlAddr, order: seq<Hook>, users: map<nat, int>)
      returns (called: seq<Hook>, cancelled: bool)
      requires Valid() && a in live
      requires forall h :: h in order <==> h in intrHooks
      ensures IsControl(ctrlRange, a.hi) && !cancelled
      ensures exists k :: ControlAt(order, a, k)
      ensures forall k :: ControlAt(order, a, k) ==>
        (Control(a) in called <==> forall i :: 0 <= i < k ==> !Shadows(order[i], a, users))
      ensures CalledInEveryWalk(intrHooks, a, users) <==> forall h :: h in intrHooks ==> !Shadows(h, a, users)
      ensures (forall h :: h in intrHooks && h.User? ==> !Covers(h, a.hi)) ==> called == [Control(a)]
    {
      hide Conserved, Called, Shadows, CalledInEveryWalk, Covers;
      ConservedMeans(ctrlAddrs, live, issued);
      forall h | h in intrHooks && h.Control? && h.addr.hi == a.hi ensures h == Control(a) {
        assert h.addr in live && Known(h.addr) && Known(a);
      }
      ghost var k := WalkReaches(order, intrHooks, a);
      called, cancelled := HandleInterrupt(a.hi, order, users);
      forall j | ControlAt(order, a, j)
        ensures Control(a) in called <==> forall i :: 0 <= i < j ==> !Shadows(order[i], a, users)
      {
        ControlIsCalled(order, a, users, j);
      }
      ControlIsCalled(order, a, users, k);
      CalledInEveryOrder(intrHooks, a, users);
      if forall h :: h in intrHooks && h.User? ==> !Covers(h, a.hi) {
        NoneShadows(order, a, users, k);
      }
    }

    /** No pooled address still has a handler. */
    lemma PooledHasNoHandler(a: CtrlAddr)
      requires Valid() && a in Pool(ctrlAddrs)
      ensures Control(a) !in intrHooks
    {
      ConservedMeans(ctrlAddrs, live, issued);
    }
  }

  /** The address is in none of the control ranges, whose first instruction is not counted. */
  predicate Ordinary(ranges: seq<(nat, nat)>, pc: nat) {
    forall i :: 0 <= i < |ranges| ==> pc <= ranges[i].0 || ranges[i].1 < pc
  }

  lemma OrdinaryMeans(ranges: seq<(nat, nat)>, pc: nat)
    ensures Ordinary(ranges, pc) <==> !IsControl(ranges, pc)
  {
  }

  lemma NoneShadows(order: seq<Hook>, a: CtrlAddr, users: map<nat, int>, k: nat)
    requires ControlAt(order, a, k)
    requires forall h :: h in order && h.User? ==> !Covers(h, a.hi)
    ensures Called(order, a.hi, true, users) == [Control(a)]
  {
    hide Called, Covers;
    assert forall i :: 0 <= i < k ==> order[i] in order;
    ControlIsCalled(order, a, users, k);
    CoveringNone(order[..k], a);
    assert [] + [Control(a)] == [Control(a)];
  }

  lemma RangesGrow(ranges: seq<(nat, nat)>, r: (nat, nat))
    ensures forall pc :: IsControl(ranges, pc) ==> IsControl(ranges + [r], pc)
    ensures forall pc :: r.0 < pc <= r.1 ==> IsControl(ranges + [r], pc)
  {
    var rs := ranges + [r];
    forall pc | IsControl(ranges, pc) ensures IsControl(rs, pc) {
      var i :| 0 <= i < |ranges| && ranges[i].0 < pc <= ranges[i].1;
      assert rs[i] == ranges[i];
    }
    assert rs[|ranges|] == r;
  }
}

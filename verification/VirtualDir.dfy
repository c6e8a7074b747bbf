/** Virtual directories and links: resolution and creation of paths (filesystem/virtual.go).  A path is
    the sequence of its components. */
module VirtualDir {

  import opened Wrappers

  /** Nodes live at numbers; a link's target is fixed when the link is made. */
  datatype Node = Dir(subs: map<string, nat>) | Plain | Link(target: Option<nat>)

  datatype Error = Invalid | NotExist | Exist

  datatype Result = Found(node: nat) | Failed(error: Error)

  type Nodes = map<nat, Node>

  /** Entries and targets exist, and a link is younger than its target. */
  ghost predicate Wf(nodes: Nodes) {
    && (forall n, name :: n in nodes && nodes[n].Dir? && name in nodes[n].subs ==> nodes[n].subs[name] in nodes)
    && (forall n :: n in nodes && nodes[n].Link? && nodes[n].target.Some? ==>
          nodes[n].target.value in nodes && nodes[n].target.value < n)
  }

  ghost predicate Fresh(nodes: Nodes, next: nat) {
    forall n :: n in nodes ==> n < next
  }

  /** What a path names, from node `n` on.  A directory uses up a component, a link an older node. */
  function Sub(nodes: Nodes, n: nat, path: seq<string>): (r: Result)
    requires Wf(nodes) && n in nodes
    ensures r.Found? ==> r.node in nodes
    decreases |path|, n
  {
    match nodes[n]
    case Plain => Failed(Invalid)
    case Link(t) =>
      if t.None? || nodes[t.value].Plain? then Failed(Invalid) else Sub(nodes, t.value, path)
    case Dir(subs) =>
      if path == [] then Failed(Invalid)
      else if path[0] !in subs then Failed(NotExist)
      else
        var v := subs[path[0]];
        if |path| == 1 then Found(v)
        else if nodes[v].Plain? then Failed(Invalid)
        else Sub(nodes, v, path[1..])
  }

  // ----- what resolution means

  /** What is behind the links that start at `n`, if they end at something. */
  function End(nodes: Nodes, n: nat): (r: Option<nat>)
    requires Wf(nodes) && n in nodes
    ensures r.Some? ==> r.value in nodes && !nodes[r.value].Link?
    decreases n
  {
    match nodes[n]
    case Link(t) => if t.None? then None else End(nodes, t.value)
    case _ => Some(n)
  }

  /** The directory behind the links at `n` has an entry `name`, for `v`. */
  ghost predicate Entry(nodes: Nodes, n: nat, name: string, v: nat)
    requires Wf(nodes) && n in nodes
  {
    var d := End(nodes, n);
    d.Some? && nodes[d.value].Dir? && name in nodes[d.value].subs && nodes[d.value].subs[name] == v
  }

  ghost predicate NoEntry(nodes: Nodes, n: nat, name: string)
    requires Wf(nodes) && n in nodes
  {
    var d := End(nodes, n);
    d.Some? && nodes[d.value].Dir? && name !in nodes[d.value].subs
  }

  /** The nodes on the way of a path from the first of them, one entry after the other. */
  ghost predicate Trail(nodes: Nodes, path: seq<string>, trail: seq<nat>)
    requires Wf(nodes)
  {
    && |trail| == |path| + 1 && (forall i :: 0 <= i < |trail| ==> trail[i] in nodes)
    && (forall i :: 0 <= i < |path| ==> Entry(nodes, trail[i], path[i], trail[i + 1]))
  }

  /** Links do not matter on the way: resolution goes on from what is behind them. */
  lemma {:induction false} SubBehindLinks(nodes: Nodes, n: nat, path: seq<string>)
    requires Wf(nodes) && n in nodes
    ensures Sub(nodes, n, path) ==
      if End(nodes, n).None? then Failed(Invalid) else Sub(nodes, End(nodes, n).value, path)
    decreases n
  {
    match nodes[n]
    case Link(t) =>
      if t.Some? {
        SubBehindLinks(nodes, t.value, path);
      }
    case _ =>
  }

  lemma SubFirst(nodes: Nodes, n: nat, path: seq<string>)
    requires Wf(nodes) && n in nodes
    ensures path == [] ==> Sub(nodes, n, path) == Failed(Invalid)
    ensures path != [] ==> forall v :: Entry(nodes, n, path[0], v) ==>
      v in nodes && Sub(nodes, n, path) == if |path| == 1 then Found(v) else Sub(nodes, v, path[1..])
    ensures path != [] && NoEntry(nodes, n, path[0]) ==> Sub(nodes, n, path) == Failed(NotExist)
    ensures path != [] && (forall v :: !Entry(nodes, n, path[0], v)) && !NoEntry(nodes, n, path[0]) ==>
      Sub(nodes, n, path) == Failed(Invalid)
  {
    SubBehindLinks(nodes, n, path);
    var d := End(nodes, n);
    if d.Some? && nodes[d.value].Dir? && path != [] && path[0] in nodes[d.value].subs {
      assert Entry(nodes, n, path[0], nodes[d.value].subs[path[0]]);
    }
  }

  /** A path names a node if and only if there is a trail of entries to it, and does not exist if and only if
      such a trail ends at a directory without the next name; anything else on the way is invalid. */
  lemma {:induction false} SubIsTrail(nodes: Nodes, n: nat, path: seq<string>, v: nat)
    requires Wf(nodes) && n in nodes
    ensures Sub(nodes, n, path) == Found(v) <==>
      path != [] && exists trail :: Trail(nodes, path, trail) && trail[0] == n && trail[|path|] == v
    ensures Sub(nodes, n, path) == Failed(NotExist) <==>
      exists k: nat, trail :: (k < |path| && Trail(nodes, path[..k], trail) && trail[0] == n
                               && NoEntry(nodes, trail[k], path[k]))
    decreases |path|
  {
    FoundIsTrail(nodes, n, path, v);
    MissingIsTrail(nodes, n, path);
  }

  lemma {:induction false} FoundIsTrail(nodes: Nodes, n: nat, path: seq<string>, v: nat)
    requires Wf(nodes) && n in nodes
    ensures Sub(nodes, n, path) == Found(v) <==>
      path != [] && exists trail :: Trail(nodes, path, trail) && trail[0] == n && trail[|path|] == v
    decreases |path|
  {
    hide Sub, Entry, NoEntry, Wf;
    SubFirst(nodes, n, path);
    if Sub(nodes, n, path) == Found(v) {
      var w :| Entry(nodes, n, path[0], w);
      if |path| == 1 {
        assert Trail(nodes, path, [n, v]);
      } else {
        FoundIsTrail(nodes, w, path[1..], v);
        var rest :| Trail(nodes, path[1..], rest) && rest[0] == w && rest[|path| - 1] == v;
        TrailNext(nodes, n, path, rest);
        assert ([n] + rest)[|path|] == v;
      }
    } else if trail :| path != [] && Trail(nodes, path, trail) && trail[0] == n && trail[|path|] == v {
      assert Entry(nodes, trail[0], path[0], trail[1]);
      if |path| > 1 {
        TrailRest(nodes, path, trail);
        FoundIsTrail(nodes, trail[1], path[1..], v);
      }
      assert false;
    }
  }

  lemma TrailNext(nodes: Nodes, n: nat, path: seq<string>, rest: seq<nat>)
    requires Wf(nodes) && n in nodes && path != [] && Trail(nodes, path[1..], rest)
    requires Entry(nodes, n, path[0], rest[0])
    ensures Trail(nodes, path, [n] + rest)
  {
    hide Entry, Wf;
    var trail := [n] + rest;
    forall i | 0 <= i < |path| ensures Entry(nodes, trail[i], path[i], trail[i + 1]) {
      if i > 0 {
        assert Entry(nodes, rest[i - 1], path[1..][i - 1], rest[i]);
      }
    }
  }

  lemma TrailRest(nodes: Nodes, path: seq<string>, trail: seq<nat>)
    requires Wf(nodes) && path != [] && Trail(nodes, path, trail)
    ensures Trail(nodes, path[1..], trail[1..])
  {
    hide Entry, Wf;
    forall i | 0 <= i < |path[1..]| ensures Entry(nodes, trail[1..][i], path[1..][i], trail[1..][i + 1]) {
      assert Entry(nodes, trail[i + 1], path[i + 1], trail[i + 2]);
    }
  }

  lemma {:induction false} MissingIsTrail(nodes: Nodes, n: nat, path: seq<string>)
    requires Wf(nodes) && n in nodes
    ensures Sub(nodes, n, path) == Failed(NotExist) <==>
      exists k: nat, trail :: (k < |path| && Trail(nodes, path[..k], trail) && trail[0] == n
                               && NoEntry(nodes, trail[k], path[k]))
    decreases |path|
  {
    hide Sub, Entry, NoEntry, Wf;
    SubFirst(nodes, n, path);
    if Sub(nodes, n, path) == Failed(NotExist) {
      if NoEntry(nodes, n, path[0]) {
        var k: nat, trail := 0, [n];
        assert Trail(nodes, path[..k], trail) && NoEntry(nodes, trail[k], path[k]);
      } else {
        var w :| Entry(nodes, n, path[0], w);
        MissingIsTrail(nodes, w, path[1..]);
        var k: nat, rest :| k < |path| - 1 && Trail(nodes, path[1..][..k], rest) && rest[0] == w
                            && NoEntry(nodes, rest[k], path[1..][k]);
        assert path[..k + 1][1..] == path[1..][..k];
        TrailNext(nodes, n, path[..k + 1], rest);
        assert ([n] + rest)[k + 1] == rest[k] && path[k + 1] == path[1..][k];
      }
    } else if k: nat, trail :| k < |path| && Trail(nodes, path[..k], trail) && trail[0] == n
                               && NoEntry(nodes, trail[k], path[k]) {
      if k > 0 {
        assert Entry(nodes, trail[0], path[..k][0], trail[1]);
        TrailRest(nodes, path[..k], trail);
        assert path[..k][1..] == path[1..][..k - 1] && path[1..][k - 1] == path[k];
        MissingIsTrail(nodes, trail[1], path[1..]);
      }
      assert false;
    }
  }

  // ----- making directories

  /** A new, empty directory under `name` in directory `n`. */
  function Enter(nodes: Nodes, n: nat, name: string, v: nat): Nodes
    requires n in nodes && nodes[n].Dir?
  {
    nodes[n := Dir(nodes[n].subs[name := v])][v := Dir(map[])]
  }

  lemma EnterWf(nodes: Nodes, next: nat, n: nat, name: string)
    requires Wf(nodes) && Fresh(nodes, next) && n in nodes && nodes[n].Dir?
    ensures Wf(Enter(nodes, n, name, next)) && Fresh(Enter(nodes, n, name, next), next + 1)
  {
  }

  /** Makes the directories of a path that are missing; the tables afterwards, the next free number
      and the node the path names. */
  function Mkdir(nodes: Nodes, next: nat, n: nat, path: seq<string>): (r: (Nodes, nat, Result))
    requires Wf(nodes) && Fresh(nodes, next) && n in nodes
    ensures Wf(r.0) && Fresh(r.0, r.1) && nodes.Keys <= r.0.Keys
    ensures r.2.Found? ==> r.2.node in r.0
    decreases |path|, n
  {
    match nodes[n]
    case Plain => (nodes, next, Failed(Invalid))
    case Link(t) =>
      if t.None? || nodes[t.value].Plain? then (nodes, next, Failed(Invalid)) else Mkdir(nodes, next, t.value, path)
    case Dir(subs) =>
      if path == [] then (nodes, next, Failed(Invalid))
      else if path[0] in subs then
        var v := subs[path[0]];
        if nodes[v].Plain? then (nodes, next, Failed(Invalid))
        else if |path| == 1 then (nodes, next, Found(v))
        else Mkdir(nodes, next, v, path[1..])
      else
        EnterWf(nodes, next, n, path[0]);
        var made := Enter(nodes, n, path[0], next);
        if |path| == 1 then (made, next + 1, Found(next))
        else Mkdir(made, next + 1, next, path[1..])
  }

  // ----- what stays

  /** Directories only gain entries, everything else stays what it was. */
  ghost predicate Extends(a: Nodes, b: Nodes) {
    forall n :: n in a ==> n in b && if a[n].Dir? then b[n].Dir? && a[n].subs.Keys <= b[n].subs.Keys
      && (forall name :: name in a[n].subs ==> b[n].subs[name] == a[n].subs[name])
      else b[n] == a[n]
  }

  lemma {:induction false} ExtendsKeepsSub(a: Nodes, b: Nodes, n: nat, path: seq<string>)
    requires Wf(a) && Wf(b) && Extends(a, b) && n in a
    ensures Sub(a, n, path).Found? ==> Sub(b, n, path) == Sub(a, n, path)
    decreases |path|, n
  {
    match a[n]
    case Plain =>
    case Link(t) =>
      if t.Some? && !a[t.value].Plain? {
        ExtendsKeepsSub(a, b, t.value, path);
      }
    case Dir(subs) =>
      if path != [] && path[0] in subs && |path| > 1 && !a[subs[path[0]]].Plain? {
        ExtendsKeepsSub(a, b, subs[path[0]], path[1..]);
      }
  }

  lemma EnterExtends(nodes: Nodes, next: nat, n: nat, name: string)
    requires Fresh(nodes, next) && n in nodes && nodes[n].Dir? && name !in nodes[n].subs
    ensures Extends(nodes, Enter(nodes, n, name, next))
  {
  }

  lemma {:induction false} MkdirExtends(nodes: Nodes, next: nat, n: nat, path: seq<string>)
    requires Wf(nodes) && Fresh(nodes, next) && n in nodes
    ensures Extends(nodes, Mkdir(nodes, next, n, path).0)
    decreases |path|, n
  {
    match nodes[n]
    case Plain =>
    case Link(t) =>
      if t.Some? && !nodes[t.value].Plain? {
        MkdirExtends(nodes, next, t.value, path);
      }
    case Dir(subs) =>
      if path == [] {
      } else if path[0] in subs {
        if !nodes[subs[path[0]]].Plain? && |path| > 1 {
          MkdirExtends(nodes, next, subs[path[0]], path[1..]);
        }
      } else {
        EnterWf(nodes, next, n, path[0]);
        EnterExtends(nodes, next, n, path[0]);
        if |path| > 1 {
          MkdirExtends(Enter(nodes, n, path[0], next), next + 1, next, path[1..]);
        }
      }
  }

  /** Every path that resolved before a Mkdir names the same node after it, from every starting point. */
  lemma MkdirKeepsPaths(nodes: Nodes, next: nat, n: nat, path: seq<string>, m: nat, other: seq<string>)
    requires Wf(nodes) && Fresh(nodes, next) && n in nodes && m in nodes
    ensures Sub(nodes, m, other).Found? ==> Sub(Mkdir(nodes, next, n, path).0, m, other) == Sub(nodes, m, other)
  {
    MkdirExtends(nodes, next, n, path);
    ExtendsKeepsSub(nodes, Mkdir(nodes, next, n, path).0, m, other);
  }

  // ----- what a path names afterwards

  /** One step down, seen in a later state that has only gained entries. */
  lemma SubStep(a: Nodes, b: Nodes, n: nat, path: seq<string>)
    requires Wf(a) && Wf(b) && Extends(a, b) && n in a && a[n].Dir? && path != [] && path[0] in a[n].subs
    ensures var v := a[n].subs[path[0]];
      && v in a && v in b && (b[v].Plain? <==> a[v].Plain?)
      && (|path| == 1 ==> Sub(b, n, path) == Found(v))
      && (|path| > 1 && !a[v].Plain? ==> Sub(b, n, path) == Sub(b, v, path[1..]))
  {
  }

  /** A successful Mkdir returns the node that the path names from then on. */
  lemma {:induction false} MkdirThenSub(nodes: Nodes, next: nat, n: nat, path: seq<string>)
    requires Wf(nodes) && Fresh(nodes, next) && n in nodes
    ensures var (made, _, r) := Mkdir(nodes, next, n, path);
      r.Found? ==> Sub(made, n, path) == r && !made[r.node].Plain?
    decreases |path|, n, 1
  {
    hide Extends, Enter, Wf, Sub;
    match nodes[n]
    case Plain =>
    case Link(t) => MkdirThenSubLink(nodes, next, n, path);
    case Dir(subs) =>
      if path == [] {
      } else if path[0] in subs {
        if |path| > 1 && !nodes[SubEntry(nodes, n, path[0])].Plain? {
          MkdirThenSub(nodes, next, subs[path[0]], path[1..]);
        }
        MkdirExtends(nodes, next, n, path);
        SubStep(nodes, Mkdir(nodes, next, n, path).0, n, path);
      } else {
        EnterWf(nodes, next, n, path[0]);
        var mid := Enter(nodes, n, path[0], next);
        Entered(nodes, next, n, path[0]);
        if |path| > 1 {
          MkdirThenSub(mid, next + 1, next, path[1..]);
          MkdirExtends(mid, next + 1, next, path[1..]);
          SubStep(mid, Mkdir(mid, next + 1, next, path[1..]).0, n, path);
        } else {
          ExtendsSelf(mid);
          SubStep(mid, mid, n, path);
        }
      }
  }

  function SubEntry(nodes: Nodes, n: nat, name: string): (v: nat)
    requires Wf(nodes) && n in nodes && nodes[n].Dir? && name in nodes[n].subs
    ensures v in nodes
  {
    nodes[n].subs[name]
  }

  lemma ExtendsSelf(nodes: Nodes)
    ensures Extends(nodes, nodes)
  {
  }

  lemma Entered(nodes: Nodes, next: nat, n: nat, name: string)
    requires Wf(nodes) && Fresh(nodes, next) && n in nodes && nodes[n].Dir?
    ensures var mid := Enter(nodes, n, name, next);
      && n in mid && next in mid && mid[next] == Dir(map[])
      && mid[n].Dir? && name in mid[n].subs && mid[n].subs[name] == next
  {
  }

  lemma {:induction false} MkdirThenSubLink(nodes: Nodes, next: nat, n: nat, path: seq<string>)
    requires Wf(nodes) && Fresh(nodes, next) && n in nodes && nodes[n].Link?
    ensures var (made, _, r) := Mkdir(nodes, next, n, path);
      r.Found? ==> Sub(made, n, path) == r && !made[r.node].Plain?
    decreases |path|, n, 0
  {
    var t := nodes[n].target;
    if t.Some? && !nodes[t.value].Plain? {
      MkdirThenSub(nodes, next, t.value, path);
      MkdirExtends(nodes, next, t.value, path);
    }
  }

  /** A Mkdir succeeds exactly when nothing on the way is in the way: the path does not exist yet or
      names something other than a plain file.  It creates nothing if it fails, nor if the path is
      already there. */
  lemma {:induction false} MkdirSucceeds(nodes: Nodes, next: nat, n: nat, path: seq<string>)
    requires Wf(nodes) && Fresh(nodes, next) && n in nodes
    ensures var (made, _, r) := Mkdir(nodes, next, n, path);
      var before := Sub(nodes, n, path);
      && (r.Found? <==> before == Failed(NotExist) || (before.Found? && !nodes[before.node].Plain?))
      && (before != Failed(NotExist) ==> made == nodes)
      && (r.Failed? ==> r.error == Invalid)
      && (r.Found? && before.Found? ==> r == before)
    decreases |path|, n
  {
    match nodes[n]
    case Plain =>
    case Link(t) =>
      if t.Some? && !nodes[t.value].Plain? {
        MkdirSucceeds(nodes, next, t.value, path);
      }
    case Dir(subs) =>
      if path == [] {
      } else if path[0] in subs {
        if !nodes[subs[path[0]]].Plain? && |path| > 1 {
          MkdirSucceeds(nodes, next, subs[path[0]], path[1..]);
        }
      } else {
        EnterWf(nodes, next, n, path[0]);
        if |path| > 1 {
          MkdirInNew(Enter(nodes, n, path[0], next), next + 1, next, path[1..]);
        }
      }
  }

  /** Inside an empty directory a Mkdir always succeeds. */
  lemma {:induction false} MkdirInNew(nodes: Nodes, next: nat, n: nat, path: seq<string>)
    requires Wf(nodes) && Fresh(nodes, next) && n in nodes && nodes[n] == Dir(map[]) && path != []
    ensures Mkdir(nodes, next, n, path).2.Found?
    decreases |path|
  {
    if |path| > 1 {
      EnterWf(nodes, next, n, path[0]);
      MkdirInNew(Enter(nodes, n, path[0], next), next + 1, next, path[1..]);
    }
  }

  // ----- what a Mkdir makes

  /** The directories `first`, `first + 1` and so on, each with the next as its only entry, and the last empty. */
  predicate Chain(nodes: Nodes, first: nat, names: seq<string>) {
    forall x: nat :: first <= x <= first + |names| ==>
      x in nodes && nodes[x] == Dir(if x < first + |names| then map[names[x - first] := x + 1] else map[])
  }

  /** From `nodes` to the result of a Mkdir one directory has gained one entry, the first of `names`, with
      a chain of new directories for the others behind it; nothing else has changed. */
  ghost predicate Made(nodes: Nodes, next: nat, d: nat, names: seq<string>, r: (Nodes, nat, Result))
    requires d in nodes && nodes[d].Dir? && names != []
  {
    && r.1 == next + |names| && r.2 == Found(next + |names| - 1)
    && (forall x :: x in r.0 <==> x in nodes || next <= x < next + |names|)
    && (forall x :: x in nodes && x != d ==> x in r.0 && r.0[x] == nodes[x])
    && d in r.0 && r.0[d] == Dir(nodes[d].subs[names[0] := next])
    && Chain(r.0, next, names[1..])
  }

  lemma {:induction false} MkdirHere(nodes: Nodes, next: nat, n: nat, path: seq<string>)
    requires Wf(nodes) && Fresh(nodes, next) && n in nodes && nodes[n].Dir?
    requires path != [] && path[0] !in nodes[n].subs
    ensures Made(nodes, next, n, path, Mkdir(nodes, next, n, path))
    decreases |path|
  {
    EnterWf(nodes, next, n, path[0]);
    Entered(nodes, next, n, path[0]);
    MkdirEnters(nodes, next, n, path);
    hide Mkdir, Wf, Made, Enter;
    var mid := Enter(nodes, n, path[0], next);
    if |path| > 1 {
      MkdirHere(mid, next + 1, next, path[1..]);
      MadeBehind(nodes, next, n, path, mid, Mkdir(mid, next + 1, next, path[1..]));
    } else {
      MadeOne(nodes, next, n, path);
    }
  }

  lemma MkdirEnters(nodes: Nodes, next: nat, n: nat, path: seq<string>)
    requires Wf(nodes) && Fresh(nodes, next) && n in nodes && nodes[n].Dir?
    requires path != [] && path[0] !in nodes[n].subs
    ensures var mid := Enter(nodes, n, path[0], next);
      && Wf(mid) && Fresh(mid, next + 1) && next in mid
      && Mkdir(nodes, next, n, path) ==
         if |path| == 1 then (mid, next + 1, Found(next)) else Mkdir(mid, next + 1, next, path[1..])
  {
    EnterWf(nodes, next, n, path[0]);
  }

  lemma MadeOne(nodes: Nodes, next: nat, n: nat, path: seq<string>)
    requires Fresh(nodes, next) && n in nodes && nodes[n].Dir? && |path| == 1
    ensures Made(nodes, next, n, path, (Enter(nodes, n, path[0], next), next + 1, Found(next)))
  {
  }

  lemma MadeBehind(nodes: Nodes, next: nat, n: nat, path: seq<string>, mid: Nodes, r: (Nodes, nat, Result))
    requires Fresh(nodes, next) && n in nodes && nodes[n].Dir? && |path| > 1
    requires mid == Enter(nodes, n, path[0], next) && Made(mid, next + 1, next, path[1..], r)
    ensures Made(nodes, next, n, path, r)
  {
    var names := path[1..];
    assert Chain(r.0, next + 1, names[1..]);
    assert mid[next] == Dir(map[]) && mid[n] == Dir(nodes[n].subs[path[0] := next]) && n != next;
    assert map[][names[0] := next + 1] == map[names[0] := next + 1];
    assert r.0[next] == Dir(map[names[0] := next + 1]);
    forall x: nat | next <= x <= next + |names|
      ensures x in r.0 && r.0[x] == Dir(if x < next + |names| then map[names[x - next] := x + 1] else map[])
    {
      if next < x < next + |names| {
        assert names[1..][x - (next + 1)] == names[x - next];
      }
    }
  }

  /** If the path does not exist, a Mkdir follows it as far as it goes and makes the rest, and nothing
      but the rest. */
  lemma {:induction false} MkdirMakes(nodes: Nodes, next: nat, n: nat, path: seq<string>)
    returns (k: nat, trail: seq<nat>)
    requires Wf(nodes) && Fresh(nodes, next) && n in nodes && Sub(nodes, n, path) == Failed(NotExist)
    ensures k < |path| && Trail(nodes, path[..k], trail) && trail[0] == n && NoEntry(nodes, trail[k], path[k])
    ensures Made(nodes, next, End(nodes, trail[k]).value, path[k..], Mkdir(nodes, next, n, path))
    decreases |path|, n
  {
    hide Mkdir, Made;
    match nodes[n]
    case Link(t) =>
      var rest := [];
      LinkDown(nodes, next, n, path);
      hide Sub, Wf, Trail, Entry, End;
      k, rest := MkdirMakes(nodes, next, t.value, path);
      trail := [n] + rest[1..];
      TrailHead(nodes, path[..k], n, rest, path[k]);
    case Dir(subs) =>
      if path[0] in subs {
        var v, rest := subs[path[0]], [];
        assert Entry(nodes, n, path[0], v);
        MkdirDown(nodes, next, n, path);
        hide Sub, Wf, Trail, Entry, End;
        k, rest := MkdirMakes(nodes, next, v, path[1..]);
        assert path[..k + 1][1..] == path[1..][..k] && path[1..][k..] == path[k + 1..] && path[1..][k] == path[k + 1];
        TrailNext(nodes, n, path[..k + 1], rest);
        trail := [n] + rest;
        k := k + 1;
      } else {
        MkdirHere(nodes, next, n, path);
        assert path[0..] == path && path[..0] == [];
        return 0, [n];
      }
  }

  lemma MkdirDown(nodes: Nodes, next: nat, n: nat, path: seq<string>)
    requires Wf(nodes) && Fresh(nodes, next) && n in nodes && nodes[n].Dir? && |path| > 1
    requires path[0] in nodes[n].subs && !nodes[nodes[n].subs[path[0]]].Plain?
    ensures nodes[n].subs[path[0]] in nodes
    ensures Sub(nodes, n, path) == Sub(nodes, nodes[n].subs[path[0]], path[1..])
    ensures Mkdir(nodes, next, n, path) == Mkdir(nodes, next, nodes[n].subs[path[0]], path[1..])
  {
  }

  lemma LinkDown(nodes: Nodes, next: nat, n: nat, path: seq<string>)
    requires Wf(nodes) && Fresh(nodes, next) && n in nodes && nodes[n].Link? && Sub(nodes, n, path) == Failed(NotExist)
    ensures nodes[n].target.Some? && nodes[n].target.value in nodes && nodes[n].target.value < n
    ensures Sub(nodes, n, path) == Sub(nodes, nodes[n].target.value, path)
    ensures Mkdir(nodes, next, n, path) == Mkdir(nodes, next, nodes[n].target.value, path)
  {
  }

  /** A trail that starts behind a link starts as well at the link. */
  lemma TrailHead(nodes: Nodes, path: seq<string>, n: nat, trail: seq<nat>, name: string)
    requires Wf(nodes) && n in nodes && nodes[n].Link? && nodes[n].target.Some?
    requires Trail(nodes, path, trail) && trail[0] == nodes[n].target.value
    requires NoEntry(nodes, trail[|path|], name)
    ensures var head := [n] + trail[1..];
      && Trail(nodes, path, head) && NoEntry(nodes, head[|path|], name)
      && End(nodes, head[|path|]) == End(nodes, trail[|path|])
  {
    var head := [n] + trail[1..];
    forall i | 0 <= i < |path| ensures Entry(nodes, head[i], path[i], head[i + 1]) {
      assert Entry(nodes, trail[i], path[i], trail[i + 1]);
    }
  }

  // ----- the file system object

  class VirtualFS {
    var nodes: Nodes
    var next: nat

    /** The root, node 0, is an empty directory. */
    constructor ()
      ensures Valid() && nodes == map[0 := Dir(map[])]
    {
      nodes, next := map[0 := Dir(map[])], 1;
    }

    ghost predicate Valid()
      reads this
    {
      Wf(nodes) && Fresh(nodes, next) && 0 in nodes
    }

    /** A soft link to an existing node, or to nothing; it is not entered anywhere yet. */
    method SoftLink(target: Option<nat>) returns (l: nat)
      requires Valid() && (target.Some? ==> target.value in nodes)
      modifies this
      ensures Valid() && l !in old(nodes) && nodes == old(nodes)[l := Link(target)]
    {
      l := next;
      nodes := nodes[l := Link(target)];
      next := next + 1;
    }

    /** Walks down from `n`, through links, making what is missing. */
    method MkdirAt(n: nat, path: seq<string>) returns (r: Result)
      requires Valid() && n in nodes
      modifies this
      ensures Valid() && (nodes, next, r) == Mkdir(old(nodes), old(next), n, path)
      decreases |path|, n
    {
      hide Sub, Extends;
      match nodes[n]
      case Plain => return Failed(Invalid);
      case Link(t) =>
        if t.None? || nodes[t.value].Plain? {
          return Failed(Invalid);
        }
        EnteredStays(nodes, next, t.value, path);
        r := MkdirAt(t.value, path);
      case Dir(subs) =>
        if path == [] {
          return Failed(Invalid);
        }
        var first, v := path[0], next;
        if first in subs {
          v := subs[first];
          if nodes[v].Plain? {
            return Failed(Invalid);
          }
        } else {
          EnterWf(nodes, next, n, first);
          nodes := Enter(nodes, n, first, v);
          next := next + 1;
        }
        if |path| == 1 {
          return Found(v);
        }
        EnteredStays(nodes, next, v, path[1..]);
        r := MkdirAt(v, path[1..]);
    }

    /** Enters `handle` under `name` in directory `n`, unless the name is taken. */
    method LinkIn(n: nat, name: string, handle: nat) returns (e: Option<Error>)
      requires Valid() && n in nodes && nodes[n].Dir? && handle in nodes
      modifies this`nodes
      ensures Valid() && e == (if name in old(nodes)[n].subs then Some(Exist) else None)
      ensures nodes == if e == None then old(nodes)[n := Dir(old(nodes)[n].subs[name := handle])] else old(nodes)
      ensures e == None ==> Sub(nodes, n, [name]) == Found(handle) && Extends(old(nodes), nodes)
    {
      if name in nodes[n].subs {
        return Some(Exist);
      }
      nodes := nodes[n := Dir(nodes[n].subs[name := handle])];
      return None;
    }
  }

  lemma EnteredStays(nodes: Nodes, next: nat, n: nat, path: seq<string>)
    requires Wf(nodes) && Fresh(nodes, next) && n in nodes && 0 in nodes
    ensures 0 in Mkdir(nodes, next, n, path).0
  {
    MkdirExtends(nodes, next, n, path);
  }
}

/** File descriptors and the reference counts behind duplicated ones (internal/debugger/file.go). */
module Descriptors {

  import opened Bits

  /** What a descriptor maps to: a file itself, or one of the counted references, by its address. */
  datatype File = Raw(id: nat) | Ref(addr: nat)

  /** A reference: the file it stands for and the count that its Close lowers. */
  datatype FileRef = FileRef(file: nat, count: int)

  datatype Result = Ok(fd: int) | NotExist

  /** The tables of the manager, with what has left them: `handles` were returned by
      CloseFileDescriptor and not closed yet, `registered` are the files ever given a descriptor, and
      `closes` counts how often each underlying file was closed.  `std` are the references of the
      standard streams. */
  datatype State = State(
    fd: int, fileMap: map<int, File>, refs: map<nat, FileRef>, std: set<nat>,
    handles: multiset<File>, registered: set<nat>, closes: multiset<nat>)

  ghost function Holders(m: map<int, File>, f: File): set<int> {
    set k | k in m && m[k] == f
  }

  /** How many descriptors and open handles there are for `f`. */
  ghost function Users(s: State, f: File): nat {
    |Holders(s.fileMap, f)| + s.handles[f]
  }

  lemma HoldersSet(m: map<int, File>, k: int, f: File, g: File)
    ensures |Holders(m[k := f], g)| + Bit(k in m && m[k] == g) == |Holders(m, g)| + Bit(f == g)
  {
    var rest := Holders(m, g) - {k};
    OneHolder(m, k, g, rest);
    OneHolder(m[k := f], k, g, rest);
  }

  /** Membership of one descriptor settles the count, given the others. */
  lemma OneHolder(m: map<int, File>, k: int, g: File, rest: set<int>)
    requires k !in rest && forall x :: x != k ==> (x in rest <==> x in m && m[x] == g)
    ensures |Holders(m, g)| == |rest| + Bit(k in m && m[k] == g)
  {
    var all := if k in m && m[k] == g then rest + {k} else rest;
    forall x ensures x in Holders(m, g) <==> x in all {
      if x != k {
        assert x in rest <==> x in m && m[x] == g;
      }
    }
    assert Holders(m, g) == all;
  }

  lemma HoldersDrop(m: map<int, File>, k: int, g: File)
    requires k in m
    ensures |Holders(m - {k}, g)| + Bit(m[k] == g) == |Holders(m, g)|
  {
    var rest := Holders(m, g) - {k};
    assert Holders(m - {k}, g) == rest;
    if m[k] == g {
      assert Holders(m, g) == rest + {k};
    } else {
      assert Holders(m, g) == rest;
    }
  }

  lemma HolderCounts(m: map<int, File>, k: int)
    requires k in m
    ensures |Holders(m, m[k])| > 0
  {
    assert k in Holders(m, m[k]);
  }

  predicate Known(s: State, f: File) {
    match f
    case Raw(id) => id in s.registered
    case Ref(r) => r in s.refs
  }

  ghost predicate Shared(s: State, id: nat) {
    exists r :: r in s.refs && s.refs[r].file == id && s.refs[r].count > 0
  }

  /** A file is used by at most one descriptor or handle directly, and not through a reference as well;
      it has been closed once if nothing uses it any more, and not at all before. */
  ghost predicate FileOk(s: State, id: nat) {
    && Users(s, Raw(id)) <= 1
    && (Users(s, Raw(id)) == 1 ==> forall r :: r in s.refs ==> s.refs[r].file != id)
    && s.closes[id] == (if Users(s, Raw(id)) == 1 || Shared(s, id) then 0 else 1)
  }

  /** A count is exactly the number of descriptors and open handles of its reference. */
  ghost predicate RefOk(s: State, r: nat)
    requires r in s.refs
  {
    if r in s.std then s.refs[r].file !in s.registered
    else s.refs[r].file in s.registered && s.refs[r].count == Users(s, Ref(r))
  }

  ghost predicate Inv(s: State) {
    && s.fd >= 3
    && (forall k :: k in s.fileMap ==> Known(s, s.fileMap[k]))
    && (forall f :: f in s.handles ==> Known(s, f))
    && (forall r :: r in s.refs ==> RefOk(s, r))
    && (forall r, q :: r in s.refs && q in s.refs && r !in s.std && q !in s.std && s.refs[r].file == s.refs[q].file
          ==> r == q)
    && (forall id :: id in s.registered ==> FileOk(s, id))
  }

  ghost predicate IsStd(s: State, f: File) {
    f.Ref? && f.addr in s.std
  }

  /** Number `k` maps to nothing, or to a standard stream, whose count is not kept. */
  ghost predicate FreeNumber(s: State, k: int) {
    k in s.fileMap ==> IsStd(s, s.fileMap[k])
  }

  // ----- the operations

  function Create(s: State, file: nat): State {
    s.(fd := s.fd + 1, fileMap := s.fileMap[s.fd + 1 := Raw(file)], registered := s.registered + {file})
  }

  /** The descriptor goes, its file is handed to the caller. */
  function Release(s: State, k: int): State
    requires k in s.fileMap
  {
    s.(fileMap := s.fileMap - {k}, handles := s.handles + multiset{s.fileMap[k]})
  }

  /** Close on a handle: a plain file closes at once, a reference when its count reaches 0. */
  function CloseHandle(s: State, f: File): State
    requires f.Ref? ==> f.addr in s.refs
  {
    var s1 := s.(handles := s.handles - multiset{f});
    match f
    case Raw(id) => s1.(closes := s1.closes + multiset{id})
    case Ref(r) =>
      var ref := s.refs[r];
      var s2 := s1.(refs := s.refs[r := ref.(count := ref.count - 1)]);
      if ref.count - 1 == 0 then s2.(closes := s2.closes + multiset{ref.file}) else s2
  }

  /** Makes `k` another descriptor of the file at `from`, which becomes a counted reference at the new
      address `a` if it is not one yet. */
  function Share(s: State, from: int, k: int, a: nat): State
    requires from in s.fileMap && Known(s, s.fileMap[from])
  {
    match s.fileMap[from]
    case Ref(r) =>
      s.(refs := s.refs[r := s.refs[r].(count := s.refs[r].count + 1)], fileMap := s.fileMap[k := Ref(r)])
    case Raw(id) =>
      s.(refs := s.refs[a := FileRef(id, 2)], fileMap := s.fileMap[from := Ref(a)][k := Ref(a)])
  }

  /** Whatever `k` maps to is closed, ahead of `k` being used again. */
  function Vacate(s: State, k: int): State
    requires k in s.fileMap ==> Known(s, s.fileMap[k])
  {
    if k in s.fileMap then CloseHandle(Release(s, k), s.fileMap[k]) else s
  }

  // ----- each keeps the counts

  lemma CreateKeeps(s: State, file: nat)
    requires Inv(s) && s.fd + 1 !in s.fileMap && file !in s.registered && s.closes[file] == 0
    requires forall r :: r in s.refs ==> s.refs[r].file != file
    ensures Inv(Create(s, file))
  {
    var s' := Create(s, file);
    var k := s.fd + 1;
    forall g ensures Users(s', g) == Users(s, g) + Bit(g == Raw(file)) {
      HoldersSet(s.fileMap, k, Raw(file), g);
    }
    NoUsers(s, Raw(file));
    forall r | r in s'.refs ensures RefOk(s', r) {
      assert RefOk(s, r);
    }
    forall id | id in s'.registered ensures FileOk(s', id) {
      if id in s.registered {
        assert FileOk(s, id);
        assert Shared(s', id) <==> Shared(s, id);
      }
    }
  }

  /** The file has never been registered, closed or shared before. */
  ghost predicate IsNew(s: State, file: nat) {
    file !in s.registered && s.closes[file] == 0 && forall r :: r in s.refs ==> s.refs[r].file != file
  }

  /** A descriptor is forgotten without its file being closed or handed out. */
  function Forget(s: State, k: int): State {
    s.(fileMap := s.fileMap - {k})
  }

  /** Forgetting one matters exactly if it is not that of a standard stream. */
  lemma ForgetStd(s: State, k: int)
    requires Inv(s) && FreeNumber(s, k)
    ensures Inv(Forget(s, k)) && k !in Forget(s, k).fileMap
  {
    var s' := Forget(s, k);
    if k in s.fileMap {
      forall g | !IsStd(s, g) ensures Users(s', g) == Users(s, g) {
        HoldersDrop(s.fileMap, k, g);
      }
      SameUsers(s, s');
    } else {
      assert s' == s;
    }
  }

  /** The number the counter reaches next may be in use, above it; its file is then dropped, unclosed.
      Registering keeps the counts exact if and only if the file is new and the number free, or the
      number maps to that very file already. */
  lemma CreateExact(s: State, file: nat)
    requires Inv(s)
    ensures Inv(Create(s, file)) <==>
      (IsNew(s, file) && FreeNumber(s, s.fd + 1)) || (s.fd + 1 in s.fileMap && s.fileMap[s.fd + 1] == Raw(file))
  {
    var k := s.fd + 1;
    if k in s.fileMap && s.fileMap[k] == Raw(file) {
      CreateAgain(s, file);
    } else if !FreeNumber(s, k) {
      CreateOverwrites(s, file);
    } else {
      ForgetStd(s, k);
      assert Create(s, file) == Create(Forget(s, k), file) by {
        assert (s.fileMap - {k})[k := Raw(file)] == s.fileMap[k := Raw(file)];
      }
      CreateNumberFree(Forget(s, k), file);
    }
  }

  lemma CreateAgain(s: State, file: nat)
    requires Inv(s) && s.fd + 1 in s.fileMap && s.fileMap[s.fd + 1] == Raw(file)
    ensures Inv(Create(s, file))
  {
    var s' := Create(s, file);
    assert Known(s, Raw(file));
    assert s'.fileMap == s.fileMap && s'.registered == s.registered;
    SameUsers(s, s');
  }

  lemma CreateOverwrites(s: State, file: nat)
    requires Inv(s) && !FreeNumber(s, s.fd + 1) && s.fileMap[s.fd + 1] != Raw(file)
    ensures !Inv(Create(s, file))
  {
    var s', k, g := Create(s, file), s.fd + 1, s.fileMap[s.fd + 1];
    HoldersSet(s.fileMap, k, Raw(file), g);
    assert Known(s, g);
    LostUser(s, s', g);
  }

  /** Losing a user that nobody closed breaks a count, or leaves a file that is never closed. */
  lemma LostUser(s: State, s': State, g: File)
    requires Inv(s) && Known(s, g) && !IsStd(s, g) && Users(s, g) > 0 && Users(s', g) + 1 == Users(s, g)
    requires s'.std == s.std && s.registered <= s'.registered && s'.closes == s.closes
    requires g.Ref? ==> g.addr in s'.refs && s'.refs[g.addr] == s.refs[g.addr]
    requires g.Raw? ==> forall r :: r in s'.refs && (r !in s.refs || s'.refs[r].file != s.refs[r].file) ==>
      s'.refs[r].file != g.id
    ensures !Inv(s')
  {
    match g
    case Ref(r) =>
      assert RefOk(s, r);
      assert !RefOk(s', r);
    case Raw(id) =>
      assert FileOk(s, id);
      assert !Shared(s', id);
      assert !FileOk(s', id);
  }

  lemma CreateNumberFree(s: State, file: nat)
    requires Inv(s) && s.fd + 1 !in s.fileMap
    ensures Inv(Create(s, file)) <==> IsNew(s, file)
  {
    if IsNew(s, file) {
      CreateKeeps(s, file);
    } else {
      var s', k := Create(s, file), s.fd + 1;
      HoldersSet(s.fileMap, k, Raw(file), Raw(file));
      assert Users(s', Raw(file)) == Users(s, Raw(file)) + 1;
      if file in s.registered {
        assert FileOk(s, file) && (Shared(s, file) <==> Shared(s', file));
        assert !FileOk(s', file);
      } else if r :| r in s.refs && s.refs[r].file == file {
        assert RefOk(s, r);
        assert !RefOk(s', r);
      } else {
        assert !FileOk(s', file);
      }
    }
  }

  lemma NoUsers(s: State, f: File)
    requires Inv(s) && !Known(s, f)
    ensures Users(s, f) == 0
  {
    forall k | k in s.fileMap ensures s.fileMap[k] != f {
      assert Known(s, s.fileMap[k]);
    }
    assert Holders(s.fileMap, f) == {};
  }

  lemma ReleaseKeeps(s: State, k: int)
    requires Inv(s) && k in s.fileMap
    ensures Inv(Release(s, k))
  {
    var s' := Release(s, k);
    forall g ensures Users(s', g) == Users(s, g) {
      HoldersDrop(s.fileMap, k, g);
    }
    forall f | f in s'.handles ensures Known(s', f) {
      assert f in s.handles || f == s.fileMap[k];
    }
    SameUsers(s, s');
  }

  /** Nothing but who uses what may have moved, and the numbers are the same, but for standard streams. */
  lemma SameUsers(s: State, s': State)
    requires Inv(s) && forall g :: !IsStd(s, g) ==> Users(s', g) == Users(s, g)
    requires s'.refs == s.refs && s'.std == s.std && s'.registered == s.registered && s'.closes == s.closes
    ensures forall r :: r in s'.refs ==> RefOk(s', r)
    ensures forall id :: id in s'.registered ==> FileOk(s', id)
  {
    forall r | r in s'.refs ensures RefOk(s', r) {
      assert RefOk(s, r);
    }
    forall id | id in s'.registered ensures FileOk(s', id) {
      assert FileOk(s, id);
      assert Shared(s', id) <==> Shared(s, id);
    }
  }

  lemma CloseRawKeeps(s: State, id: nat)
    requires Inv(s) && Raw(id) in s.handles
    ensures Inv(CloseHandle(s, Raw(id)))
  {
    var s' := CloseHandle(s, Raw(id));
    forall g ensures Users(s', g) + Bit(g == Raw(id)) == Users(s, g) {
    }
    forall r | r in s'.refs ensures RefOk(s', r) {
      assert RefOk(s, r);
    }
    forall x | x in s'.registered ensures FileOk(s', x) {
      assert FileOk(s, x);
      assert Shared(s', x) <==> Shared(s, x);
    }
  }

  lemma CloseRefKeeps(s: State, r: nat)
    requires Inv(s) && Ref(r) in s.handles
    ensures Inv(CloseHandle(s, Ref(r)))
  {
    var s' := CloseHandle(s, Ref(r));
    forall g ensures Users(s', g) + Bit(g == Ref(r)) == Users(s, g) {
    }
    CloseRefCounts(s, r);
    forall x | x in s'.registered ensures FileOk(s', x) {
      CloseRefFile(s, r, x);
    }
    hide FileOk, RefOk, Users;
  }

  lemma CloseRefCounts(s: State, r: nat)
    requires Inv(s) && Ref(r) in s.handles
    requires forall g :: Users(CloseHandle(s, Ref(r)), g) + Bit(g == Ref(r)) == Users(s, g)
    ensures var s' := CloseHandle(s, Ref(r));
      forall q :: q in s'.refs ==> RefOk(s', q)
  {
    hide FileOk, Users;
    var s' := CloseHandle(s, Ref(r));
    forall q | q in s'.refs ensures RefOk(s', q) {
      assert RefOk(s, q);
    }
  }

  lemma CloseRefFile(s: State, r: nat, x: nat)
    requires Inv(s) && Ref(r) in s.handles && x in s.registered
    requires forall g :: Users(CloseHandle(s, Ref(r)), g) + Bit(g == Ref(r)) == Users(s, g)
    ensures FileOk(CloseHandle(s, Ref(r)), x)
  {
    var s' := CloseHandle(s, Ref(r));
    assert FileOk(s, x) && RefOk(s, r);
    if s.refs[r].file == x {
      assert Shared(s, x) by { assert s.refs[r].count > 0; }
      if s.refs[r].count - 1 > 0 {
        assert s'.refs[r].count > 0 && s'.refs[r].file == x;
      } else {
        forall q | q in s'.refs && s'.refs[q].file == x ensures s'.refs[q].count <= 0 {
          assert RefOk(s, q);
        }
      }
    } else {
      SharedElsewhere(s, s', r, x);
    }
  }

  /** Closing keeps the counts exact if and only if it closes an open handle or a standard stream; a
      handle closed twice takes a count, or a close, that is not its own. */
  lemma CloseExact(s: State, f: File)
    requires Inv(s) && Known(s, f)
    ensures Inv(CloseHandle(s, f)) <==> f in s.handles || IsStd(s, f)
  {
    match f
    case Raw(id) =>
      if f in s.handles {
        CloseRawKeeps(s, id);
      } else {
        CloseRawTwice(s, id);
      }
    case Ref(r) =>
      if f in s.handles {
        CloseRefKeeps(s, r);
      } else if r in s.std {
        CloseStd(s, r);
      } else {
        var s' := CloseHandle(s, f);
        assert RefOk(s, r) && Users(s', f) == Users(s, f) && s'.refs[r].count == s.refs[r].count - 1;
        assert !RefOk(s', r);
      }
  }

  lemma CloseRawTwice(s: State, id: nat)
    requires Inv(s) && id in s.registered && Raw(id) !in s.handles
    ensures !Inv(CloseHandle(s, Raw(id)))
  {
    var s' := CloseHandle(s, Raw(id));
    assert Users(s', Raw(id)) == Users(s, Raw(id)) && (Shared(s', id) <==> Shared(s, id));
    assert FileOk(s, id) && s'.closes[id] == s.closes[id] + 1;
    assert !FileOk(s', id);
  }

  lemma CloseStd(s: State, r: nat)
    requires Inv(s) && r in s.refs && r in s.std && Ref(r) !in s.handles
    ensures Inv(CloseHandle(s, Ref(r)))
  {
    var s' := CloseHandle(s, Ref(r));
    forall g ensures Users(s', g) == Users(s, g) {
    }
    forall q | q in s'.refs ensures RefOk(s', q) {
      assert RefOk(s, q);
    }
    forall x | x in s'.registered ensures FileOk(s', x) {
      CloseStdFile(s, r, x);
    }
    hide FileOk, RefOk, Users;
  }

  lemma CloseStdFile(s: State, r: nat, x: nat)
    requires Inv(s) && r in s.refs && r in s.std && x in s.registered
    requires forall g :: Users(CloseHandle(s, Ref(r)), g) == Users(s, g)
    ensures FileOk(CloseHandle(s, Ref(r)), x)
  {
    assert RefOk(s, r) && FileOk(s, x);
    hide RefOk, Users;
    SharedElsewhere(s, CloseHandle(s, Ref(r)), r, x);
  }

  /** A change to one reference does not matter to files it does not stand for. */
  lemma SharedElsewhere(s: State, s': State, r: nat, x: nat)
    requires s.refs.Keys <= s'.refs.Keys <= s.refs.Keys + {r}
    requires forall q :: q in s.refs && q != r ==> s'.refs[q] == s.refs[q]
    requires r in s.refs ==> s.refs[r].file != x
    requires r in s'.refs && s'.refs[r].file != x
    ensures Shared(s', x) <==> Shared(s, x)
  {
    if Shared(s, x) {
      var q :| q in s.refs && s.refs[q].file == x && s.refs[q].count > 0;
      assert q in s'.refs && s'.refs[q] == s.refs[q];
    }
    if Shared(s', x) {
      var q :| q in s'.refs && s'.refs[q].file == x && s'.refs[q].count > 0;
      assert q in s.refs;
    }
  }

  lemma ShareRefKeeps(s: State, from: int, k: int, a: nat)
    requires Inv(s) && from in s.fileMap && s.fileMap[from].Ref? && k !in s.fileMap
    ensures Inv(Share(s, from, k, a))
  {
    var s', r := Share(s, from, k, a), s.fileMap[from].addr;
    assert Known(s, s.fileMap[from]);
    forall g ensures Users(s', g) == Users(s, g) + Bit(g == Ref(r)) {
      HoldersSet(s.fileMap, k, Ref(r), g);
    }
    HolderCounts(s.fileMap, from);
    forall q | q in s'.refs ensures RefOk(s', q) {
      assert RefOk(s, q);
    }
    forall x | x in s'.registered ensures FileOk(s', x) {
      assert FileOk(s, x) && RefOk(s, r);
      if s.refs[r].file == x {
        assert s.refs[r].count > 0 && s'.refs[r].file == x && s'.refs[r].count > 0;
      } else {
        SharedElsewhere(s, s', r, x);
      }
    }
  }

  lemma ShareRawKeeps(s: State, from: int, k: int, a: nat)
    requires Inv(s) && from in s.fileMap && s.fileMap[from].Raw? && k !in s.fileMap
    requires a !in s.refs && a !in s.std
    ensures Inv(Share(s, from, k, a))
  {
    var s', id := Share(s, from, k, a), s.fileMap[from].id;
    assert Known(s, s.fileMap[from]);
    NoUsers(s, Ref(a));
    forall g ensures Users(s', g) + Bit(g == Raw(id)) == Users(s, g) + 2 * Bit(g == Ref(a)) {
      HoldersSet(s.fileMap, from, Ref(a), g);
      HoldersSet(s.fileMap[from := Ref(a)], k, Ref(a), g);
    }
    HolderCounts(s.fileMap, from);
    assert FileOk(s, id) && Users(s, Raw(id)) == 1;
    forall q | q in s'.refs ensures RefOk(s', q) {
      assert q != a ==> RefOk(s, q);
    }
    forall x | x in s'.registered ensures FileOk(s', x) {
      assert FileOk(s, x);
      if x == id {
        assert s'.refs[a].file == x && s'.refs[a].count > 0;
      } else {
        SharedElsewhere(s, s', a, x);
      }
    }
  }

  /** Duplicating into a number keeps the counts exact if and only if that number is free. */
  lemma ShareExact(s: State, from: int, k: int, a: nat)
    requires Inv(s) && from in s.fileMap && Known(s, s.fileMap[from]) && a !in s.refs && a !in s.std
    ensures Inv(Share(s, from, k, a)) <==> FreeNumber(s, k)
  {
    if !FreeNumber(s, k) {
      ShareOverwrites(s, from, k, a);
    } else if from == k {
      ShareStd(s, k, a);
    } else {
      ForgetStd(s, k);
      var t := Forget(s, k);
      assert t.fileMap[from] == s.fileMap[from];
      assert t.fileMap[k := s.fileMap[from]] == s.fileMap[k := s.fileMap[from]];
      assert t.fileMap[from := Ref(a)][k := Ref(a)] == s.fileMap[from := Ref(a)][k := Ref(a)];
      assert Share(t, from, k, a) == Share(s, from, k, a);
      if t.fileMap[from].Ref? {
        ShareRefKeeps(t, from, k, a);
      } else {
        ShareRawKeeps(t, from, k, a);
      }
    }
  }

  /** Duplicating a standard stream into its own number only moves its count. */
  lemma ShareStd(s: State, k: int, a: nat)
    requires Inv(s) && k in s.fileMap && Known(s, s.fileMap[k]) && IsStd(s, s.fileMap[k])
    ensures Inv(Share(s, k, k, a))
  {
    var s', r := Share(s, k, k, a), s.fileMap[k].addr;
    assert s'.fileMap == s.fileMap;
    forall g ensures Users(s', g) == Users(s, g) {
    }
    forall q | q in s'.refs ensures RefOk(s', q) {
      assert RefOk(s, q);
    }
    forall x | x in s'.registered ensures FileOk(s', x) {
      assert FileOk(s, x) && RefOk(s, r);
      SharedElsewhere(s, s', r, x);
    }
  }

  lemma ShareOverwrites(s: State, from: int, k: int, a: nat)
    requires Inv(s) && from in s.fileMap && Known(s, s.fileMap[from]) && a !in s.refs && a !in s.std
    requires !FreeNumber(s, k)
    ensures !Inv(Share(s, from, k, a))
  {
    var s', f, g := Share(s, from, k, a), s.fileMap[from], s.fileMap[k];
    HolderCounts(s.fileMap, k);
    assert Known(s, g);
    if f == g {
      ShareWithinUse(s, from, k, a);
    } else if f.Ref? {
      HoldersSet(s.fileMap, k, f, g);
      assert g.Raw? ==> FileOk(s, g.id);
      LostUser(s, s', g);
    } else {
      HoldersSet(s.fileMap, from, Ref(a), g);
      HoldersSet(s.fileMap[from := Ref(a)], k, Ref(a), g);
      assert g.Raw? ==> FileOk(s, g.id);
      LostUser(s, s', g);
    }
  }

  /** The number maps to the same file already: its count rises and its users do not. */
  lemma ShareWithinUse(s: State, from: int, k: int, a: nat)
    requires Inv(s) && from in s.fileMap && Known(s, s.fileMap[from]) && a !in s.refs && a !in s.std
    requires !FreeNumber(s, k) && s.fileMap[k] == s.fileMap[from]
    ensures !Inv(Share(s, from, k, a))
  {
    var s' := Share(s, from, k, a);
    match s.fileMap[from]
    case Ref(r) =>
      assert s'.fileMap == s.fileMap && RefOk(s, r);
      assert !RefOk(s', r);
    case Raw(id) =>
      OneDescriptor(s, from, k, id);
      NoUsers(s, Ref(a));
      HoldersSet(s.fileMap, k, Ref(a), Ref(a));
      assert s'.fileMap == s.fileMap[k := Ref(a)];
      assert !RefOk(s', a);
  }

  /** A file used directly has one descriptor. */
  lemma OneDescriptor(s: State, i: int, k: int, id: nat)
    requires Inv(s) && i in s.fileMap && k in s.fileMap && s.fileMap[i] == Raw(id) && s.fileMap[k] == Raw(id)
    ensures i == k
  {
    assert Known(s, Raw(id)) && FileOk(s, id);
    if i != k {
      TwoMembers(Holders(s.fileMap, Raw(id)), i, k);
    }
  }

  lemma TwoMembers(h: set<int>, i: int, k: int)
    requires i in h && k in h && i != k
    ensures |h| >= 2
  {
    assert k in h - {i} && |h| == |h - {i}| + 1;
  }

  /** As long as no duplicate was made above the counter the next number is free. */
  ghost predicate Below(s: State) {
    forall k :: k in s.fileMap ==> k <= s.fd
  }

  /** Nothing but a duplicate above the counter changes that. */
  lemma BelowStays(s: State, file: nat, k: int, from: int, a: nat)
    requires Below(s)
    ensures FreeNumber(s, s.fd + 1) && Below(Create(s, file))
    ensures k in s.fileMap ==> Below(Release(s, k))
    ensures from in s.fileMap && Known(s, s.fileMap[from]) ==>
      Below(Share(s.(fd := s.fd + 1), from, s.fd + 1, a)) && (Below(Share(s, from, k, a)) <==> k <= s.fd)
  {
    if from in s.fileMap && Known(s, s.fileMap[from]) {
      assert k in Share(s, from, k, a).fileMap;
    }
  }

  /** A duplicate at a number the counter has not reached yet is replaced by the file that gets the number,
      and the reference keeps a count for it. */
  lemma DupAboveIsReplaced(s: State, from: int, a: nat, file: nat)
    requires Inv(s) && s.fd + 1 !in s.fileMap && from in s.fileMap && s.fileMap[from].Raw? && a !in s.refs
    ensures Known(s, s.fileMap[from])
    ensures var s' := Create(Share(s, from, s.fd + 1, a), file);
      s'.fileMap[s.fd + 1] == Raw(file) && s'.refs[a].count == 2 && Users(s', Ref(a)) == 1
  {
    assert Known(s, s.fileMap[from]);
    var k := s.fd + 1;
    var s' := Create(Share(s, from, k, a), file);
    NoUsers(s, Ref(a));
    HoldersSet(s.fileMap, from, Ref(a), Ref(a));
    HoldersSet(s.fileMap[from := Ref(a)], k, Raw(file), Ref(a));
    assert s'.fileMap == s.fileMap[from := Ref(a)][k := Raw(file)];
    HolderCounts(s.fileMap, from);
  }

  ghost predicate InUse(s: State, id: nat) {
    Users(s, Raw(id)) > 0 || exists r :: r in s.refs && s.refs[r].file == id && Users(s, Ref(r)) > 0
  }

  /** So a file is closed exactly once, with the last of its descriptors and handles, and never before. */
  lemma ClosedOnceAtTheEnd(s: State, id: nat)
    requires Inv(s) && id in s.registered
    ensures s.closes[id] <= 1
    ensures s.closes[id] == 0 <==> InUse(s, id)
  {
    assert FileOk(s, id);
    if Shared(s, id) {
      var r :| r in s.refs && s.refs[r].file == id && s.refs[r].count > 0;
      assert RefOk(s, r);
    }
    forall r | r in s.refs && s.refs[r].file == id && Users(s, Ref(r)) > 0 ensures Shared(s, id) {
      assert RefOk(s, r);
    }
  }

  // ----- the manager

  class FileManager {
    var fd: int
    var fileMap: map<int, File>
    var refs: map<nat, FileRef>        // the references by address
    ghost var std: set<nat>
    ghost var handles: multiset<File>
    ghost var registered: set<nat>
    ghost var closes: multiset<nat>

    ghost function Now(): State
      reads this
    {
      State(fd, fileMap, refs, std, handles, registered, closes)
    }

    /** The standard streams have references whose count starts at 0. */
    constructor ()
      ensures Inv(Now()) && registered == {} && handles == multiset{} && closes == multiset{}
    {
      fd := 3;
      fileMap := map[0 := Ref(0), 1 := Ref(1), 2 := Ref(2)];
      refs := map[0 := FileRef(0, 0), 1 := FileRef(1, 0), 2 := FileRef(2, 0)];
      std := {0, 1, 2};
      handles, registered, closes := multiset{}, {}, multiset{};
    }

    /** Registers a file under the next number. */
    method CreateFileDescriptor(file: nat) returns (k: int)
      requires Inv(Now())
      modifies this
      ensures Now() == Create(old(Now()), file) && k == fd
      ensures Inv(Now()) <==>
        (IsNew(old(Now()), file) && FreeNumber(old(Now()), k)) || (k in old(fileMap) && old(fileMap)[k] == Raw(file))
    {
      hide Inv, IsNew, FreeNumber;
      CreateExact(Now(), file);
      fd := fd + 1;
      fileMap := fileMap[fd := Raw(file)];
      registered := registered + {file};
      return fd;
    }

    method CloseFileDescriptor(k: int) returns (r: Result, f: File)
      requires Inv(Now())
      modifies this
      ensures Inv(Now())
      ensures r == if k in old(fileMap) then Ok(k) else NotExist
      ensures r.Ok? ==> f == old(fileMap)[k] && Now() == Release(old(Now()), k)
      ensures r == NotExist ==> Now() == old(Now())
    {
      if k in fileMap {
        ReleaseKeeps(Now(), k);
        f := fileMap[k];
        handles := handles + multiset{f};
        fileMap := fileMap - {k};
        return Ok(k), f;
      }
      return NotExist, Raw(0);
    }

    /** Close on what CloseFileDescriptor has returned, or on anything else the caller has kept; `ok` is
        false for a reference whose count was used up already. */
    method Close(f: File) returns (ok: bool)
      requires Inv(Now()) && Known(Now(), f)
      modifies this`refs, this`handles, this`closes
      ensures Now() == CloseHandle(old(Now()), f) && refs.Keys == old(refs).Keys
      ensures Inv(Now()) <==> f in old(handles) || IsStd(Now(), f)
      ensures ok <==> f.Raw? || refs[f.addr].count >= 0
    {
      hide Inv;
      CloseExact(Now(), f);
      handles := handles - multiset{f};
      match f
      case Raw(id) =>
        closes := closes + multiset{id};
        ok := true;
      case Ref(r) =>
        var i := refs[r].count - 1;
        refs := refs[r := refs[r].(count := i)];
        ok := i >= 0;
        if i == 0 {
          closes := closes + multiset{refs[r].file};
        }
    }

    /** Another descriptor for the same file, under the next number; `a` is where a new reference, if
        one is needed, is allocated. */
    method DupFile(k: int, a: nat) returns (r: Result)
      requires Inv(Now()) && a !in refs && a !in std
      modifies this
      ensures Inv(Now()) <==> k !in old(fileMap) || FreeNumber(old(Now()), old(fd) + 1)
      ensures r == if k in old(fileMap) then Ok(old(fd) + 1) else NotExist
      ensures k in old(fileMap) ==> Known(old(Now()).(fd := old(fd) + 1), old(fileMap)[k])
      ensures k in old(fileMap) ==> Now() == Share(old(Now()).(fd := old(fd) + 1), k, old(fd) + 1, a)
      ensures k !in old(fileMap) ==> Now() == old(Now())
    {
      hide Inv;
      if k !in fileMap {
        return NotExist;
      }
      var newfd := fd + 1;
      KnownAt(Now(), k);
      NextNumber(Now());
      ghost var s := Now().(fd := newfd);
      ShareExact(s, k, newfd, a);
      fd := newfd;
      KnownAt(s, k);
      ShareInto(k, newfd, a);
      return Ok(newfd);
    }

    /** The common tail of a duplication. */
    method ShareInto(from: int, k: int, a: nat)
      requires from in fileMap && Known(Now(), fileMap[from])
      modifies this`refs, this`fileMap
      ensures Now() == Share(old(Now()), from, k, a)
    {
      match fileMap[from]
      case Ref(r) =>
        refs := refs[r := refs[r].(count := refs[r].count + 1)];
        fileMap := fileMap[k := Ref(r)];
      case Raw(id) =>
        refs := refs[a := FileRef(id, 2)];
        fileMap := fileMap[from := Ref(a)];
        fileMap := fileMap[k := Ref(a)];
    }

    /** Closes the file a descriptor maps to, ahead of the descriptor being reused. */
    method CloseTarget(k: int)
      requires Inv(Now()) && k in fileMap
      modifies this`fileMap, this`refs, this`handles, this`closes
      ensures Inv(Now()) && fileMap == old(fileMap) - {k} && refs.Keys == old(refs).Keys
      ensures Known(Release(old(Now()), k), old(fileMap)[k])
      ensures Now() == CloseHandle(Release(old(Now()), k), old(fileMap)[k])
    {
      hide Inv;
      ReleaseKeeps(Now(), k);
      KnownAt(Now(), k);
      var f := fileMap[k];
      handles := handles + multiset{f};
      fileMap := fileMap - {k};
      assert Now() == Release(old(Now()), k);
      var ok := Close(f);
    }

    /** Makes `to` a descriptor of the file at `from`, closing what it was; the standard descriptors
        are never replaced. */
    method Dup2File(from: int, to: int, a: nat) returns (r: Result)
      requires Inv(Now()) && a !in refs && a !in std
      modifies this
      ensures Inv(Now())
      ensures from == to || to < 3 ==> Now() == old(Now()) && r.Ok?
      ensures from != to && to >= 3 ==> (r == NotExist <==> from !in old(fileMap))
      ensures r == NotExist ==> Now() == old(Now())
      ensures from != to && to >= 3 && r.Ok? ==>
        && (to in old(fileMap) ==> Known(old(Now()), old(fileMap)[to]))
        && var s := Vacate(old(Now()), to);
           from in s.fileMap && Known(s, s.fileMap[from]) && Now() == Share(s, from, to, a)
    {
      hide Inv, Share;
      if from == to || to < 3 {
        return Ok(to);
      } else if from !in fileMap {
        return NotExist;
      }
      if to in fileMap {
        KnownAt(Now(), to);
        CloseTarget(to);
      }
      assert Now() == Vacate(old(Now()), to);
      if fileMap[from].Ref? {
        ShareRefKeeps(Now(), from, to, a);
      } else {
        ShareRawKeeps(Now(), from, to, a);
      }
      KnownAt(Now(), from);
      ShareInto(from, to, a);
      return Ok(to);
    }
  }

  lemma KnownAt(s: State, k: int)
    requires Inv(s) && k in s.fileMap
    ensures Known(s, s.fileMap[k])
  {
  }

  /** After sharing, both descriptors map to the same reference, and no other descriptor has moved. */
  lemma ShareMaps(s: State, from: int, k: int, a: nat)
    requires from in s.fileMap && Known(s, s.fileMap[from])
    ensures var m := Share(s, from, k, a).fileMap;
      && k in m && from in m && m[k].Ref? && m[from] == m[k]
      && (forall i :: i != k && i != from ==> (i in m <==> i in s.fileMap) && (i in m ==> m[i] == s.fileMap[i]))
  {
  }

  lemma NextNumber(s: State)
    requires Inv(s)
    ensures Inv(s.(fd := s.fd + 1))
  {
    var s' := s.(fd := s.fd + 1);
    forall g ensures Users(s', g) == Users(s, g) {
    }
    SameUsers(s, s');
  }
}

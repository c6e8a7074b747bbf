/** The mapping ledger as a value: a map from start addresses to sizes, seen as a set of bytes. */
module LedgerSpec {
  import opened Ranges

  ghost predicate Covered(maps: map<nat, nat>, x: nat) {
    exists k :: k in maps && Within(x, k, maps[k])
  }

  ghost predicate Disjoint(maps: map<nat, nat>) {
    && (forall k :: k in maps ==> maps[k] > 0)
    && (forall k, l :: k in maps && l in maps && k < l ==> k + maps[k] <= l)
  }

  /** `n` covers what `m` covers, less `[from, to)`. */
  ghost predicate Subtracted(m: map<nat, nat>, n: map<nat, nat>, from: nat, to: nat) {
    forall x: nat :: Covered(n, x) <==> Covered(m, x) && !(from <= x < to)
  }

  /** Every interval of `m` clear of `[from, to)` is still there, unchanged. */
  ghost predicate OthersKept(m: map<nat, nat>, n: map<nat, nat>, from: nat, to: nat) {
    forall k :: k in m && (k + m[k] <= from || to <= k) ==> k in n && n[k] == m[k]
  }

  function Overlap(min1: nat, max1: nat, min2: nat, max2: nat): (r: (nat, nat, bool))
    ensures r.2 <==> min1 <= max2 && min2 <= max1
    ensures r.2 && min1 <= max1 && min2 <= max2 ==> min1 <= r.0 <= r.1 <= max1 && min2 <= r.0 <= r.1 <= max2
    ensures r.2 ==> (r.0 == min1 || r.0 == min2) && (r.1 == max1 || r.1 == max2)
  {
    if max1 < min2 || max2 < min1 then (0, 0, false)
    else (if min1 < min2 then min2 else min1, if max1 < max2 then max1 else max2, true)
  }

  // ----- single updates

  lemma RemoveCovers(m: map<nat, nat>, k: nat)
    requires Disjoint(m) && k in m
    ensures Disjoint(m - {k})
    ensures Subtracted(m, m - {k}, k, k + m[k])
  {
    var n := m - {k};
    forall x: nat ensures Covered(n, x) <==> Covered(m, x) && !(k <= x < k + m[k]) {
      if Covered(n, x) {
        var l :| l in n && Within(x, l, n[l]);
        assert l in m && Within(x, l, m[l]);
      }
      if Covered(m, x) && !(k <= x < k + m[k]) {
        var l :| l in m && Within(x, l, m[l]);
        assert l in n && Within(x, l, n[l]);
      }
    }
  }

  lemma AddCovers(m: map<nat, nat>, k: nat, size: nat)
    requires Disjoint(m) && size > 0
    requires forall x: nat :: Within(x, k, size) ==> !Covered(m, x)
    ensures Disjoint(m[k := size]) && k !in m
    ensures forall x: nat :: Covered(m[k := size], x) <==> Covered(m, x) || Within(x, k, size)
  {
    var n := m[k := size];
    if k in m {
      assert Within(k, k, m[k]) && Within(k, k, size);
    }
    forall l | l in m ensures l + m[l] <= k || k + size <= l {
      if l <= k < l + m[l] {
        assert Within(k, k, size) && Within(k, l, m[l]);
      } else if k <= l < k + size {
        assert Within(l, k, size) && Within(l, l, m[l]);
      }
    }
    forall x: nat ensures Covered(n, x) <==> Covered(m, x) || Within(x, k, size) {
      if Covered(m, x) {
        var l :| l in m && Within(x, l, m[l]);
        assert l in n && Within(x, l, n[l]);
      }
      if Within(x, k, size) {
        assert k in n && Within(x, k, n[k]);
      }
      if Covered(n, x) && !Within(x, k, size) {
        var l :| l in n && Within(x, l, n[l]);
        assert l in m && Within(x, l, m[l]);
      }
    }
  }

  /** What of interval `k` lies at or above `from` goes. */
  function CutTop(m: map<nat, nat>, k: nat, from: nat): map<nat, nat>
    requires k in m && k <= from <= k + m[k]
  {
    if from > k then m[k := from - k] else m - {k}
  }

  /** The part `[from, to)` of interval `k` goes; what is left on either side stays. */
  function Cut(m: map<nat, nat>, k: nat, from: nat, to: nat): map<nat, nat>
    requires k in m && k <= from <= to <= k + m[k]
  {
    var lower := CutTop(m, k, from);
    if to < k + m[k] then lower[to := k + m[k] - to] else lower
  }

  lemma CutTopCovers(m: map<nat, nat>, k: nat, from: nat)
    requires Disjoint(m) && k in m && k <= from <= k + m[k]
    ensures Disjoint(CutTop(m, k, from))
    ensures Subtracted(m, CutTop(m, k, from), from, k + m[k])
  {
    hide Disjoint;
    var gone := m - {k};
    RemoveCovers(m, k);
    if from > k {
      AddCovers(gone, k, from - k);
      assert gone[k := from - k] == CutTop(m, k, from);
      forall x: nat | Within(x, k, m[k]) ensures Covered(m, x) {
      }
    }
  }

  lemma CutCovers(m: map<nat, nat>, k: nat, from: nat, to: nat)
    requires Disjoint(m) && k in m && k <= from <= to <= k + m[k]
    ensures Disjoint(Cut(m, k, from, to))
    ensures Subtracted(m, Cut(m, k, from, to), from, to)
    ensures OthersKept(m, Cut(m, k, from, to), from, to)
    ensures forall l :: l in m && l != k ==> l in Cut(m, k, from, to) && Cut(m, k, from, to)[l] == m[l]
  {
    CutTopCovers(m, k, from);
    if to < k + m[k] {
      CutTail(m, k, from, to);
    }
    CutKeeps(m, k, from, to);
  }

  lemma CutTail(m: map<nat, nat>, k: nat, from: nat, to: nat)
    requires Disjoint(m) && k in m && k <= from <= to < k + m[k]
    ensures Disjoint(Cut(m, k, from, to))
    ensures Subtracted(m, Cut(m, k, from, to), from, to)
    ensures to !in CutTop(m, k, from)
  {
    hide Disjoint;
    var lower := CutTop(m, k, from);
    CutTopCovers(m, k, from);
    hide CutTop;
    AddCovers(lower, to, k + m[k] - to);
    forall x: nat | Within(x, k, m[k]) ensures Covered(m, x) {
    }
  }

  /** No interval of a disjoint ledger starts where the kept upper part of `k` does. */
  lemma CutKeeps(m: map<nat, nat>, k: nat, from: nat, to: nat)
    requires Disjoint(m) && k in m && k <= from <= to <= k + m[k]
    ensures OthersKept(m, Cut(m, k, from, to), from, to)
    ensures forall l :: l in m && l != k ==> l in Cut(m, k, from, to) && Cut(m, k, from, to)[l] == m[l]
  {
    forall l | l in m && l != k ensures l != to || to >= k + m[k] {
    }
  }

  // ----- the two loops of a deletion

  /** `m` is `m0` less `[lo, at)`, with nothing clear of `[lo, end)` disturbed. */
  ghost predicate Progress(m0: map<nat, nat>, m: map<nat, nat>, lo: nat, at: nat, end: nat) {
    Disjoint(m) && Subtracted(m0, m, lo, at) && OthersKept(m0, m, lo, end)
  }

  lemma ProgressStart(m: map<nat, nat>, lo: nat, end: nat)
    requires Disjoint(m)
    ensures Progress(m, m, lo, lo, end)
  {
  }

  lemma ProgressDisjoint(m0: map<nat, nat>, m: map<nat, nat>, lo: nat, at: nat, end: nat)
    requires Progress(m0, m, lo, at, end)
    ensures Disjoint(m)
  {
  }

  lemma CutLow(m: map<nat, nat>, k: nat, to: nat)
    requires k in m && k <= to <= k + m[k]
    ensures Cut(m, k, k, to) == if to < k + m[k] then (m - {k})[to := k + m[k] - to] else m - {k}
  {
  }

  lemma ChainStep(m0: map<nat, nat>, m: map<nat, nat>, lo: nat, at: nat, to: nat, end: nat)
    requires Progress(m0, m, lo, at, end) && lo <= at <= to <= end
    requires at in m && to <= at + m[at]
    ensures m[at] > 0
    ensures Progress(m0, Cut(m, at, at, to), lo, to, end)
  {
    var n := Cut(m, at, at, to);
    CutCovers(m, at, at, to);
    forall k | k in m0 && (k + m0[k] <= lo || end <= k) ensures k in n && n[k] == m0[k] {
      assert k in m && m[k] == m0[k];
    }
  }

  /** Before entry `i` of the key snapshot is looked at: the entries from `i` on are untouched, and
      those before it are clear of `[at, end)`. */
  ghost predicate SweepInv(m0: map<nat, nat>, m: map<nat, nat>, ks: seq<nat>, i: nat, lo: nat, at: nat, end: nat) {
    && lo <= at <= end && i <= |ks|
    && Progress(m0, m, lo, at, end)
    && (forall j, k :: 0 <= j < k < |ks| ==> ks[j] < ks[k])
    && (forall k :: k in m ==> k in ks)
    && (forall j :: i <= j < |ks| ==> ks[j] in m)
    && (forall j :: 0 <= j < i && ks[j] in m ==> ks[j] + m[ks[j]] <= at || end <= ks[j])
  }

  lemma SweepStart(m: map<nat, nat>, ks: seq<nat>, lo: nat, end: nat)
    requires Disjoint(m) && lo <= end
    requires forall j, k :: 0 <= j < k < |ks| ==> ks[j] < ks[k]
    requires forall k :: k in m <==> k in ks
    ensures SweepInv(m, m, ks, 0, lo, lo, end)
  {
  }

  lemma SweepEntry(m0: map<nat, nat>, m: map<nat, nat>, ks: seq<nat>, i: nat, lo: nat, at: nat, end: nat)
    requires SweepInv(m0, m, ks, i, lo, at, end)
    ensures lo <= at <= end
    ensures i < |ks| ==> ks[i] in m
  {
  }

  lemma SweepSkip(m0: map<nat, nat>, m: map<nat, nat>, ks: seq<nat>, i: nat, lo: nat, at: nat, end: nat)
    requires SweepInv(m0, m, ks, i, lo, at, end) && i < |ks|
    requires !Overlap(ks[i], ks[i] + m[ks[i]], at, end).2
    ensures SweepInv(m0, m, ks, i + 1, lo, at, end)
  {
  }

  lemma SweepCut(m0: map<nat, nat>, m: map<nat, nat>, ks: seq<nat>, i: nat, lo: nat, at: nat, end: nat)
    requires SweepInv(m0, m, ks, i, lo, at, end) && i < |ks|
    requires Overlap(ks[i], ks[i] + m[ks[i]], at, end).2
    ensures var (s, e, _) := Overlap(ks[i], ks[i] + m[ks[i]], at, end);
      ks[i] <= s <= e <= ks[i] + m[ks[i]] && at <= e <= end &&
      var n := Cut(m, ks[i], s, e);
      && (e == ks[i] + m[ks[i]] || e == end)
      && Progress(m0, n, lo, e, end)
      && (e == ks[i] + m[ks[i]] ==> SweepInv(m0, n, ks, i + 1, lo, e, end))
  {
    SweepEntry(m0, m, ks, i, lo, at, end);
    hide SweepInv, Progress, Cut;
    var (s, e, _) := Overlap(ks[i], ks[i] + m[ks[i]], at, end);
    SweepProgress(m0, m, ks, i, lo, at, end, s, e);
    if e == ks[i] + m[ks[i]] {
      SweepNext(m0, m, ks, i, lo, at, end, s, e);
    }
  }

  lemma SweepProgress(m0: map<nat, nat>, m: map<nat, nat>, ks: seq<nat>, i: nat, lo: nat, at: nat, end: nat,
                      s: nat, e: nat)
    requires SweepInv(m0, m, ks, i, lo, at, end) && i < |ks|
    requires ks[i] <= s <= e <= ks[i] + m[ks[i]] && at <= s && e <= end && (s == at || s == ks[i])
    ensures Progress(m0, Cut(m, ks[i], s, e), lo, e, end)
  {
    var n := Cut(m, ks[i], s, e);
    CutCovers(m, ks[i], s, e);
    hide Cut, Covered;
    forall x: nat | Covered(m, x) && at <= x < e ensures s <= x {
      SweepFinds(m0, m, ks, i, lo, at, end, x);
    }
    SweepSubtracts(m0, m, n, lo, at, s, e);
    SweepKeeps(m0, m, n, lo, at, s, e, end);
  }

  lemma SweepSubtracts(m0: map<nat, nat>, m: map<nat, nat>, n: map<nat, nat>, lo: nat, at: nat, s: nat, e: nat)
    requires Subtracted(m0, m, lo, at) && Subtracted(m, n, s, e) && lo <= at <= s <= e
    requires forall x: nat :: Covered(m, x) && at <= x < e ==> s <= x
    ensures Subtracted(m0, n, lo, e)
  {
    hide Covered;
  }

  lemma SweepKeeps(m0: map<nat, nat>, m: map<nat, nat>, n: map<nat, nat>, lo: nat, at: nat, s: nat, e: nat, end: nat)
    requires OthersKept(m0, m, lo, end) && OthersKept(m, n, s, e) && lo <= at <= s <= e <= end
    ensures OthersKept(m0, n, lo, end)
  {
    forall k | k in m0 && (k + m0[k] <= lo || end <= k) ensures k in n && n[k] == m0[k] {
      assert k in m && m[k] == m0[k];
    }
  }

  lemma SweepNext(m0: map<nat, nat>, m: map<nat, nat>, ks: seq<nat>, i: nat, lo: nat, at: nat, end: nat,
                  s: nat, e: nat)
    requires SweepInv(m0, m, ks, i, lo, at, end) && i < |ks|
    requires ks[i] <= s <= e == ks[i] + m[ks[i]] && at <= e <= end
    requires Progress(m0, Cut(m, ks[i], s, e), lo, e, end)
    ensures SweepInv(m0, Cut(m, ks[i], s, e), ks, i + 1, lo, e, end)
  {
    hide Progress;
  }

  /** The next byte to delete can only be in the interval the sweep is looking at, or above it. */
  lemma SweepFinds(m0: map<nat, nat>, m: map<nat, nat>, ks: seq<nat>, i: nat, lo: nat, at: nat, end: nat, x: nat)
    requires SweepInv(m0, m, ks, i, lo, at, end) && i < |ks|
    requires Covered(m, x) && at <= x < end
    ensures ks[i] <= x
  {
    var k :| k in m && Within(x, k, m[k]);
    var j :| 0 <= j < |ks| && ks[j] == k;
    if j < i {
      assert false;
    }
  }

  lemma SweepDone(m0: map<nat, nat>, m: map<nat, nat>, ks: seq<nat>, lo: nat, at: nat, end: nat)
    requires SweepInv(m0, m, ks, |ks|, lo, at, end)
    ensures Progress(m0, m, lo, end, end)
  {
    forall k | k in m ensures k + m[k] <= at || end <= k {
      var j :| 0 <= j < |ks| && ks[j] == k;
    }
  }

  lemma ProgressChain(m0: map<nat, nat>, m: map<nat, nat>, n: map<nat, nat>, lo: nat, at: nat, end: nat)
    requires Progress(m0, m, lo, at, end) && Progress(m, n, at, end, end) && lo <= at <= end
    ensures Progress(m0, n, lo, end, end)
  {
    forall k | k in m0 && (k + m0[k] <= lo || end <= k) ensures k in n && n[k] == m0[k] {
      assert k in m && m[k] == m0[k];
    }
  }

  lemma MinExists(s: set<nat>) returns (k: nat)
    requires s != {}
    ensures k in s && forall l :: l in s ==> k <= l
  {
    k :| k in s;
    if s != {k} {
      var l := MinExists(s - {k});
      assert forall i :: i in s ==> i == k || i in s - {k};
      if l < k {
        k := l;
      }
    }
  }
}

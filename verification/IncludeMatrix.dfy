/** The include-include matrix of src/include.c (compiled under NEED_II_MATRIX): shortest include
    chains between all files, computed in place. File 0 is the source file. */
module IncludeMatrices {

  /** The number of values of the matrix's element type, `unsigned short`. */
  const USHORT_RANGE: nat := 0x1_0000

  type Edge = (nat, nat)

  /** `p` is a chain of at least one include from file `i` to file `j`. */
  ghost predicate IsChain(includes: set<Edge>, p: seq<nat>, i: nat, j: nat) {
    && |p| >= 2 && p[0] == i && p[|p| - 1] == j
    && forall x {:trigger p[x]} :: 0 <= x < |p| - 1 ==> (p[x], p[x + 1]) in includes
  }

  /** A chain on which all files in between are among the first `k`. */
  ghost predicate IsChainVia(includes: set<Edge>, p: seq<nat>, i: nat, j: nat, k: nat) {
    IsChain(includes, p, i, j) && forall x :: 0 < x < |p| - 1 ==> p[x] < k
  }

  /** `d` is the length of the shortest such chain, or 0 if there is none. */
  ghost predicate IsDistance(includes: set<Edge>, i: nat, j: nat, k: nat, d: nat) {
    && (d > 0 ==> exists p :: IsChainVia(includes, p, i, j, k) && |p| == d + 1)
    && (forall p :: IsChainVia(includes, p, i, j, k) ==> d > 0 && |p| >= d + 1)
  }

  // ----- Chains through one more file -----

  /** The first position of `k` at or after `from`. */
  lemma FirstPosition(p: seq<nat>, k: nat, x: nat) returns (a: nat)
    requires 0 < x < |p| && p[x] == k
    ensures 0 < a <= x && p[a] == k && forall y :: 0 < y < a ==> p[y] != k
  {
    a := 1;
    while p[a] != k
      invariant 0 < a <= x && forall y :: 0 < y < a ==> p[y] != k
      decreases x - a
    {
      a := a + 1;
    }
  }

  lemma LastPosition(p: seq<nat>, k: nat, x: nat) returns (b: nat)
    requires x < |p| - 1 && p[x] == k
    ensures x <= b < |p| - 1 && p[b] == k && forall y :: b < y < |p| - 1 ==> p[y] != k
  {
    b := |p| - 2;
    while p[b] != k
      invariant x <= b < |p| - 1 && forall y :: b < y < |p| - 1 ==> p[y] != k
      decreases b - x
    {
      b := b - 1;
    }
  }

  /** A chain by way of `k` consists of one to `k` and one from `k`, and perhaps more in between. */
  lemma ChainSplits(includes: set<Edge>, p: seq<nat>, i: nat, j: nat, k: nat) returns (q: seq<nat>, r: seq<nat>)
    requires IsChainVia(includes, p, i, j, k + 1) && !IsChainVia(includes, p, i, j, k)
    ensures IsChainVia(includes, q, i, k, k) && IsChainVia(includes, r, k, j, k)
    ensures |q| - 1 + |r| - 1 <= |p| - 1
  {
    var x :| 0 < x < |p| - 1 && p[x] >= k;
    var a := FirstPosition(p, k, x);
    var b := LastPosition(p, k, x);
    q, r := p[..a + 1], p[b..];
    forall y | 0 <= y < |q| - 1
      ensures (q[y], q[y + 1]) in includes
    {
      assert q[y] == p[y];
    }
    forall y | 0 <= y < |r| - 1
      ensures (r[y], r[y + 1]) in includes
    {
      assert r[y] == p[b + y];
    }
  }

  lemma ChainOfBoth(includes: set<Edge>, q: seq<nat>, r: seq<nat>, i: nat, j: nat, k: nat)
    requires IsChain(includes, q, i, k) && IsChain(includes, r, k, j)
    ensures IsChain(includes, q + r[1..], i, j)
  {
    var p := q + r[1..];
    forall x | 0 <= x < |p| - 1
      ensures (p[x], p[x + 1]) in includes
    {
      if x < |q| - 1 {
        assert p[x] == q[x];
      } else {
        assert p[x] == r[x - (|q| - 1)];
      }
    }
  }

  lemma ChainsJoin(includes: set<Edge>, q: seq<nat>, r: seq<nat>, i: nat, j: nat, k: nat)
    requires IsChainVia(includes, q, i, k, k) && IsChainVia(includes, r, k, j, k)
    ensures IsChainVia(includes, q + r[1..], i, j, k + 1) && |q + r[1..]| - 1 == |q| - 1 + |r| - 1
  {
    ChainOfBoth(includes, q, r, i, j, k);
  }

  /** What the inner loop makes of an entry, given the entries for the way to `k` and from it. */
  function Relaxed(ij: nat, ik: nat, kj: nat): nat {
    if ik > 0 && kj > 0 && (ij == 0 || ik + kj < ij) then ik + kj else ij
  }

  /** One pass of the outer loop allows one file more in between. */
  lemma RelaxingIsRight(includes: set<Edge>, i: nat, j: nat, k: nat, ij: nat, ik: nat, kj: nat)
    requires IsDistance(includes, i, j, k, ij) && IsDistance(includes, i, k, k, ik) && IsDistance(includes, k, j, k, kj)
    ensures IsDistance(includes, i, j, k + 1, Relaxed(ij, ik, kj))
  {
    var d := Relaxed(ij, ik, kj);
    forall p | IsChainVia(includes, p, i, j, k + 1)
      ensures d > 0 && |p| >= d + 1
    {
      if !IsChainVia(includes, p, i, j, k) {
        var q, r := ChainSplits(includes, p, i, j, k);
      }
    }
    if d > 0 {
      if d == ij {
        var p :| IsChainVia(includes, p, i, j, k) && |p| == ij + 1;
        assert IsChainVia(includes, p, i, j, k + 1);
      } else {
        var q :| IsChainVia(includes, q, i, k, k) && |q| == ik + 1;
        var r :| IsChainVia(includes, r, k, j, k) && |r| == kj + 1;
        ChainsJoin(includes, q, r, i, j, k);
      }
    }
  }

  // ----- No sum wraps around -----

  /** More values than there are numbers below `k` repeat themselves. */
  lemma {:induction false} Pigeonhole(s: seq<nat>, k: nat) returns (x: nat, y: nat)
    requires |s| > k && forall i :: 0 <= i < |s| ==> s[i] < k
    ensures x < y < |s| && s[x] == s[y]
    decreases k
  {
    if k == 0 {
      assert s[0] < 0;
    }
    var last := |s| - 1;
    if i :| 0 <= i < last && s[i] == s[last] {
      return i, last;
    }
    // rename the largest value below k to the last one's value, and leave the last one out
    var t := seq(last, (i: nat) requires i < last => if s[i] == k - 1 then s[last] else s[i]);
    x, y := Pigeonhole(t, k - 1);
  }

  /** A chain that passes a file twice, at the positions `x` and `y`, has a shorter one. */
  lemma ChainShortens(includes: set<Edge>, p: seq<nat>, i: nat, j: nat, k: nat, x: nat, y: nat)
    requires IsChainVia(includes, p, i, j, k) && 0 < x < y < |p| - 1 && p[x] == p[y]
    ensures IsChainVia(includes, p[..x] + p[y..], i, j, k)
  {
    var q := p[..x] + p[y..];
    forall z | 0 <= z < |q| - 1
      ensures (q[z], q[z + 1]) in includes
    {
      if z < x {
        assert q[z] == p[z] && q[z + 1] == p[z + 1];
      } else {
        assert q[z] == p[z + (y - x)];
      }
    }
  }

  /** A shortest chain passes no file twice, so it is at most `k + 1` long. */
  lemma DistanceIsShort(includes: set<Edge>, i: nat, j: nat, k: nat, d: nat)
    requires IsDistance(includes, i, j, k, d)
    ensures d <= k + 1
  {
    if d > k + 1 {
      var p :| IsChainVia(includes, p, i, j, k) && |p| == d + 1;
      var x, y := Pigeonhole(p[1..d], k);
      ChainShortens(includes, p, i, j, k, x + 1, y + 1);
    }
  }

  // ----- The matrix -----

  type Entries = map<Edge, nat>

  /** The contents of the matrix. */
  ghost function Snapshot(m: array2<nat>): Entries
    reads m
  {
    map i, j | 0 <= i < m.Length0 && 0 <= j < m.Length1 :: (i, j) := m[i, j]
  }

  ghost predicate AreDistances(includes: set<Edge>, m: array2<nat>, k: nat)
    reads m
  {
    forall i, j :: 0 <= i < m.Length0 && 0 <= j < m.Length1 ==> IsDistance(includes, i, j, k, m[i, j])
  }

  /** The source's `ii_matrix_init`. The events are what the visitor sees: an including file and the
      file that it includes. */
  method InitMatrix(n: nat, events: seq<Edge>) returns (m: array2<nat>)
    requires forall e :: e in events ==> e.0 < n && e.1 < n
    ensures m.Length0 == m.Length1 == n
    ensures forall i, j :: 0 <= i < n && 0 <= j < n && m[i, j] != 0 ==> HasChain((set e | e in events), i, j)
    ensures 2 * n < USHORT_RANGE ==>
        forall i, j :: 0 <= i < n && 0 <= j < n ==> IsShortest((set e | e in events), i, j, m[i, j])
  {
    ghost var includes := set e | e in events;
    m := new nat[n, n]((_, _) => 0);
    for x := 0 to |events|
      invariant forall i, j :: 0 <= i < n && 0 <= j < n ==> m[i, j] == if (i, j) in events[..x] then 1 else 0
    {
      var (includer, included) := events[x];
      m[includer, included] := 1;
    }
    assert events[..|events|] == events;
    forall i, j | 0 <= i < n && 0 <= j < n
      ensures IsDistance(includes, i, j, 0, m[i, j])
    {
      DirectIncludes(includes, i, j);
    }
    DirectChains(includes, m);
    ghost var few := 2 * n < USHORT_RANGE;
    for k := 0 to n
      invariant AreChains(includes, m) && (few ==> AreDistances(includes, m, k))
    {
      hide AreChains, AreDistances;
      Relax(m, k, includes, few);
    }
    if few {
      forall i, j | 0 <= i < n && 0 <= j < n
        ensures IsShortest(includes, i, j, m[i, j])
      {
        ViaAllFiles(includes, i, j, n, m[i, j]);
      }
    }
  }

  lemma DirectChains(includes: set<Edge>, m: array2<nat>)
    requires AreDistances(includes, m, 0)
    ensures AreChains(includes, m)
  {
    forall i, j | 0 <= i < m.Length0 && 0 <= j < m.Length1 && m[i, j] != 0
      ensures HasChain(includes, i, j)
    {
      var p :| IsChainVia(includes, p, i, j, 0);
      assert IsChain(includes, p, i, j);
    }
  }

  ghost predicate HasChain(includes: set<Edge>, i: nat, j: nat) {
    exists p :: IsChain(includes, p, i, j)
  }

  /** Entries other than 0 mean that there is a chain, whatever wraps around. */
  ghost predicate AreChains(includes: set<Edge>, m: array2<nat>)
    reads m
  {
    forall i, j :: 0 <= i < m.Length0 && 0 <= j < m.Length1 && m[i, j] != 0 ==> HasChain(includes, i, j)
  }

  lemma ChainsFollow(includes: set<Edge>, i: nat, j: nat, k: nat)
    requires HasChain(includes, i, k) && HasChain(includes, k, j)
    ensures HasChain(includes, i, j)
  {
    var q :| IsChain(includes, q, i, k);
    var r :| IsChain(includes, r, k, j);
    ChainOfBoth(includes, q, r, i, j, k);
  }

  lemma DirectIncludes(includes: set<Edge>, i: nat, j: nat)
    ensures IsDistance(includes, i, j, 0, if (i, j) in includes then 1 else 0)
  {
    if (i, j) in includes {
      assert IsChainVia(includes, [i, j], i, j, 0);
    }
    forall p | IsChainVia(includes, p, i, j, 0)
      ensures (i, j) in includes
    {
      assert |p| == 2 && (p[0], p[1]) in includes;
    }
  }

  /** `d` is 0 if there is no chain of includes from `i` to `j`, cycles included, and otherwise the
      length of the shortest one. */
  ghost predicate IsShortest(includes: set<Edge>, i: nat, j: nat, d: nat) {
    && (d > 0 ==> exists p :: IsChain(includes, p, i, j) && |p| == d + 1)
    && (forall p :: IsChain(includes, p, i, j) ==> d > 0 && |p| >= d + 1)
  }

  lemma ViaAllFiles(includes: set<Edge>, i: nat, j: nat, n: nat, d: nat)
    requires forall e :: e in includes ==> e.0 < n && e.1 < n
    requires IsDistance(includes, i, j, n, d)
    ensures IsShortest(includes, i, j, d)
  {
    forall p | IsChain(includes, p, i, j)
      ensures IsChainVia(includes, p, i, j, n)
    {
      forall x | 0 < x < |p| - 1
        ensures p[x] < n
      {
        assert (p[x], p[x + 1]) in includes;
      }
    }
  }

  /** One pass of the outer loop, in place. If the files are few enough, the entries it reads for the
      way to `k` and from `k` do not change in the pass, and no sum wraps around. */
  method Relax(m: array2<nat>, k: nat, ghost includes: set<Edge>, ghost few: bool)
    requires m.Length0 == m.Length1 && k < m.Length0 && (few ==> 2 * m.Length0 < USHORT_RANGE)
    requires AreChains(includes, m) && (few ==> AreDistances(includes, m, k))
    modifies m
    ensures AreChains(includes, m) && (few ==> AreDistances(includes, m, k + 1))
  {
    hide IsDistance, AreDistances, AreChains, IsRelaxed, AreDistanceEntries;
    ghost var before := Snapshot(m);
    if few {
      EntriesBefore(includes, m, k);
    }
    for i := 0 to m.Length0
      invariant AreChains(includes, m) && (few ==> IsRelaxed(m, before, k, i, 0))
    {
      RelaxRow(m, k, i, includes, before, few);
    }
    if few {
      EntriesAfter(includes, before, m, k);
    }
  }

  ghost predicate AreDistanceEntries(includes: set<Edge>, before: Entries, n: nat, k: nat) {
    forall i, j :: 0 <= i < n && 0 <= j < n ==> (i, j) in before && IsDistance(includes, i, j, k, before[(i, j)])
  }

  lemma EntriesBefore(includes: set<Edge>, m: array2<nat>, k: nat)
    requires m.Length0 == m.Length1 && k < m.Length0 && AreDistances(includes, m, k)
    ensures AreDistanceEntries(includes, Snapshot(m), m.Length0, k) && IsRelaxed(m, Snapshot(m), k, 0, 0)
    ensures forall e :: e in Snapshot(m) ==> Snapshot(m)[e] <= k + 1
  {
    hide IsDistance;
    forall e | e in Snapshot(m)
      ensures Snapshot(m)[e] <= k + 1
    {
      DistanceIsShort(includes, e.0, e.1, k, m[e.0, e.1]);
    }
  }

  lemma EntriesAfter(includes: set<Edge>, before: Entries, m: array2<nat>, k: nat)
    requires IsRelaxed(m, before, k, m.Length0, 0) && AreDistanceEntries(includes, before, m.Length0, k)
    ensures AreDistances(includes, m, k + 1)
  {
    hide IsDistance;
    forall i, j | 0 <= i < m.Length0 && 0 <= j < m.Length1
      ensures IsDistance(includes, i, j, k + 1, m[i, j])
    {
      RelaxingIsRight(includes, i, j, k, before[(i, j)], before[(i, k)], before[(k, j)]);
    }
  }

  /** The body of the middle loop. */
  method RelaxRow(m: array2<nat>, k: nat, i: nat, ghost includes: set<Edge>, ghost before: Entries, ghost few: bool)
    requires m.Length0 == m.Length1 && k < m.Length0 && i < m.Length0 && AreChains(includes, m)
    requires few ==> IsRelaxed(m, before, k, i, 0) && 2 * m.Length0 < USHORT_RANGE
    requires few ==> forall e :: e in before ==> before[e] <= k + 1
    modifies m
    ensures AreChains(includes, m) && (few ==> IsRelaxed(m, before, k, i + 1, 0))
  {
    if m[i, k] == 0 {
      assert few ==> before[(i, k)] == 0;
      return;
    }
    assert HasChain(includes, i, k);
    for j := 0 to m.Length1
      invariant AreChains(includes, m) && (few ==> IsRelaxed(m, before, k, i, j) && m[i, k] != 0)
    {
      hide AreChains, HasChain;
      RelaxEntry(m, k, i, j, includes, before, few);
    }
  }

  /** The body of the inner loop. */
  method RelaxEntry(m: array2<nat>, k: nat, i: nat, j: nat, ghost includes: set<Edge>, ghost before: Entries, ghost few: bool)
    requires k < m.Length0 == m.Length1 && i < m.Length0 && j < m.Length1
    requires AreChains(includes, m) && HasChain(includes, i, k)
    requires few ==> IsRelaxed(m, before, k, i, j) && m[i, k] != 0 && 2 * m.Length0 < USHORT_RANGE
    requires few ==> forall e :: e in before ==> before[e] <= k + 1
    modifies m
    ensures AreChains(includes, m) && (few ==> IsRelaxed(m, before, k, i, j + 1) && m[i, k] != 0)
  {
    hide HasChain;
    assert few ==> m[i, k] == before[(i, k)] && m[k, j] == before[(k, j)] && m[i, j] == before[(i, j)];
    if m[k, j] == 0 {
      return;
    }
    ChainsFollow(includes, i, j, k);
    var newDist := (m[i, k] + m[k, j]) % USHORT_RANGE;
    assert few ==> newDist == before[(i, k)] + before[(k, j)];
    if m[i, j] == 0 || newDist < m[i, j] {
      m[i, j] := newDist;
    }
    assert few ==> m[i, j] == Relaxed(before[(i, j)], before[(i, k)], before[(k, j)]);
  }

  /** Of the rows, those before `i`, and of row `i` the columns before `j`, are relaxed; the others are
      what they were. */
  ghost predicate IsRelaxed(m: array2<nat>, before: Entries, k: nat, i: nat, j: nat)
    reads m
  {
    && k < m.Length0 == m.Length1
    && forall x, y :: 0 <= x < m.Length0 && 0 <= y < m.Length1 ==>
         (x, y) in before && (x, k) in before && (k, y) in before &&
         m[x, y] == if x < i || (x == i && y < j) then Relaxed(before[(x, y)], before[(x, k)], before[(k, y)])
                    else before[(x, y)]
  }
}

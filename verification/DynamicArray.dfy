/** The dynamic array of src/array.c and src/array.h. Elements are typed values and positions are
    indices; `esize` only matters for the overflow checks. */
module DynamicArrays {
  import opened Wrappers

  const SIZE_MAX: nat := 0xFFFF_FFFF_FFFF_FFFF
  const ARRAY_CAP_MIN: nat := 4

  // ----- Growing -----

  /** The capacity that the loop of `array_reserve` comes to from `cap`. */
  function Grown(cap: nat, minCap: nat, maxCap: nat): (r: nat)
    requires 2 <= cap && minCap <= maxCap
    ensures r >= minCap && r >= cap
    ensures cap < minCap ==> r <= maxCap
    decreases minCap - cap
  {
    if cap >= minCap then cap
    else if cap > maxCap - cap / 2 then minCap
    else Grown(cap + cap / 2, minCap, maxCap)
  }

  /** Unless the largest capacity is near, growing multiplies the capacity by 1.5, and not more often
      than needed. */
  lemma {:induction false} GrowsByHalf(cap: nat, minCap: nat, maxCap: nat)
    requires 2 <= cap < minCap && minCap + minCap / 2 <= maxCap
    ensures cap + cap / 2 <= Grown(cap, minCap, maxCap) < minCap + minCap / 2
    decreases minCap - cap
  {
    if cap + cap / 2 >= minCap {
    } else {
      GrowsByHalf(cap + cap / 2, minCap, maxCap);
    }
  }

  /** Each of the capacities is half as large again as the one before, which is not enough. */
  ghost predicate AreSteps(caps: seq<nat>, minCap: nat, maxCap: nat) {
    forall k :: 0 < k < |caps| ==> IsStep(caps[k - 1], caps[k], minCap, maxCap)
  }

  predicate IsStep(cap: nat, next: nat, minCap: nat, maxCap: nat) {
    cap < minCap && next == cap + cap / 2 && next <= maxCap
  }

  /** Growing takes steps by half as long as they are needed and possible; if that is not enough, the
      capacity is just what is needed. */
  lemma {:induction false} GrownIs(cap: nat, minCap: nat, maxCap: nat) returns (caps: seq<nat>)
    requires 2 <= cap && minCap <= maxCap
    ensures caps != [] && caps[0] == cap && AreSteps(caps, minCap, maxCap)
    ensures var last, r := caps[|caps| - 1], Grown(cap, minCap, maxCap);
      if last >= minCap then r == last else r == minCap && !IsStep(last, last + last / 2, minCap, maxCap)
    decreases minCap - cap
  {
    caps := [cap];
    if IsStep(cap, cap + cap / 2, minCap, maxCap) {
      var rest := GrownIs(cap + cap / 2, minCap, maxCap);
      caps := [cap] + rest;
      MoreSteps(cap, rest, minCap, maxCap);
    }
  }

  lemma MoreSteps(cap: nat, rest: seq<nat>, minCap: nat, maxCap: nat)
    requires rest != [] && AreSteps(rest, minCap, maxCap) && IsStep(cap, rest[0], minCap, maxCap)
    ensures AreSteps([cap] + rest, minCap, maxCap)
  {
    hide IsStep;
    var caps := [cap] + rest;
    forall k | 0 < k < |caps|
      ensures IsStep(caps[k - 1], caps[k], minCap, maxCap)
    {
      if k > 1 {
        assert IsStep(rest[k - 2], rest[k - 1], minCap, maxCap);
      }
    }
  }

  /** The capacity after reserving room for `resLen` more elements. */
  function CapAfter(cap: nat, len: nat, resLen: nat, maxCap: nat): nat
    requires len <= cap && (cap == 0 || cap >= ARRAY_CAP_MIN) && len + resLen <= maxCap
  {
    if resLen <= cap - len then cap
    else Grown(if cap == 0 then ARRAY_CAP_MIN else cap, len + resLen, maxCap)
  }

  /** Nothing grows if there is room; otherwise the capacity grows by half from what it was, and from 4
      if there was none, as far as is needed. */
  lemma CapAfterIs(cap: nat, len: nat, resLen: nat, maxCap: nat) returns (caps: seq<nat>)
    requires len <= cap && (cap == 0 || cap >= ARRAY_CAP_MIN) && len + resLen <= maxCap
    ensures caps != [] && AreSteps(caps, len + resLen, maxCap)
    ensures var last, r := caps[|caps| - 1], CapAfter(cap, len, resLen, maxCap);
      if len + resLen <= cap then r == cap
      else
        && caps[0] == (if cap == 0 then 4 else cap)
        && if last >= len + resLen then r == last
           else r == len + resLen && !IsStep(last, last + last / 2, len + resLen, maxCap)
  {
    caps := GrownIs(if cap == 0 then ARRAY_CAP_MIN else cap, len + resLen, maxCap);
  }

  /** The new capacity fits exactly when the old one did and, for the first allocation of at most the
      minimum capacity, that does. */
  lemma CapFitsIff(cap: nat, len: nat, resLen: nat, maxCap: nat)
    requires len <= cap && (cap == 0 || cap >= ARRAY_CAP_MIN) && len + resLen <= maxCap
    ensures CapAfter(cap, len, resLen, maxCap) <= maxCap <==>
      if cap == 0 && 0 < resLen <= ARRAY_CAP_MIN then ARRAY_CAP_MIN <= maxCap
      else if resLen <= cap - len then cap <= maxCap
      else true
  {
  }

  // ----- Merging -----

  /** The elements that `array_merge` keeps: the left fold of every run of duplicates into the first
      element of the run. `merge(unique, x)` is what the merge function makes of `unique`, and whether
      it found `x` equal to it. */
  function Kept<T>(merge: (T, T) -> (T, bool), s: seq<T>): (kept: seq<T>)
    ensures |kept| <= |s| && (s != [] ==> kept != [])
  {
    if |s| <= 1 then s else
      var kept, x := Kept(merge, s[..|s| - 1]), s[|s| - 1];
      var (unique, equal) := merge(kept[|kept| - 1], x);
      kept[..|kept| - 1] + [unique] + if equal then [] else [x]
  }

  /** The elements it drops, and frees. */
  function Dropped<T>(merge: (T, T) -> (T, bool), s: seq<T>): seq<T> {
    if |s| <= 1 then [] else
      var kept, x := Kept(merge, s[..|s| - 1]), s[|s| - 1];
      Dropped(merge, s[..|s| - 1]) + if merge(kept[|kept| - 1], x).1 then [x] else []
  }

  /** Every element is kept, in its turn, or freed, and never both. */
  lemma {:induction false} KeptOrDropped<T>(merge: (T, T) -> (T, bool), s: seq<T>)
    ensures |Kept(merge, s)| + |Dropped(merge, s)| == |s|
  {
    if |s| <= 1 {
    } else {
      KeptOrDropped(merge, s[..|s| - 1]);
    }
  }

  // ----- Runs of duplicates -----

  /** The elements from `from` to `end`, merged into the first of them. */
  function Folded<T>(merge: (T, T) -> (T, bool), s: seq<T>, from: nat, end: nat): T
    requires from < end <= |s|
  {
    if end == from + 1 then s[from] else merge(Folded(merge, s, from, end - 1), s[end - 1]).0
  }

  /** The n-th element is equal to what those from `from` on before it make. */
  predicate IsEqual<T>(merge: (T, T) -> (T, bool), s: seq<T>, from: nat, n: nat)
    requires from < n < |s|
  {
    merge(Folded(merge, s, from, n), s[n]).1
  }

  /** A run of duplicates ends before the first element that is not equal to what its elements make. */
  ghost predicate IsRun<T>(merge: (T, T) -> (T, bool), s: seq<T>, from: nat, end: nat) {
    && from < end <= |s|
    && (forall n :: from < n < end ==> IsEqual(merge, s, from, n))
    && (end < |s| ==> !IsEqual(merge, s, from, end))
  }

  /** Where the j-th of the runs that begin at `firsts` ends. */
  function EndOf(firsts: seq<nat>, j: nat, n: nat): nat {
    if j + 1 < |firsts| then firsts[j + 1] else n
  }

  ghost predicate AreRuns<T>(merge: (T, T) -> (T, bool), s: seq<T>, firsts: seq<nat>) {
    && firsts != [] && firsts[0] == 0
    && forall j :: 0 <= j < |firsts| ==> IsRun(merge, s, firsts[j], EndOf(firsts, j, |s|))
  }

  /** What the elements of a run make. The merge function has seen the first element of the next run,
      too. */
  ghost predicate IsFolded<T>(merge: (T, T) -> (T, bool), s: seq<T>, from: nat, end: nat, x: T) {
    from < end <= |s| && x == Folded(merge, s, from, if end < |s| then end + 1 else end)
  }

  /** What is kept is one element for every run. */
  ghost predicate AreFolded<T>(merge: (T, T) -> (T, bool), s: seq<T>, firsts: seq<nat>, kept: seq<T>) {
    && |kept| == |firsts|
    && forall j :: 0 <= j < |firsts| ==> IsFolded(merge, s, firsts[j], EndOf(firsts, j, |s|), kept[j])
  }

  /** `dropped` are, in order, the elements that do not begin a run. */
  ghost predicate AreOthers<T(!new)>(s: seq<T>, firsts: seq<nat>, dropped: seq<T>, ns: seq<nat>) {
    && |dropped| == |ns|
    && (forall j, k :: 0 <= j < k < |ns| ==> ns[j] < ns[k])
    && (forall n: nat :: n in ns <==> n < |s| && n !in firsts)
    && forall k :: 0 <= k < |ns| ==> ns[k] < |s| && dropped[k] == s[ns[k]]
  }

  /** Main result: what is kept and what is dropped, run by run. */
  lemma {:induction false} MergesRuns<T(!new)>(merge: (T, T) -> (T, bool), s: seq<T>)
    returns (firsts: seq<nat>, ns: seq<nat>)
    requires s != []
    ensures AreRuns(merge, s, firsts) && AreFolded(merge, s, firsts, Kept(merge, s))
    ensures AreOthers(s, firsts, Dropped(merge, s), ns)
  {
    hide Kept, Dropped, AreRuns, AreFolded, AreOthers;
    if |s| == 1 {
      OneRun(merge, s);
      firsts, ns := [0], [];
    } else {
      var before, x := s[..|s| - 1], s[|s| - 1];
      firsts, ns := MergesRuns(merge, before);
      firsts, ns := OneMoreInRuns(merge, before, x, firsts, ns);
      assert s == before + [x];
    }
  }

  lemma OneMoreInRuns<T(!new)>(merge: (T, T) -> (T, bool), s: seq<T>, x: T, firsts: seq<nat>, ns: seq<nat>)
    returns (firsts': seq<nat>, ns': seq<nat>)
    requires s != [] && AreRuns(merge, s, firsts) && AreFolded(merge, s, firsts, Kept(merge, s))
    requires AreOthers(s, firsts, Dropped(merge, s), ns)
    ensures AreRuns(merge, s + [x], firsts') && AreFolded(merge, s + [x], firsts', Kept(merge, s + [x]))
    ensures AreOthers(s + [x], firsts', Dropped(merge, s + [x]), ns')
  {
    hide Kept, Dropped, AreRuns, AreFolded, AreOthers;
    var kept, dropped := Kept(merge, s), Dropped(merge, s);
    OneMoreLast(merge, s, x);
    NoRunAtEnd(merge, s, firsts);
    var (unique, equal) := merge(kept[|kept| - 1], x);
    if equal {
      RunGoesOn(merge, s, x, firsts, kept);
      OneMoreOther(s, x, firsts, dropped, ns);
      AndNothing(kept[..|kept| - 1] + [unique]);
      firsts', ns' := firsts, ns + [|s|];
    } else {
      RunBegins(merge, s, x, firsts, kept);
      NoOtherMore(s, x, firsts, dropped, ns);
      AndNothing(dropped);
      firsts', ns' := firsts + [|s|], ns;
    }
  }

  lemma OneMoreLast<T>(merge: (T, T) -> (T, bool), s: seq<T>, x: T)
    requires s != []
    ensures var kept := Kept(merge, s);
      var (unique, equal) := merge(kept[|kept| - 1], x);
      && Kept(merge, s + [x]) == kept[..|kept| - 1] + [unique] + (if equal then [] else [x])
      && Dropped(merge, s + [x]) == Dropped(merge, s) + if equal then [x] else []
  {
    hide Kept, Dropped;
    var t := s + [x];
    assert t[..|s|] == s && t[..|s| + 1] == t;
    OneMore(merge, t, |s|);
  }

  lemma AndNothing<T>(s: seq<T>)
    ensures s + [] == s
  {
  }

  lemma OneRun<T(!new)>(merge: (T, T) -> (T, bool), s: seq<T>)
    requires |s| == 1
    ensures AreRuns(merge, s, [0]) && AreFolded(merge, s, [0], Kept(merge, s))
    ensures AreOthers(s, [0], Dropped(merge, s), [])
  {
    AtMostOne(merge, s);
  }

  lemma NoRunAtEnd<T>(merge: (T, T) -> (T, bool), s: seq<T>, firsts: seq<nat>)
    requires AreRuns(merge, s, firsts)
    ensures |s| !in firsts
  {
    forall j | 0 <= j < |firsts|
      ensures firsts[j] < |s|
    {
      assert IsRun(merge, s, firsts[j], EndOf(firsts, j, |s|));
    }
  }

  lemma {:induction false} FoldedBefore<T>(merge: (T, T) -> (T, bool), s: seq<T>, x: T, from: nat, end: nat)
    requires from < end <= |s|
    ensures Folded(merge, s + [x], from, end) == Folded(merge, s, from, end)
    decreases end
  {
    if end == from + 1 {
    } else {
      FoldedBefore(merge, s, x, from, end - 1);
    }
  }

  lemma StillEqual<T>(merge: (T, T) -> (T, bool), s: seq<T>, x: T, from: nat, n: nat)
    requires from < n <= |s|
    ensures Folded(merge, s + [x], from, n) == Folded(merge, s, from, n)
    ensures IsEqual(merge, s + [x], from, n) <==>
      if n < |s| then IsEqual(merge, s, from, n) else merge(Folded(merge, s, from, n), x).1
  {
    FoldedBefore(merge, s, x, from, n);
  }

  lemma NextFolded<T>(merge: (T, T) -> (T, bool), s: seq<T>, x: T, from: nat)
    requires from <= |s|
    ensures Folded(merge, s + [x], from, |s| + 1) ==
            if from == |s| then x else merge(Folded(merge, s + [x], from, |s|), x).0
  {
  }

  lemma LastIsFolded<T>(merge: (T, T) -> (T, bool), s: seq<T>, firsts: seq<nat>, kept: seq<T>)
    requires AreRuns(merge, s, firsts) && AreFolded(merge, s, firsts, kept)
    ensures |kept| == |firsts| > 0
    ensures var from := firsts[|firsts| - 1];
      IsRun(merge, s, from, |s|) && IsFolded(merge, s, from, |s|, kept[|kept| - 1])
  {
    hide IsRun, IsFolded;
    assert EndOf(firsts, |firsts| - 1, |s|) == |s|;
  }

  /** One element more does not change the runs but the last. */
  lemma RunStays<T>(merge: (T, T) -> (T, bool), s: seq<T>, x: T, from: nat, end: nat, y: T)
    requires end < |s| && IsRun(merge, s, from, end) && IsFolded(merge, s, from, end, y)
    ensures IsRun(merge, s + [x], from, end) && IsFolded(merge, s + [x], from, end, y)
  {
    hide Folded, IsEqual;
    forall n: nat | from < n <= |s|
      ensures Folded(merge, s + [x], from, n) == Folded(merge, s, from, n)
      ensures IsEqual(merge, s + [x], from, n) <==>
        if n < |s| then IsEqual(merge, s, from, n) else merge(Folded(merge, s, from, n), x).1
    {
      StillEqual(merge, s, x, from, n);
    }
  }

  lemma LastRun<T>(merge: (T, T) -> (T, bool), s: seq<T>, x: T, from: nat, y: T)
    requires IsRun(merge, s, from, |s|) && IsFolded(merge, s, from, |s|, y)
    ensures var (unique, equal) := merge(y, x);
      var end := if equal then |s| + 1 else |s|;
      IsRun(merge, s + [x], from, end) && IsFolded(merge, s + [x], from, end, unique)
    ensures IsRun(merge, s + [x], |s|, |s| + 1) && IsFolded(merge, s + [x], |s|, |s| + 1, x)
  {
    hide Folded, IsEqual;
    forall n: nat | from < n <= |s|
      ensures Folded(merge, s + [x], from, n) == Folded(merge, s, from, n)
      ensures IsEqual(merge, s + [x], from, n) <==>
        if n < |s| then IsEqual(merge, s, from, n) else merge(Folded(merge, s, from, n), x).1
    {
      StillEqual(merge, s, x, from, n);
    }
    NextFolded(merge, s, x, from);
    NextFolded(merge, s, x, |s|);
  }

  lemma RunsStay<T>(merge: (T, T) -> (T, bool), s: seq<T>, x: T, firsts: seq<nat>, kept: seq<T>)
    requires AreRuns(merge, s, firsts) && AreFolded(merge, s, firsts, kept)
    ensures forall j :: 0 <= j < |firsts| - 1 ==>
      IsRun(merge, s + [x], firsts[j], firsts[j + 1]) && IsFolded(merge, s + [x], firsts[j], firsts[j + 1], kept[j])
  {
    forall j | 0 <= j < |firsts| - 1
      ensures IsRun(merge, s + [x], firsts[j], firsts[j + 1]) && IsFolded(merge, s + [x], firsts[j], firsts[j + 1], kept[j])
    {
      RunAt(merge, s, firsts, kept, j);
      RunStays(merge, s, x, firsts[j], firsts[j + 1], kept[j]);
    }
  }

  lemma RunAt<T>(merge: (T, T) -> (T, bool), s: seq<T>, firsts: seq<nat>, kept: seq<T>, j: nat)
    requires AreRuns(merge, s, firsts) && AreFolded(merge, s, firsts, kept) && j + 1 < |firsts|
    ensures firsts[j + 1] < |s| && IsRun(merge, s, firsts[j], firsts[j + 1])
    ensures IsFolded(merge, s, firsts[j], firsts[j + 1], kept[j])
  {
    hide IsFolded;
    assert EndOf(firsts, j, |s|) == firsts[j + 1];
    assert IsRun(merge, s, firsts[j + 1], EndOf(firsts, j + 1, |s|));
  }

  lemma RunGoesOn<T>(merge: (T, T) -> (T, bool), s: seq<T>, x: T, firsts: seq<nat>, kept: seq<T>)
    requires AreRuns(merge, s, firsts) && AreFolded(merge, s, firsts, kept)
    requires kept != [] && merge(kept[|kept| - 1], x).1
    ensures AreRuns(merge, s + [x], firsts)
    ensures AreFolded(merge, s + [x], firsts, kept[..|kept| - 1] + [merge(kept[|kept| - 1], x).0])
  {
    hide IsRun, IsFolded;
    LastIsFolded(merge, s, firsts, kept);
    LastRun(merge, s, x, firsts[|firsts| - 1], kept[|kept| - 1]);
    RunsStay(merge, s, x, firsts, kept);
  }

  lemma RunBegins<T>(merge: (T, T) -> (T, bool), s: seq<T>, x: T, firsts: seq<nat>, kept: seq<T>)
    requires AreRuns(merge, s, firsts) && AreFolded(merge, s, firsts, kept)
    requires kept != [] && !merge(kept[|kept| - 1], x).1
    ensures AreRuns(merge, s + [x], firsts + [|s|])
    ensures AreFolded(merge, s + [x], firsts + [|s|], kept[..|kept| - 1] + [merge(kept[|kept| - 1], x).0] + [x])
  {
    hide IsRun, IsFolded;
    LastIsFolded(merge, s, firsts, kept);
    LastRun(merge, s, x, firsts[|firsts| - 1], kept[|kept| - 1]);
    RunsStay(merge, s, x, firsts, kept);
  }

  lemma OneMoreOther<T(!new)>(s: seq<T>, x: T, firsts: seq<nat>, dropped: seq<T>, ns: seq<nat>)
    requires AreOthers(s, firsts, dropped, ns) && |s| !in firsts
    ensures AreOthers(s + [x], firsts, dropped + [x], ns + [|s|])
  {
    assert forall k :: 0 <= k < |ns| ==> ns[k] in ns;
  }

  lemma NoOtherMore<T(!new)>(s: seq<T>, x: T, firsts: seq<nat>, dropped: seq<T>, ns: seq<nat>)
    requires AreOthers(s, firsts, dropped, ns)
    ensures AreOthers(s + [x], firsts + [|s|], dropped, ns)
  {
  }

  lemma AtMostOne<T>(merge: (T, T) -> (T, bool), s: seq<T>)
    requires |s| <= 1
    ensures Kept(merge, s) == s && Dropped(merge, s) == []
  {
  }

  lemma OneMore<T>(merge: (T, T) -> (T, bool), s: seq<T>, n: nat)
    requires 0 < n < |s|
    ensures var kept := Kept(merge, s[..n]);
      var (unique, equal) := merge(kept[|kept| - 1], s[n]);
      && Kept(merge, s[..n + 1]) == kept[..|kept| - 1] + [unique] + (if equal then [] else [s[n]])
      && Dropped(merge, s[..n + 1]) == Dropped(merge, s[..n]) + if equal then [s[n]] else []
  {
    assert s[..n + 1][..n] == s[..n];
  }

  /** `memmove` to a lower address. */
  method MoveDown<T>(a: array<T>, dst: nat, src: nat, n: nat)
    requires dst <= src && src + n <= a.Length
    modifies a
    ensures a[..dst + n] == old(a[..dst]) + old(a[src..src + n])
    ensures forall i :: dst + n <= i < a.Length ==> a[i] == old(a[i])
  {
    for k := 0 to n
      invariant a[..dst + k] == old(a[..dst]) + old(a[src..src + k])
      invariant forall i :: dst + k <= i < a.Length ==> a[i] == old(a[i])
    {
      a[dst + k] := a[src + k];
    }
  }

  /** What is to be kept so far: the first `dst` elements, and the batch from `batch` to `src`, if
      there is one. */
  function Output<T>(v: seq<T>, dst: nat, batch: Option<nat>, src: nat): (out: seq<T>)
    requires dst <= src <= |v| && (batch.Some? ==> dst < batch.value < src)
    ensures |out| == dst + if batch.Some? then src - batch.value else 0
  {
    v[..dst] + if batch.Some? then v[batch.value..src] else []
  }

  /** What the loop of `array_merge` keeps up: of the elements `s`, those before `src` have been read,
      none of the others is overwritten, and the last element to be kept is at `lastUnique`. */
  ghost predicate Merging<T>(merge: (T, T) -> (T, bool), s: seq<T>, v: seq<T>, src: nat, dst: nat,
      batch: Option<nat>, lastUnique: nat)
  {
    && |v| == |s| && 1 <= dst <= src <= |s| && (batch.Some? ==> dst < batch.value < src)
    && (forall i :: src <= i < |s| ==> v[i] == s[i])
    && Output(v, dst, batch, src) == Kept(merge, s[..src])
    && lastUnique == if batch.Some? then src - 1 else dst - 1
  }

  /** Updating the element at `lastUnique` updates the last one to be kept. */
  lemma UpdateLast<T>(v: seq<T>, dst: nat, batch: Option<nat>, src: nat, lastUnique: nat, x: T)
    requires 1 <= dst <= src <= |v| && (batch.Some? ==> dst < batch.value < src)
    requires lastUnique == if batch.Some? then src - 1 else dst - 1
    ensures var out := Output(v, dst, batch, src);
      v[lastUnique] == out[|out| - 1] && Output(v[lastUnique := x], dst, batch, src) == out[..|out| - 1] + [x]
  {
  }

  /** The next element joins the output: as part of the batch, as the first one of a new batch, or in
      its place if nothing has been dropped yet. */
  lemma ExtendOutput<T>(v: seq<T>, dst: nat, batch: Option<nat>, src: nat)
    requires 1 <= dst <= src < |v| && (batch.Some? ==> dst < batch.value < src)
    ensures Output(v, dst, batch, src) + [v[src]] ==
      Output(v, NextDst(dst, batch, src), NextBatch(dst, batch, src), src + 1)
  {
  }

  function NextDst(dst: nat, batch: Option<nat>, src: nat): nat {
    if batch.None? && dst == src then dst + 1 else dst
  }

  function NextBatch(dst: nat, batch: Option<nat>, src: nat): Option<nat> {
    if batch.None? && dst != src then Some(src) else batch
  }

  /** The element at `src` is to be kept. */
  lemma MergeKeeps<T>(merge: (T, T) -> (T, bool), s: seq<T>, v: seq<T>, src: nat, dst: nat,
      batch: Option<nat>, lastUnique: nat)
    requires Merging(merge, s, v, src, dst, batch, lastUnique) && src < |s|
    requires !merge(v[lastUnique], v[src]).1
    ensures Merging(merge, s, v[lastUnique := merge(v[lastUnique], v[src]).0], src + 1,
      NextDst(dst, batch, src), NextBatch(dst, batch, src), src)
  {
    OneMore(merge, s, src);
    hide Kept;
    var unique := merge(v[lastUnique], v[src]).0;
    var v' := v[lastUnique := unique];
    UpdateLast(v, dst, batch, src, lastUnique, unique);
    ExtendOutput(v', dst, batch, src);
    hide Output;
    assert v'[src] == s[src];
  }

  /** The element at `src` is a duplicate: it is dropped, and the output, all of it, is in place. */
  lemma MergeDrops<T>(merge: (T, T) -> (T, bool), s: seq<T>, v: seq<T>, w: seq<T>, src: nat, dst: nat,
      batch: Option<nat>, lastUnique: nat, dst': nat)
    requires Merging(merge, s, v, src, dst, batch, lastUnique) && src < |s| == |w|
    requires merge(v[lastUnique], v[src]).1
    requires forall i :: src < i < |s| ==> w[i] == v[i]
    requires 1 <= dst' <= src
    requires w[..dst'] == Output(v[lastUnique := merge(v[lastUnique], v[src]).0], dst, batch, src)
    ensures Merging(merge, s, w, src + 1, dst', None, dst' - 1)
  {
    OneMore(merge, s, src);
    UpdateLast(v, dst, batch, src, lastUnique, merge(v[lastUnique], v[src]).0);
    OutputOfNoBatch(w, dst', src + 1);
    hide Kept, Output;
  }

  lemma OutputOfNoBatch<T>(v: seq<T>, dst: nat, src: nat)
    requires dst <= src <= |v|
    ensures Output(v, dst, None, src) == v[..dst]
  {
  }

  lemma MergingBounds<T>(merge: (T, T) -> (T, bool), s: seq<T>, v: seq<T>, src: nat, dst: nat,
      batch: Option<nat>, lastUnique: nat)
    requires Merging(merge, s, v, src, dst, batch, lastUnique)
    ensures |v| == |s| && 1 <= dst <= src && (batch.Some? ==> dst < batch.value < src)
    ensures lastUnique == (if batch.Some? then src - 1 else dst - 1) && (src < |s| ==> v[src] == s[src])
    ensures Output(v, dst, batch, src) == Kept(merge, s[..src])
  {
  }

  lemma StartMerging<T>(merge: (T, T) -> (T, bool), s: seq<T>)
    requires |s| > 1
    ensures Merging(merge, s, s, 1, 1, None, 0)
  {
  }

  /** Merges runs of duplicates among the first `len` elements in place: elements to keep are merged
      into where they still are, in batches, and a batch is moved down at the next duplicate. No
      element that is yet to be read is overwritten. */
  method MergeInPlace<T>(a: array<T>, len: nat, merge: (T, T) -> (T, bool)) returns (newLen: nat, freed: seq<T>)
    requires len <= a.Length
    modifies a
    ensures newLen <= len && a[..newLen] == Kept(merge, old(a[..len]))
    ensures forall i :: len <= i < a.Length ==> a[i] == old(a[i])
    ensures freed == Dropped(merge, old(a[..len]))
  {
    hide Kept, Dropped, Output, Merging, NextDst, NextBatch;
    ghost var s := a[..len];
    freed := [];
    if len < 2 {
      AtMostOne(merge, s);
      return len, [];
    }
    AtMostOne(merge, s[..1]);
    var batch: Option<nat>, batchLen: nat := None, 0;
    var dst: nat, lastUnique: nat := 1, 0;
    StartMerging(merge, s);
    for src := 1 to len
      invariant forall i :: len <= i < a.Length ==> a[i] == old(a[i])
      invariant freed == Dropped(merge, s[..src])
      invariant Merging(merge, s, a[..len], src, dst, batch, lastUnique)
      invariant batchLen == if batch.Some? then src - batch.value else 0
    {
      OneMore(merge, s, src);
      ghost var v := a[..len];
      MergingBounds(merge, s, v, src, dst, batch, lastUnique);
      var (unique, equal) := merge(a[lastUnique], a[src]);
      UpdateLast(v, dst, batch, src, lastUnique, unique);
      a[lastUnique] := unique;
      assert a[..len] == v[lastUnique := unique];
      if !equal {
        MergeKeeps(merge, s, v, src, dst, batch, lastUnique);
        lastUnique := src;
        dst, batch, batchLen := ExtendBatch(dst, batch, batchLen, src);
      } else {
        freed := freed + [a[src]];
        ghost var dst0, batch0, last0 := dst, batch, lastUnique;
        dst, lastUnique := MoveOutput(a, len, dst, batch, batchLen, src, lastUnique);
        batch, batchLen := None, 0;
        assert a[..len][..dst] == a[..dst];
        MergeDrops(merge, s, v, a[..len], src, dst0, batch0, last0, dst);
      }
    }
    assert s[..len] == s;
    MergingBounds(merge, s, a[..len], len, dst, batch, lastUnique);
    newLen, lastUnique := MoveOutput(a, len, dst, batch, batchLen, len, lastUnique);
  }

  /** The element at `src` joins the batch, starts one, or is in its place already. */
  method ExtendBatch(dst: nat, batch: Option<nat>, batchLen: nat, src: nat)
    returns (dst': nat, batch': Option<nat>, batchLen': nat)
    requires dst <= src && batchLen == if batch.Some? then src - batch.value else 0
    ensures dst' == NextDst(dst, batch, src) && batch' == NextBatch(dst, batch, src)
    ensures batchLen' == if batch'.Some? then src + 1 - batch'.value else 0
  {
    dst', batch', batchLen' := dst, batch, batchLen;
    if batch.Some? {
      batchLen' := batchLen + 1;
    } else if dst != src {
      batch', batchLen' := Some(src), 1;
    } else {
      dst' := dst + 1;
    }
  }

  /** Moves the batch, if there is one, so that all of the output is in place. */
  method MoveOutput<T>(a: array<T>, ghost len: nat, dst: nat, batch: Option<nat>, batchLen: nat, src: nat, lastUnique: nat)
    returns (dst': nat, lastUnique': nat)
    requires 1 <= dst <= src <= len <= a.Length && (batch.Some? ==> dst < batch.value < src)
    requires batchLen == if batch.Some? then src - batch.value else 0
    requires batch.None? ==> lastUnique == dst - 1
    modifies a
    ensures dst' <= src && lastUnique' == dst' - 1 && a[..dst'] == old(Output(a[..len], dst, batch, src))
    ensures forall i :: src <= i < a.Length ==> a[i] == old(a[i])
  {
    dst', lastUnique' := dst, lastUnique;
    if batch.Some? {
      MoveBatch(a, len, dst, batch.value, src);
      dst' := dst + batchLen;
      lastUnique' := dst' - 1;
    } else {
      OutputOfNoBatch(a[..len], dst, src);
    }
  }

  /** Moves the batch from `batch` to `src` down to `dst`. */
  method MoveBatch<T>(a: array<T>, ghost len: nat, dst: nat, batch: nat, src: nat)
    requires dst < batch < src <= len <= a.Length
    modifies a
    ensures a[..dst + (src - batch)] == old(Output(a[..len], dst, Some(batch), src))
    ensures forall i :: src <= i < a.Length ==> a[i] == old(a[i])
  {
    ghost var v := a[..len];
    assert v[..dst] == a[..dst] && v[batch..src] == a[batch..src];
    MoveDown(a, dst, batch, src - batch);
  }


  class DynamicArray<T(0)> {
    const esize: nat
    var elements: array<T>
    var len: nat
    var cap: nat

    /** The number of elements that reallocations have copied, and whether one of them could not grow
        the capacity by half because the largest one was near. */
    ghost var copied: nat
    ghost var saturated: bool

    ghost predicate Valid()
      reads this
    {
      && 0 < esize && ARRAY_CAP_MIN * esize <= SIZE_MAX
      && elements.Length == cap && len <= cap && cap <= MaxCap()
      && (cap == 0 || cap >= ARRAY_CAP_MIN)
      && (!saturated ==> copied <= 3 * cap)
    }

    function MaxCap(): nat
      requires esize > 0
    {
      SIZE_MAX / esize
    }

    ghost function Contents(): seq<T>
      requires Valid()
      reads this, elements
    {
      elements[..len]
    }

    constructor (esize: nat)
      requires 0 < esize && ARRAY_CAP_MIN * esize <= SIZE_MAX
      ensures Valid() && Contents() == [] && this.esize == esize && fresh(elements)
      ensures cap == 0 && copied == 0 && !saturated
    {
      this.esize := esize;
      elements := new T[0];
      len, cap, copied, saturated := 0, 0, 0, false;
    }

    /** Makes room for `resLen` more elements. The source asserts the last two requirements. */
    method Reserve(resLen: nat) returns (reallocated: bool)
      requires Valid() && resLen <= SIZE_MAX - len && len + resLen <= MaxCap()
      modifies this
      ensures Valid() && len == old(len) && Contents() == old(Contents()) && cap - len >= resLen
      ensures cap * esize <= SIZE_MAX
      ensures reallocated <==> resLen > old(cap) - len
      ensures if reallocated then fresh(elements) else elements == old(elements)
      ensures cap == CapAfter(old(cap), len, resLen, MaxCap())
      ensures copied == old(copied) + if reallocated then len else 0
      ensures len + resLen + (len + resLen) / 2 <= MaxCap() ==> saturated == old(saturated)
    {
      hide Grown;
      if resLen <= cap - len {
        FitsInMemory(cap, esize);
        return false;
      }
      var minCap := len + resLen;
      var maxCap := SIZE_MAX / esize;
      MaxCapIsEnough(esize);
      CapFitsIff(cap, len, resLen, maxCap);
      var firstCap := if cap == 0 then ARRAY_CAP_MIN else cap;
      var newCap := GrowCapacity(firstCap, minCap, maxCap);
      if firstCap < minCap && minCap + minCap / 2 <= maxCap {
        GrowsByHalf(firstCap, minCap, maxCap);
      }
      saturated := saturated || minCap + minCap / 2 > maxCap;
      Reallocate(newCap);
      FitsInMemory(cap, esize);
      return true;
    }

    /** `*(T*)array_push_back( a ) = x`. */
    method PushBack(x: T)
      requires Valid() && len + 1 <= MaxCap()
      modifies this, elements
      ensures Valid() && Contents() == old(Contents()) + [x]
      ensures elements == old(elements) || fresh(elements)
      ensures cap == CapAfter(old(cap), old(len), 1, MaxCap())
      ensures copied == old(copied) + if old(len) == old(cap) then old(len) else 0
      ensures len + len / 2 <= MaxCap() ==> saturated == old(saturated)
    {
      hide Grown;
      InMemory(len + 1, esize);
      var reallocated := Reserve(1);
      elements[len] := x;
      len := len + 1;
    }

    /** None stands for the NULL that `array_pop_back` returns for an empty array. */
    method PopBack() returns (x: Option<T>)
      requires Valid()
      modifies this`len
      ensures Valid()
      ensures old(Contents()) == [] ==> x == None && Contents() == []
      ensures old(Contents()) != [] ==> x.Some? && old(Contents()) == Contents() + [x.value]
    {
      if len > 0 {
        len := len - 1;
        return Some(elements[len]);
      }
      return None;
    }

    /** Moves the elements of `src` to the end of this array. */
    method PushArrayBack(src: DynamicArray<T>)
      requires Valid() && src.Valid() && src != this && src.elements != elements && src.esize == esize
      requires len + src.len <= MaxCap()
      modifies this, elements, src`len
      ensures Valid() && src.Valid()
      ensures Contents() == old(Contents() + src.Contents()) && src.Contents() == []
      ensures src.elements[..] == old(src.elements[..])
    {
      hide Grown;
      if src.len == 0 {
        return;
      }
      InMemory(len + src.len, esize);
      var reallocated := Reserve(src.len);
      for i := 0 to src.len
        modifies elements
        invariant elements[..len + i] == old(Contents()) + src.elements[..i]
      {
        elements[len + i] := src.elements[i];
      }
      len := len + src.len;
      src.len := 0;
    }

    /** Merges runs of duplicates, and returns what it freed, in order. */
    method Merge(merge: (T, T) -> (T, bool)) returns (freed: seq<T>)
      requires Valid()
      modifies this`len, elements
      ensures Valid() && Contents() == Kept(merge, old(Contents()))
      ensures freed == Dropped(merge, old(Contents()))
    {
      len, freed := MergeInPlace(elements, len, merge);
    }

    /** The `REALLOC` of `Reserve`. */
    method Reallocate(newCap: nat)
      requires elements.Length == cap && len <= cap <= newCap
      modifies this`elements, this`cap, this`copied
      ensures fresh(elements) && elements.Length == cap == newCap
      ensures elements[..len] == old(elements[..len]) && copied == old(copied) + len
    {
      var newElements := new T[newCap];
      for i := 0 to len
        modifies newElements
        invariant newElements[..i] == elements[..i]
      {
        newElements[i] := elements[i];
      }
      copied := copied + len;
      elements, cap := newElements, newCap;
    }
  }

  /** The loop of `Reserve`. */
  method GrowCapacity(cap: nat, minCap: nat, maxCap: nat) returns (newCap: nat)
    requires 2 <= cap && minCap <= maxCap
    ensures newCap == Grown(cap, minCap, maxCap)
  {
    newCap := cap;
    while newCap < minCap
      invariant 2 <= newCap && Grown(cap, minCap, maxCap) == Grown(newCap, minCap, maxCap)
      decreases minCap - newCap
    {
      var delta := newCap / 2;
      if newCap > maxCap - delta {
        return minCap;
      }
      newCap := newCap + delta;
    }
  }

  lemma MaxCapIsEnough(esize: nat)
    requires esize > 0 && ARRAY_CAP_MIN * esize <= SIZE_MAX
    ensures SIZE_MAX / esize >= ARRAY_CAP_MIN
  {
  }

  lemma InMemory(n: nat, esize: nat)
    requires esize > 0 && n <= SIZE_MAX / esize
    ensures n <= SIZE_MAX
  {
    FitsInMemory(n, esize);
    assert n * esize == n + n * (esize - 1);
  }

  lemma FitsInMemory(cap: nat, esize: nat)
    requires esize > 0 && cap <= SIZE_MAX / esize
    ensures cap * esize <= SIZE_MAX
  {
    assert SIZE_MAX / esize * esize <= SIZE_MAX;
  }

  /** Pushing any number of elements onto a new array copies fewer than 4.5 times as many while
      reallocating, after the first few. */
  method PushAll<T(0)>(a: DynamicArray<T>, xs: seq<T>)
    requires a.Valid() && a.len == a.cap == 0 && a.copied == 0 && !a.saturated
    requires |xs| + |xs| / 2 <= a.MaxCap()
    modifies a, a.elements
    ensures a.Valid() && a.Contents() == xs
    ensures a.copied <= 3 * a.cap && (a.cap <= ARRAY_CAP_MIN || 2 * a.cap <= 3 * |xs|)
  {
    for i := 0 to |xs|
      invariant a.Valid() && a.Contents() == xs[..i] && !a.saturated
      invariant a.elements == old(a.elements) || fresh(a.elements)
      invariant a.cap <= ARRAY_CAP_MIN || 2 * a.cap <= 3 * i
    {
      OnePushGrowsByHalf(a.cap, i, a.MaxCap());
      a.PushBack(xs[i]);
    }
    assert xs[..|xs|] == xs;
  }

  lemma OnePushGrowsByHalf(cap: nat, len: nat, maxCap: nat)
    requires len <= cap && (cap == 0 || cap >= ARRAY_CAP_MIN) && len + 1 + (len + 1) / 2 <= maxCap
    ensures CapAfter(cap, len, 1, maxCap) ==
      if len < cap then cap else if cap == 0 then ARRAY_CAP_MIN else cap + cap / 2
  {
    if 0 < len == cap {
      assert Grown(cap + cap / 2, len + 1, maxCap) == cap + cap / 2;
    }
  }
}

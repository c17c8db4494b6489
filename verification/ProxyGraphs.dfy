/** Graphs in which every node has at most one successor, as include files have at most one proxy. */
module ProxyGraphs {

  /** Following successors from `i` comes, after `n` steps, to a node that has none. */
  ghost predicate Ends<T>(g: map<T, T>, i: T, n: nat) {
    if n == 0 then i !in g else i in g && Ends(g, g[i], n - 1)
  }

  ghost predicate Terminates<T>(g: map<T, T>, i: T) {
    exists n: nat :: Ends(g, i, n)
  }

  ghost predicate Acyclic<T>(g: map<T, T>) {
    forall i :: i in g ==> Terminates(g, i)
  }

  ghost predicate ReachesIn<T>(g: map<T, T>, i: T, j: T, n: nat) {
    if n == 0 then i == j else i in g && ReachesIn(g, g[i], j, n - 1)
  }

  /** Following successors, in no step or more, leads from `i` to `j`. */
  ghost predicate Reaches<T>(g: map<T, T>, i: T, j: T) {
    exists n: nat :: ReachesIn(g, i, j, n)
  }

  ghost predicate IsRoot<T>(g: map<T, T>, i: T, r: T) {
    r !in g && Reaches(g, i, r)
  }

  lemma {:induction false} EndsAfter<T>(g: map<T, T>, i: T, j: T, n: nat, m: nat)
    requires ReachesIn(g, i, j, n) && Ends(g, i, m)
    ensures n <= m && Ends(g, j, m - n)
  {
    if n == 0 {
    } else {
      EndsAfter(g, g[i], j, n - 1, m - 1);
    }
  }

  lemma {:induction false} EndsOnce<T>(g: map<T, T>, i: T, n: nat, m: nat)
    requires Ends(g, i, n) && Ends(g, i, m)
    ensures n == m
  {
    if n == 0 {
    } else {
      EndsOnce(g, g[i], n - 1, m - 1);
    }
  }

  /** A node that leads back to itself leads nowhere else. */
  lemma CycleNeverEnds<T>(g: map<T, T>, i: T, n: nat)
    requires n > 0 && ReachesIn(g, i, i, n)
    ensures !Terminates(g, i)
  {
    forall m: nat | Ends(g, i, m)
      ensures false
    {
      EndsAfter(g, i, i, n, m);
      EndsOnce(g, i, m, m - n);
    }
  }

  lemma {:induction false} RootIsUnique<T>(g: map<T, T>, i: T, r: T, s: T, n: nat, m: nat)
    requires r !in g && s !in g && ReachesIn(g, i, r, n) && ReachesIn(g, i, s, m)
    ensures r == s
  {
    if n == 0 || m == 0 {
    } else {
      RootIsUnique(g, g[i], r, s, n - 1, m - 1);
    }
  }

  lemma OneRoot<T>(g: map<T, T>, i: T, r: T, s: T)
    requires IsRoot(g, i, r) && IsRoot(g, i, s)
    ensures r == s
  {
    var n: nat :| ReachesIn(g, i, r, n);
    var m: nat :| ReachesIn(g, i, s, m);
    RootIsUnique(g, i, r, s, n, m);
  }

  lemma {:induction false} ReachesStep<T>(g: map<T, T>, i: T, j: T, n: nat)
    requires ReachesIn(g, i, j, n) && j in g
    ensures ReachesIn(g, i, g[j], n + 1)
  {
    if n > 0 {
      ReachesStep(g, g[i], j, n - 1);
    } else {
      assert ReachesIn(g, g[i], g[j], 0);
    }
  }

  lemma OneStepLess<T>(g: map<T, T>, i: T, j: T)
    requires i != j
    ensures Reaches(g, i, j) <==> i in g && Reaches(g, g[i], j)
  {
    if Reaches(g, i, j) {
      var n: nat :| ReachesIn(g, i, j, n);
      assert ReachesIn(g, g[i], j, n - 1);
    }
    if i in g && Reaches(g, g[i], j) {
      var n: nat :| ReachesIn(g, g[i], j, n);
      assert ReachesIn(g, i, j, n + 1);
    }
  }

  // ----- Redirecting a node -----

  /** Up to the redirected node, nothing changes. */
  lemma {:induction false} SameUpTo<T>(g: map<T, T>, from: T, to: T, i: T, n: nat)
    requires ReachesIn(g, i, from, n)
    ensures Reaches(g[from := to], i, from)
  {
    var g' := g[from := to];
    if i == from {
      assert ReachesIn(g', i, from, 0);
    } else {
      SameUpTo(g, from, to, g[i], n - 1);
      var m: nat :| ReachesIn(g', g[i], from, m);
      assert ReachesIn(g', i, from, m + 1);
    }
  }

  lemma {:induction false} SameEnd<T>(g: map<T, T>, from: T, to: T, i: T, n: nat)
    requires Ends(g, i, n) && !Reaches(g, i, from)
    ensures Ends(g[from := to], i, n)
  {
    assert i != from by {
      if i == from {
        assert ReachesIn(g, i, from, 0);
      }
    }
    if n == 0 {
    } else {
      NotReachedNext(g, i, from);
      SameEnd(g, from, to, g[i], n - 1);
    }
  }

  lemma NotReachedNext<T>(g: map<T, T>, i: T, from: T)
    requires i in g && !Reaches(g, i, from)
    ensures i != from && !Reaches(g, g[i], from)
  {
    if i == from {
      assert ReachesIn(g, i, from, 0);
    }
    if Reaches(g, g[i], from) {
      ReachedNext(g, i, from);
    }
  }

  lemma ReachedNext<T>(g: map<T, T>, i: T, from: T)
    requires i in g && Reaches(g, g[i], from)
    ensures Reaches(g, i, from)
  {
    var n: nat :| ReachesIn(g, g[i], from, n);
    assert ReachesIn(g, i, from, n + 1);
  }

  /** If `to` does not lead to `from`, redirecting `from` changes nothing of what `to` leads to. */
  lemma {:induction false} SameReach<T>(g: map<T, T>, from: T, to: T, i: T, j: T, n: nat)
    requires !Reaches(g, i, from)
    ensures ReachesIn(g[from := to], i, j, n) <==> ReachesIn(g, i, j, n)
  {
    if i == from {
      assert ReachesIn(g, i, from, 0);
    }
    if n == 0 || i !in g {
    } else {
      NotReachedNext(g, i, from);
      SameReach(g, from, to, g[i], j, n - 1);
    }
  }

  lemma {:induction false} EndsRedirected<T>(g: map<T, T>, from: T, to: T, i: T, n: nat, m: nat)
    requires Ends(g, i, n) && Ends(g[from := to], to, m)
    ensures Terminates(g[from := to], i)
  {
    var g' := g[from := to];
    if i == from {
      assert Ends(g', i, m + 1);
    } else if n == 0 {
      assert Ends(g', i, 0);
    } else {
      EndsRedirected(g, from, to, g[i], n - 1, m);
      var k: nat :| Ends(g', g[i], k);
      assert Ends(g', i, k + 1);
    }
  }

  /** Redirecting `from` to a node that leads to it makes a cycle through that node. */
  lemma RedirectMakesCycle<T>(g: map<T, T>, from: T, to: T)
    requires Reaches(g, to, from)
    ensures !Terminates(g[from := to], to) && !Acyclic(g[from := to])
  {
    var g' := g[from := to];
    var n: nat :| ReachesIn(g, to, from, n);
    SameUpTo(g, from, to, to, n);
    var m: nat :| ReachesIn(g', to, from, m);
    ReachesStep(g', to, from, m);
    CycleNeverEnds(g', to, m + 1);
    assert to in g';
  }

  /** Redirecting a node keeps the graph acyclic exactly when the new successor does not lead back. */
  lemma RedirectKeepsAcyclicIff<T>(g: map<T, T>, from: T, to: T)
    requires Acyclic(g)
    ensures Acyclic(g[from := to]) <==> !Reaches(g, to, from)
  {
    var g' := g[from := to];
    if Reaches(g, to, from) {
      RedirectMakesCycle(g, from, to);
    } else {
      var m := End(g, to);
      SameEnd(g, from, to, to, m);
      forall i | i in g'
        ensures Terminates(g', i)
      {
        var n := End(g, i);
        EndsRedirected(g, from, to, i, n, m);
      }
    }
  }

  lemma End<T>(g: map<T, T>, i: T) returns (n: nat)
    requires Acyclic(g)
    ensures Ends(g, i, n)
  {
    if i in g {
      n :| Ends(g, i, n);
    } else {
      n := 0;
    }
  }

  /** A node that leads into a cycle still does after some node is redirected to it. */
  lemma StaysCyclic<T>(g: map<T, T>, from: T, to: T)
    requires !Terminates(g, to)
    ensures !Terminates(g[from := to], to)
  {
    var g' := g[from := to];
    forall n: nat | Ends(g', to, n)
      ensures false
    {
      if Reaches(g', to, from) {
        var m: nat :| ReachesIn(g', to, from, m);
        ReachesStep(g', to, from, m);
        CycleNeverEnds(g', to, m + 1);
      } else {
        EndsBefore(g, from, to, to, n);
      }
    }
  }

  lemma {:induction false} EndsBefore<T>(g: map<T, T>, from: T, to: T, i: T, n: nat)
    requires Ends(g[from := to], i, n) && !Reaches(g[from := to], i, from)
    ensures Ends(g, i, n)
  {
    var g' := g[from := to];
    if i == from {
      assert ReachesIn(g', i, from, 0);
    }
    if n == 0 {
    } else {
      NotReachedNext(g', i, from);
      EndsBefore(g, from, to, g'[i], n - 1);
    }
  }

  // ----- One line of a configuration's proxies -----

  /** What the source's `proxy_parse_string` makes of one include file `from` that a configured proxy
      `to` applies to: a first proxy must not make a cycle; another one is replaced without that check
      by one that is included more directly. */
  ghost function Assigned<T>(g: map<T, T>, depth: T -> nat, from: T, to: T): map<T, T> {
    if from in g then if depth(to) < depth(g[from]) then g[from := to] else g
    else if Reaches(g, to, from) then g
    else g[from := to]
  }

  ghost function AssignedAll<T>(g: map<T, T>, depth: T -> nat, froms: seq<T>, to: T): map<T, T> {
    if froms == [] then g else Assigned(AssignedAll(g, depth, froms[..|froms| - 1], to), depth, froms[|froms| - 1], to)
  }

  /** `from` already has a proxy, which `to` would replace although `to` leads to `from`. */
  ghost predicate IsUnsafe<T>(g: map<T, T>, depth: T -> nat, from: T, to: T) {
    from in g && depth(to) < depth(g[from]) && Reaches(g, to, from)
  }

  ghost predicate IsSafe<T>(g: map<T, T>, depth: T -> nat, froms: seq<T>, to: T) {
    forall from :: from in froms ==> !IsUnsafe(g, depth, from, to)
  }

  ghost predicate AreDistinct<T>(s: seq<T>) {
    forall i, j :: 0 <= i < j < |s| ==> s[i] != s[j]
  }

  ghost predicate SameAt<T>(g: map<T, T>, h: map<T, T>, i: T) {
    (i in g <==> i in h) && (i in g ==> g[i] == h[i])
  }

  lemma AssignKeepsAcyclicIff<T>(g: map<T, T>, depth: T -> nat, from: T, to: T)
    requires Acyclic(g)
    ensures Acyclic(Assigned(g, depth, from, to)) <==> !IsUnsafe(g, depth, from, to)
    ensures IsUnsafe(g, depth, from, to) ==> !Terminates(Assigned(g, depth, from, to), to)
  {
    RedirectKeepsAcyclicIff(g, from, to);
    if IsUnsafe(g, depth, from, to) {
      RedirectMakesCycle(g, from, to);
    }
  }

  /** Whatever order the include files come in, the graph stays acyclic exactly when none of them was
      unsafe to begin with: the files assigned earlier do not change where `to` leads. */
  lemma {:induction false} ParseKeepsAcyclicIff<T>(g: map<T, T>, depth: T -> nat, froms: seq<T>, to: T)
    requires Acyclic(g) && AreDistinct(froms)
    ensures Acyclic(AssignedAll(g, depth, froms, to)) <==> IsSafe(g, depth, froms, to)
    ensures !IsSafe(g, depth, froms, to) ==> !Terminates(AssignedAll(g, depth, froms, to), to)
    ensures forall i :: i !in froms ==> SameAt(g, AssignedAll(g, depth, froms, to), i)
    ensures IsSafe(g, depth, froms, to) ==>
      forall j :: Reaches(AssignedAll(g, depth, froms, to), to, j) <==> Reaches(g, to, j)
  {
    if froms == [] {
    } else {
      var before, from := froms[..|froms| - 1], froms[|froms| - 1];
      ParseKeepsAcyclicIff(g, depth, before, to);
      var h := AssignedAll(g, depth, before, to);
      assert froms == before + [from] && from !in before;
      if IsSafe(g, depth, before, to) {
        AssignKeepsAcyclicIff(h, depth, from, to);
        assert IsUnsafe(h, depth, from, to) <==> IsUnsafe(g, depth, from, to);
        if !IsUnsafe(h, depth, from, to) {
          AssignKeepsReach(h, depth, from, to);
        }
      } else {
        StaysCyclic(h, from, to);
        NotAcyclic(Assigned(h, depth, from, to), to);
      }
    }
  }

  /** The source looks for `from` on the way from `to`; it finds it, or the way ends. */
  ghost predicate SearchEnds<T>(g: map<T, T>, from: T, to: T) {
    Terminates(g, to) || Reaches(g, to, from)
  }

  /** Every search for a cycle that the source makes ends; it makes none for a file that has a proxy. */
  ghost predicate SearchesEnd<T>(g: map<T, T>, depth: T -> nat, froms: seq<T>, to: T) {
    forall x :: 0 <= x < |froms| ==>
      var h := AssignedAll(g, depth, froms[..x], to); froms[x] in h || SearchEnds(h, froms[x], to)
  }

  lemma {:induction false} EndsAtRoot<T>(g: map<T, T>, i: T, r: T, n: nat)
    requires ReachesIn(g, i, r, n) && r !in g
    ensures Ends(g, i, n)
  {
    if n == 0 {
    } else {
      EndsAtRoot(g, g[i], r, n - 1);
    }
  }

  lemma SearchEndsIff<T>(g: map<T, T>, from: T, to: T)
    requires from !in g
    ensures SearchEnds(g, from, to) <==> Terminates(g, to)
  {
    if Reaches(g, to, from) {
      var n: nat :| ReachesIn(g, to, from, n);
      EndsAtRoot(g, to, from, n);
    }
  }

  /** Exactly when they do, by the graph before: when no unsafe file comes before a file without a
      proxy. */
  lemma SearchesEndIff<T>(g: map<T, T>, depth: T -> nat, froms: seq<T>, to: T)
    requires Acyclic(g) && AreDistinct(froms)
    ensures SearchesEnd(g, depth, froms, to) <==>
      forall x :: 0 <= x < |froms| ==> froms[x] in g || IsSafe(g, depth, froms[..x], to)
    ensures IsSafe(g, depth, froms, to) ==> SearchesEnd(g, depth, froms, to)
  {
    hide Acyclic, Terminates, Reaches, AssignedAll;
    forall x | 0 <= x < |froms|
      ensures var h := AssignedAll(g, depth, froms[..x], to);
        froms[x] in h || SearchEnds(h, froms[x], to) <==> froms[x] in g || IsSafe(g, depth, froms[..x], to)
    {
      var before := froms[..x];
      var h := AssignedAll(g, depth, before, to);
      ParseKeepsAcyclicIff(g, depth, before, to);
      assert froms[x] !in before && SameAt(g, h, froms[x]);
      if IsSafe(g, depth, before, to) {
        AllTerminate(h, to);
      }
      if froms[x] !in h {
        SearchEndsIff(h, froms[x], to);
      }
    }
  }

  lemma AllTerminate<T>(g: map<T, T>, i: T)
    requires Acyclic(g)
    ensures Terminates(g, i)
  {
    var n := End(g, i);
  }

  /** How many of the include files would, in their turn, get a proxy that leads back to them. */
  ghost function Refused<T>(g: map<T, T>, depth: T -> nat, froms: seq<T>, to: T): nat {
    if froms == [] then 0 else
      var before, from := froms[..|froms| - 1], froms[|froms| - 1];
      var h := AssignedAll(g, depth, before, to);
      Refused(g, depth, before, to) + if from !in h && Reaches(h, to, from) then 1 else 0
  }

  /** If all are safe, it can be told from the graph before how each file is treated. */
  lemma TreatedAsBefore<T>(g: map<T, T>, depth: T -> nat, froms: seq<T>, to: T, x: nat)
    requires Acyclic(g) && AreDistinct(froms) && x < |froms| && IsSafe(g, depth, froms[..x], to)
    ensures var h := AssignedAll(g, depth, froms[..x], to);
      && SameAt(g, h, froms[x]) && (Reaches(h, to, froms[x]) <==> Reaches(g, to, froms[x]))
  {
    ParseKeepsAcyclicIff(g, depth, froms[..x], to);
  }

  lemma NotAcyclic<T>(g: map<T, T>, i: T)
    requires !Terminates(g, i)
    ensures !Acyclic(g)
  {
    if i !in g {
      assert Ends(g, i, 0);
    }
  }

  lemma AssignKeepsReach<T>(g: map<T, T>, depth: T -> nat, from: T, to: T)
    requires !IsUnsafe(g, depth, from, to)
    ensures forall j :: Reaches(Assigned(g, depth, from, to), to, j) <==> Reaches(g, to, j)
  {
    var g' := Assigned(g, depth, from, to);
    if g' != g {
      forall j, n: nat
        ensures ReachesIn(g', to, j, n) <==> ReachesIn(g, to, j, n)
      {
        if !Reaches(g, to, from) {
          SameReach(g, from, to, to, j, n);
        }
      }
    }
  }

  /** The unchecked replacement can make a cycle: 1 has the proxy 2; 3 has the proxy 1 and is included
      more directly than 2; making 3 a proxy of 1 closes the circle. */
  lemma ReplacementCanCycle()
    ensures var g, depth := map[1 := 2, 3 := 1], (i: int) => if i == 2 then 5 else 1;
      Acyclic(g) && !Acyclic(Assigned(g, depth, 1, 3))
  {
    var g, depth := map[1 := 2, 3 := 1], (i: int) => if i == 2 then 5 else 1;
    assert Ends(g, 2, 0) && Ends(g, 1, 1) && Ends(g, 3, 2);
    assert Acyclic(g);
    assert ReachesIn(g, 1, 1, 0) && ReachesIn(g, 3, 1, 1);
    AssignKeepsAcyclicIff(g, depth, 1, 3);
  }

  /** What proxy `from` gets of a line, if it is in the line, by the graph before: `to`, if it has none
      and `to` does not lead to it, or has one that is deeper; and otherwise the one it has. */
  ghost predicate GetsOfLine<T>(g: map<T, T>, depth: T -> nat, froms: seq<T>, from: T, to: T, h: map<T, T>) {
    if from in froms && (if from in g then depth(to) < depth(g[from]) else !Reaches(g, to, from))
    then from in h && h[from] == to
    else SameAt(g, h, from)
  }

  /** Which proxy every file has after a line without unsafe files. */
  lemma {:induction false} ProxyAfterLine<T>(g: map<T, T>, depth: T -> nat, froms: seq<T>, to: T, from: T)
    requires Acyclic(g) && AreDistinct(froms) && IsSafe(g, depth, froms, to)
    ensures GetsOfLine(g, depth, froms, from, to, AssignedAll(g, depth, froms, to))
  {
    if froms == [] {
    } else {
      hide Acyclic, Reaches, IsSafe;
      var before, last := froms[..|froms| - 1], froms[|froms| - 1];
      assert froms == before + [last];
      SafeBefore(g, depth, before, last, to);
      ProxyAfterLine(g, depth, before, to, from);
      TreatedAsBefore(g, depth, froms, to, |froms| - 1);
      assert froms[..|froms| - 1] == before;
    }
  }

  lemma SafeBefore<T>(g: map<T, T>, depth: T -> nat, before: seq<T>, last: T, to: T)
    requires IsSafe(g, depth, before + [last], to)
    ensures IsSafe(g, depth, before, to)
  {
    assert forall from :: from in before ==> from in before + [last];
  }

  // ----- All lines of a configuration -----

  /** A line: the proxy, and the files that it is configured for. */
  datatype Line<T> = Line(to: T, froms: seq<T>)

  ghost function AssignedLines<T>(g: map<T, T>, depth: T -> nat, lines: seq<Line<T>>): map<T, T> {
    if lines == [] then g else
      var line := lines[|lines| - 1];
      AssignedAll(AssignedLines(g, depth, lines[..|lines| - 1]), depth, line.froms, line.to)
  }

  ghost predicate AreLines<T>(lines: seq<Line<T>>) {
    forall n :: 0 <= n < |lines| ==> AreDistinct(lines[n].froms)
  }

  /** The graph before line `n`. */
  ghost function BeforeLine<T>(g: map<T, T>, depth: T -> nat, lines: seq<Line<T>>, n: nat): map<T, T>
    requires n <= |lines|
  {
    AssignedLines(g, depth, lines[..n])
  }

  lemma LineStep<T>(g: map<T, T>, depth: T -> nat, lines: seq<Line<T>>, n: nat)
    requires n < |lines|
    ensures BeforeLine(g, depth, lines, n + 1) ==
            AssignedAll(BeforeLine(g, depth, lines, n), depth, lines[n].froms, lines[n].to)
  {
    assert lines[..n + 1][..n] == lines[..n];
  }

  /** No line makes a cycle exactly when none has an unsafe file when its turn comes. */
  lemma LinesKeepAcyclicIff<T>(g: map<T, T>, depth: T -> nat, lines: seq<Line<T>>)
    requires Acyclic(g) && AreLines(lines)
    ensures (forall n :: 0 <= n <= |lines| ==> Acyclic(BeforeLine(g, depth, lines, n))) <==>
      forall n :: 0 <= n < |lines| ==> IsSafe(BeforeLine(g, depth, lines, n), depth, lines[n].froms, lines[n].to)
  {
    hide Acyclic, IsSafe, BeforeLine;
    if forall n :: 0 <= n <= |lines| ==> Acyclic(BeforeLine(g, depth, lines, n)) {
      forall n | 0 <= n < |lines|
        ensures IsSafe(BeforeLine(g, depth, lines, n), depth, lines[n].froms, lines[n].to)
      {
        LineStep(g, depth, lines, n);
        ParseKeepsAcyclicIff(BeforeLine(g, depth, lines, n), depth, lines[n].froms, lines[n].to);
      }
    }
    if forall n :: 0 <= n < |lines| ==> IsSafe(BeforeLine(g, depth, lines, n), depth, lines[n].froms, lines[n].to) {
      forall n | 0 <= n <= |lines|
        ensures Acyclic(BeforeLine(g, depth, lines, n))
      {
        SafeSoFar(g, depth, lines, n);
      }
    }
  }

  lemma {:induction false} SafeSoFar<T>(g: map<T, T>, depth: T -> nat, lines: seq<Line<T>>, n: nat)
    requires Acyclic(g) && AreLines(lines) && n <= |lines|
    requires forall m :: 0 <= m < n ==> IsSafe(BeforeLine(g, depth, lines, m), depth, lines[m].froms, lines[m].to)
    ensures Acyclic(BeforeLine(g, depth, lines, n))
  {
    if n == 0 {
      assert lines[..0] == [];
    } else {
      hide Acyclic, IsSafe, BeforeLine;
      SafeSoFar(g, depth, lines, n - 1);
      LineStep(g, depth, lines, n - 1);
      ParseKeepsAcyclicIff(BeforeLine(g, depth, lines, n - 1), depth, lines[n - 1].froms, lines[n - 1].to);
    }
  }

  /** `from` could get the proxy of line `n` when its turn comes: it is in the line, and has a proxy, or
      that one does not lead to it. */
  ghost predicate CouldGet<T>(g: map<T, T>, depth: T -> nat, lines: seq<Line<T>>, from: T, n: nat)
    requires n < |lines|
  {
    var h := BeforeLine(g, depth, lines, n);
    from in lines[n].froms && (from in h || !Reaches(h, lines[n].to, from))
  }

  /** Of the proxies that `from` could get of the first `n` lines, that of line `k` is the first least
      deep. */
  ghost predicate IsFirstLeast<T>(g: map<T, T>, depth: T -> nat, lines: seq<Line<T>>, from: T, n: nat, k: nat)
    requires n <= |lines|
  {
    && k < n && CouldGet(g, depth, lines, from, k)
    && forall m :: 0 <= m < n && CouldGet(g, depth, lines, from, m) ==>
        if m < k then depth(lines[k].to) < depth(lines[m].to) else depth(lines[k].to) <= depth(lines[m].to)
  }

  ghost predicate AreSafe<T>(g: map<T, T>, depth: T -> nat, lines: seq<Line<T>>) {
    AreLines(lines) &&
    forall n :: 0 <= n < |lines| ==> IsSafe(BeforeLine(g, depth, lines, n), depth, lines[n].froms, lines[n].to)
  }

  /** `from` has the first least deep of the proxies that it could get of the first `n` lines, and none
      only if it could get none. */
  ghost predicate HasFirstLeast<T>(g: map<T, T>, depth: T -> nat, lines: seq<Line<T>>, from: T, n: nat, h: map<T, T>)
    requires n <= |lines|
  {
    if from in h then exists k: nat :: IsFirstLeast(g, depth, lines, from, n, k) && h[from] == lines[k].to
    else forall m :: 0 <= m < n ==> !CouldGet(g, depth, lines, from, m)
  }

  /** Which proxy a file that had none has after several lines without unsafe files. */
  lemma {:induction false} ProxyAfterLines<T>(g: map<T, T>, depth: T -> nat, lines: seq<Line<T>>, from: T, n: nat)
    requires Acyclic(g) && AreSafe(g, depth, lines) && n <= |lines| && from !in g
    ensures HasFirstLeast(g, depth, lines, from, n, BeforeLine(g, depth, lines, n))
  {
    if n == 0 {
      assert lines[..0] == [];
    } else {
      hide Acyclic, BeforeLine, IsSafe, HasFirstLeast, GetsOfLine;
      ProxyAfterLines(g, depth, lines, from, n - 1);
      SafeSoFar(g, depth, lines, n - 1);
      LineStep(g, depth, lines, n - 1);
      var h := BeforeLine(g, depth, lines, n - 1);
      ProxyAfterLine(h, depth, lines[n - 1].froms, lines[n - 1].to, from);
      LeastStep(g, depth, lines, from, n - 1, h, BeforeLine(g, depth, lines, n));
    }
  }

  lemma LeastStep<T>(g: map<T, T>, depth: T -> nat, lines: seq<Line<T>>, from: T, n: nat, h: map<T, T>, h': map<T, T>)
    requires n < |lines| && h == BeforeLine(g, depth, lines, n) && HasFirstLeast(g, depth, lines, from, n, h)
    requires GetsOfLine(h, depth, lines[n].froms, from, lines[n].to, h')
    ensures HasFirstLeast(g, depth, lines, from, n + 1, h')
  {
    hide BeforeLine, Reaches, CouldGet;
    var line := lines[n];
    CouldGetIs(g, depth, lines, from, n, h);
    if from in h {
      var k: nat :| IsFirstLeast(g, depth, lines, from, n, k) && h[from] == lines[k].to;
      if from in line.froms && depth(line.to) < depth(lines[k].to) {
        assert IsFirstLeast(g, depth, lines, from, n + 1, n);
      } else {
        assert IsFirstLeast(g, depth, lines, from, n + 1, k);
      }
    } else if CouldGet(g, depth, lines, from, n) {
      assert IsFirstLeast(g, depth, lines, from, n + 1, n);
    }
  }

  lemma CouldGetIs<T>(g: map<T, T>, depth: T -> nat, lines: seq<Line<T>>, from: T, n: nat, h: map<T, T>)
    requires n < |lines| && h == BeforeLine(g, depth, lines, n)
    ensures CouldGet(g, depth, lines, from, n) <==> from in lines[n].froms && (from in h || !Reaches(h, lines[n].to, from))
  {
  }

  /** No file is in two lines. */
  ghost predicate AreDisjoint<T>(lines: seq<Line<T>>) {
    forall m, n, f :: 0 <= m < n < |lines| && f in lines[m].froms ==> f !in lines[n].froms
  }

  lemma {:induction false} AssignedKeys<T>(g: map<T, T>, depth: T -> nat, froms: seq<T>, to: T)
    ensures forall f :: f in AssignedAll(g, depth, froms, to) ==> f in g || f in froms
  {
    if froms == [] {
    } else {
      AssignedKeys(g, depth, froms[..|froms| - 1], to);
      assert froms == froms[..|froms| - 1] + [froms[|froms| - 1]];
    }
  }

  lemma {:induction false} LineKeys<T>(depth: T -> nat, lines: seq<Line<T>>, n: nat)
    requires n <= |lines|
    ensures forall f :: f in BeforeLine(map[], depth, lines, n) ==> exists m :: 0 <= m < n && f in lines[m].froms
  {
    if n == 0 {
      assert lines[..0] == [];
    } else {
      hide BeforeLine;
      LineKeys(depth, lines, n - 1);
      LineStep(map[], depth, lines, n - 1);
      AssignedKeys(BeforeLine(map[], depth, lines, n - 1), depth, lines[n - 1].froms, lines[n - 1].to);
    }
  }

  /** By the configuration alone: if no file is in two lines, no line makes a cycle. */
  lemma DisjointLinesAreSafe<T>(depth: T -> nat, lines: seq<Line<T>>)
    requires AreLines(lines) && AreDisjoint(lines)
    ensures forall n :: 0 <= n <= |lines| ==> Acyclic(BeforeLine(map[], depth, lines, n))
  {
    hide BeforeLine;
    forall n | 0 <= n < |lines|
      ensures IsSafe(BeforeLine(map[], depth, lines, n), depth, lines[n].froms, lines[n].to)
    {
      LineKeys(depth, lines, n);
    }
    LinesKeepAcyclicIff(map[], depth, lines);
  }

  /** A line can make a cycle that a later one breaks: 1 and 3 become proxies of each other until 1
      gets the proxy 4. */
  lemma LaterLineCanBreak()
    ensures var lines := [Line(2, [1]), Line(1, [3]), Line(3, [1]), Line(4, [1])];
      var depth := (i: int) => if i == 2 then 5 else if i == 3 then 1 else 0;
      && !Acyclic(BeforeLine(map[], depth, lines, 3)) && Acyclic(BeforeLine(map[], depth, lines, 4))
  {
    var lines := [Line(2, [1]), Line(1, [3]), Line(3, [1]), Line(4, [1])];
    var depth := (i: int) => if i == 2 then 5 else if i == 3 then 1 else 0;
    assert BeforeLine(map[], depth, lines, 0) == map[] by {
      assert lines[..0] == [];
    }
    LineStep(map[], depth, lines, 0);
    LineStep(map[], depth, lines, 1);
    LineStep(map[], depth, lines, 2);
    LineStep(map[], depth, lines, 3);
    hide BeforeLine;
    FirstLinks(depth);
    LastLinks(depth);
  }

  lemma OneAssigned<T>(g: map<T, T>, depth: T -> nat, from: T, to: T)
    ensures AssignedAll(g, depth, [from], to) == Assigned(g, depth, from, to)
  {
    assert [from][..0] == [];
  }

  lemma FirstLinks(depth: int -> nat)
    ensures AssignedAll(map[], depth, [1], 2) == map[1 := 2]
    ensures AssignedAll(map[1 := 2], depth, [3], 1) == map[1 := 2, 3 := 1]
  {
    OneAssigned(map[], depth, 1, 2);
    OneAssigned(map[1 := 2], depth, 3, 1);
    OneStepLess(map[], 2, 1);
    OneStepLess(map[1 := 2], 1, 3);
    OneStepLess(map[1 := 2], 2, 3);
  }

  lemma LastLinks(depth: int -> nat)
    requires depth(2) == 5 && depth(3) == 1 && depth(4) == 0
    ensures AssignedAll(map[1 := 2, 3 := 1], depth, [1], 3) == map[1 := 3, 3 := 1]
    ensures AssignedAll(map[1 := 3, 3 := 1], depth, [1], 4) == map[1 := 4, 3 := 1]
    ensures !Acyclic(map[1 := 3, 3 := 1]) && Acyclic(map[1 := 4, 3 := 1])
  {
    OneAssigned(map[1 := 2, 3 := 1], depth, 1, 3);
    OneAssigned(map[1 := 3, 3 := 1], depth, 1, 4);
    var g, h := map[1 := 3, 3 := 1], map[1 := 4, 3 := 1];
    assert ReachesIn(g, 1, 1, 0) && ReachesIn(g, 3, 1, 1) && ReachesIn(g, 1, 1, 2);
    CycleNeverEnds(g, 1, 2);
    assert Ends(h, 4, 0) && Ends(h, 1, 1) && Ends(h, 3, 2);
  }

  // ----- Implicit proxies -----

  ghost function Follow<T>(g: map<T, T>, i: T, n: nat): T {
    if n == 0 || i !in g then i else Follow(g, g[i], n - 1)
  }

  lemma {:induction false} FollowToRoot<T>(g: map<T, T>, i: T, n: nat)
    requires Ends(g, i, n)
    ensures Follow(g, i, n) !in g && ReachesIn(g, i, Follow(g, i, n), n)
  {
    if n == 0 {
    } else {
      FollowToRoot(g, g[i], n - 1);
    }
  }

  lemma HasRoot<T>(g: map<T, T>, i: T) returns (r: T)
    requires Terminates(g, i)
    ensures IsRoot(g, i, r)
  {
    var n: nat :| Ends(g, i, n);
    FollowToRoot(g, i, n);
    r := Follow(g, i, n);
  }

  /** What the source's `implicit_proxies_visitor` makes of one file that has no proxy: the root of its
      candidate, unless the way to the root does not end. */
  ghost function Implied<T>(g: map<T, T>, candidates: map<T, T>, i: T): map<T, T> {
    if i in g || i !in candidates || !Terminates(g, candidates[i]) then g
    else var n: nat :| Ends(g, candidates[i], n); g[i := Follow(g, candidates[i], n)]
  }

  ghost function ImpliedAll<T>(g: map<T, T>, candidates: map<T, T>, files: seq<T>): map<T, T> {
    if files == [] then g
    else Implied(ImpliedAll(g, candidates, files[..|files| - 1]), candidates, files[|files| - 1])
  }

  /** What a file gets, in its turn, is the root its candidate then has, and it keeps it. */
  lemma {:induction false} ImpliedAt<T>(g: map<T, T>, candidates: map<T, T>, files: seq<T>, x: nat, r: T)
    requires x < |files| && files[x] in candidates
    requires var h := ImpliedAll(g, candidates, files[..x]);
      files[x] !in h && Terminates(h, candidates[files[x]]) && IsRoot(h, candidates[files[x]], r)
    ensures files[x] in ImpliedAll(g, candidates, files) && ImpliedAll(g, candidates, files)[files[x]] == r
    decreases |files|
  {
    hide Terminates, IsRoot;
    var before := files[..|files| - 1];
    if x == |files| - 1 {
      ImpliedIs(ImpliedAll(g, candidates, before), candidates, files[x], r);
    } else {
      assert before[..x] == files[..x];
      ImpliedAt(g, candidates, before, x, r);
    }
  }

  /** The proxies there are, and the candidates for the other files: no order, and no roots. */
  ghost function Extended<T>(g: map<T, T>, candidates: map<T, T>, files: seq<T>): map<T, T> {
    map i | i in g.Keys + (set f | f in files && f in candidates) ::
      if i in g then g[i] else candidates[i]
  }

  lemma ExtendedByOne<T>(g: map<T, T>, candidates: map<T, T>, files: seq<T>, i: T)
    ensures var e := Extended(g, candidates, files);
      Extended(g, candidates, files + [i]) == if i in e || i !in candidates then e else e[i := candidates[i]]
  {
    var e, more := Extended(g, candidates, files), Extended(g, candidates, files + [i]);
    assert forall f :: f in files + [i] <==> f in files || f == i;
    assert more.Keys == if i in e || i !in candidates then e.Keys else e.Keys + {i};
  }

  lemma ImpliedIs<T>(g: map<T, T>, candidates: map<T, T>, i: T, r: T)
    requires i !in g && i in candidates && IsRoot(g, candidates[i], r) && Terminates(g, candidates[i])
    ensures Implied(g, candidates, i) == g[i := r]
  {
    var n: nat :| Ends(g, candidates[i], n);
    FollowToRoot(g, candidates[i], n);
    forall m: nat | Ends(g, candidates[i], m)
      ensures Follow(g, candidates[i], m) == r
    {
      FollowToRoot(g, candidates[i], m);
      OneRoot(g, candidates[i], Follow(g, candidates[i], m), r);
    }
  }

  lemma {:induction false} StillEnds<T>(g: map<T, T>, i: T, to: T, k: T, n: nat)
    requires i !in g && Ends(g[i := to], k, n)
    ensures Terminates(g, k)
  {
    if k !in g {
      assert Ends(g, k, 0);
    } else {
      StillEnds(g, i, to, g[k], n - 1);
      var m: nat :| Ends(g, g[k], m);
      assert Ends(g, k, m + 1);
    }
  }

  /** A successor for a node that has none breaks no cycle. */
  lemma CyclesStay<T>(g: map<T, T>, i: T, to: T)
    requires !Acyclic(g) && i !in g
    ensures !Acyclic(g[i := to])
  {
    var g' := g[i := to];
    var k :| k in g && !Terminates(g, k);
    forall n: nat | Ends(g', k, n)
      ensures false
    {
      StillEnds(g, i, to, k, n);
    }
    assert k in g' && !Terminates(g', k);
  }

  /** Giving a root `i` a successor makes a cycle exactly when `i` is the successor's root. */
  lemma LinkKeepsAcyclicIff<T>(g: map<T, T>, i: T, to: T, r: T)
    requires Acyclic(g) && i !in g && IsRoot(g, to, r)
    ensures Acyclic(g[i := to]) <==> i != r
  {
    RedirectKeepsAcyclicIff(g, i, to);
    if Reaches(g, to, i) {
      OneRoot(g, to, i, r);
    }
  }

  lemma ReachesOn<T>(g: map<T, T>, i: T, j: T, k: T)
    requires Reaches(g, i, j) && Reaches(g, j, k)
    ensures Reaches(g, i, k)
  {
    var n: nat :| ReachesIn(g, i, j, n);
    var m: nat :| ReachesIn(g, j, k, m);
    ReachesSum(g, i, j, k, n, m);
  }

  lemma {:induction false} ReachesSum<T>(g: map<T, T>, i: T, j: T, k: T, n: nat, m: nat)
    requires ReachesIn(g, i, j, n) && ReachesIn(g, j, k, m)
    ensures ReachesIn(g, i, k, n + m)
  {
    if n == 0 {
    } else {
      ReachesSum(g, g[i], j, k, n - 1, m);
    }
  }

  /** The nodes whose root was `i` get the root of its new successor; the others keep theirs. */
  lemma RootAfterLink<T>(g: map<T, T>, i: T, to: T, r: T, j: T, q: T)
    requires i !in g && IsRoot(g, to, r) && i != r && IsRoot(g, j, q)
    ensures IsRoot(g[i := to], j, if q == i then r else q)
  {
    var g' := g[i := to];
    LeadsToRoot(g, i, to, to, r);
    if q == i {
      var n: nat :| ReachesIn(g, j, i, n);
      SameUpTo(g, i, to, j, n);
      assert Reaches(g', i, to) by {
        assert ReachesIn(g', to, to, 0) && ReachesIn(g', i, to, 1);
      }
      ReachesOn(g', i, to, r);
      ReachesOn(g', j, i, r);
    } else {
      LeadsToRoot(g, i, to, j, q);
    }
  }

  /** What leads to another root than `i` does not pass `i`. */
  lemma LeadsToRoot<T>(g: map<T, T>, i: T, to: T, j: T, q: T)
    requires i !in g && IsRoot(g, j, q) && q != i
    ensures Reaches(g[i := to], j, q)
  {
    if Reaches(g, j, i) {
      OneRoot(g, j, i, q);
    }
    var n: nat :| ReachesIn(g, j, q, n);
    SameReach(g, i, to, j, q, n);
  }

  /** `h`, made with roots, and `e`, made with candidates, have the same nodes and roots. */
  lemma SameRootsStep<T>(h: map<T, T>, e: map<T, T>, i: T, c: T, r: T)
    requires Acyclic(h) && Acyclic(e) && h.Keys == e.Keys && i !in h && IsRoot(h, c, r)
    requires forall j, q :: IsRoot(h, j, q) ==> IsRoot(e, j, q)
    ensures var h', e' := h[i := r], e[i := c];
      && (Acyclic(h') <==> Acyclic(e'))
      && (i != r ==> forall j, q :: IsRoot(h', j, q) ==> IsRoot(e', j, q))
  {
    hide Acyclic, IsRoot;
    var h', e' := h[i := r], e[i := c];
    RootOfRoot(h, c, r);
    LinkKeepsAcyclicIff(h, i, r, r);
    LinkKeepsAcyclicIff(e, i, c, r);
    if i != r {
      forall j, q | IsRoot(h', j, q)
        ensures IsRoot(e', j, q)
      {
        AllTerminate(h, j);
        var p := HasRoot(h, j);
        RootAfterLink(h, i, r, r, j, p);
        OneRoot(h', j, q, if p == i then r else p);
        RootAfterLink(e, i, c, r, j, p);
      }
    }
  }

  lemma RootOfRoot<T>(g: map<T, T>, i: T, r: T)
    requires IsRoot(g, i, r)
    ensures IsRoot(g, r, r)
  {
    assert ReachesIn(g, r, r, 0);
  }

  /** Main result: the source follows candidates to their roots, one file after the other; the graph it
      comes to is acyclic exactly when the one of the proxies there were and the bare candidates is,
      whatever the order. */
  lemma {:induction false} ImpliedAcyclicIff<T>(g: map<T, T>, candidates: map<T, T>, files: seq<T>)
    requires Acyclic(g)
    ensures var h, e := ImpliedAll(g, candidates, files), Extended(g, candidates, files);
      && (Acyclic(h) <==> Acyclic(e))
      && (Acyclic(e) ==> h.Keys == e.Keys && forall j, q :: IsRoot(h, j, q) ==> IsRoot(e, j, q))
  {
    if files == [] {
      assert Extended(g, candidates, files) == g;
    } else {
      var before, i := files[..|files| - 1], files[|files| - 1];
      ImpliedAcyclicIff(g, candidates, before);
      assert before + [i] == files;
      ExtendedByOne(g, candidates, before, i);
      ImpliedStep(ImpliedAll(g, candidates, before), Extended(g, candidates, before), candidates, i);
    }
  }

  lemma ImpliedStep<T>(h: map<T, T>, e: map<T, T>, candidates: map<T, T>, i: T)
    requires Acyclic(h) <==> Acyclic(e)
    requires Acyclic(e) ==> h.Keys == e.Keys && forall j, q :: IsRoot(h, j, q) ==> IsRoot(e, j, q)
    ensures var h', e' := Implied(h, candidates, i), if i in e || i !in candidates then e else e[i := candidates[i]];
      && (Acyclic(h') <==> Acyclic(e'))
      && (Acyclic(e') ==> h'.Keys == e'.Keys && forall j, q :: IsRoot(h', j, q) ==> IsRoot(e', j, q))
  {
    hide Acyclic, IsRoot, Terminates, Implied;
    if !Acyclic(e) {
      StaysCyclicImplied(h, candidates, i);
      if i !in e && i in candidates {
        CyclesStay(e, i, candidates[i]);
      }
    } else if i !in h && i in candidates {
      AllTerminate(h, candidates[i]);
      var r := HasRoot(h, candidates[i]);
      ImpliedIs(h, candidates, i, r);
      SameRootsStep(h, e, i, candidates[i], r);
      LinkKeepsAcyclicIff(h, i, candidates[i], r);
      LinkKeepsAcyclicIff(e, i, candidates[i], r);
    } else {
      NothingImplied(h, candidates, i);
    }
  }

  lemma NothingImplied<T>(h: map<T, T>, candidates: map<T, T>, i: T)
    requires i in h || i !in candidates
    ensures Implied(h, candidates, i) == h
  {
  }

  lemma StaysCyclicImplied<T>(h: map<T, T>, candidates: map<T, T>, i: T)
    requires !Acyclic(h)
    ensures !Acyclic(Implied(h, candidates, i))
  {
    hide Acyclic;
    if i !in h && i in candidates && Terminates(h, candidates[i]) {
      var r := HasRoot(h, candidates[i]);
      ImpliedIs(h, candidates, i, r);
      CyclesStay(h, i, r);
    }
  }

  /** Every way to a root that the source follows ends. */
  ghost predicate WaysEnd<T>(g: map<T, T>, candidates: map<T, T>, files: seq<T>) {
    forall x :: 0 <= x < |files| && files[x] in candidates ==>
      var h := ImpliedAll(g, candidates, files[..x]); files[x] in h || Terminates(h, candidates[files[x]])
  }

  lemma AcyclicWaysEnd<T>(g: map<T, T>, candidates: map<T, T>, files: seq<T>)
    requires Acyclic(g) && Acyclic(Extended(g, candidates, files))
    ensures WaysEnd(g, candidates, files)
  {
    hide Acyclic, Terminates, Extended, ImpliedAll;
    forall x | 0 <= x < |files| && files[x] in candidates
      ensures Terminates(ImpliedAll(g, candidates, files[..x]), candidates[files[x]])
    {
      ExtendedLess(g, candidates, files, x);
      ImpliedAcyclicIff(g, candidates, files[..x]);
      AllTerminate(ImpliedAll(g, candidates, files[..x]), candidates[files[x]]);
    }
  }

  lemma {:induction false} ExtendedLess<T>(g: map<T, T>, candidates: map<T, T>, files: seq<T>, x: nat)
    requires x <= |files| && Acyclic(Extended(g, candidates, files))
    ensures Acyclic(Extended(g, candidates, files[..x]))
    decreases |files|
  {
    if x == |files| {
      assert files[..x] == files;
    } else {
      var before, i := files[..|files| - 1], files[|files| - 1];
      assert before + [i] == files && before[..x] == files[..x];
      ExtendedByOne(g, candidates, before, i);
      hide Acyclic, Extended;
      var e := Extended(g, candidates, before);
      if !Acyclic(e) && i !in e && i in candidates {
        CyclesStay(e, i, candidates[i]);
      }
      ExtendedLess(g, candidates, before, x);
    }
  }

  /** Over a whole run, the lines of the configuration and then the implicit proxies: from then on,
      following proxies ends from everywhere exactly when the configured proxies and the bare
      candidates make no cycle. */
  lemma FollowingEndsIff<T>(depth: T -> nat, lines: seq<Line<T>>, candidates: map<T, T>, files: seq<T>)
    requires AreLines(lines) && Acyclic(AssignedLines(map[], depth, lines))
    ensures var g := AssignedLines(map[], depth, lines);
      (forall i :: Terminates(ImpliedAll(g, candidates, files), i)) <==> Acyclic(Extended(g, candidates, files))
  {
    var g := AssignedLines(map[], depth, lines);
    hide Acyclic, Terminates, Extended, ImpliedAll, AssignedLines;
    ImpliedAcyclicIff(g, candidates, files);
    var h := ImpliedAll(g, candidates, files);
    AcyclicIff(h);
  }

  lemma AcyclicIff<T>(g: map<T, T>)
    ensures Acyclic(g) <==> forall i :: Terminates(g, i)
  {
    if Acyclic(g) {
      forall i
        ensures Terminates(g, i)
      {
        AllTerminate(g, i);
      }
    }
  }

  /** It can make a cycle: 2, which includes 1, has the proxy 1; the root of 2, which is 1, becomes its
      own proxy, and following it never ends. */
  lemma ImplicitCanCycle()
    ensures var g, candidates := map[2 := 1], map[1 := 2];
      Acyclic(g) && ImpliedAll(g, candidates, [1]) == g[1 := 1] && !Terminates(g[1 := 1], 1) && !Acyclic(g[1 := 1])
  {
    var g, candidates := map[2 := 1], map[1 := 2];
    assert Ends(g, 1, 0) && Ends(g, 2, 1);
    assert ReachesIn(g, 1, 1, 0) && ReachesIn(g, 2, 1, 1);
    ImpliedIs(g, candidates, 1, 1);
    assert [1][..0] == [];
    assert ImpliedAll(g, candidates, []) == g;
    assert ImpliedAll(g, candidates, [1]) == Implied(ImpliedAll(g, candidates, [1][..0]), candidates, [1][0]);
    assert ReachesIn(g[1 := 1], 1, 1, 0) && ReachesIn(g[1 := 1], 1, 1, 1);
    CycleNeverEnds(g[1 := 1], 1, 1);
    NotAcyclic(g[1 := 1], 1);
  }
}

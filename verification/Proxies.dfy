/** Proxies of include files: following them, configuring them, and choosing by them
    (src/include.c, src/proxies.c, src/config_file.c). */
module Proxies {
  import opened IncludeRecords
  import opened ProxyGraphs

  type Graph = map<Include, Include>

  /** The proxies of a set of include files. */
  ghost function GraphOf(all: set<Include>): Graph
    reads all
  {
    map i | i in all && i.proxy != null :: i.proxy
  }

  /** Proxies are include files of the same set. */
  ghost predicate IsClosed(all: set<Include>)
    reads all
  {
    forall i :: i in all && i.proxy != null ==> i.proxy in all
  }

  /** The source's `include_get_proxy`. */
  method GetProxy(include_: Include, ghost all: set<Include>) returns (r: Include)
    requires IsClosed(all) && include_ in all && Terminates(GraphOf(all), include_)
    ensures r in all && IsRoot(GraphOf(all), include_, r)
  {
    r := include_;
    ghost var g := GraphOf(all);
    ghost var left: nat :| Ends(g, include_, left);
    ghost var taken: nat := 0;
    assert ReachesIn(g, include_, include_, 0);
    while r.proxy != null
      invariant r in all && Ends(g, r, left) && ReachesIn(g, include_, r, taken)
      decreases left
    {
      ReachesStep(g, include_, r, taken);
      r := r.proxy;
      left, taken := left - 1, taken + 1;
    }
  }

  /** The source's `include_proxy_would_cycle`. It ends when it finds `from`, or when there is an end. */
  method ProxyWouldCycle(from: Include, to: Include, ghost all: set<Include>) returns (cycle: bool)
    requires IsClosed(all) && to in all && SearchEnds(GraphOf(all), from, to)
    ensures cycle <==> Reaches(GraphOf(all), to, from)
  {
    ghost var g := GraphOf(all);
    SearchIsBounded(g, from, to);
    ghost var left: nat :| IsLeft(g, from, to, left);
    var include_: Include? := to;
    while include_ != null
      invariant include_ != null ==> include_ in all && IsLeft<Include>(g, from, include_, left)
      invariant include_ != null ==> (Reaches(g, to, from) <==> Reaches<Include>(g, include_, from))
      invariant include_ == null ==> !Reaches(g, to, from)
      decreases if include_ == null then 0 else left + 1
    {
      if include_ == from {
        assert ReachesIn<Include>(g, include_, from, 0);
        return true;
      }
      OneStepLess<Include>(g, include_, from);
      if include_.proxy != null {
        left := left - 1;
      }
      include_ := include_.proxy;
    }
    return false;
  }

  /** The search is over after `n` steps at the latest. */
  ghost predicate IsLeft<T>(g: map<T, T>, from: T, i: T, n: nat) {
    Ends(g, i, n) || ReachesIn(g, i, from, n)
  }

  lemma SearchIsBounded<T>(g: map<T, T>, from: T, to: T)
    requires SearchEnds(g, from, to)
    ensures exists n: nat :: IsLeft(g, from, to, n)
  {
    if Terminates(g, to) {
      var n: nat :| Ends(g, to, n);
      assert IsLeft(g, from, to, n);
    } else {
      var n: nat :| ReachesIn(g, to, from, n);
      assert IsLeft(g, from, to, n);
    }
  }

  ghost function Depths(all: set<Include>): Include -> nat
    reads all`depth
  {
    var d := map i | i in all :: i.depth;
    i => if i in d then d[i] else 0
  }

  /** The file has no proxy when its turn comes, and `to` can become it. */
  ghost predicate GetsProxy(g: Graph, depth: Include -> nat, froms: seq<Include>, x: nat, to: Include)
    requires x < |froms|
  {
    var h := AssignedAll(g, depth, froms[..x], to);
    froms[x] !in h && !Reaches(h, to, froms[x])
  }

  lemma InGraphIff(all: set<Include>, i: Include)
    requires i in all
    ensures i in GraphOf(all) <==> i.proxy != null
  {
  }

  lemma NoTurn(g: Graph, depth: Include -> nat, to: Include)
    ensures AssignedAll(g, depth, [], to) == g && Refused(g, depth, [], to) == 0
  {
  }

  lemma Turn(g: Graph, depth: Include -> nat, froms: seq<Include>, x: nat, to: Include)
    requires x < |froms|
    ensures var h := AssignedAll(g, depth, froms[..x], to);
      var warned := froms[x] !in h && Reaches(h, to, froms[x]);
      && AssignedAll(g, depth, froms[..x + 1], to) == Assigned(h, depth, froms[x], to)
      && Refused(g, depth, froms[..x + 1], to) == Refused(g, depth, froms[..x], to) + (if warned then 1 else 0)
      && (GetsProxy(g, depth, froms, x, to) <==> froms[x] !in h && !warned)
  {
    assert froms[..x + 1][..x] == froms[..x];
  }

  /** The source's `proxy_parse_string`: makes `to` the proxy of the include files `froms`, which are
      those that the configured path fits, in the order of the table. It is required only that the
      source comes to an end. */
  method ProxyParseString(to: Include, froms: seq<Include>, ghost all: set<Include>) returns (warnings: nat)
    requires IsClosed(all) && to in all && (forall f :: f in froms ==> f in all) && AreDistinct(froms)
    requires SearchesEnd(GraphOf(all), Depths(all), froms, to)
    modifies (set f | f in froms)`proxy, (set f | f in froms)`isProxyExplicit
    ensures IsClosed(all) && GraphOf(all) == old(AssignedAll(GraphOf(all), Depths(all), froms, to))
    ensures old(Acyclic(GraphOf(all))) ==> (Acyclic(GraphOf(all)) <==> old(IsSafe(GraphOf(all), Depths(all), froms, to)))
    ensures warnings == old(Refused(GraphOf(all), Depths(all), froms, to))
    ensures forall x :: 0 <= x < |froms| ==>
        froms[x].isProxyExplicit == old(froms[x].isProxyExplicit || GetsProxy(GraphOf(all), Depths(all), froms, x, to))
  {
    hide Acyclic, Assigned, AssignedAll, Refused, GetsProxy, Reaches, SearchEnds, IsSafe, GraphOf;
    warnings := 0;
    ghost var g, depth := GraphOf(all), Depths(all);
    NoTurn(g, depth, to);
    for x := 0 to |froms|
      invariant IsClosed(all) && GraphOf(all) == AssignedAll(g, depth, froms[..x], to)
      invariant warnings == Refused(g, depth, froms[..x], to)
      invariant forall y :: 0 <= y < |froms| ==>
          froms[y].isProxyExplicit == (old(froms[y].isProxyExplicit) || (y < x && GetsProxy(g, depth, froms, y, to)))
    {
      Turn(g, depth, froms, x, to);
      InGraphIff(all, froms[x]);
      var warned := ProxyParseOne(froms[x], to, all);
      warnings := warnings + if warned then 1 else 0;
    }
    assert froms[..|froms|] == froms;
    if Acyclic(g) {
      ParseKeepsAcyclicIff(g, depth, froms, to);
    }
  }

  /** The body of the loop. */
  method ProxyParseOne(from: Include, to: Include, ghost all: set<Include>) returns (warned: bool)
    requires IsClosed(all) && from in all && to in all && (from.proxy != null || SearchEnds(GraphOf(all), from, to))
    modifies from`proxy, from`isProxyExplicit
    ensures IsClosed(all) && GraphOf(all) == Assigned(old(GraphOf(all)), Depths(all), from, to)
    ensures warned <==> old(from.proxy) == null && Reaches(old(GraphOf(all)), to, from)
    ensures from.isProxyExplicit == (old(from.isProxyExplicit) || (old(from.proxy) == null && !warned))
  {
    warned := false;
    ghost var g := GraphOf(all);
    if from.proxy != null {
      if to.depth < from.proxy.depth {
        from.proxy := to;
        assert GraphOf(all) == g[from := to];
      }
    } else {
      warned := ProxyWouldCycle(from, to, all);
      if !warned {
        from.proxy := to;
        from.isProxyExplicit := true;
        assert GraphOf(all) == g[from := to];
      }
    }
  }

  /** Where `implicit_proxies_visitor` gives `included`, which has no proxy, the root of `proxy` as its
      proxy: this keeps the graph acyclic exactly when `proxy` does not lead to `included`. */
  method SetImplicitProxy(included: Include, proxy: Include, ghost all: set<Include>)
    requires IsClosed(all) && included in all && proxy in all && included.proxy == null && Terminates(GraphOf(all), proxy)
    modifies included`proxy
    ensures IsClosed(all) && included.proxy != null
    ensures IsRoot<Include>(old(GraphOf(all)), proxy, included.proxy)
    ensures GraphOf(all) == old(GraphOf(all))[included := included.proxy]
    ensures old(Acyclic(GraphOf(all))) ==> (Acyclic(GraphOf(all)) <==> !Reaches(old(GraphOf(all)), proxy, included))
  {
    ghost var g := GraphOf(all);
    var root := GetProxy(proxy, all);
    included.proxy := root;
    assert GraphOf(all) == g[included := root];
    if Acyclic(g) {
      RootOfRoot(g, proxy, root);
      LinkKeepsAcyclicIff(g, included, root, root);
      if Reaches(g, proxy, included) {
        OneRoot(g, proxy, included, root);
      }
    }
  }

  /** The source's `implicit_proxies_init`, for the included files in the order of the directives; files
      that it skips have no candidate. It is required only that the source comes to an end. */
  method ImplicitProxies(files: seq<Include>, candidates: map<Include, Include>, ghost all: set<Include>)
    requires IsClosed(all) && (forall f :: f in files ==> f in all) && (forall f :: f in candidates ==> candidates[f] in all)
    requires WaysEnd(GraphOf(all), candidates, files)
    modifies (set f | f in files)`proxy
    ensures IsClosed(all) && GraphOf(all) == ImpliedAll(old(GraphOf(all)), candidates, files)
    ensures old(Acyclic(GraphOf(all))) ==> (Acyclic(GraphOf(all)) <==> Acyclic(Extended(old(GraphOf(all)), candidates, files)))
  {
    hide Acyclic, Terminates, IsRoot, Extended, Implied;
    ghost var g := GraphOf(all);
    for x := 0 to |files|
      invariant IsClosed(all) && GraphOf(all) == ImpliedAll(g, candidates, files[..x])
    {
      assert files[..x + 1][..x] == files[..x];
      ghost var h := GraphOf(all);
      var included := files[x];
      if included.proxy == null && included in candidates {
        SetImplicitProxy(included, candidates[included], all);
        ImpliedIs<Include>(h, candidates, included, included.proxy);
      } else {
        NothingImplied(h, candidates, included);
      }
    }
    assert files[..|files|] == files;
    if Acyclic(g) {
      ImpliedAcyclicIff(g, candidates, files);
    }
  }

  /** The source's `config_symbol_get_include`: of the include files configured for a symbol, the first
      one whose root is included most directly. It stops at the first root that is included
      directly. */
  method SymbolGetInclude(includes: seq<Include>, ghost all: set<Include>) returns (best: Include)
    requires includes != [] && (forall i :: i in includes ==> i in all) && IsClosed(all) && Acyclic(GraphOf(all))
    ensures exists k: nat :: IsFirstBest(includes, all, k, best)
  {
    hide IsFirstBest, Acyclic;
    ghost var g := GraphOf(all);
    ghost var k: nat := 0;
    AllTerminate(g, includes[0]);
    best := GetProxy(includes[0], all);
    FirstIsBest(includes, all, best);
    var i := 1;
    while best.depth > 0 && i < |includes|
      invariant 1 <= i <= |includes| && IsFirstBest(includes[..i], all, k, best)
    {
      AllTerminate(g, includes[i]);
      var include_ := GetProxy(includes[i], all);
      NextBest(includes, all, i, k, best, include_);
      if include_.depth < best.depth {
        best := include_;
        k := i;
      }
      i := i + 1;
    }
    assert includes[..|includes|] == includes;
    NoBetter(includes, all, i, k, best);
  }

  lemma FirstIsBest(includes: seq<Include>, all: set<Include>, best: Include)
    requires includes != [] && best in all && IsRoot(GraphOf(all), includes[0], best)
    ensures IsFirstBest(includes[..1], all, 0, best)
  {
    AsDeepAs(GraphOf(all), includes[0], best);
  }

  lemma NextBest(includes: seq<Include>, all: set<Include>, i: nat, k: nat, best: Include, r: Include)
    requires i < |includes| && IsFirstBest(includes[..i], all, k, best)
    requires r in all && IsRoot(GraphOf(all), includes[i], r)
    ensures if r.depth < best.depth then IsFirstBest(includes[..i + 1], all, i, r)
            else IsFirstBest(includes[..i + 1], all, k, best)
  {
    AsDeepAs(GraphOf(all), includes[i], r);
    assert forall j :: 0 <= j < i ==> includes[..i][j] == includes[..i + 1][j];
  }

  /** No root is included more directly than directly. */
  lemma NoBetter(includes: seq<Include>, all: set<Include>, i: nat, k: nat, best: Include)
    requires i <= |includes| && IsFirstBest(includes[..i], all, k, best) && (best.depth == 0 || i == |includes|)
    ensures IsFirstBest(includes, all, k, best)
  {
    assert forall j :: 0 <= j < i ==> includes[..i][j] == includes[j];
  }

  /** `best` is the root of the `k`th of the include files: no root has a smaller depth, and the root of
      none before it has the same one. */
  ghost predicate IsFirstBest(includes: seq<Include>, all: set<Include>, k: nat, best: Include)
    reads all
  {
    && k < |includes| && best in all && IsRoot(GraphOf(all), includes[k], best)
    && (forall j, r :: 0 <= j < |includes| && r in all && IsRoot(GraphOf(all), includes[j], r) ==> best.depth <= r.depth)
    && (forall j, r :: 0 <= j < k && r in all && IsRoot(GraphOf(all), includes[j], r) ==> best.depth < r.depth)
  }

  lemma AsDeepAs(g: Graph, i: Include, root: Include)
    requires IsRoot(g, i, root)
    ensures forall r :: IsRoot(g, i, r) ==> r == root
  {
    forall r | IsRoot(g, i, r)
      ensures r == root
    {
      OneRoot(g, i, r, root);
    }
  }
}

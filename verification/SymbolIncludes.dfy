/** Which include files are configured for which symbols (src/config_file.c). */
module SymbolIncludes {
  import opened IncludeRecords
  import opened ProxyGraphs
  import opened Proxies

  /** The elements of `s` without later duplicates. */
  function FirstOccurrences<T(==)>(s: seq<T>): seq<T> {
    if s == [] then [] else
      var before, x := s[..|s| - 1], s[|s| - 1];
      if x in before then FirstOccurrences(before) else FirstOccurrences(before) + [x]
  }

  lemma {:induction false} OccurOnce<T>(s: seq<T>)
    ensures AreDistinct(FirstOccurrences(s))
    ensures forall x :: x in FirstOccurrences(s) <==> x in s
  {
    if s == [] {
    } else {
      var before, x := s[..|s| - 1], s[|s| - 1];
      OccurOnce(before);
      assert s == before + [x];
    }
  }

  /** The include files configured for `symbol`, in order. */
  function ConfiguredFor(adds: seq<(string, Include)>, symbol: string): seq<Include> {
    if adds == [] then [] else
      ConfiguredFor(adds[..|adds| - 1], symbol) + if adds[|adds| - 1].0 == symbol then [adds[|adds| - 1].1] else []
  }

  /** `ns` are, in order, the places where something is configured for `symbol`. */
  ghost predicate AreFor(adds: seq<(string, Include)>, symbol: string, ns: seq<nat>) {
    && (forall j, k :: 0 <= j < k < |ns| ==> ns[j] < ns[k])
    && forall n: nat :: n in ns <==> IsFor(adds, symbol, n)
  }

  ghost predicate IsFor(adds: seq<(string, Include)>, symbol: string, n: nat) {
    n < |adds| && adds[n].0 == symbol
  }

  ghost predicate AreAt(adds: seq<(string, Include)>, ns: seq<nat>, found: seq<Include>) {
    && |found| == |ns|
    && forall k :: 0 <= k < |ns| ==> ns[k] < |adds| && found[k] == adds[ns[k]].1
  }

  /** Those configured for a symbol are all that were configured with it, in the order of that. */
  lemma {:induction false} ConfiguredInOrder(adds: seq<(string, Include)>, symbol: string) returns (ns: seq<nat>)
    ensures AreFor(adds, symbol, ns) && AreAt(adds, ns, ConfiguredFor(adds, symbol))
  {
    if adds == [] {
      ns := [];
    } else {
      hide AreFor, AreAt;
      var before, add := adds[..|adds| - 1], adds[|adds| - 1];
      assert adds == before + [add];
      ns := ConfiguredInOrder(before, symbol);
      OneMoreFor(before, add, symbol, ns);
      OneMoreAt(before, add, ns, ConfiguredFor(before, symbol));
      ns := if add.0 == symbol then ns + [|before|] else ns;
    }
  }

  lemma OneMoreFor(before: seq<(string, Include)>, add: (string, Include), symbol: string, ns: seq<nat>)
    requires AreFor(before, symbol, ns)
    ensures AreFor(before + [add], symbol, if add.0 == symbol then ns + [|before|] else ns)
  {
    hide IsFor;
    forall n: nat
      ensures IsFor(before + [add], symbol, n) <==> IsFor(before, symbol, n) || (n == |before| && add.0 == symbol)
      ensures IsFor(before, symbol, n) ==> n < |before|
    {
      ForOneMore(before, add, symbol, n);
    }
    forall k | 0 <= k < |ns|
      ensures ns[k] < |before|
    {
      assert ns[k] in ns;
    }
  }

  lemma ForOneMore(before: seq<(string, Include)>, add: (string, Include), symbol: string, n: nat)
    ensures IsFor(before + [add], symbol, n) <==> IsFor(before, symbol, n) || (n == |before| && add.0 == symbol)
    ensures IsFor(before, symbol, n) ==> n < |before|
  {
  }

  lemma OneMoreAt(before: seq<(string, Include)>, add: (string, Include), ns: seq<nat>, found: seq<Include>)
    requires AreAt(before, ns, found)
    ensures AreAt(before + [add], ns, found) && AreAt(before + [add], ns + [|before|], found + [add.1])
    ensures found + [] == found
  {
  }

  /** Configuring an include file again changes nothing: the best one is the first best of all. */
  lemma {:induction false} DuplicatesDoNotMatter(s: seq<Include>, all: set<Include>, k: nat, best: Include)
    requires IsFirstBest(FirstOccurrences(s), all, k, best)
    ensures exists j: nat :: IsFirstBest(s, all, j, best)
  {
    var before, x, firsts := s[..|s| - 1], s[|s| - 1], FirstOccurrences(s);
    assert s == before + [x];
    OccurOnce(s);
    OccurOnce(before);
    if k < |FirstOccurrences(before)| {
      BestBefore(firsts, FirstOccurrences(before), all, k, best);
      DuplicatesDoNotMatter(before, all, k, best);
      var j: nat :| IsFirstBest(before, all, j, best);
      assert x in firsts;
      StillBest(before, x, firsts, all, j, k, best);
    } else {
      LastIsBest(before, x, firsts, all, best);
    }
  }

  lemma BestBefore(firsts: seq<Include>, before: seq<Include>, all: set<Include>, k: nat, best: Include)
    requires IsFirstBest(firsts, all, k, best) && before <= firsts && k < |before|
    ensures IsFirstBest(before, all, k, best)
  {
    assert forall j :: 0 <= j < |before| ==> before[j] == firsts[j];
  }

  lemma StillBest(before: seq<Include>, x: Include, firsts: seq<Include>, all: set<Include>, j: nat, k: nat, best: Include)
    requires IsFirstBest(before, all, j, best) && IsFirstBest(firsts, all, k, best) && x in firsts
    ensures IsFirstBest(before + [x], all, j, best)
  {
    var s := before + [x];
    var i :| 0 <= i < |firsts| && firsts[i] == x;
    forall m, r | 0 <= m < |s| && r in all && IsRoot(GraphOf(all), s[m], r)
      ensures best.depth <= r.depth
    {
      if m < |before| {
        assert before[m] == s[m];
      } else {
        assert IsRoot(GraphOf(all), firsts[i], r);
      }
    }
    assert forall m :: 0 <= m < j ==> s[m] == before[m];
  }

  lemma LastIsBest(before: seq<Include>, x: Include, firsts: seq<Include>, all: set<Include>, best: Include)
    requires firsts == FirstOccurrences(before) + [x] && IsFirstBest(firsts, all, |firsts| - 1, best)
    ensures IsFirstBest(before + [x], all, |before|, best)
  {
    var s := before + [x];
    forall m, r | 0 <= m < |before| && r in all && IsRoot(GraphOf(all), s[m], r)
      ensures best.depth < r.depth
    {
      OccurOnce(before);
      assert s[m] == before[m] && s[m] in FirstOccurrences(before);
      var i :| 0 <= i < |firsts| - 1 && FirstOccurrences(before)[i] == s[m];
      assert IsRoot(GraphOf(all), firsts[i], r);
    }
    forall m, r | 0 <= m < |s| && r in all && IsRoot(GraphOf(all), s[m], r)
      ensures best.depth <= r.depth
    {
      if m == |before| {
        assert s[m] == firsts[|firsts| - 1];
      }
    }
  }

  /** The source's `symbol_includes_map`; an array of include files goes with a set of them. */
  class SymbolIncludesMap {
    var toIncludes: map<string, seq<Include>>

    ghost predicate Valid()
      reads this
    {
      forall symbol :: symbol in toIncludes ==> toIncludes[symbol] != [] && AreDistinct(toIncludes[symbol])
    }

    /** That the map is what `adds` make it. */
    ghost predicate Reflects(adds: seq<(string, Include)>)
      reads this
    {
      forall symbol :: FirstOccurrences(ConfiguredFor(adds, symbol)) ==
        if symbol in toIncludes then toIncludes[symbol] else []
    }

    constructor ()
      ensures Valid() && Reflects([])
    {
      toIncludes := map[];
    }

    /** The source's `symbol_include_add`. */
    method Add(symbol: string, to: Include, ghost adds: seq<(string, Include)>)
      requires Valid() && Reflects(adds)
      modifies this
      ensures Valid() && Reflects(adds + [(symbol, to)])
    {
      hide FirstOccurrences, ConfiguredFor, AreDistinct;
      OccurOnce(ConfiguredFor(adds + [(symbol, to)], symbol));
      if symbol !in toIncludes {
        toIncludes := toIncludes[symbol := [to]];
      } else if to !in toIncludes[symbol] {
        toIncludes := toIncludes[symbol := toIncludes[symbol] + [to]];
      }
      forall name
        ensures FirstOccurrences(ConfiguredFor(adds + [(symbol, to)], name)) ==
                if name in toIncludes then toIncludes[name] else []
      {
        OneMoreConfigured(adds, symbol, to, name);
        assert old(FirstOccurrences(ConfiguredFor(adds, name)) == if name in toIncludes then toIncludes[name] else []);
      }
    }

    /** The source's `config_symbol_get_include`: null unless an include file is configured for the
        symbol; otherwise the first one, of all ever added, whose root is included most directly. */
    method GetInclude(symbol: string, ghost adds: seq<(string, Include)>, ghost all: set<Include>) returns (best: Include?)
      requires Valid() && Reflects(adds)
      requires (forall a :: a in adds ==> a.1 in all) && IsClosed(all) && Acyclic(GraphOf(all))
      ensures best == null <==> ConfiguredFor(adds, symbol) == []
      ensures best != null ==> exists k: nat :: IsFirstBest(ConfiguredFor(adds, symbol), all, k, best)
    {
      hide IsFirstBest, Acyclic, FirstOccurrences, ConfiguredFor;
      OccurOnce(ConfiguredFor(adds, symbol));
      assert FirstOccurrences(ConfiguredFor(adds, symbol)) == if symbol in toIncludes then toIncludes[symbol] else [];
      SomeOccurrence(ConfiguredFor(adds, symbol));
      if symbol !in toIncludes {
        return null;
      }
      AllConfigured(adds, symbol, all);
      best := SymbolGetInclude(toIncludes[symbol], all);
      ghost var k: nat :| IsFirstBest(toIncludes[symbol], all, k, best);
      DuplicatesDoNotMatter(ConfiguredFor(adds, symbol), all, k, best);
    }
  }

  lemma SomeOccurrence<T>(s: seq<T>)
    ensures FirstOccurrences(s) == [] <==> s == []
  {
    OccurOnce(s);
    if s != [] {
      assert s[0] in FirstOccurrences(s);
    }
  }

  lemma {:induction false} AllConfigured(adds: seq<(string, Include)>, symbol: string, all: set<Include>)
    requires forall a :: a in adds ==> a.1 in all
    ensures forall i :: i in ConfiguredFor(adds, symbol) ==> i in all
  {
    if adds == [] {
    } else {
      AllConfigured(adds[..|adds| - 1], symbol, all);
    }
  }

  lemma OneMoreConfigured(adds: seq<(string, Include)>, symbol: string, to: Include, name: string)
    ensures var before := ConfiguredFor(adds, name);
      FirstOccurrences(ConfiguredFor(adds + [(symbol, to)], name)) ==
        if name != symbol || to in FirstOccurrences(before) then FirstOccurrences(before) else FirstOccurrences(before) + [to]
  {
    var more := adds + [(symbol, to)];
    assert more[..|more| - 1] == adds;
    var before := ConfiguredFor(adds, name);
    assert before + [] == before;
    OccurOnce(before);
    assert (before + [to])[..|before|] == before;
  }
}

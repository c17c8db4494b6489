/** What `make_symbols_comment` of src/include.c does to the symbols of an include file: sorted by
    name, those of the same name are merged and their reference counts added up. */
module Symbols {
  import opened DynamicArrays
  import opened Sums

  /** `refCount` is an `unsigned`. */
  datatype Symbol = Symbol(key: string, name: string, refCount: nat)

  const UINT_RANGE: nat := 0x1_0000_0000

  // ----- strcmp -----

  function StrCmp(a: string, b: string): int {
    if a == "" then if b == "" then 0 else -1
    else if b == "" then 1
    else if a[0] != b[0] then a[0] as int - b[0] as int
    else StrCmp(a[1..], b[1..])
  }

  lemma {:induction false} StrCmpIsEquality(a: string, b: string)
    ensures StrCmp(a, b) == 0 <==> a == b
  {
    if a == "" || b == "" || a[0] != b[0] {
    } else {
      StrCmpIsEquality(a[1..], b[1..]);
      assert a == [a[0]] + a[1..] && b == [b[0]] + b[1..];
    }
  }

  /** `a` comes before `b`: it is a proper prefix, or smaller where they first differ. */
  ghost predicate IsSmaller(a: string, b: string) {
    exists n: nat :: IsSmallerAt(a, b, n)
  }

  predicate IsSmallerAt(a: string, b: string, n: nat) {
    n <= |a| && n < |b| && a[..n] == b[..n] && (n == |a| || a[n] < b[n])
  }

  lemma {:induction false} StrCmpIsSmaller(a: string, b: string)
    ensures StrCmp(a, b) < 0 <==> IsSmaller(a, b)
  {
    if a == "" || b == "" || a[0] != b[0] {
      assert a[..0] == b[..0] && (StrCmp(a, b) < 0 ==> IsSmallerAt(a, b, 0));
      forall n: nat | IsSmallerAt(a, b, n)
        ensures n == 0
      {
        SmallerAtOnce(a, b, n);
      }
    } else {
      StrCmpIsSmaller(a[1..], b[1..]);
      if IsSmaller(a[1..], b[1..]) {
        var n: nat :| IsSmallerAt(a[1..], b[1..], n);
        SmallerAfter(a, b, n);
      }
      if IsSmaller(a, b) {
        var n: nat :| IsSmallerAt(a, b, n);
        SmallerAfter(a, b, n);
      }
    }
  }

  lemma SmallerAtOnce(a: string, b: string, n: nat)
    requires a == "" || b == "" || a[0] != b[0]
    ensures IsSmallerAt(a, b, n) ==> n == 0
  {
    if 0 < n <= |a| && n <= |b| {
      assert a[..n][0] == a[0] && b[..n][0] == b[0];
    }
  }

  lemma SmallerAfter(a: string, b: string, n: nat)
    requires a != "" && b != "" && a[0] == b[0]
    ensures IsSmallerAt(a[1..], b[1..], n) ==> IsSmallerAt(a, b, n + 1)
    ensures n > 0 && IsSmallerAt(a, b, n) ==> IsSmallerAt(a[1..], b[1..], n - 1)
  {
    if IsSmallerAt(a[1..], b[1..], n) {
      assert a[..n + 1] == [a[0]] + a[1..][..n] && b[..n + 1] == [b[0]] + b[1..][..n];
    }
    if n > 0 && IsSmallerAt(a, b, n) {
      assert a[1..][..n - 1] == a[..n][1..] && b[1..][..n - 1] == b[..n][1..];
    }
  }

  lemma {:induction false} StrCmpIsTransitive(a: string, b: string, c: string)
    requires StrCmp(a, b) <= 0 && StrCmp(b, c) <= 0
    ensures StrCmp(a, c) <= 0 && (StrCmp(a, c) == 0 ==> StrCmp(a, b) == 0 && StrCmp(b, c) == 0)
  {
    if a == "" || b == "" || c == "" || a[0] != b[0] || b[0] != c[0] {
    } else {
      StrCmpIsTransitive(a[1..], b[1..], c[1..]);
    }
  }

  // ----- Merging -----

  ghost predicate Wellformed(s: seq<Symbol>) {
    forall i :: 0 <= i < |s| ==> s[i].refCount < UINT_RANGE
  }

  ghost predicate SortedByName(s: seq<Symbol>) {
    forall i, j :: 0 <= i < j < |s| ==> StrCmp(s[i].name, s[j].name) <= 0
  }

  ghost predicate StrictlySortedByName(s: seq<Symbol>) {
    forall i, j :: 0 <= i < j < |s| ==> StrCmp(s[i].name, s[j].name) < 0
  }

  /** The source's `symbol_merge_by_name`; `unsigned` addition wraps around. */
  function MergeByName(unique: Symbol, maybeDup: Symbol): (Symbol, bool) {
    if StrCmp(unique.name, maybeDup.name) == 0
    then (unique.(refCount := (unique.refCount + maybeDup.refCount) % UINT_RANGE), true)
    else (unique, false)
  }

  /** How often the symbols named `name` are referenced altogether. */
  function Total(s: seq<Symbol>, name: string): nat {
    if s == [] then 0
    else Total(s[..|s| - 1], name) + if s[|s| - 1].name == name then s[|s| - 1].refCount else 0
  }

  /** A total adds up the references of each symbol of that name, wherever it is. */
  lemma {:induction false} TotalOfBoth(a: seq<Symbol>, b: seq<Symbol>, name: string)
    ensures Total(a + b, name) == Total(a, name) + Total(b, name)
    ensures |b| == 1 ==> Total(b, name) == if b[0].name == name then b[0].refCount else 0
  {
    if b == [] {
      assert a + b == a;
    } else {
      var before := b[..|b| - 1];
      TotalOfBoth(a, before, name);
      assert (a + b)[..|a + b| - 1] == a + before;
    }
  }

  lemma {:induction false} MergeSorts(s: seq<Symbol>)
    requires SortedByName(s)
    ensures StrictlySortedByName(Kept(MergeByName, s))
    ensures s != [] ==> Last(Kept(MergeByName, s)).name == Last(s).name
  {
    if |s| <= 1 {
    } else {
      var before, x := s[..|s| - 1], Last(s);
      MergeSorts(before);
      var kept := Kept(MergeByName, before);
      OneMoreSymbol(s);
      hide Kept;
      StrCmpIsEquality(Last(kept).name, Last(kept).name);
      assert StrCmp(Last(before).name, x.name) <= 0;
      forall i | 0 <= i < |kept|
        ensures StrCmp(kept[i].name, x.name) < 0 || StrCmp(Last(kept).name, x.name) == 0
      {
        StrCmpIsTransitive(kept[i].name, Last(kept).name, x.name);
      }
      StrCmpIsEquality(Last(kept).name, x.name);
    }
  }

  function Last(s: seq<Symbol>): Symbol
    requires s != []
  {
    s[|s| - 1]
  }

  /** How the last of the symbols changes what is kept. */
  lemma OneMoreSymbol(s: seq<Symbol>)
    requires |s| > 1
    ensures var kept, x := Kept(MergeByName, s[..|s| - 1]), Last(s);
      kept != [] && Kept(MergeByName, s) ==
        if StrCmp(Last(kept).name, x.name) == 0
        then kept[|kept| - 1 := Last(kept).(refCount := (Last(kept).refCount + x.refCount) % UINT_RANGE)]
        else kept + [x]
  {
    var kept := Kept(MergeByName, s[..|s| - 1]);
    assert kept[..|kept| - 1] + [Last(kept)] == kept;
  }

  /** The same `unsigned` value. */
  predicate Congruent(a: int, b: int) {
    a % UINT_RANGE == b % UINT_RANGE
  }

  lemma CongruentSums(a': int, a: int, b: int, r: int)
    requires Congruent(a', a + r) && Congruent(a, b)
    ensures Congruent(a', b + r)
  {
  }

  lemma {:induction false} MergeKeepsTotals(s: seq<Symbol>, name: string)
    ensures Congruent(Total(Kept(MergeByName, s), name), Total(s, name))
  {
    if |s| <= 1 {
    } else {
      MergeKeepsTotals(s[..|s| - 1], name);
      TotalsOfOneMore(s, name);
    }
  }

  lemma TotalsOfOneMore(s: seq<Symbol>, name: string)
    requires |s| > 1
    requires Congruent(Total(Kept(MergeByName, s[..|s| - 1]), name), Total(s[..|s| - 1], name))
    ensures Congruent(Total(Kept(MergeByName, s), name), Total(s, name))
  {
    hide Kept, Congruent, Total;
    var before, x := s[..|s| - 1], Last(s);
    var kept := Kept(MergeByName, before);
    OneMoreSymbol(s);
    TotalOfLast(s, name);
    TotalAfterMerge(kept, x, name);
    CongruentSums(Total(Kept(MergeByName, s), name), Total(kept, name), Total(before, name), Counted(x, name));
  }

  function Counted(x: Symbol, name: string): nat {
    if x.name == name then x.refCount else 0
  }

  lemma TotalOfLast(s: seq<Symbol>, name: string)
    requires s != []
    ensures Total(s, name) == Total(s[..|s| - 1], name) + Counted(Last(s), name)
  {
  }

  lemma TotalAfterMerge(kept: seq<Symbol>, x: Symbol, name: string)
    requires kept != []
    ensures var kept' := if StrCmp(Last(kept).name, x.name) == 0
        then kept[|kept| - 1 := Last(kept).(refCount := (Last(kept).refCount + x.refCount) % UINT_RANGE)]
        else kept + [x];
      Congruent(Total(kept', name), Total(kept, name) + Counted(x, name))
  {
    StrCmpIsEquality(Last(kept).name, x.name);
    if StrCmp(Last(kept).name, x.name) == 0 {
      TotalOfUpdate(kept, (Last(kept).refCount + x.refCount) % UINT_RANGE, name);
    } else {
      assert (kept + [x])[..|kept|] == kept;
    }
  }

  lemma TotalOfUpdate(s: seq<Symbol>, refCount: nat, name: string)
    requires s != []
    ensures var r := if Last(s).name == name then refCount as int - Last(s).refCount else 0;
      Total(s[|s| - 1 := Last(s).(refCount := refCount)], name) == Total(s, name) + r
  {
    assert s[|s| - 1 := Last(s).(refCount := refCount)][..|s| - 1] == s[..|s| - 1];
  }

  /** Every symbol kept is the first of its name, except for its reference count. */
  lemma {:induction false} MergeKeepsFirst(s: seq<Symbol>, k: nat)
    requires k < |Kept(MergeByName, s)|
    ensures var x := Kept(MergeByName, s)[k];
      exists i: nat :: IsFirstOfRun(s, i) && s[i].key == x.key && s[i].name == x.name
  {
    if |s| > 1 {
      var before := s[..|s| - 1];
      MergeLast(before);
      if k < |Kept(MergeByName, before)| {
        MergeKeepsFirst(before, k);
      }
      FirstOfOneMore(s, k);
    } else {
      assert IsFirstOfRun(s, 0);
    }
  }

  lemma FirstOfOneMore(s: seq<Symbol>, k: nat)
    requires |s| > 1 && k < |Kept(MergeByName, s)|
    requires var before := s[..|s| - 1];
      && Last(Kept(MergeByName, before)).name == Last(before).name
      && (k < |Kept(MergeByName, before)| ==>
            var x := Kept(MergeByName, before)[k];
            exists i: nat :: IsFirstOfRun(before, i) && before[i].key == x.key && before[i].name == x.name)
    ensures var x := Kept(MergeByName, s)[k];
      exists i: nat :: IsFirstOfRun(s, i) && s[i].key == x.key && s[i].name == x.name
  {
    hide Kept, StrCmp;
    var before, x := s[..|s| - 1], Last(s);
    var kept := Kept(MergeByName, before);
    OneMoreSymbol(s);
    StrCmpIsEquality(Last(kept).name, x.name);
    if k < |kept| {
      var i: nat :| IsFirstOfRun(before, i) && before[i].key == kept[k].key && before[i].name == kept[k].name;
      assert IsFirstOfRun(s, i);
    } else {
      assert IsFirstOfRun(s, |s| - 1);
    }
  }

  predicate IsFirstOfRun(s: seq<Symbol>, i: nat) {
    i < |s| && (i == 0 || s[i - 1].name != s[i].name)
  }

  lemma {:induction false} MergeLast(s: seq<Symbol>)
    requires s != []
    ensures Last(Kept(MergeByName, s)).name == Last(s).name
  {
    if |s| > 1 {
      OneMoreSymbol(s);
      StrCmpIsEquality(Last(Kept(MergeByName, s[..|s| - 1])).name, Last(s).name);
    }
  }

  // ----- The whole comment list -----

  lemma {:induction false} TotalIsSum(s: seq<Symbol>, name: string)
    ensures Total(s, name) == Sum((x: Symbol) => Counted(x, name), s)
  {
    if s == [] {
    } else {
      TotalIsSum(s[..|s| - 1], name);
    }
  }

  /** The sort before the merge does not change the totals. */
  lemma TotalOfPermutation(s: seq<Symbol>, t: seq<Symbol>, name: string)
    requires multiset(s) == multiset(t)
    ensures Total(s, name) == Total(t, name)
  {
    TotalIsSum(s, name);
    TotalIsSum(t, name);
    SumOfPermutation((x: Symbol) => Counted(x, name), s, t);
  }

  /** Of symbols with pairwise different names, one is all there is of its name. */
  lemma {:induction false} TotalOfOne(s: seq<Symbol>, k: nat)
    requires StrictlySortedByName(s) && k < |s|
    ensures Total(s, s[k].name) == s[k].refCount
  {
    var rest := s[..|s| - 1];
    if k == |s| - 1 {
      NoneOfName(rest, s[k].name);
    } else {
      StrCmpIsEquality(s[k].name, Last(s).name);
      TotalOfOne(rest, k);
    }
  }

  lemma {:induction false} NoneOfName(s: seq<Symbol>, name: string)
    requires forall i :: 0 <= i < |s| ==> StrCmp(s[i].name, name) < 0
    ensures Total(s, name) == 0
  {
    if s == [] {
    } else {
      StrCmpIsEquality(Last(s).name, name);
      NoneOfName(s[..|s| - 1], name);
    }
  }

  /** Merges symbols already sorted by name, a permutation of `symbols`: afterwards the names are
      strictly increasing, and every symbol has the total reference count of its name. */
  method MergeSymbols(a: DynamicArray<Symbol>, ghost symbols: seq<Symbol>)
    requires a.Valid() && SortedByName(a.Contents()) && Wellformed(symbols)
    requires multiset(a.Contents()) == multiset(symbols)
    modifies a, a.elements
    ensures a.Valid() && StrictlySortedByName(a.Contents())
    ensures forall k :: k in a.Contents() ==> k.refCount == Total(symbols, k.name) % UINT_RANGE
    ensures forall x :: x in symbols ==> HasName(a.Contents(), x.name)
    ensures forall k :: k in a.Contents() ==> HasName(symbols, k.name)
  {
    ghost var s := a.Contents();
    var freed := a.Merge(MergeByName);
    MergedSymbols(s, symbols);
  }

  lemma MergedSymbols(s: seq<Symbol>, symbols: seq<Symbol>)
    requires SortedByName(s) && Wellformed(symbols) && multiset(s) == multiset(symbols)
    ensures var kept := Kept(MergeByName, s);
      && StrictlySortedByName(kept)
      && (forall k :: k in kept ==> k.refCount == Total(symbols, k.name) % UINT_RANGE)
      && (forall x :: x in symbols ==> HasName(kept, x.name))
      && (forall k :: k in kept ==> HasName(symbols, k.name))
  {
    var kept := Kept(MergeByName, s);
    MergeSorts(s);
    hide Kept, Total, SortedByName, StrictlySortedByName;
    forall i | 0 <= i < |s|
      ensures s[i].refCount < UINT_RANGE
    {
      assert s[i] in multiset(symbols);
    }
    MergeStaysInRange(s);
    forall k | 0 <= k < |kept|
      ensures kept[k].refCount == Total(symbols, kept[k].name) % UINT_RANGE
    {
      CountIsTotal(s, symbols, k);
    }
    forall x | x in symbols
      ensures HasName(kept, x.name)
    {
      assert x in multiset(s);
      MergeKeepsNames(s, x.name);
    }
    forall k | k in kept
      ensures HasName(symbols, k.name)
    {
      MergeKeepsNames(s, k.name);
      var x :| x in s && x.name == k.name;
      assert x in multiset(symbols);
    }
  }

  ghost predicate HasName(s: seq<Symbol>, name: string) {
    exists x :: x in s && x.name == name
  }

  lemma CountIsTotal(s: seq<Symbol>, symbols: seq<Symbol>, k: nat)
    requires multiset(s) == multiset(symbols) && k < |Kept(MergeByName, s)|
    requires StrictlySortedByName(Kept(MergeByName, s)) && Wellformed(Kept(MergeByName, s))
    ensures var x := Kept(MergeByName, s)[k]; x.refCount == Total(symbols, x.name) % UINT_RANGE
  {
    hide Kept, Total, StrictlySortedByName;
    var kept := Kept(MergeByName, s);
    MergeKeepsTotals(s, kept[k].name);
    TotalOfPermutation(s, symbols, kept[k].name);
    TotalOfOne(kept, k);
  }

  lemma {:induction false} MergeStaysInRange(s: seq<Symbol>)
    requires Wellformed(s)
    ensures Wellformed(Kept(MergeByName, s))
  {
    if |s| <= 1 {
    } else {
      MergeStaysInRange(s[..|s| - 1]);
      OneMoreSymbol(s);
      hide Kept;
    }
  }

  lemma {:induction false} MergeKeepsNames(s: seq<Symbol>, name: string)
    ensures HasName(Kept(MergeByName, s), name) <==> HasName(s, name)
  {
    if |s| <= 1 {
    } else {
      MergeKeepsNames(s[..|s| - 1], name);
      NamesOfAll(s, name);
    }
  }

  lemma NamesOfAll(s: seq<Symbol>, name: string)
    requires |s| > 1
    requires HasName(Kept(MergeByName, s[..|s| - 1]), name) <==> HasName(s[..|s| - 1], name)
    ensures HasName(Kept(MergeByName, s), name) <==> HasName(s, name)
  {
    hide Kept, HasName, StrCmp;
    OneMoreSymbol(s);
    NamesOfOneMore(s[..|s| - 1], Last(s), Kept(MergeByName, s[..|s| - 1]), Kept(MergeByName, s), name);
    assert s == s[..|s| - 1] + [Last(s)];
  }

  lemma NamesOfOneMore(before: seq<Symbol>, x: Symbol, kept: seq<Symbol>, kept': seq<Symbol>, name: string)
    requires HasName(kept, name) <==> HasName(before, name)
    requires kept != [] && kept' ==
        if StrCmp(Last(kept).name, x.name) == 0
        then kept[|kept| - 1 := Last(kept).(refCount := (Last(kept).refCount + x.refCount) % UINT_RANGE)]
        else kept + [x]
    ensures HasName(kept', name) <==> HasName(before + [x], name)
  {
    hide HasName, StrCmp;
    OneMoreName(before, x, name);
    NamesAfterMerge(kept, x, name);
  }

  lemma NamesAfterMerge(kept: seq<Symbol>, x: Symbol, name: string)
    requires kept != []
    ensures var kept' := if StrCmp(Last(kept).name, x.name) == 0
        then kept[|kept| - 1 := Last(kept).(refCount := (Last(kept).refCount + x.refCount) % UINT_RANGE)]
        else kept + [x];
      HasName(kept', name) <==> HasName(kept, name) || x.name == name
  {
    hide HasName;
    var first := kept[..|kept| - 1];
    var last := Last(kept).(refCount := (Last(kept).refCount + x.refCount) % UINT_RANGE);
    StrCmpIsEquality(Last(kept).name, x.name);
    assert kept == first + [Last(kept)] && kept[|kept| - 1 := last] == first + [last];
    OneMoreName(first, Last(kept), name);
    OneMoreName(first, last, name);
    OneMoreName(kept, x, name);
  }

  lemma OneMoreName(s: seq<Symbol>, x: Symbol, name: string)
    ensures HasName(s + [x], name) <==> HasName(s, name) || x.name == name
  {
    if HasName(s, name) {
      var y :| y in s && y.name == name;
      assert y in s + [x];
    }
    assert x in s + [x];
  }
}

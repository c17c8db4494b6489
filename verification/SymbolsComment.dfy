/** The comment that lists the symbols used of an include file: `make_symbols_comment` of
    src/include.c, once the symbols are sorted. */
module SymbolsComment {
  import opened Wrappers
  import opened DynamicArrays
  import opened Symbols

  // ----- As many symbols as fit on the line -----

  function List(names: seq<string>): string {
    if names == [] then ""
    else List(names[..|names| - 1]) + (if |names| > 1 then ", " else "") + names[|names| - 1]
  }

  /** Whether another name follows the first `k`: `fixedLen` is what else is on the line. */
  predicate Follows(names: seq<string>, k: nat, fixedLen: nat, lineLength: nat)
    requires k < |names|
  {
    List(names[..k]) == "" || fixedLen + |List(names[..k + 1])| <= lineLength
  }

  /** The first `k` names are those that are listed. */
  ghost predicate AreListed(names: seq<string>, k: nat, fixedLen: nat, lineLength: nat) {
    && k <= |names|
    && (forall j :: 0 <= j < k ==> Follows(names, j, fixedLen, lineLength))
    && (k < |names| ==> !Follows(names, k, fixedLen, lineLength))
  }

  /** Dots say that there are more names, if there is room for them. */
  function Comment(names: seq<string>, k: nat, fixedLen: nat, lineLength: nat): string
    requires k <= |names|
  {
    var list := List(names[..k]);
    if k < |names| && fixedLen + |list| + |", ..."| <= lineLength then list + ", ..." else list
  }

  /** The end of the source's `make_symbols_comment`; without symbols there is no comment. */
  method FillComment(names: seq<string>, fixedLen: nat, lineLength: nat) returns (comment: string)
    ensures exists k: nat :: AreListed(names, k, fixedLen, lineLength) && comment == Comment(names, k, fixedLen, lineLength)
  {
    comment := "";
    var comma := false;
    for k := 0 to |names|
      invariant comment == List(names[..k]) && (comma <==> k > 0)
      invariant forall j :: 0 <= j < k ==> Follows(names, j, fixedLen, lineLength)
    {
      assert names[..k + 1][..k] == names[..k];
      var name := names[k];
      var addLen := (if comma then |", "| else 0) + |name|;
      if |comment| > 0 && fixedLen + |comment| + addLen > lineLength {
        assert AreListed(names, k, fixedLen, lineLength);
        if fixedLen + |comment| + |", ..."| <= lineLength {
          comment := comment + ", " + "...";
        }
        return;
      }
      comment := comment + (if comma then ", " else "") + name;
      comma := true;
    }
    assert AreListed(names, |names|, fixedLen, lineLength);
  }

  lemma ListedAreUnique(names: seq<string>, j: nat, k: nat, fixedLen: nat, lineLength: nat)
    requires AreListed(names, j, fixedLen, lineLength) && AreListed(names, k, fixedLen, lineLength)
    ensures j == k
  {
  }

  ghost predicate AreNames(names: seq<string>) {
    forall i :: 0 <= i < |names| ==> names[i] != ""
  }

  lemma {:induction false} ListsGrow(names: seq<string>, k: nat)
    requires k <= |names|
    ensures |List(names[..k])| <= |List(names)|
    ensures AreNames(names) && k > 0 ==> List(names[..k]) != ""
  {
    if k < |names| {
      ListsGrow(names[..|names| - 1], k);
      assert names[..|names| - 1][..k] == names[..k];
    } else {
      assert names[..k] == names;
    }
  }

  lemma NoList(names: seq<string>)
    ensures List(names[..0]) == ""
  {
  }

  /** The comment fits on the line unless it is a single name. */
  lemma CommentFits(names: seq<string>, k: nat, fixedLen: nat, lineLength: nat)
    requires AreNames(names) && names != [] && AreListed(names, k, fixedLen, lineLength)
    ensures k > 0
    ensures var comment := Comment(names, k, fixedLen, lineLength);
      fixedLen + |comment| <= lineLength || (k == 1 && comment == names[0])
  {
    NoList(names);
    if k > 1 {
      ListsGrow(names, k - 1);
      assert Follows(names, k - 1, fixedLen, lineLength);
    }
    assert names[..1] == [names[0]];
  }

  /** All names are listed exactly when that fits on the line or there is but one. */
  lemma AllListedIff(names: seq<string>, k: nat, fixedLen: nat, lineLength: nat)
    requires AreNames(names) && AreListed(names, k, fixedLen, lineLength)
    ensures k == |names| <==> |names| <= 1 || fixedLen + |List(names)| <= lineLength
  {
    NoList(names);
    hide List;
    if k == |names| && |names| > 1 {
      CommentFits(names, k, fixedLen, lineLength);
      assert names[..k] == names;
    }
    if k < |names| {
      ListsGrow(names, k + 1);
    }
  }

  /** The listed names are as many of the first ones as fit on the line, and at least one. */
  lemma ListedIff(names: seq<string>, k: nat, fixedLen: nat, lineLength: nat)
    requires AreNames(names) && names != [] && k <= |names|
    ensures AreListed(names, k, fixedLen, lineLength) <==>
      && k > 0
      && (k > 1 ==> fixedLen + |List(names[..k])| <= lineLength)
      && (k < |names| ==> fixedLen + |List(names[..k + 1])| > lineLength)
  {
    NoList(names);
    hide List;
    if k > 0 && (k > 1 ==> fixedLen + |List(names[..k])| <= lineLength) {
      forall j | 0 <= j < k
        ensures Follows(names, j, fixedLen, lineLength)
      {
        ListsGrow(names[..k], j + 1);
        assert names[..k][..j + 1] == names[..j + 1];
      }
    }
    ListsGrow(names, k);
    if k > 1 && AreListed(names, k, fixedLen, lineLength) {
      ListsGrow(names, k - 1);
      assert Follows(names, k - 1, fixedLen, lineLength);
    }
  }

  /** A list is its names in order, with commas between them. */
  lemma {:induction false} ListOfBoth(a: seq<string>, b: seq<string>)
    requires b != []
    ensures List(a + b) == if a == [] then List(b) else List(a) + ", " + List(b)
    ensures |b| == 1 ==> List(b) == b[0]
    decreases |b|
  {
    hide List;
    if |b| == 1 {
      ListOfNext(a, b[0]);
      ListOfNext([], b[0]);
      assert b == [b[0]] == [] + [b[0]] && a + b == a + [b[0]];
    } else {
      var before, last := b[..|b| - 1], b[|b| - 1];
      ListOfBoth(a, before);
      ListOfNext(before, last);
      ListOfNext(a + before, last);
      assert b == before + [last] && a + b == a + before + [last];
    }
    if a == [] {
      assert a + b == b;
    }
  }

  lemma ListOfNext(names: seq<string>, name: string)
    ensures List(names + [name]) == if names == [] then name else List(names) + ", " + name
  {
    assert (names + [name])[..|names|] == names;
  }

  ghost predicate EndsWith(s: string, end: string) {
    |s| >= |end| && s[|s| - |end|..] == end
  }

  lemma {:induction false} NoDotIn(names: seq<string>)
    requires AreNames(names) && forall name :: name in names ==> '.' !in name
    ensures '.' !in List(names)
  {
    if names == [] {
    } else {
      NoDotIn(names[..|names| - 1]);
      assert names[|names| - 1] in names;
    }
  }

  /** The comment ends with dots exactly if names are left out and there is room for the dots. Names
      contain no dots themselves. */
  lemma DotsIff(names: seq<string>, k: nat, fixedLen: nat, lineLength: nat)
    requires AreNames(names) && (forall name :: name in names ==> '.' !in name)
    requires AreListed(names, k, fixedLen, lineLength)
    ensures var comment, list := Comment(names, k, fixedLen, lineLength), List(names[..k]);
      && (EndsWith(comment, ", ...") <==> k < |names| && fixedLen + |list| + 5 <= lineLength)
      && comment == list + if EndsWith(comment, ", ...") then ", ..." else ""
  {
    NoDotIn(names[..k]);
    DotAtEnd(List(names[..k]));
  }

  lemma DotAtEnd(list: string)
    ensures EndsWith(list, ", ...") ==> '.' in list
  {
    if EndsWith(list, ", ...") {
      assert list[|list| - 5..][4] == '.';
    }
  }

  // ----- The most referenced symbol -----

  /** The source's loop for the most referenced symbol: of equally referenced ones, the first. None is
      for the first element of an empty array, which the source reads without looking. */
  method MostReferenced(symbols: seq<Symbol>) returns (most: Option<nat>)
    ensures most == None <==> symbols == []
    ensures most.Some? ==> most.value < |symbols|
    ensures most.Some? ==> forall i :: 0 <= i < |symbols| ==> symbols[i].refCount <= symbols[most.value].refCount
    ensures most.Some? ==> forall i :: 0 <= i < most.value ==> symbols[i].refCount < symbols[most.value].refCount
  {
    if symbols == [] {
      return None;
    }
    var k := 0;
    for i := 1 to |symbols|
      invariant k < i
      invariant forall j :: 0 <= j < i ==> symbols[j].refCount <= symbols[k].refCount
      invariant forall j :: 0 <= j < k ==> symbols[j].refCount < symbols[k].refCount
    {
      if symbols[i].refCount > symbols[k].refCount {
        k := i;
      }
    }
    most := Some(k);
  }

  /** Of the names `there` and `here`, `here` is the one shown. */
  ghost predicate IsBeaten(symbols: seq<Symbol>, there: string, here: string) {
    var t, h := Total(symbols, there) % UINT_RANGE, Total(symbols, here) % UINT_RANGE;
    t < h || (t == h && StrCmp(here, there) <= 0)
  }

  /** In C++, the name shown is the one with the most references altogether, over all overloads, and
      the alphabetically first of those. */
  method MostReferencedName(a: DynamicArray<Symbol>, ghost symbols: seq<Symbol>) returns (name: Option<string>)
    requires a.Valid() && SortedByName(a.Contents()) && Wellformed(symbols)
    requires multiset(a.Contents()) == multiset(symbols)
    modifies a, a.elements
    ensures name == None <==> symbols == []
    ensures name.Some? ==> HasName(symbols, name.value)
    ensures name.Some? ==> forall x :: x in symbols ==> IsBeaten(symbols, x.name, name.value)
  {
    hide IsBeaten, Total, SortedByName, StrictlySortedByName, Wellformed;
    MergeSymbols(a, symbols);
    var merged := a.elements[..a.len];
    NamesOfNone(symbols, merged);
    var most := MostReferenced(merged);
    if most == None {
      return None;
    }
    var k := most.value;
    name := Some(merged[k].name);
    assert merged[k] in a.Contents();
    forall x | x in symbols
      ensures IsBeaten(symbols, x.name, name.value)
    {
      MostReferencedBeats(merged, symbols, k, x);
    }
  }

  lemma NamesOfNone(symbols: seq<Symbol>, merged: seq<Symbol>)
    requires forall x :: x in symbols ==> HasName(merged, x.name)
    requires forall k :: k in merged ==> HasName(symbols, k.name)
    ensures merged == [] <==> symbols == []
  {
    if symbols != [] {
      assert symbols[0] in symbols && HasName(merged, symbols[0].name);
    }
    if merged != [] {
      assert merged[0] in merged && HasName(symbols, merged[0].name);
    }
  }

  lemma MostReferencedBeats(merged: seq<Symbol>, symbols: seq<Symbol>, k: nat, x: Symbol)
    requires StrictlySortedByName(merged) && k < |merged| && HasName(merged, x.name)
    requires forall m :: m in merged ==> m.refCount == Total(symbols, m.name) % UINT_RANGE
    requires forall i :: 0 <= i < |merged| ==> merged[i].refCount <= merged[k].refCount
    requires forall i :: 0 <= i < k ==> merged[i].refCount < merged[k].refCount
    ensures IsBeaten(symbols, x.name, merged[k].name)
  {
    hide Total;
    var m :| m in merged && m.name == x.name;
    var i :| 0 <= i < |merged| && merged[i] == m;
    assert merged[k] in merged;
    if i == k {
      StrCmpIsEquality(merged[k].name, merged[k].name);
    }
  }
}

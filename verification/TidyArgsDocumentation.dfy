/** Moving the options for include-tidy: what the documentation of `move_tidy_args` says of it, and
    exactly when the code does that (src/cli_options.c). The documentation says nothing of missing
    arguments and of directories that begin with `-`; those are taken as the code takes them. */
module TidyArgsDocumentation {
  import opened Wrappers
  import opened TidyArgs

  /** The include path options that the documentation names. */
  const DOCUMENTED_INCLUDE_PATH_OPTIONS: seq<string> := [
    "--include-directory", "--include-directory-after", "-cxx-system", "-idirafter", "-iquote", "-isystem", "-isystem-after"
  ]

  /** What is recognized according to the documentation: it names the help and version options
      themselves, and says that all other arguments are left as they are. */
  function Documented(options: seq<OptionDef>): Syntax {
    Syntax(options, DOCUMENTED_INCLUDE_PATH_OPTIONS, false)
  }

  // ----- Where the two differ -----

  /** Merely begins with a help or version option. */
  predicate IsLonger(s: string) {
    s !in OTHER_OPTIONS && exists k :: 0 <= k < |OTHER_OPTIONS| && StartsWith(s, OTHER_OPTIONS[k])
  }

  /** An include path option in the code alone. */
  predicate IsCodedOnly(s: string) {
    MatchesLongInclude(s, "-cxx-isystem")
  }

  /** An include path option in the documentation alone. */
  predicate IsDocumentedOnly(s: string) {
    MatchesLongInclude(s, "-cxx-system")
  }

  predicate IsMistaken(s: string) {
    IsLonger(s) || IsCodedOnly(s) || IsDocumentedOnly(s)
  }

  /** Of the include path options, only the one at position 2 begins with `-c`. */
  predicate HasCxxAt2(paths: seq<string>) {
    |paths| > 2 && forall k :: 0 <= k < |paths| ==> |paths[k]| > 2 && (k == 2 <==> paths[k][1] == 'c')
  }

  lemma BothHaveCxxAt2()
    ensures HasCxxAt2(LONG_INCLUDE_PATH_OPTIONS) && HasCxxAt2(DOCUMENTED_INCLUDE_PATH_OPTIONS)
  {
  }

  lemma {:induction false} CxxInclude(paths: seq<string>, s: string, k: nat)
    requires HasCxxAt2(paths) && k <= |paths| && |s| > 1 && s[1] == 'c'
    ensures LongInclude(paths, s, k) == if k <= 2 && MatchesLongInclude(s, paths[2]) then Some(paths[2]) else None
    decreases |paths| - k
  {
    if k == |paths| {
    } else {
      CxxInclude(paths, s, k + 1);
      if k != 2 {
        NotAPrefix(s, paths[k], 1);
      }
    }
  }

  /** Other arguments are the same include path options for both. */
  lemma {:induction false} SameInclude(s: string, k: nat)
    requires k <= |LONG_INCLUDE_PATH_OPTIONS| && !IsCodedOnly(s) && !IsDocumentedOnly(s)
    ensures LongInclude(LONG_INCLUDE_PATH_OPTIONS, s, k) == LongInclude(DOCUMENTED_INCLUDE_PATH_OPTIONS, s, k)
    decreases |LONG_INCLUDE_PATH_OPTIONS| - k
  {
    if k == |LONG_INCLUDE_PATH_OPTIONS| {
    } else {
      SameInclude(s, k + 1);
      assert k != 2 ==> LONG_INCLUDE_PATH_OPTIONS[k] == DOCUMENTED_INCLUDE_PATH_OPTIONS[k];
    }
  }

  lemma StartsWithChars(s: string, prefix: string, i: nat)
    requires StartsWith(s, prefix) && i < |prefix|
    ensures i < |s| && s[i] == prefix[i]
  {
    assert s[..|prefix|][i] == s[i];
  }

  /** Both options with that name are for the C++ compiler. */
  lemma CxxChars(s: string)
    requires IsCodedOnly(s) || IsDocumentedOnly(s)
    ensures |s| > 5 && s[1] == 'c' && s[5] == (if IsCodedOnly(s) then 'i' else 's') && IsOption(s)
    ensures !(IsCodedOnly(s) && IsDocumentedOnly(s))
  {
    var option := if IsCodedOnly(s) then "-cxx-isystem" else "-cxx-system";
    StartsWithChars(s, option, 0);
    StartsWithChars(s, option, 1);
    StartsWithChars(s, option, 5);
    if IsDocumentedOnly(s) {
      StartsWithChars(s, "-cxx-system", 5);
    }
  }

  lemma LongerChars(s: string)
    requires IsLonger(s)
    ensures |s| > 2 && s[0] == '-' && (s[1] in "hv" || (s[1] == '-' && s[2] in "hv"))
  {
    var k :| 0 <= k < |OTHER_OPTIONS| && StartsWith(s, OTHER_OPTIONS[k]);
    StartsWithChars(s, OTHER_OPTIONS[k], 0);
    StartsWithChars(s, OTHER_OPTIONS[k], 1);
    if k == 0 || k == 2 {
      StartsWithChars(s, OTHER_OPTIONS[k], 2);
    } else {
      assert |s| != 2 by {
        assert s[..|s|] == s;
      }
    }
  }

  /** No include path option begins like a help or version option. */
  predicate HasNoOther(paths: seq<string>) {
    forall k :: 0 <= k < |paths| ==> |paths[k]| > 2 && paths[k][1] !in "hv" && (paths[k][1] == '-' ==> paths[k][2] !in "hv")
  }

  lemma BothHaveNoOther()
    ensures HasNoOther(LONG_INCLUDE_PATH_OPTIONS) && HasNoOther(DOCUMENTED_INCLUDE_PATH_OPTIONS)
  {
  }

  lemma {:induction false} LongerInclude(paths: seq<string>, s: string, k: nat)
    requires HasNoOther(paths) && k <= |paths| && IsLonger(s)
    ensures LongInclude(paths, s, k) == None
    decreases |paths| - k
  {
    if k == |paths| {
    } else {
      LongerInclude(paths, s, k + 1);
      LongerChars(s);
      NotAPrefix(s, paths[k], if s[1] != paths[k][1] then 1 else 2);
    }
  }

  lemma LongerIsSimple(options: seq<OptionDef>, s: string)
    requires IsLonger(s)
    ensures IsSimple(Coded(options), [s]) && IsSimple(Documented(options), [s])
  {
    LongerChars(s);
    BothHaveNoOther();
    LongerInclude(LONG_INCLUDE_PATH_OPTIONS, s, 0);
    LongerInclude(DOCUMENTED_INCLUDE_PATH_OPTIONS, s, 0);
    assert "-Xtidy"[1] == 'X';
    NotAPrefix(s, "-I", 1);
  }

  lemma CxxIsInclude(s: string)
    requires IsCodedOnly(s) || IsDocumentedOnly(s)
    ensures s != "-Xtidy" && !StartsWith(s, "-I") && !(IsCodedOnly(s) && IsDocumentedOnly(s))
    ensures LongInclude(LONG_INCLUDE_PATH_OPTIONS, s, 0) == if IsCodedOnly(s) then Some("-cxx-isystem") else None
    ensures LongInclude(DOCUMENTED_INCLUDE_PATH_OPTIONS, s, 0) == if IsDocumentedOnly(s) then Some("-cxx-system") else None
  {
    CxxChars(s);
    BothHaveCxxAt2();
    CxxInclude(LONG_INCLUDE_PATH_OPTIONS, s, 0);
    CxxInclude(DOCUMENTED_INCLUDE_PATH_OPTIONS, s, 0);
    assert "-Xtidy"[1] == 'X';
    NotAPrefix(s, "-I", 1);
  }

  // ----- The same groups -----

  lemma SameOther(options: seq<OptionDef>, s: string)
    requires !IsLonger(s)
    ensures IsOther(Coded(options), s) <==> IsOther(Documented(options), s)
  {
    if s in OTHER_OPTIONS {
      var k :| 0 <= k < |OTHER_OPTIONS| && OTHER_OPTIONS[k] == s;
      assert StartsWith(s, OTHER_OPTIONS[k]);
    }
  }

  lemma SameFirstGroup(options: seq<OptionDef>, args: seq<string>)
    requires args != [] && !IsMistaken(args[0])
    ensures FirstGroup(Coded(options), args) == FirstGroup(Documented(options), args)
  {
    hide LongInclude, IsOther, IsLonger, IsCodedOnly, IsDocumentedOnly;
    SameInclude(args[0], 0);
    SameOther(options, args[0]);
  }

  /** No group is one for both if it begins with a mistaken argument. */
  lemma MistakenDiffers(options: seq<OptionDef>, g: Group)
    requires IsGroup(Coded(options), g) && IsGroup(Documented(options), g)
    ensures !IsMistaken(g.text[0])
  {
    hide LongInclude, IsCodedOnly, IsDocumentedOnly, NamesDirectory, XtidyNeed;
    var s := g.text[0];
    if IsCodedOnly(s) || IsDocumentedOnly(s) {
      CxxIsInclude(s);
    } else if IsLonger(s) {
      LongerIsSimple(options, s);
      LongerIsOther(options, s);
    }
  }

  lemma LongerIsOther(options: seq<OptionDef>, s: string)
    requires IsLonger(s)
    ensures IsOther(Coded(options), s) && !IsOther(Documented(options), s)
  {
  }

  ghost predicate NoneMistaken(options: seq<OptionDef>, args: seq<string>) {
    forall k :: 0 <= k < |args| && Begins(Coded(options), args, k) ==> !IsMistaken(args[k])
  }

  lemma BeginsLater(syntax: Syntax, args: seq<string>, g: Group, k: nat)
    requires IsGroup(syntax, g) && g.text <= args && k < |args| - |g.text| && Begins(syntax, args[|g.text|..], k)
    ensures Begins(syntax, args, |g.text| + k)
  {
    hide IsGroup, FirstGroup;
    GroupIsNotEmpty(syntax, g);
    var before := args[..|g.text| + k];
    assert g.text <= before && before[|g.text|..] == args[|g.text|..][..k];
    FirstGroupIff(syntax, before, g);
  }

  lemma {:induction false} SameGroups(options: seq<OptionDef>, args: seq<string>)
    requires NoneMistaken(options, args)
    ensures Groups(Coded(options), args) == Groups(Documented(options), args)
    decreases |args|
  {
    hide FirstGroup, IsGroup, IsMistaken;
    if args == [] {
    } else {
      assert args[..0] == [] && Begins(Coded(options), args, 0);
      SameFirstGroup(options, args);
      var first := FirstGroup(Coded(options), args);
      if first.Some? {
        var g := first.value;
        FirstGroupIff(Coded(options), args, g);
        GroupIsNotEmpty(Coded(options), g);
        forall k | 0 <= k < |args| - |g.text| && Begins(Coded(options), args[|g.text|..], k)
          ensures !IsMistaken(args[|g.text|..][k])
        {
          BeginsLater(Coded(options), args, g, k);
        }
        SameGroups(options, args[|g.text|..]);
      }
    }
  }

  /** Main result: the code takes accepted arguments for what the documentation takes them for, exactly
      when no argument at which a group begins is mistaken: none merely begins with a help or version
      option, and none is `-cxx-isystem` or `-cxx-system`. */
  lemma InterpretedAsDocumentedIff(options: seq<OptionDef>, args: seq<string>)
    requires Groups(Coded(options), args).Some? || Groups(Documented(options), args).Some?
    ensures Groups(Coded(options), args) == Groups(Documented(options), args) <==> NoneMistaken(options, args)
  {
    hide FirstGroup, IsGroup, IsMistaken, Groups, Begins;
    if NoneMistaken(options, args) {
      SameGroups(options, args);
    }
    if Groups(Coded(options), args) == Groups(Documented(options), args) {
      forall k | 0 <= k < |args| && Begins(Coded(options), args, k)
        ensures !IsMistaken(args[k])
      {
        var g := GroupAt(Coded(options), args, k);
        SplitsIff(Documented(options), args, Groups(Coded(options), args).value);
        MistakenDiffers(options, g);
      }
    }
  }

  // ----- The same argument lists -----

  /** How many groups begin with an argument of a kind. */
  function Count(p: string -> bool, gs: seq<Group>): nat {
    if gs == [] then 0 else (if gs[0].text != [] && p(gs[0].text[0]) then 1 else 0) + Count(p, gs[1..])
  }

  lemma {:induction false} CountIsZero(p: string -> bool, gs: seq<Group>)
    ensures Count(p, gs) == 0 <==> forall g :: g in gs && g.text != [] ==> !p(g.text[0])
  {
    if gs == [] {
    } else {
      CountIsZero(p, gs[1..]);
    }
  }

  /** The groups of the code, `gs`, and of the documentation, `ds`, of the same arguments: how many more
      arguments remain and are moved by one than by the other. */
  ghost predicate Compare(gs: seq<Group>, ds: seq<Group>) {
    && |Flatten(Remaining, ds)| == |Flatten(Remaining, gs)| + Count(IsLonger, gs)
    && (Count(IsLonger, gs) == 0 ==> Flatten(Remaining, ds) == Flatten(Remaining, gs))
    && Others(Flatten(Moved, gs)) == Others(Flatten(Moved, ds)) + Count(IsLonger, gs)
    && IncludePaths(Flatten(Moved, gs)) + Count(IsDocumentedOnly, gs) ==
       IncludePaths(Flatten(Moved, ds)) + Count(IsCodedOnly, gs)
  }

  /** How many arguments name include paths. */
  function IncludePaths(args: seq<string>): nat {
    if args == [] then 0 else (if StartsWith(args[0], "-I") then 1 else 0) + IncludePaths(args[1..])
  }

  function Others(args: seq<string>): nat {
    if args == [] then 0 else (if StartsWith(args[0], "-I") then 0 else 1) + Others(args[1..])
  }

  lemma {:induction false} CountConcat(a: seq<string>, b: seq<string>)
    ensures IncludePaths(a + b) == IncludePaths(a) + IncludePaths(b) && Others(a + b) == Others(a) + Others(b)
  {
    if a == [] {
      assert a + b == b;
    } else {
      CountConcat(a[1..], b);
      assert (a + b)[1..] == a[1..] + b;
    }
  }

  lemma CountOfOne(s: string)
    ensures IncludePaths([s]) == (if StartsWith(s, "-I") then 1 else 0) && Others([s]) == 1 - IncludePaths([s])
  {
    assert [s][1..] == [];
  }

  lemma CompareSame(g: Group, gs: seq<Group>, ds: seq<Group>)
    requires Compare(gs, ds) && g.text != [] && !IsMistaken(g.text[0])
    ensures Compare([g] + gs, [g] + ds)
  {
    hide IsLonger, IsCodedOnly, IsDocumentedOnly;
    OneMore(g, gs);
    OneMore(g, ds);
  }

  lemma OneMore(g: Group, gs: seq<Group>)
    ensures Flatten(Remaining, [g] + gs) == Remaining(g) + Flatten(Remaining, gs)
    ensures Flatten(Moved, [g] + gs) == Moved(g) + Flatten(Moved, gs)
    ensures IncludePaths(Flatten(Moved, [g] + gs)) == IncludePaths(Moved(g)) + IncludePaths(Flatten(Moved, gs))
    ensures Others(Flatten(Moved, [g] + gs)) == Others(Moved(g)) + Others(Flatten(Moved, gs))
    ensures forall p: string -> bool :: Count(p, [g] + gs) == (if g.text != [] && p(g.text[0]) then 1 else 0) + Count(p, gs)
  {
    FlattenOneMore(Remaining, g, gs);
    FlattenOneMore(Moved, g, gs);
    CountConcat(Moved(g), Flatten(Moved, gs));
    assert ([g] + gs)[1..] == gs;
  }

  lemma CompareLonger(s: string, gs: seq<Group>, ds: seq<Group>)
    requires Compare(gs, ds) && IsLonger(s) && !StartsWith(s, "-I") && !IsCodedOnly(s) && !IsDocumentedOnly(s)
    ensures Compare([Group(Other, [s])] + gs, [Group(Unchanged, [s])] + ds)
  {
    hide IsLonger, IsCodedOnly, IsDocumentedOnly;
    OneMore(Group(Other, [s]), gs);
    OneMore(Group(Unchanged, [s]), ds);
    CountOfOne(s);
  }

  /** Arguments that are left as they are, one by one. */
  function Singles(text: seq<string>): seq<Group>
    requires 1 <= |text| <= 2
  {
    [Group(Unchanged, text[..1])] + if |text| == 1 then [] else [Group(Unchanged, text[1..])]
  }

  lemma SinglesAre(text: seq<string>, gs: seq<Group>)
    requires 1 <= |text| <= 2
    ensures Flatten(Remaining, Singles(text) + gs) == text + Flatten(Remaining, gs)
    ensures Flatten(Moved, Singles(text) + gs) == Flatten(Moved, gs)
    ensures forall p: string -> bool :: Count(p, Singles(text) + gs) ==
              (if p(text[0]) then 1 else 0) + (if |text| == 2 && p(text[1]) then 1 else 0) + Count(p, gs)
  {
    var first, second := Group(Unchanged, text[..1]), Group(Unchanged, text[1..]);
    if |text| == 1 {
      assert Singles(text) + gs == [first] + gs && text[..1] == text;
      OneMore(first, gs);
    } else {
      assert Singles(text) + gs == [first] + ([second] + gs) && text[..1] + text[1..] == text;
      OneMore(second, gs);
      OneMore(first, [second] + gs);
    }
  }

  /** `g` is the group for an include path option, of which the other side knows nothing. */
  ghost predicate IsIncludeGroup(g: Group) {
    g.kind.LongIncludePath? && 1 <= |g.text| <= 2 && (|g.text| == 2 ==> !IsMistaken(g.text[1]))
  }

  lemma MovedPath(g: Group)
    requires g.kind.LongIncludePath?
    ensures IncludePaths(Moved(g)) == 1 && Others(Moved(g)) == 0
  {
    var s := "-I" + g.kind.dir;
    assert s[..2] == "-I";
    CountOfOne(s);
  }

  lemma CompareCoded(g: Group, gs: seq<Group>, ds: seq<Group>)
    requires Compare(gs, ds) && IsIncludeGroup(g)
    requires IsCodedOnly(g.text[0]) && !IsDocumentedOnly(g.text[0]) && !IsLonger(g.text[0])
    ensures Compare([g] + gs, Singles(g.text) + ds)
  {
    hide IsLonger, IsCodedOnly, IsDocumentedOnly, Singles;
    OneMore(g, gs);
    SinglesAre(g.text, ds);
    MovedPath(g);
  }

  lemma CompareDocumented(g: Group, gs: seq<Group>, ds: seq<Group>)
    requires Compare(gs, ds) && IsIncludeGroup(g)
    requires IsDocumentedOnly(g.text[0]) && !IsCodedOnly(g.text[0]) && !IsLonger(g.text[0])
    ensures Compare(Singles(g.text) + gs, [g] + ds)
  {
    hide IsLonger, IsCodedOnly, IsDocumentedOnly, Singles;
    OneMore(g, ds);
    SinglesAre(g.text, gs);
    MovedPath(g);
  }

  lemma PlainIsNotMistaken(s: string)
    requires !IsOption(s)
    ensures !IsMistaken(s)
  {
    if IsLonger(s) {
      LongerChars(s);
    }
    if IsCodedOnly(s) || IsDocumentedOnly(s) {
      CxxChars(s);
    }
  }

  predicate HasDashes(paths: seq<string>) {
    forall k :: 0 <= k < |paths| ==> paths[k] != "" && paths[k][0] == '-'
  }

  lemma {:induction false} PlainInclude(paths: seq<string>, s: string, k: nat)
    requires HasDashes(paths) && k <= |paths| && !IsOption(s)
    ensures LongInclude(paths, s, k) == None
    decreases |paths| - k
  {
    if k == |paths| {
    } else {
      PlainInclude(paths, s, k + 1);
      if s != "" {
        NotAPrefix(s, paths[k], 0);
      }
    }
  }

  /** An argument that is no option is left as it is. */
  lemma PlainIsUnchanged(syntax: Syntax, s: string)
    requires HasDashes(syntax.includePaths) && !IsOption(s)
    ensures IsGroup(syntax, Group(Unchanged, [s]))
  {
    hide LongInclude;
    PlainInclude(syntax.includePaths, s, 0);
    PlainStarts(s, "-I");
    forall k | 0 <= k < |OTHER_OPTIONS|
      ensures !StartsWith(s, OTHER_OPTIONS[k]) && s != OTHER_OPTIONS[k]
    {
      PlainStarts(s, OTHER_OPTIONS[k]);
    }
    PlainStarts(s, "-Xtidy");
  }

  lemma PlainStarts(s: string, option: string)
    requires IsOption(option) && !IsOption(s)
    ensures !StartsWith(s, option) && s != option
  {
    if s != "" {
      NotAPrefix(s, option, 0);
    }
  }

  /** The side that knows nothing of the option leaves it as it is. */
  lemma CxxIsUnchanged(options: seq<OptionDef>, s: string)
    requires IsCodedOnly(s) || IsDocumentedOnly(s)
    ensures IsCodedOnly(s) ==> IsGroup(Documented(options), Group(Unchanged, [s]))
    ensures IsDocumentedOnly(s) ==> IsGroup(Coded(options), Group(Unchanged, [s]))
    ensures !IsLonger(s)
  {
    CxxIsInclude(s);
    CxxChars(s);
    forall k | 0 <= k < |OTHER_OPTIONS|
      ensures !StartsWith(s, OTHER_OPTIONS[k]) && s != OTHER_OPTIONS[k]
    {
      assert OTHER_OPTIONS[k][1] != 'c';
      NotAPrefix(s, OTHER_OPTIONS[k], 1);
    }
  }

  lemma GroupsOfOne(syntax: Syntax, args: seq<string>, g: Group)
    requires IsGroup(syntax, g) && g.text <= args
    ensures g.text != []
    ensures var rest := Groups(syntax, args[|g.text|..]);
      Groups(syntax, args) == if rest.None? then None else Some([g] + rest.value)
  {
    hide FirstGroup, IsGroup;
    GroupIsNotEmpty(syntax, g);
    FirstGroupIff(syntax, args, g);
  }

  lemma GroupsOfSingles(syntax: Syntax, args: seq<string>, text: seq<string>)
    requires 1 <= |text| <= 2 && text <= args
    requires forall i :: 0 <= i < |text| ==> IsGroup(syntax, Group(Unchanged, [text[i]]))
    ensures var rest := Groups(syntax, args[|text|..]);
      Groups(syntax, args) == if rest.None? then None else Some(Singles(text) + rest.value)
  {
    hide FirstGroup, IsGroup, Groups;
    var first := Group(Unchanged, text[..1]);
    assert first == Group(Unchanged, [text[0]]);
    GroupsOfOne(syntax, args, first);
    assert |text| == 1 ==> Singles(text) == [first];
    if |text| == 2 {
      var second, rest := Group(Unchanged, text[1..]), Groups(syntax, args[2..]);
      assert second == Group(Unchanged, [text[1]]);
      assert text[1..] <= args[1..] && args[1..][1..] == args[2..];
      GroupsOfOne(syntax, args[1..], second);
      if rest.Some? {
        assert Singles(text) == [first] + [second];
        assert [first] + ([second] + rest.value) == [first] + [second] + rest.value;
      }
    }
  }

  /** A group for an option with one of the two names, which only one side knows. */
  lemma CxxGroup(options: seq<OptionDef>, g: Group)
    requires g.text != [] && (IsCodedOnly(g.text[0]) || IsDocumentedOnly(g.text[0]))
    requires if IsCodedOnly(g.text[0]) then IsGroup(Coded(options), g) else IsGroup(Documented(options), g)
    ensures IsIncludeGroup(g)
    ensures var other := if IsCodedOnly(g.text[0]) then Documented(options) else Coded(options);
      forall i :: 0 <= i < |g.text| ==> IsGroup(other, Group(Unchanged, [g.text[i]]))
  {
    hide LongInclude, IsCodedOnly, IsDocumentedOnly, IsMistaken;
    CxxIsInclude(g.text[0]);
    CxxIsUnchanged(options, g.text[0]);
    if |g.text| == 2 {
      PlainIsNotMistaken(g.text[1]);
      PlainIsUnchanged(Coded(options), g.text[1]);
      PlainIsUnchanged(Documented(options), g.text[1]);
    }
  }

  lemma {:induction false} Compares(options: seq<OptionDef>, args: seq<string>)
    requires Groups(Coded(options), args).Some? && Groups(Documented(options), args).Some?
    ensures Compare(Groups(Coded(options), args).value, Groups(Documented(options), args).value)
    decreases |args|
  {
    hide FirstGroup, IsGroup, IsLonger, IsCodedOnly, IsDocumentedOnly, IsIncludeGroup, Compare;
    var c, d := Coded(options), Documented(options);
    if args == [] {
      NothingToCompare();
    } else {
      var g, h := FirstGroup(c, args).value, FirstGroup(d, args).value;
      FirstGroupIff(c, args, g);
      FirstGroupIff(d, args, h);
      HeadOf(c, args, g);
      HeadOf(d, args, h);
      if IsCodedOnly(args[0]) {
        CxxIsInclude(args[0]);
        CxxIsUnchanged(options, args[0]);
        CxxGroup(options, g);
        SizeOfInclude(g);
        GroupsOfSingles(d, args, g.text);
        Compares(options, args[|g.text|..]);
        CompareCoded(g, Groups(c, args[|g.text|..]).value, Groups(d, args[|g.text|..]).value);
      } else if IsDocumentedOnly(args[0]) {
        CxxIsInclude(args[0]);
        CxxIsUnchanged(options, args[0]);
        CxxGroup(options, h);
        SizeOfInclude(h);
        GroupsOfSingles(c, args, h.text);
        Compares(options, args[|h.text|..]);
        CompareDocumented(h, Groups(c, args[|h.text|..]).value, Groups(d, args[|h.text|..]).value);
      } else if IsLonger(args[0]) {
        LongerGroups(options, args);
        LongerIsSimple(options, args[0]);
        Compares(options, args[1..]);
        CompareLonger(args[0], Groups(c, args[1..]).value, Groups(d, args[1..]).value);
      } else {
        SameFirstGroup(options, args);
        Compares(options, args[|g.text|..]);
        CompareSame(g, Groups(c, args[|g.text|..]).value, Groups(d, args[|g.text|..]).value);
      }
    }
  }

  lemma NothingToCompare()
    ensures Compare([], [])
  {
  }

  lemma HeadOf(syntax: Syntax, args: seq<string>, g: Group)
    requires IsGroup(syntax, g) && g.text <= args
    ensures g.text != [] && g.text[0] == args[0]
  {
  }

  lemma SizeOfInclude(g: Group)
    requires IsIncludeGroup(g)
    ensures 1 <= |g.text| <= 2
  {
  }

  lemma LongerGroups(options: seq<OptionDef>, args: seq<string>)
    requires args != [] && IsLonger(args[0])
    ensures FirstGroup(Coded(options), args) == Some(Group(Other, [args[0]]))
    ensures FirstGroup(Documented(options), args) == Some(Group(Unchanged, [args[0]]))
  {
    LongerIsSimple(options, args[0]);
    LongerIsOther(options, args[0]);
    assert args[..1] == [args[0]];
  }

  lemma NoneBegins(syntax: Syntax, args: seq<string>, p: string -> bool)
    requires Groups(syntax, args).Some?
    ensures Count(p, Groups(syntax, args).value) == 0 <==>
      forall k :: 0 <= k < |args| && Begins(syntax, args, k) ==> !p(args[k])
  {
    hide Groups, Begins, Count;
    var gs := Groups(syntax, args).value;
    CountIsZero(p, gs);
    if k :| 0 <= k < |args| && Begins(syntax, args, k) && p(args[k]) {
      BeginsIff(syntax, args, args[k]);
    }
    if g :| g in gs && g.text != [] && p(g.text[0]) {
      BeginsIff(syntax, args, g.text[0]);
    }
  }

  ghost predicate NoneIs(options: seq<OptionDef>, args: seq<string>, p: string -> bool) {
    forall k :: 0 <= k < |args| && Begins(Coded(options), args, k) ==> !p(args[k])
  }

  /** What remains for the compiler is as documented exactly when no argument at which a group begins
      merely begins with a help or version option. */
  lemma RemainsAsDocumentedIff(options: seq<OptionDef>, args: seq<string>)
    requires Groups(Coded(options), args).Some? && Groups(Documented(options), args).Some?
    ensures var gs, ds := Groups(Coded(options), args).value, Groups(Documented(options), args).value;
      Flatten(Remaining, gs) == Flatten(Remaining, ds) <==> NoneIs(options, args, IsLonger)
  {
    hide Groups, Begins, Count, Flatten;
    Compares(options, args);
    NoneBegins(Coded(options), args, IsLonger);
  }

  /** What is moved to include-tidy is as documented exactly when no such argument is mistaken, unless
      both `-cxx-isystem` and `-cxx-system` are there. */
  lemma MovedAsDocumentedIff(options: seq<OptionDef>, args: seq<string>)
    requires Groups(Coded(options), args).Some? && Groups(Documented(options), args).Some?
    requires NoneIs(options, args, IsCodedOnly) || NoneIs(options, args, IsDocumentedOnly)
    ensures var gs, ds := Groups(Coded(options), args).value, Groups(Documented(options), args).value;
      Flatten(Moved, gs) == Flatten(Moved, ds) <==> NoneMistaken(options, args)
  {
    hide Groups, Begins, Count, Flatten, IsLonger, IsCodedOnly, IsDocumentedOnly;
    Compares(options, args);
    NoneBegins(Coded(options), args, IsLonger);
    NoneBegins(Coded(options), args, IsCodedOnly);
    NoneBegins(Coded(options), args, IsDocumentedOnly);
    if NoneMistaken(options, args) {
      SameGroups(options, args);
    }
  }

  // ----- It does happen -----

  function Left(s: string): Group {
    Group(Unchanged, [s])
  }

  /** The group of an include path option and its directory. */
  function PathGroup(option: string): Group {
    Group(LongIncludePath("d"), [option, "d"])
  }

  lemma FlattenOne(f: Group -> seq<string>, a: Group)
    ensures Flatten(f, [a]) == f(a)
  {
    FlattenOneMore(f, a, []);
    assert [a] + [] == [a];
  }

  lemma FlattenTwo(f: Group -> seq<string>, a: Group, b: Group)
    ensures Flatten(f, [a, b]) == f(a) + f(b)
  {
    FlattenOne(f, b);
    FlattenOneMore(f, a, [b]);
    assert [a] + [b] == [a, b];
  }

  lemma FlattenThree(f: Group -> seq<string>, a: Group, b: Group, c: Group)
    ensures Flatten(f, [a, b, c]) == f(a) + f(b) + f(c)
  {
    FlattenTwo(f, b, c);
    FlattenOneMore(f, a, [b, c]);
    assert [a] + [b, c] == [a, b, c];
  }

  /** `-verify` never reaches the compiler. */
  lemma VerifyIsMistaken(options: seq<OptionDef>)
    ensures Groups(Coded(options), ["-verify"]) == Some([Group(Other, ["-verify"])])
    ensures Groups(Documented(options), ["-verify"]) == Some([Left("-verify")])
    ensures Remaining(Group(Other, ["-verify"])) == [] && Remaining(Left("-verify")) == ["-verify"]
  {
    hide IsGroup, FirstGroup, Groups, Flatten;
    var s := "-verify";
    assert s[..|OTHER_OPTIONS[3]|] == OTHER_OPTIONS[3];
    assert IsLonger(s);
    LongerGroups(options, [s]);
    FirstGroupIff(Coded(options), [s], Group(Other, [s]));
    FirstGroupIff(Documented(options), [s], Left(s));
    FlattenOne(Text, Group(Other, [s]));
    FlattenOne(Text, Left(s));
    SplitsIff(Coded(options), [s], [Group(Other, [s])]);
    SplitsIff(Documented(options), [s], [Left(s)]);
  }

  lemma CodedExample(options: seq<OptionDef>)
    ensures IsGroup(Coded(options), PathGroup("-cxx-isystem"))
    ensures IsGroup(Documented(options), Left("-cxx-isystem")) && IsGroup(Documented(options), Left("d"))
  {
    assert IsCodedOnly("-cxx-isystem");
    CxxChars("-cxx-isystem");
    CxxIsInclude("-cxx-isystem");
    hide LongInclude, IsSimple, IsMistaken;
    var g := PathGroup("-cxx-isystem");
    CxxGroup(options, g);
    assert [g.text[0]] == ["-cxx-isystem"] && [g.text[1]] == ["d"];
  }

  lemma DocumentedExample(options: seq<OptionDef>)
    ensures IsGroup(Documented(options), PathGroup("-cxx-system"))
    ensures IsGroup(Coded(options), Left("-cxx-system")) && IsGroup(Coded(options), Left("d"))
  {
    assert IsDocumentedOnly("-cxx-system");
    CxxChars("-cxx-system");
    CxxIsInclude("-cxx-system");
    hide LongInclude, IsSimple, IsMistaken;
    var g := PathGroup("-cxx-system");
    CxxGroup(options, g);
    assert [g.text[0]] == ["-cxx-system"] && [g.text[1]] == ["d"];
  }

  /** The documented option is left as it is, and the directory does not reach include-tidy. */
  lemma DocumentedIsLeft(options: seq<OptionDef>)
    ensures var args, g := ["-cxx-system", "d"], PathGroup("-cxx-system");
      var gs := [Left("-cxx-system"), Left("d")];
      && Groups(Coded(options), args) == Some(gs) && Flatten(Moved, gs) == []
      && Groups(Documented(options), args) == Some([g]) && Flatten(Moved, [g]) == ["-Id"]
  {
    hide IsGroup, Groups, Flatten;
    assert "-I" + "d" == "-Id";
    var a, b, g := Left("-cxx-system"), Left("d"), PathGroup("-cxx-system");
    DocumentedExample(options);
    FlattenTwo(Text, a, b);
    FlattenTwo(Moved, a, b);
    FlattenOne(Text, g);
    FlattenOne(Moved, g);
    SplitsIff(Coded(options), ["-cxx-system", "d"], [a, b]);
    SplitsIff(Documented(options), ["-cxx-system", "d"], [g]);
  }

  /** The option that the code takes instead is not documented. */
  lemma UndocumentedIsMoved(options: seq<OptionDef>)
    ensures var args, g := ["-cxx-isystem", "d"], PathGroup("-cxx-isystem");
      var ds := [Left("-cxx-isystem"), Left("d")];
      && Groups(Coded(options), args) == Some([g]) && Flatten(Moved, [g]) == ["-Id"]
      && Groups(Documented(options), args) == Some(ds) && Flatten(Moved, ds) == []
  {
    hide IsGroup, Groups, Flatten;
    assert "-I" + "d" == "-Id";
    var a, b, g := Left("-cxx-isystem"), Left("d"), PathGroup("-cxx-isystem");
    CodedExample(options);
    FlattenTwo(Text, a, b);
    FlattenTwo(Moved, a, b);
    FlattenOne(Text, g);
    FlattenOne(Moved, g);
    SplitsIff(Coded(options), ["-cxx-isystem", "d"], [g]);
    SplitsIff(Documented(options), ["-cxx-isystem", "d"], [a, b]);
  }

  /** With both, one mistake can make up for the other: the same is moved, though not for the same
      arguments. */
  lemma MistakesMakeUp(options: seq<OptionDef>)
    ensures var args := ["-cxx-isystem", "d", "-cxx-system", "d"];
      var gs := [PathGroup("-cxx-isystem"), Left("-cxx-system"), Left("d")];
      var ds := [Left("-cxx-isystem"), Left("d"), PathGroup("-cxx-system")];
      && Groups(Coded(options), args) == Some(gs) && Groups(Documented(options), args) == Some(ds)
      && gs != ds && Flatten(Moved, gs) == Flatten(Moved, ds) == ["-Id"]
  {
    hide IsGroup, Groups, Flatten;
    assert "-I" + "d" == "-Id";
    var args := ["-cxx-isystem", "d", "-cxx-system", "d"];
    var a, b, c := PathGroup("-cxx-isystem"), Left("-cxx-system"), Left("d");
    var d, e, f := Left("-cxx-isystem"), Left("d"), PathGroup("-cxx-system");
    CodedExample(options);
    DocumentedExample(options);
    FlattenThree(Text, a, b, c);
    FlattenThree(Moved, a, b, c);
    FlattenThree(Text, d, e, f);
    FlattenThree(Moved, d, e, f);
    SplitsIff(Coded(options), args, [a, b, c]);
    SplitsIff(Documented(options), args, [d, e, f]);
    assert [a, b, c][0] != [d, e, f][0];
  }
}

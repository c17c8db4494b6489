/** Moving the options for include-tidy itself out of the arguments for the compiler
    (src/cli_options.c). */
module TidyArgs {
  import opened Wrappers
  import opened Strings

  datatype HasArg = NoArgument | RequiredArgument | OptionalArgument

  /** A `struct option` of the table of command-line options. */
  datatype OptionDef = OptionDef(name: string, hasArg: HasArg, val: char)

  const LONG_INCLUDE_PATH_OPTIONS: seq<string> := [
    "--include-directory", "--include-directory-after", "-cxx-isystem", "-idirafter", "-iquote", "-isystem", "-isystem-after"
  ]

  const OTHER_OPTIONS: seq<string> := ["--help", "-h", "--version", "-v"]

  predicate IsAlnum(c: char) {
    '0' <= c <= '9' || 'A' <= c <= 'Z' || 'a' <= c <= 'z'
  }

  predicate StartsWith(s: string, prefix: string) {
    |prefix| <= |s| && s[..|prefix|] == prefix
  }

  predicate IsOption(s: string) {
    s != "" && s[0] == '-'
  }

  // ----- What is a group of arguments -----

  /** Whether an option is valid, and whether its argument has to follow. */
  datatype Need = Invalid | Nothing | Argument

  /** The first option for which a short option letter, or an abbreviation of its name, stands. */
  function FindShort(options: seq<OptionDef>, c: char): Option<OptionDef> {
    if options == [] then None
    else if options[0].val == c then Some(options[0])
    else FindShort(options[1..], c)
  }

  function FindLong(options: seq<OptionDef>, name: string): Option<OptionDef> {
    if options == [] then None
    else if StartsWith(options[0].name, name) then Some(options[0])
    else FindLong(options[1..], name)
  }

  /** Short options written together. */
  function ShortNeed(options: seq<OptionDef>, letters: string): Need {
    if letters == "" then Nothing else
      match FindShort(options, letters[0])
      case None => Invalid
      case Some(o) =>
        if o.hasArg != RequiredArgument then ShortNeed(options, letters[1..])
        else if |letters| > 1 then Nothing
        else Argument
  }

  /** A long option without its dashes. */
  function LongNeed(options: seq<OptionDef>, s: string): Need {
    var n := IndexOf(s, '=');
    match FindLong(options, s[..n])
    case None => Invalid
    case Some(o) =>
      if o.hasArg != RequiredArgument then Nothing
      else if n == |s| then Argument
      else if n + 1 == |s| then Invalid
      else Nothing
  }

  predicate IsShortOption(s: string) {
    |s| >= 2 && s[0] == '-' && IsAlnum(s[1])
  }

  predicate IsLongOption(s: string) {
    |s| >= 3 && s[0] == '-' && s[1] == '-' && IsAlnum(s[2])
  }

  function XtidyNeed(options: seq<OptionDef>, s: string): Need {
    if IsShortOption(s) then ShortNeed(options, s[1..])
    else if IsLongOption(s) then LongNeed(options, s[2..])
    else Invalid
  }

  predicate MatchesLongInclude(s: string, option: string) {
    StartsWith(s, option) && !(|s| > |option| && s[|option|] == '-')
  }

  /** What is recognized: the options after `-Xtidy`, the include path options, and whether what merely
      begins with a help or version option is one. */
  datatype Syntax = Syntax(options: seq<OptionDef>, includePaths: seq<string>, prefixes: bool)

  /** What the code recognizes. */
  function Coded(options: seq<OptionDef>): Syntax {
    Syntax(options, LONG_INCLUDE_PATH_OPTIONS, true)
  }

  /** The include path option that `s` is, starting from the `k`th. */
  function LongInclude(paths: seq<string>, s: string, k: nat): (option: Option<string>)
    requires k <= |paths|
    ensures option.Some? ==> MatchesLongInclude(s, option.value)
    decreases |paths| - k
  {
    if k == |paths| then None
    else if MatchesLongInclude(s, paths[k]) then Some(paths[k])
    else LongInclude(paths, s, k + 1)
  }

  predicate IsOther(syntax: Syntax, s: string) {
    if syntax.prefixes then exists k :: 0 <= k < |OTHER_OPTIONS| && StartsWith(s, OTHER_OPTIONS[k])
    else s in OTHER_OPTIONS
  }

  datatype Kind = Xtidy | ShortIncludePath | LongIncludePath(dir: string) | Other | Unchanged

  /** Arguments that belong together. */
  datatype Group = Group(kind: Kind, text: seq<string>)

  predicate IsArgument(need: Need, args: seq<string>) {
    match need
    case Invalid => false
    case Nothing => args == []
    case Argument => |args| == 1 && !IsOption(args[0])
  }

  /** The directory that follows the include path option `option` of `text`. */
  predicate NamesDirectory(text: seq<string>, option: string, dir: string)
    requires text != [] && MatchesLongInclude(text[0], option)
  {
    var rest := text[0][|option|..];
    && (if rest == "" then |text| == 2 && dir == text[1] else |text| == 1 && dir == if rest[0] == '=' then rest[1..] else rest)
    && dir != "" && !IsOption(dir)
  }

  /** The groups that the source accepts. */
  predicate IsGroup(syntax: Syntax, g: Group) {
    && g.text != []
    && var s := g.text[0];
       match g.kind
       case Xtidy => s == "-Xtidy" && |g.text| > 1 && IsArgument(XtidyNeed(syntax.options, g.text[1]), g.text[2..])
       case ShortIncludePath => StartsWith(s, "-I") && IsArgument(if s == "-I" then Argument else Nothing, g.text[1..])
       case LongIncludePath(dir) =>
         s != "-Xtidy" && !StartsWith(s, "-I") && LongInclude(syntax.includePaths, s, 0).Some? && NamesDirectory(g.text, LongInclude(syntax.includePaths, s, 0).value, dir)
       case Other => IsSimple(syntax, g.text) && IsOther(syntax, s)
       case Unchanged => IsSimple(syntax, g.text) && !IsOther(syntax, s)
  }

  predicate IsSimple(syntax: Syntax, text: seq<string>) {
    |text| == 1 && text[0] != "-Xtidy" && !StartsWith(text[0], "-I") && LongInclude(syntax.includePaths, text[0], 0).None?
  }

  /** What remains of a group for the compiler. */
  function Remaining(g: Group): (args: seq<string>)
    ensures |args| <= |g.text|
  {
    if g.kind == Xtidy || g.kind == Other then [] else g.text
  }

  /** What include-tidy gets. */
  function Moved(g: Group): (args: seq<string>)
    ensures g.text != [] ==> |args| <= |g.text|
  {
    match g.kind
    case Xtidy => if g.text == [] then [] else g.text[1..]
    case ShortIncludePath => g.text
    case LongIncludePath(dir) => ["-I" + dir]
    case Other => g.text
    case Unchanged => []
  }

  function Flatten(f: Group -> seq<string>, gs: seq<Group>): seq<string> {
    if gs == [] then [] else f(gs[0]) + Flatten(f, gs[1..])
  }

  function Text(g: Group): seq<string> { g.text }

  // ----- Splitting arguments into groups -----

  function Take(kind: Kind, args: seq<string>, n: nat, need: Need): (g: Option<Group>)
    requires 0 < n <= |args|
  {
    match need
    case Invalid => None
    case Nothing => Some(Group(kind, args[..n]))
    case Argument => if n == |args| || IsOption(args[n]) then None else Some(Group(kind, args[..n + 1]))
  }

  function TakeDirectory(args: seq<string>, option: string): Option<Group>
    requires args != [] && MatchesLongInclude(args[0], option)
  {
    var rest := args[0][|option|..];
    if rest == "" && |args| == 1 then None else
      var dir := if rest == "" then args[1] else if rest[0] == '=' then rest[1..] else rest;
      if dir == "" || IsOption(dir) then None
      else Some(Group(LongIncludePath(dir), args[..if rest == "" then 2 else 1]))
  }

  function FirstGroup(syntax: Syntax, args: seq<string>): Option<Group>
    requires args != []
  {
    var s := args[0];
    if s == "-Xtidy" then
      if |args| == 1 then None else Take(Xtidy, args, 2, XtidyNeed(syntax.options, args[1]))
    else if StartsWith(s, "-I") then
      Take(ShortIncludePath, args, 1, if s == "-I" then Argument else Nothing)
    else if LongInclude(syntax.includePaths, s, 0).Some? then TakeDirectory(args, LongInclude(syntax.includePaths, s, 0).value)
    else Some(Group(if IsOther(syntax, s) then Other else Unchanged, args[..1]))
  }

  function Groups(syntax: Syntax, args: seq<string>): Option<seq<Group>>
    decreases |args|
  {
    if args == [] then Some([]) else
      match FirstGroup(syntax, args)
      case None => None
      case Some(g) =>
        assert IsGroup(syntax, g) by { FirstGroupIff(syntax, args, g); }
        match Groups(syntax, args[|g.text|..])
        case None => None
        case Some(gs) => Some([g] + gs)
  }

  lemma TakeIff(kind: Kind, args: seq<string>, n: nat, need: Need, g: Group)
    requires 0 < n <= |args|
    ensures Take(kind, args, n, need) == Some(g) <==>
      g.kind == kind && n <= |g.text| && g.text <= args && IsArgument(need, g.text[n..])
  {
    if n <= |g.text| && g.text <= args && IsArgument(need, g.text[n..]) {
      assert need == Argument ==> g.text[n..][0] == args[n];
      assert g.text == args[..|g.text|];
    }
  }

  lemma TakeDirectoryIff(args: seq<string>, option: string, g: Group)
    requires args != [] && MatchesLongInclude(args[0], option)
    ensures TakeDirectory(args, option) == Some(g) <==>
      g.kind.LongIncludePath? && g.text != [] && g.text <= args && NamesDirectory(g.text, option, g.kind.dir)
  {
    if g.text != [] && g.text <= args {
      assert g.text == args[..|g.text|] && g.text[0] == args[0];
    }
  }

  lemma SimpleIff(syntax: Syntax, args: seq<string>, g: Group)
    requires args != [] && IsSimple(syntax, args[..1])
    ensures FirstGroup(syntax, args) == Some(g) <==> IsGroup(syntax, g) && g.text <= args
  {
    if g.text != [] && g.text <= args {
      assert g.text[0] == args[0];
      assert |g.text| == 1 ==> g.text == args[..1];
    }
  }

  /** The first group is the one group that the arguments begin with. */
  lemma FirstGroupIff(syntax: Syntax, args: seq<string>, g: Group)
    requires args != []
    ensures FirstGroup(syntax, args) == Some(g) <==> IsGroup(syntax, g) && g.text <= args
  {
    hide XtidyNeed, Take, TakeDirectory, NamesDirectory, IsArgument, IsOther;
    var s := args[0];
    assert g.text != [] && g.text <= args ==> g.text[0] == s && (|g.text| > 1 ==> g.text[1] == args[1]);
    if s == "-Xtidy" {
      NotAPrefix(s, "-I", 1);
      if |args| > 1 {
        TakeIff(Xtidy, args, 2, XtidyNeed(syntax.options, args[1]), g);
      }
    } else if StartsWith(s, "-I") {
      TakeIff(ShortIncludePath, args, 1, if s == "-I" then Argument else Nothing, g);
    } else if LongInclude(syntax.includePaths, s, 0).Some? {
      TakeDirectoryIff(args, LongInclude(syntax.includePaths, s, 0).value, g);
    } else {
      SimpleIff(syntax, args, g);
    }
  }

  // ----- Splitting is the inverse of joining -----

  ghost predicate AreGroups(syntax: Syntax, gs: seq<Group>) {
    forall g :: g in gs ==> IsGroup(syntax, g)
  }

  /** Arguments split into groups in at most one way, and the source finds it if there is one; they are
      refused otherwise. */
  lemma {:induction false} SplitsIff(syntax: Syntax, args: seq<string>, gs: seq<Group>)
    ensures Groups(syntax, args) == Some(gs) <==> AreGroups(syntax, gs) && Flatten(Text, gs) == args
  {
    if Groups(syntax, args) == Some(gs) {
      SplitIsRight(syntax, args);
    }
    if AreGroups(syntax, gs) && Flatten(Text, gs) == args {
      JoinedSplits(syntax, gs);
    }
  }

  lemma GroupIsNotEmpty(syntax: Syntax, g: Group)
    requires IsGroup(syntax, g)
    ensures g.text != []
  {
  }

  lemma FlattenOneMore(f: Group -> seq<string>, g: Group, gs: seq<Group>)
    ensures Flatten(f, [g] + gs) == f(g) + Flatten(f, gs)
  {
    assert ([g] + gs)[1..] == gs;
  }

  lemma {:induction false} SplitIsRight(syntax: Syntax, args: seq<string>)
    requires Groups(syntax, args).Some?
    ensures AreGroups(syntax, Groups(syntax, args).value) && Flatten(Text, Groups(syntax, args).value) == args
    decreases |args|
  {
    hide IsGroup, FirstGroup;
    if args == [] {
    } else {
      var g := FirstGroup(syntax, args).value;
      FirstGroupIff(syntax, args, g);
      GroupIsNotEmpty(syntax, g);
      SplitIsRight(syntax, args[|g.text|..]);
      FlattenOneMore(Text, g, Groups(syntax, args[|g.text|..]).value);
    }
  }

  lemma {:induction false} JoinedSplits(syntax: Syntax, gs: seq<Group>)
    requires AreGroups(syntax, gs)
    ensures Groups(syntax, Flatten(Text, gs)) == Some(gs)
  {
    hide IsGroup, FirstGroup;
    if gs == [] {
    } else {
      var g, rest := gs[0], Flatten(Text, gs[1..]);
      JoinedSplits(syntax, gs[1..]);
      GroupIsNotEmpty(syntax, g);
      FirstGroupIff(syntax, g.text + rest, g);
      assert (g.text + rest)[|g.text|..] == rest;
      assert [g] + gs[1..] == gs;
    }
  }

  // ----- Moving the arguments once is enough -----

  /** The groups that remain for the compiler. */
  function Kept(gs: seq<Group>): seq<Group> {
    if gs == [] then []
    else (if gs[0].kind == Xtidy || gs[0].kind == Other then [] else [gs[0]]) + Kept(gs[1..])
  }

  lemma {:induction false} KeptAreGroups(syntax: Syntax, gs: seq<Group>)
    requires AreGroups(syntax, gs)
    ensures AreGroups(syntax, Kept(gs)) && Flatten(Text, Kept(gs)) == Flatten(Remaining, gs) == Flatten(Remaining, Kept(gs))
  {
    hide IsGroup;
    if gs == [] {
    } else {
      KeptAreGroups(syntax, gs[1..]);
      GroupIsNotEmpty(syntax, gs[0]);
      FlattenOneMore(Text, gs[0], Kept(gs[1..]));
      FlattenOneMore(Remaining, gs[0], Kept(gs[1..]));
      assert Kept(gs) == if Remaining(gs[0]) == [] then Kept(gs[1..]) else [gs[0]] + Kept(gs[1..]);
    }
  }

  /** What remains is accepted again, and nothing but include paths is then moved. */
  lemma MovingAgain(syntax: Syntax, args: seq<string>)
    requires Groups(syntax, args).Some?
    ensures var gs := Groups(syntax, args).value;
      && Groups(syntax, Flatten(Remaining, gs)) == Some(Kept(gs))
      && Flatten(Remaining, Kept(gs)) == Flatten(Remaining, gs)
  {
    var gs := Groups(syntax, args).value;
    SplitsIff(syntax, args, gs);
    KeptAreGroups(syntax, gs);
    SplitsIff(syntax, Flatten(Text, Kept(gs)), Kept(gs));
  }

  // ----- Where groups begin -----

  lemma {:induction false} FlattenConcat(f: Group -> seq<string>, gs: seq<Group>, hs: seq<Group>)
    ensures Flatten(f, gs + hs) == Flatten(f, gs) + Flatten(f, hs)
  {
    if gs == [] {
      assert gs + hs == hs;
    } else {
      FlattenConcat(f, gs[1..], hs);
      FlattenConcatStep(f, gs[0], gs[1..], hs);
      assert [gs[0]] + gs[1..] == gs;
    }
  }

  lemma FlattenConcatStep(f: Group -> seq<string>, g: Group, gs: seq<Group>, hs: seq<Group>)
    requires Flatten(f, gs + hs) == Flatten(f, gs) + Flatten(f, hs)
    ensures Flatten(f, [g] + gs + hs) == Flatten(f, [g] + gs) + Flatten(f, hs)
  {
    hide Flatten;
    FlattenOneMore(f, g, gs);
    FlattenOneMore(f, g, gs + hs);
    assert [g] + gs + hs == [g] + (gs + hs);
  }

  lemma GroupBegins(gs: seq<Group>, j: nat)
    requires j < |gs| && gs[j].text != []
    ensures var args, before := Flatten(Text, gs), Flatten(Text, gs[..j]);
      |before| < |args| && args[..|before|] == before && args[|before|] == gs[j].text[0]
  {
    hide Flatten;
    var rest := Flatten(Text, gs[j + 1..]);
    FlattenConcat(Text, gs[..j], [gs[j]] + gs[j + 1..]);
    FlattenOneMore(Text, gs[j], gs[j + 1..]);
    assert gs == gs[..j] + ([gs[j]] + gs[j + 1..]);
    assert Flatten(Text, gs) == Flatten(Text, gs[..j]) + (gs[j].text + rest);
  }

  /** A group of `args` begins at `k`. */
  predicate Begins(syntax: Syntax, args: seq<string>, k: nat)
    requires k < |args|
  {
    Groups(syntax, args[..k]).Some?
  }

  /** The groups of a beginning that splits are the first groups of the whole. */
  lemma {:induction false} BeginningSplits(syntax: Syntax, hs: seq<Group>, rest: seq<string>)
    requires AreGroups(syntax, hs) && rest != []
    requires Groups(syntax, Flatten(Text, hs) + rest).Some?
    ensures FirstGroup(syntax, rest).Some?
    ensures FirstGroup(syntax, rest).value in Groups(syntax, Flatten(Text, hs) + rest).value
  {
    hide IsGroup, FirstGroup;
    if hs == [] {
      assert Flatten(Text, hs) + rest == rest;
    } else {
      var h, more := hs[0], Flatten(Text, hs[1..]) + rest;
      GroupIsNotEmpty(syntax, h);
      assert Flatten(Text, hs) + rest == h.text + more;
      FirstGroupIff(syntax, h.text + more, h);
      assert (h.text + more)[|h.text|..] == more;
      BeginningSplits(syntax, hs[1..], rest);
    }
  }

  /** The arguments at which groups begin are those that the groups begin with. */
  lemma BeginsIff(syntax: Syntax, args: seq<string>, s: string)
    requires Groups(syntax, args).Some?
    ensures (exists k :: 0 <= k < |args| && Begins(syntax, args, k) && args[k] == s) <==>
      exists g :: g in Groups(syntax, args).value && g.text != [] && g.text[0] == s
  {
    hide Groups, FirstGroup, Flatten, IsGroup;
    var gs := Groups(syntax, args).value;
    SplitsIff(syntax, args, gs);
    if k :| 0 <= k < |args| && Begins(syntax, args, k) && args[k] == s {
      var g := GroupAt(syntax, args, k);
      assert g in gs && g.text != [] && g.text[0] == s;
    }
    if g :| g in gs && g.text != [] && g.text[0] == s {
      var j :| 0 <= j < |gs| && gs[j] == g;
      GroupBegins(gs, j);
      JoinedSplits(syntax, gs[..j]);
      var k := |Flatten(Text, gs[..j])|;
      assert Begins(syntax, args, k) && args[k] == s;
    }
  }

  lemma GroupAt(syntax: Syntax, args: seq<string>, k: nat) returns (g: Group)
    requires Groups(syntax, args).Some? && k < |args| && Begins(syntax, args, k)
    ensures g in Groups(syntax, args).value && IsGroup(syntax, g) && g.text != [] && g.text[0] == args[k]
  {
    hide FirstGroup, Groups, Flatten, IsGroup;
    var hs := Groups(syntax, args[..k]).value;
    SplitsIff(syntax, args[..k], hs);
    assert args == args[..k] + args[k..];
    BeginningSplits(syntax, hs, args[k..]);
    g := FirstGroup(syntax, args[k..]).value;
    FirstGroupIff(syntax, args[k..], g);
    GroupIsNotEmpty(syntax, g);
    assert g.text[0] == args[k..][0];
  }

  lemma NotAPrefix(s: string, prefix: string, i: nat)
    requires i < |s| && i < |prefix| && s[i] != prefix[i]
    ensures !StartsWith(s, prefix)
  {
  }

  // ----- In place -----

  /** The source's `get_option_short`. */
  method GetOptionShort(options: seq<OptionDef>, c: char) returns (option: Option<OptionDef>)
    ensures option == FindShort(options, c)
  {
    for k := 0 to |options|
      invariant FindShort(options[k..], c) == FindShort(options, c)
    {
      if options[k].val == c {
        return Some(options[k]);
      }
    }
    return None;
  }

  /** The source's `get_option_long`. */
  method GetOptionLong(options: seq<OptionDef>, longOpt: string) returns (option: Option<OptionDef>)
    ensures option == FindLong(options, longOpt[..IndexOf(longOpt, '=')])
  {
    var name := longOpt[..IndexOf(longOpt, '=')];
    for k := 0 to |options|
      invariant FindLong(options[k..], name) == FindLong(options, name)
    {
      if StartsWith(options[k].name, name) {
        return Some(options[k]);
      }
    }
    return None;
  }

  /** The source's `is_Xtidy_opt`, with `ok` unless it exits. */
  method IsXtidyOpt(argv: array<string>, i: nat) returns (ok: bool, isXtidy: bool, i': nat)
    requires i < argv.Length
    ensures argv[i] != "-Xtidy" ==> ok && !isXtidy && i' == i
    ensures argv[i] == "-Xtidy" ==>
              (ok <==> i + 1 < argv.Length && (IsShortOption(argv[i + 1]) || IsLongOption(argv[i + 1])))
    ensures argv[i] == "-Xtidy" && ok ==> isXtidy && i' == i + 1
  {
    if argv[i] != "-Xtidy" {
      return true, false, i;
    }
    i' := i + 1;
    if i' >= argv.Length || argv[i'] == "" || argv[i'][0] != '-' {
      return false, false, i';
    }
    if |argv[i']| > 1 && IsAlnum(argv[i'][1]) {
      return true, true, i';
    }
    if |argv[i']| > 2 && argv[i'][1] == '-' && IsAlnum(argv[i'][2]) {
      return true, true, i';
    }
    return false, false, i';
  }

  /** Whether the option after `-Xtidy` is valid, and whether its argument has to follow. */
  method CheckXtidyOpt(options: seq<OptionDef>, s: string) returns (need: Need)
    requires IsShortOption(s) || IsLongOption(s)
    ensures need == XtidyNeed(options, s)
  {
    if IsAlnum(s[1]) {
      for k := 1 to |s|
        invariant ShortNeed(options, s[k..]) == ShortNeed(options, s[1..])
      {
        var option := GetOptionShort(options, s[k]);
        if option == None {
          return Invalid;
        }
        if option.value.hasArg == RequiredArgument {
          return if k + 1 < |s| then Nothing else Argument;
        }
      }
      return Nothing;
    }
    var opt := s[2..];
    var option := GetOptionLong(options, opt);
    if option == None {
      return Invalid;
    }
    if option.value.hasArg == RequiredArgument {
      var equal := IndexOf(opt, '=');
      if equal < |opt| {
        return if equal + 1 == |opt| then Invalid else Nothing;
      }
      return Argument;
    }
    return Nothing;
  }

  /** That `args` were written to the array from `n` on. */
  twostate predicate Appended(a: array<string>, n: nat, n': nat, args: seq<string>)
    reads a
  {
    n <= n' <= a.Length && a[..n'] == old(a[..n]) + args
  }

  /** That the group `g` at `i` was moved, and what has not been read is still there. */
  twostate predicate IsMoved(g: Group, argv: array<string>, i: nat, i': nat, newArgc: nat, newArgc': nat,
                             tidyArgv: array<string>, tidyArgc: nat, tidyArgc': nat)
    reads argv, tidyArgv
  {
    && i' == i + |g.text| <= argv.Length && argv[i'..] == old(argv[i'..])
    && Appended(argv, newArgc, newArgc', Remaining(g)) && Appended(tidyArgv, tidyArgc, tidyArgc', Moved(g))
  }

  method MoveXtidy(options: seq<OptionDef>, argv: array<string>, i: nat, newArgc: nat, tidyArgv: array<string>, tidyArgc: nat)
    returns (ok: bool, i': nat, tidyArgc': nat)
    requires 0 < i < argv.Length == tidyArgv.Length && newArgc <= i && tidyArgc <= i && tidyArgv != argv
    requires argv[i - 1] == "-Xtidy" && (IsShortOption(argv[i]) || IsLongOption(argv[i]))
    modifies tidyArgv
    ensures var g := FirstGroup(Coded(options), old(argv[i - 1..]));
      ok == g.Some? && (ok ==> IsMoved(g.value, argv, i - 1, i', newArgc, newArgc, tidyArgv, tidyArgc, tidyArgc'))
  {
    hide XtidyNeed;
    ghost var args := argv[i - 1..];
    i', tidyArgc' := i, tidyArgc + 1;
    tidyArgv[tidyArgc] := argv[i'];
    var need := CheckXtidyOpt(options, argv[i']);
    if need == Invalid {
      return false, i', tidyArgc';
    }
    if need == Argument {
      i' := i' + 1;
      if i' >= argv.Length || IsOption(argv[i']) {
        return false, i', tidyArgc';
      }
      tidyArgv[tidyArgc'] := argv[i'];
      tidyArgc' := tidyArgc' + 1;
    }
    return true, i' + 1, tidyArgc';
  }

  method MoveShortIncludePath(options: seq<OptionDef>, argv: array<string>, i: nat, newArgc: nat,
                              tidyArgv: array<string>, tidyArgc: nat)
    returns (ok: bool, i': nat, newArgc': nat, tidyArgc': nat)
    requires i < argv.Length == tidyArgv.Length && newArgc <= i && tidyArgc <= i && tidyArgv != argv
    requires StartsWith(argv[i], "-I") && argv[i] != "-Xtidy"
    modifies argv, tidyArgv
    ensures var g := FirstGroup(Coded(options), old(argv[i..]));
      ok == g.Some? && (ok ==> IsMoved(g.value, argv, i, i', newArgc, newArgc', tidyArgv, tidyArgc, tidyArgc'))
  {
    ghost var args := argv[i..];
    i' := i;
    ghost var s := argv[i];
    var alone := |argv[i]| == 2;
    argv[newArgc], tidyArgv[tidyArgc] := argv[i], argv[i];
    newArgc', tidyArgc' := newArgc + 1, tidyArgc + 1;
    assert alone <==> s == "-I" by {
      assert |s| == 2 ==> s == s[..2];
    }
    if alone {
      i' := i' + 1;
      if i' >= argv.Length || IsOption(argv[i']) {
        return false, i', newArgc', tidyArgc';
      }
      argv[newArgc'], tidyArgv[tidyArgc'] := argv[i'], argv[i'];
      newArgc', tidyArgc' := newArgc' + 1, tidyArgc' + 1;
    }
    return true, i' + 1, newArgc', tidyArgc';
  }

  method FindLongInclude(s: string) returns (option: Option<string>)
    ensures option == LongInclude(LONG_INCLUDE_PATH_OPTIONS, s, 0)
  {
    for k := 0 to |LONG_INCLUDE_PATH_OPTIONS|
      invariant LongInclude(LONG_INCLUDE_PATH_OPTIONS, s, k) == LongInclude(LONG_INCLUDE_PATH_OPTIONS, s, 0)
    {
      if MatchesLongInclude(s, LONG_INCLUDE_PATH_OPTIONS[k]) {
        return Some(LONG_INCLUDE_PATH_OPTIONS[k]);
      }
    }
    return None;
  }

  lemma TakesDirectory(syntax: Syntax, args: seq<string>, option: string)
    requires args != [] && args[0] != "-Xtidy" && !StartsWith(args[0], "-I") && LongInclude(syntax.includePaths, args[0], 0) == Some(option)
    ensures FirstGroup(syntax, args) == TakeDirectory(args, option)
  {
  }

  method MoveLongIncludePath(options: seq<OptionDef>, argv: array<string>, i: nat, newArgc: nat,
                             tidyArgv: array<string>, tidyArgc: nat, option: string)
    returns (ok: bool, i': nat, newArgc': nat, tidyArgc': nat)
    requires i < argv.Length == tidyArgv.Length && newArgc <= i && tidyArgc <= i && tidyArgv != argv
    requires argv[i] != "-Xtidy" && !StartsWith(argv[i], "-I") && LongInclude(LONG_INCLUDE_PATH_OPTIONS, argv[i], 0) == Some(option)
    modifies argv, tidyArgv
    ensures var g := FirstGroup(Coded(options), old(argv[i..]));
      ok == g.Some? && (ok ==> IsMoved(g.value, argv, i, i', newArgc, newArgc', tidyArgv, tidyArgc, tidyArgc'))
  {
    hide LongInclude, FirstGroup;
    ghost var args := argv[i..];
    TakesDirectory(Coded(options), args, option);
    i', newArgc', tidyArgc' := i, newArgc, tidyArgc;
    var rest := argv[i][|option|..];
    argv[newArgc'] := argv[i'];
    newArgc' := newArgc' + 1;
    var dir;
    if rest == "" {
      i' := i' + 1;
      if i' >= argv.Length {
        return false, i', newArgc', tidyArgc';
      }
      dir := argv[i'];
      argv[newArgc'] := dir;
      newArgc' := newArgc' + 1;
    } else if rest[0] == '=' {
      dir := rest[1..];
    } else {
      dir := rest;
    }
    if dir == "" || dir[0] == '-' {
      return false, i', newArgc', tidyArgc';
    }
    tidyArgv[tidyArgc'] := "-I" + dir;
    return true, i' + 1, newArgc', tidyArgc' + 1;
  }

  method FindOther(ghost options: seq<OptionDef>, s: string) returns (found: bool)
    ensures found <==> IsOther(Coded(options), s)
  {
    for k := 0 to |OTHER_OPTIONS|
      invariant forall j :: 0 <= j < k ==> !StartsWith(s, OTHER_OPTIONS[j])
    {
      if StartsWith(s, OTHER_OPTIONS[k]) {
        return true;
      }
    }
    return false;
  }

  method MoveOther(options: seq<OptionDef>, argv: array<string>, i: nat, newArgc: nat, tidyArgv: array<string>, tidyArgc: nat)
    returns (newArgc': nat, tidyArgc': nat)
    requires i < argv.Length == tidyArgv.Length && newArgc <= i && tidyArgc <= i && tidyArgv != argv
    requires IsSimple(Coded(options), [argv[i]])
    modifies argv, tidyArgv
    ensures var g := FirstGroup(Coded(options), old(argv[i..]));
      g.Some? && IsMoved(g.value, argv, i, i + 1, newArgc, newArgc', tidyArgv, tidyArgc, tidyArgc')
  {
    hide LongInclude;
    newArgc', tidyArgc' := newArgc, tidyArgc;
    var other := FindOther(options, argv[i]);
    if other {
      tidyArgv[tidyArgc] := argv[i];
      tidyArgc' := tidyArgc + 1;
      return;
    }
    argv[newArgc] := argv[i];
    newArgc' := newArgc + 1;
  }

  /** The body of the loop of the source's `move_tidy_args`. */
  method MoveGroup(options: seq<OptionDef>, argv: array<string>, i: nat, newArgc: nat, tidyArgv: array<string>, tidyArgc: nat)
    returns (ok: bool, i': nat, newArgc': nat, tidyArgc': nat)
    requires 0 < i < argv.Length == tidyArgv.Length && newArgc <= i && tidyArgc <= i && tidyArgv != argv
    modifies argv, tidyArgv
    ensures var g := FirstGroup(Coded(options), old(argv[i..]));
      ok == g.Some? && (ok ==> IsMoved(g.value, argv, i, i', newArgc, newArgc', tidyArgv, tidyArgc, tidyArgc'))
  {
    hide LongInclude, FirstGroup;
    newArgc', tidyArgc' := newArgc, tidyArgc;
    var isXtidy;
    ok, isXtidy, i' := IsXtidyOpt(argv, i);
    if !ok {
      NoXtidyOption(Coded(options), argv[i..]);
      return;
    }
    if isXtidy {
      ok, i', tidyArgc' := MoveXtidy(options, argv, i', newArgc, tidyArgv, tidyArgc);
      return;
    }
    if StartsWith(argv[i], "-I") {
      ok, i', newArgc', tidyArgc' := MoveShortIncludePath(options, argv, i, newArgc, tidyArgv, tidyArgc);
      return;
    }
    var option := FindLongInclude(argv[i]);
    if option.Some? {
      ok, i', newArgc', tidyArgc' := MoveLongIncludePath(options, argv, i, newArgc, tidyArgv, tidyArgc, option.value);
      return;
    }
    i' := i + 1;
    newArgc', tidyArgc' := MoveOther(options, argv, i, newArgc, tidyArgv, tidyArgc);
  }

  lemma NoXtidyOption(syntax: Syntax, args: seq<string>)
    requires args != [] && args[0] == "-Xtidy"
    requires |args| > 1 ==> !IsShortOption(args[1]) && !IsLongOption(args[1])
    ensures FirstGroup(syntax, args) == None
  {
  }

  /** What is `done`, after `start`, and what is `left` of all arguments make up the whole. */
  ghost predicate AddsUp(syntax: Syntax, f: Group -> seq<string>, all: seq<string>, start: seq<string>,
                         done: seq<string>, left: seq<string>)
  {
    && (Groups(syntax, all).Some? <==> Groups(syntax, left).Some?)
    && (Groups(syntax, left).Some? ==>
          start + Flatten(f, Groups(syntax, all).value) == done + Flatten(f, Groups(syntax, left).value))
  }

  lemma AddsUpStep(syntax: Syntax, f: Group -> seq<string>, all: seq<string>, start: seq<string>,
                   done: seq<string>, left: seq<string>)
    requires AddsUp(syntax, f, all, start, done, left) && left != []
    ensures FirstGroup(syntax, left).None? ==> Groups(syntax, all).None?
    ensures FirstGroup(syntax, left).Some? ==>
      var g := FirstGroup(syntax, left).value;
      g.text != [] && g.text <= left && AddsUp(syntax, f, all, start, done + f(g), left[|g.text|..])
  {
    hide FirstGroup;
    var first := FirstGroup(syntax, left);
    if first.Some? {
      var g := first.value;
      FirstGroupIff(syntax, left, g);
      GroupIsNotEmpty(syntax, g);
      var rest := Groups(syntax, left[|g.text|..]);
      if rest.Some? {
        FlattenOneMore(f, g, rest.value);
      }
    }
  }

  /** The source's `move_tidy_args`; it exits unless `ok`. */
  method MoveTidyArgs(options: seq<OptionDef>, argv: array<string>)
    returns (ok: bool, newArgc: nat, tidyArgv: array<string>, tidyArgc: nat)
    requires argv.Length > 0
    modifies argv
    ensures var gs := Groups(Coded(options), old(argv[1..]));
      && (ok <==> gs.Some?)
      && (ok ==>
            && newArgc <= argv.Length && argv[..newArgc] == old(argv[..1]) + Flatten(Remaining, gs.value)
            && tidyArgc <= tidyArgv.Length && tidyArgv[..tidyArgc] == old(argv[..1]) + Flatten(Moved, gs.value))
  {
    hide FirstGroup, Remaining, Moved;
    tidyArgv := new string[argv.Length](_ => "");
    tidyArgv[0] := argv[0];
    newArgc, tidyArgc := 1, 1;
    ghost var args := argv[..];
    var i := 1;
    while i < argv.Length
      invariant 1 <= i <= argv.Length && newArgc <= i && tidyArgc <= i
      invariant argv[i..] == args[i..]
      invariant AddsUp(Coded(options), Remaining, args[1..], args[..1], argv[..newArgc], args[i..])
      invariant AddsUp(Coded(options), Moved, args[1..], args[..1], tidyArgv[..tidyArgc], args[i..])
    {
      hide AddsUp;
      ghost var left := args[i..];
      AddsUpStep(Coded(options), Remaining, args[1..], args[..1], argv[..newArgc], left);
      AddsUpStep(Coded(options), Moved, args[1..], args[..1], tidyArgv[..tidyArgc], left);
      ok, i, newArgc, tidyArgc := MoveGroup(options, argv, i, newArgc, tidyArgv, tidyArgc);
      if !ok {
        return;
      }
      ghost var g := FirstGroup(Coded(options), left).value;
      assert left[|g.text|..] == args[i..];
      Shorter(g);
    }
    ok := true;
  }

  lemma Shorter(g: Group)
    requires g.text != []
    ensures |Remaining(g)| <= |g.text| && |Moved(g)| <= |g.text|
  {
  }
}

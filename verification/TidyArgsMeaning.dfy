/** What becomes of every kind of argument, said of the arguments and the table of options
    (src/cli_options.c). */
module TidyArgsMeaning {
  import opened Wrappers
  import opened Strings
  import opened TidyArgs

  // ----- Which option is meant -----

  /** `o` is the first option for which `p` holds. */
  ghost predicate IsFirst(options: seq<OptionDef>, p: OptionDef -> bool, o: OptionDef) {
    exists i :: 0 <= i < |options| && options[i] == o && p(o) && forall j :: 0 <= j < i ==> !p(options[j])
  }

  ghost predicate IsNone(options: seq<OptionDef>, p: OptionDef -> bool) {
    forall i :: 0 <= i < |options| ==> !p(options[i])
  }

  lemma FirstLater(options: seq<OptionDef>, p: OptionDef -> bool, o: OptionDef)
    requires options != [] && !p(options[0]) && IsFirst(options[1..], p, o)
    ensures IsFirst(options, p, o)
  {
    var i :| 0 <= i < |options| - 1 && options[1..][i] == o && p(o) && forall j :: 0 <= j < i ==> !p(options[1..][j]);
    forall j | 0 <= j < i + 1
      ensures !p(options[j])
    {
      assert j > 0 ==> options[j] == options[1..][j - 1];
    }
    assert options[i + 1] == o;
  }

  /** A letter stands for the first option that has it. */
  lemma {:induction false} FindShortMeaning(options: seq<OptionDef>, c: char)
    ensures match FindShort(options, c)
      case Some(o) => IsFirst(options, (x: OptionDef) => x.val == c, o)
      case None => IsNone(options, (x: OptionDef) => x.val == c)
  {
    if options == [] || options[0].val == c {
    } else {
      FindShortMeaning(options[1..], c);
      if FindShort(options[1..], c).Some? {
        FirstLater(options, (x: OptionDef) => x.val == c, FindShort(options[1..], c).value);
      } else {
        assert forall i :: 1 <= i < |options| ==> options[i] == options[1..][i - 1];
      }
    }
  }

  /** A long name stands for the first option whose name begins with it. */
  lemma {:induction false} FindLongMeaning(options: seq<OptionDef>, name: string)
    ensures match FindLong(options, name)
      case Some(o) => IsFirst(options, (x: OptionDef) => name <= x.name, o)
      case None => IsNone(options, (x: OptionDef) => name <= x.name)
  {
    if options == [] {
    } else {
      StartsWithIff(options[0].name, name);
      if !(name <= options[0].name) {
        FindLongMeaning(options[1..], name);
        if FindLong(options[1..], name).Some? {
          FirstLater(options, (x: OptionDef) => name <= x.name, FindLong(options[1..], name).value);
        } else {
          assert forall i :: 1 <= i < |options| ==> options[i] == options[1..][i - 1];
        }
      }
    }
  }

  lemma StartsWithIff(s: string, prefix: string)
    ensures StartsWith(s, prefix) <==> prefix <= s
  {
    if prefix <= s {
      assert s[..|prefix|] == prefix;
    }
  }

  // ----- Whether an option after -Xtidy needs an argument -----

  ghost predicate IsFlag(options: seq<OptionDef>, c: char) {
    exists o :: IsFirst(options, (x: OptionDef) => x.val == c, o) && o.hasArg != RequiredArgument
  }

  ghost predicate RequiresArgument(options: seq<OptionDef>, c: char) {
    exists o :: IsFirst(options, (x: OptionDef) => x.val == c, o) && o.hasArg == RequiredArgument
  }

  ghost predicate IsUnknown(options: seq<OptionDef>, c: char) {
    IsNone(options, (x: OptionDef) => x.val == c)
  }

  /** All letters are options that require no argument. */
  ghost predicate AreFlags(options: seq<OptionDef>, letters: string) {
    forall i :: 0 <= i < |letters| ==> IsFlag(options, letters[i])
  }

  lemma OneOption(options: seq<OptionDef>, p: OptionDef -> bool, a: OptionDef, b: OptionDef)
    requires IsFirst(options, p, a) && IsFirst(options, p, b)
    ensures a == b
  {
  }

  lemma LetterIs(options: seq<OptionDef>, c: char)
    ensures match FindShort(options, c)
      case None => IsUnknown(options, c) && !IsFlag(options, c) && !RequiresArgument(options, c)
      case Some(o) =>
        !IsUnknown(options, c) && (IsFlag(options, c) <==> o.hasArg != RequiredArgument) &&
        (RequiresArgument(options, c) <==> o.hasArg == RequiredArgument)
  {
    FindShortMeaning(options, c);
    var p := (x: OptionDef) => x.val == c;
    var found := FindShort(options, c);
    if found.Some? {
      forall o | IsFirst(options, p, o)
        ensures o == found.value
      {
        OneOption(options, p, o, found.value);
      }
    }
  }

  /** Letters written together. Those before the first that is not a flag do not matter: if there is
      none, all is said; if it is unknown, they are refused; and if it requires an argument, the rest of
      the letters is that argument, or the next argument if there is no rest. */
  lemma {:induction false} ShortNeedMeaning(options: seq<OptionDef>, flags: string, letters: string)
    requires AreFlags(options, flags)
    ensures letters == "" ==> ShortNeed(options, flags + letters) == Nothing
    ensures letters != "" && IsUnknown(options, letters[0]) ==> ShortNeed(options, flags + letters) == Invalid
    ensures letters != "" && RequiresArgument(options, letters[0]) ==>
              ShortNeed(options, flags + letters) == if |letters| == 1 then Argument else Nothing
  {
    hide IsFlag, RequiresArgument, IsUnknown;
    if flags == "" {
      assert flags + letters == letters;
      if letters != "" {
        LetterIs(options, letters[0]);
      }
    } else {
      LetterIs(options, flags[0]);
      assert (flags + letters)[1..] == flags[1..] + letters && (flags + letters)[0] == flags[0];
      ShortNeedMeaning(options, flags[1..], letters);
    }
  }

  /** Every string of letters is one of those: it consists of flags, and then what is not a flag. */
  lemma {:induction false} FlagsFirst(options: seq<OptionDef>, letters: string) returns (n: nat)
    ensures n <= |letters| && AreFlags(options, letters[..n])
    ensures n < |letters| ==> IsUnknown(options, letters[n]) || RequiresArgument(options, letters[n])
  {
    hide IsFlag, RequiresArgument, IsUnknown;
    if letters == "" {
      n := 0;
    } else {
      LetterIs(options, letters[0]);
      if IsFlag(options, letters[0]) {
        var m := FlagsFirst(options, letters[1..]);
        n := m + 1;
        assert letters[..n] == [letters[0]] + letters[1..][..m];
      } else {
        n := 0;
      }
    }
  }

  /** Main result on letters, exactly: the next argument is needed if and only if all letters but the
      last are flags and the last requires an argument; they are refused if and only if the first that
      is not a flag is unknown. */
  lemma ShortNeedIff(options: seq<OptionDef>, letters: string)
    ensures ShortNeed(options, letters) == Argument <==>
      letters != "" && AreFlags(options, letters[..|letters| - 1]) && RequiresArgument(options, letters[|letters| - 1])
    ensures ShortNeed(options, letters) == Invalid <==>
      exists n :: 0 <= n < |letters| && AreFlags(options, letters[..n]) && IsUnknown(options, letters[n])
  {
    hide IsFlag, RequiresArgument, IsUnknown, ShortNeed;
    var n := FlagsFirst(options, letters);
    assert letters == letters[..n] + letters[n..];
    ShortNeedMeaning(options, letters[..n], letters[n..]);
    forall i | 0 <= i < |letters| {
      LetterIs(options, letters[i]);
    }
    if letters != "" && AreFlags(options, letters[..|letters| - 1]) && RequiresArgument(options, letters[|letters| - 1]) {
      assert letters == letters[..|letters| - 1] + [letters[|letters| - 1]];
      ShortNeedMeaning(options, letters[..|letters| - 1], [letters[|letters| - 1]]);
    }
    if m :| 0 <= m < |letters| && AreFlags(options, letters[..m]) && IsUnknown(options, letters[m]) {
      assert letters == letters[..m] + letters[m..];
      ShortNeedMeaning(options, letters[..m], letters[m..]);
    }
  }

  /** A long option: the next argument is needed if and only if it requires one and there is no `=`. An
      unknown name, and an empty value of an option that requires one, are refused. */
  lemma LongNeedMeaning(options: seq<OptionDef>, name: string, value: string, o: OptionDef)
    requires '=' !in name
    ensures IsNone(options, (x: OptionDef) => name <= x.name) ==>
              LongNeed(options, name) == LongNeed(options, name + "=" + value) == Invalid
    ensures IsFirst(options, (x: OptionDef) => name <= x.name, o) ==>
              LongNeed(options, name) == (if o.hasArg == RequiredArgument then Argument else Nothing) &&
              LongNeed(options, name + "=" + value) == if o.hasArg == RequiredArgument && value == "" then Invalid else Nothing
  {
    var text, p := name + "=" + value, (x: OptionDef) => name <= x.name;
    assert text[..|name|] == name && text[|name|] == '=' && name[..|name|] == name;
    IndexIs(text, '=', |name|);
    IndexIs(name, '=', |name|);
    FindLongMeaning(options, name);
    if FindLong(options, name).Some? && IsFirst(options, p, o) {
      OneOption(options, p, o, FindLong(options, name).value);
    }
  }

  lemma DigitIff(c: char)
    ensures '0' <= c <= '9' <==> c in "0123456789"
  {
    if '0' <= c <= '9' {
      assert c == '0' || c == '1' || c == '2' || c == '3' || c == '4' || c == '5' || c == '6' || c == '7' || c == '8' || c == '9';
    }
  }

  /** A letter or a digit. */
  lemma AlnumIff(c: char)
    ensures IsAlnum(c) <==> c in "0123456789" || 'a' <= c <= 'z' || (c as int + 32 == 'a' as int) ||
                            ('a' as int < c as int + 32 <= 'z' as int)
  {
    DigitIff(c);
  }

  /** What may follow `-Xtidy`: short options that begin with a letter or a digit, or a long one that
      does. */
  lemma XtidyNeedMeaning(options: seq<OptionDef>, text: string)
    requires text != ""
    ensures IsAlnum(text[0]) ==> XtidyNeed(options, "-" + text) == ShortNeed(options, text)
    ensures IsAlnum(text[0]) ==> XtidyNeed(options, "--" + text) == LongNeed(options, text)
    ensures !IsAlnum(text[0]) ==> XtidyNeed(options, "--" + text) == Invalid
    ensures !IsAlnum(text[0]) && text[0] != '-' ==> XtidyNeed(options, "-" + text) == Invalid
  {
    assert ("-" + text)[0] == '-' && ("-" + text)[1] == text[0] && ("-" + text)[1..] == text;
    assert ("--" + text)[0] == '-' && ("--" + text)[1] == '-' && ("--" + text)[2] == text[0] && ("--" + text)[2..] == text;
  }

  /** Nothing else may. */
  lemma XtidyNeedsOption(options: seq<OptionDef>, s: string)
    requires !("-" <= s) || s == "-" || s == "--"
    ensures XtidyNeed(options, s) == Invalid
  {
    assert |s| > 0 && s[0] == '-' ==> "-" <= s;
  }

  // ----- What becomes of the arguments -----

  /** If `text` comes before `rest`, `remaining` remains of it for the compiler and `moved` is moved to
      include-tidy, before what remains and is moved of the rest. */
  ghost predicate Takes(options: seq<OptionDef>, text: seq<string>, rest: seq<string>, remaining: seq<string>, moved: seq<string>) {
    var all, left := Groups(Coded(options), text + rest), Groups(Coded(options), rest);
    && (all.Some? <==> left.Some?)
    && (left.Some? ==> Flatten(Remaining, all.value) == remaining + Flatten(Remaining, left.value))
    && (left.Some? ==> Flatten(Moved, all.value) == moved + Flatten(Moved, left.value))
  }

  lemma GroupTakes(options: seq<OptionDef>, g: Group, rest: seq<string>)
    requires IsGroup(Coded(options), g)
    ensures Takes(options, g.text, rest, Remaining(g), Moved(g))
  {
    hide FirstGroup, IsGroup;
    GroupIsNotEmpty(Coded(options), g);
    FirstGroupIff(Coded(options), g.text + rest, g);
    assert (g.text + rest)[|g.text|..] == rest;
    var left := Groups(Coded(options), rest);
    if left.Some? {
      FlattenOneMore(Remaining, g, left.value);
      FlattenOneMore(Moved, g, left.value);
    }
  }

  /** An option after `-Xtidy` is moved, with its argument if it needs one, and `-Xtidy` is dropped; the
      source exits for an invalid option and for a missing argument. */
  lemma XtidyTakes(options: seq<OptionDef>, s: string, rest: seq<string>)
    ensures XtidyNeed(options, s) == Nothing ==> Takes(options, ["-Xtidy", s], rest, [], [s])
    ensures XtidyNeed(options, s) == Argument && rest != [] && !IsOption(rest[0]) ==>
              Takes(options, ["-Xtidy", s, rest[0]], rest[1..], [], [s, rest[0]])
    ensures XtidyNeed(options, s) == Invalid || (XtidyNeed(options, s) == Argument && (rest == [] || IsOption(rest[0]))) ==>
              Groups(Coded(options), ["-Xtidy", s] + rest) == None
    ensures Groups(Coded(options), ["-Xtidy"]) == None
  {
    hide XtidyNeed;
    if XtidyNeed(options, s) == Nothing {
      GroupTakes(options, Group(Xtidy, ["-Xtidy", s]), rest);
    } else if XtidyNeed(options, s) == Argument && rest != [] && !IsOption(rest[0]) {
      var g := Group(Xtidy, ["-Xtidy", s, rest[0]]);
      assert g.text[2..] == [rest[0]] && g.text[1..] == [s, rest[0]];
      GroupTakes(options, g, rest[1..]);
    }
  }

  /** `-I` and its directory, together or apart, both remain and are moved. */
  lemma IncludeTakes(options: seq<OptionDef>, dir: string, rest: seq<string>)
    ensures dir != "" ==> Takes(options, ["-I" + dir], rest, ["-I" + dir], ["-I" + dir])
    ensures !IsOption(dir) ==> Takes(options, ["-I", dir], rest, ["-I", dir], ["-I", dir])
    ensures rest == [] || IsOption(rest[0]) ==> Groups(Coded(options), ["-I"] + rest) == None
  {
    assert ("-I" + dir)[..2] == "-I";
    if dir != "" {
      assert |"-I" + dir| > |"-I"|;
      GroupTakes(options, Group(ShortIncludePath, ["-I" + dir]), rest);
    }
    if !IsOption(dir) {
      assert ["-I", dir][1..] == [dir];
      GroupTakes(options, Group(ShortIncludePath, ["-I", dir]), rest);
    }
  }

  /** No include path option is taken for another. */
  lemma {:induction false} OwnOption(option: string, dir: string, k: nat, i: nat)
    requires k <= i < |LONG_INCLUDE_PATH_OPTIONS| && LONG_INCLUDE_PATH_OPTIONS[i] == option && !("-" <= dir)
    ensures LongInclude(LONG_INCLUDE_PATH_OPTIONS, option + dir, k) == Some(option)
    decreases |LONG_INCLUDE_PATH_OPTIONS| - k
  {
    var s := option + dir;
    if k == i {
      assert s[..|option|] == option;
      assert dir != "" ==> s[|option|] == dir[0];
    } else {
      OwnOption(option, dir, k + 1, i);
      NoOtherOption(LONG_INCLUDE_PATH_OPTIONS[k], option, dir);
    }
  }

  lemma NoOtherOption(other: string, option: string, dir: string)
    requires other in LONG_INCLUDE_PATH_OPTIONS && option in LONG_INCLUDE_PATH_OPTIONS && other != option && !("-" <= dir)
    ensures !MatchesLongInclude(option + dir, other)
  {
    OptionsDiffer(other, option);
    var s := option + dir;
    if i :| 0 <= i < |other| && i < |option| && other[i] != option[i] {
      NotAPrefix(s, other, i);
    } else if |other| < |option| {
      assert s[|other|] == '-';
    } else if |s| > |option| {
      NotAPrefix(s, other, |option|);
    }
  }

  lemma OptionChars(i: nat)
    requires i < |LONG_INCLUDE_PATH_OPTIONS|
    ensures i < 7
    ensures var o := LONG_INCLUDE_PATH_OPTIONS[i];
      && |o| > 2 && o[0] == '-'
      && o[1] == (if i < 2 then '-' else if i == 2 then 'c' else 'i')
      && (i > 2 ==> o[2] == if i == 3 then 'd' else if i == 4 then 'q' else 's')
  {
  }

  /** Of two include path options, one is not the beginning of the other, or goes on with `-`. */
  lemma OptionsDiffer(a: string, b: string)
    requires a in LONG_INCLUDE_PATH_OPTIONS && b in LONG_INCLUDE_PATH_OPTIONS && a != b
    ensures (exists i :: 0 <= i < |a| && i < |b| && a[i] != b[i]) ||
            (|a| < |b| && b[|a|] == '-') || (|b| < |a| && a[|b|] == '-')
  {
    var i :| 0 <= i < |LONG_INCLUDE_PATH_OPTIONS| && LONG_INCLUDE_PATH_OPTIONS[i] == a;
    var j :| 0 <= j < |LONG_INCLUDE_PATH_OPTIONS| && LONG_INCLUDE_PATH_OPTIONS[j] == b;
    GoesOn();
    hide LONG_INCLUDE_PATH_OPTIONS;
    OptionChars(i);
    OptionChars(j);
    assert a[1] != b[1] || a[2] != b[2] || (i < 2 && j < 2) || (i > 4 && j > 4);
  }

  lemma GoesOn()
    ensures var os := LONG_INCLUDE_PATH_OPTIONS; |os| == 7 && |os[0]| < |os[1]| && os[1][|os[0]|] == '-'
    ensures var os := LONG_INCLUDE_PATH_OPTIONS; |os| == 7 && |os[5]| < |os[6]| && os[6][|os[5]|] == '-'
  {
  }

  lemma NotShort(i: nat, end: string)
    requires i < |LONG_INCLUDE_PATH_OPTIONS|
    ensures var s := LONG_INCLUDE_PATH_OPTIONS[i] + end; s != "-Xtidy" && !StartsWith(s, "-I")
  {
    hide LONG_INCLUDE_PATH_OPTIONS;
    OptionChars(i);
    var s := LONG_INCLUDE_PATH_OPTIONS[i] + end;
    assert s[1] == LONG_INCLUDE_PATH_OPTIONS[i][1] && "-Xtidy"[1] == 'X';
    NotAPrefix(s, "-I", 1);
  }

  /** The three spellings of an include path option with a directory: all remain, and `-I` with the
      directory is moved. */
  lemma LongIncludeTakes(options: seq<OptionDef>, option: string, dir: string, rest: seq<string>)
    requires option in LONG_INCLUDE_PATH_OPTIONS && dir != "" && dir[0] != '-'
    ensures Takes(options, [option, dir], rest, [option, dir], ["-I" + dir])
    ensures Takes(options, [option + "=" + dir], rest, [option + "=" + dir], ["-I" + dir])
    ensures dir[0] != '=' ==> Takes(options, [option + dir], rest, [option + dir], ["-I" + dir])
  {
    hide LongInclude;
    var i :| 0 <= i < |LONG_INCLUDE_PATH_OPTIONS| && LONG_INCLUDE_PATH_OPTIONS[i] == option;
    PathGroupIs(options, option, "", dir, [option, dir], i);
    GroupTakes(options, Group(LongIncludePath(dir), [option, dir]), rest);
    assert option + "=" + dir == option + ("=" + dir) && ("=" + dir)[0] == '=' && ("=" + dir)[1..] == dir;
    PathGroupIs(options, option, "=" + dir, dir, [option + "=" + dir], i);
    GroupTakes(options, Group(LongIncludePath(dir), [option + "=" + dir]), rest);
    if dir[0] != '=' {
      PathGroupIs(options, option, dir, dir, [option + dir], i);
      GroupTakes(options, Group(LongIncludePath(dir), [option + dir]), rest);
    }
  }

  lemma PathGroupIs(options: seq<OptionDef>, option: string, end: string, dir: string, text: seq<string>, i: nat)
    requires i < |LONG_INCLUDE_PATH_OPTIONS| && LONG_INCLUDE_PATH_OPTIONS[i] == option && !("-" <= end)
    requires dir != "" && dir[0] != '-'
    requires if end == "" then text == [option, dir] else text == [option + end] && dir == if end[0] == '=' then end[1..] else end
    ensures IsGroup(Coded(options), Group(LongIncludePath(dir), text))
  {
    var s := option + end;
    assert text[0] == s;
    OwnOption(option, end, 0, i);
    assert s[|option|..] == end;
    NotShort(i, end);
  }

  /** The directory may not be missing, empty or begin with `-`. */
  lemma LongIncludeRefused(options: seq<OptionDef>, option: string, rest: seq<string>)
    requires option in LONG_INCLUDE_PATH_OPTIONS
    ensures rest == [] || rest[0] == "" || IsOption(rest[0]) ==> Groups(Coded(options), [option] + rest) == None
    ensures Groups(Coded(options), [option + "="] + rest) == None
  {
    hide Groups;
    assert option + "" == option && "="[0] != '-';
    if rest == [] || rest[0] == "" || IsOption(rest[0]) {
      DirectoryRefused(options, option, "", rest);
    }
    DirectoryRefused(options, option, "=", rest);
  }

  lemma DirectoryRefused(options: seq<OptionDef>, option: string, end: string, rest: seq<string>)
    requires option in LONG_INCLUDE_PATH_OPTIONS && !("-" <= end)
    requires end == "=" || (end == "" && (rest == [] || rest[0] == "" || IsOption(rest[0])))
    ensures Groups(Coded(options), [option + end] + rest) == None
  {
    var i :| 0 <= i < |LONG_INCLUDE_PATH_OPTIONS| && LONG_INCLUDE_PATH_OPTIONS[i] == option;
    hide LongInclude, TakeDirectory, Groups, FirstGroup, LONG_INCLUDE_PATH_OPTIONS;
    OwnOption(option, end, 0, i);
    NotShort(i, end);
    TakesDirectory(Coded(options), [option + end] + rest, option);
    NoDirectory(option, end, rest);
    Refused(Coded(options), [option + end] + rest);
  }

  lemma NoDirectory(option: string, end: string, rest: seq<string>)
    requires MatchesLongInclude(option + end, option)
    requires end == "=" || (end == "" && (rest == [] || rest[0] == "" || IsOption(rest[0])))
    ensures TakeDirectory([option + end] + rest, option) == None
  {
    assert (option + end)[|option|..] == end;
    assert rest != [] ==> ([option + end] + rest)[1] == rest[0];
  }

  lemma Refused(syntax: Syntax, args: seq<string>)
    requires args != [] && FirstGroup(syntax, args) == None
    ensures Groups(syntax, args) == None
  {
  }

  /** What begins with a help or version option is moved and does not remain. */
  lemma OtherTakes(options: seq<OptionDef>, option: string, end: string, rest: seq<string>)
    requires option in OTHER_OPTIONS
    ensures Takes(options, [option + end], rest, [], [option + end])
  {
    var s := option + end;
    var i :| 0 <= i < |OTHER_OPTIONS| && OTHER_OPTIONS[i] == option;
    assert s[..|option|] == option && s[1] == option[1] && (|option| > 2 ==> s[2] == option[2]);
    assert StartsWith(s, OTHER_OPTIONS[i]);
    assert "-Xtidy"[1] == 'X';
    NotAPrefix(s, "-I", 1);
    NoInclude(s, 0);
    hide LongInclude;
    GroupTakes(options, Group(Other, [s]), rest);
  }

  lemma {:induction false} NoInclude(s: string, k: nat)
    requires k <= |LONG_INCLUDE_PATH_OPTIONS|
    requires |s| > 1 && (s[1] in "hv" || (|s| > 2 && s[1] == '-' && s[2] in "hv"))
    ensures LongInclude(LONG_INCLUDE_PATH_OPTIONS, s, k) == None
    decreases |LONG_INCLUDE_PATH_OPTIONS| - k
  {
    if k == |LONG_INCLUDE_PATH_OPTIONS| {
    } else {
      NoInclude(s, k + 1);
      var option := LONG_INCLUDE_PATH_OPTIONS[k];
      assert option[1] == '-' ==> option[2] == 'i';
      NotAPrefix(s, option, if s[1] != option[1] then 1 else 2);
    }
  }

  /** All else remains and is not moved. */
  lemma ElseTakes(options: seq<OptionDef>, s: string, rest: seq<string>)
    requires s != "-Xtidy" && !("-I" <= s) && forall o :: o in OTHER_OPTIONS ==> !(o <= s)
    requires forall o :: o in LONG_INCLUDE_PATH_OPTIONS && o <= s ==> |s| > |o| && s[|o|] == '-'
    ensures Takes(options, [s], rest, [s], [])
  {
    hide LongInclude;
    StartsWithIff(s, "-I");
    forall k | 0 <= k < |OTHER_OPTIONS|
      ensures !StartsWith(s, OTHER_OPTIONS[k])
    {
      assert OTHER_OPTIONS[k] in OTHER_OPTIONS;
      StartsWithIff(s, OTHER_OPTIONS[k]);
    }
    forall o | o in LONG_INCLUDE_PATH_OPTIONS
      ensures !MatchesLongInclude(s, o)
    {
      StartsWithIff(s, o);
    }
    NotInclude(s, 0);
    UnchangedIs(options, s);
    GroupTakes(options, Group(Unchanged, [s]), rest);
  }

  lemma UnchangedIs(options: seq<OptionDef>, s: string)
    requires s != "-Xtidy" && !StartsWith(s, "-I") && LongInclude(LONG_INCLUDE_PATH_OPTIONS, s, 0) == None
    requires forall k :: 0 <= k < |OTHER_OPTIONS| ==> !StartsWith(s, OTHER_OPTIONS[k])
    ensures IsGroup(Coded(options), Group(Unchanged, [s]))
  {
    hide LongInclude;
  }

  lemma {:induction false} NotInclude(s: string, k: nat)
    requires k <= |LONG_INCLUDE_PATH_OPTIONS|
    requires forall o :: o in LONG_INCLUDE_PATH_OPTIONS ==> !MatchesLongInclude(s, o)
    ensures LongInclude(LONG_INCLUDE_PATH_OPTIONS, s, k) == None
    decreases |LONG_INCLUDE_PATH_OPTIONS| - k
  {
    if k == |LONG_INCLUDE_PATH_OPTIONS| {
    } else {
      NotInclude(s, k + 1);
    }
  }

  /** `-Xtidy -c f` and `-Xtidy --config f` move the option and its argument, `-Xtidy -cf` the one
      argument. */
  lemma ConfigMoves(options: seq<OptionDef>, o: OptionDef, rest: seq<string>)
    requires options == [o] && o == OptionDef("config", RequiredArgument, 'c')
    ensures Takes(options, ["-Xtidy", "-c", "f"], rest, [], ["-c", "f"])
    ensures Takes(options, ["-Xtidy", "--config", "f"], rest, [], ["--config", "f"])
    ensures Takes(options, ["-Xtidy", "-cf"], rest, [], ["-cf"])
  {
    hide XtidyNeed, Takes;
    ConfigNeeds(options, o);
    assert (["f"] + rest)[0] == "f" && (["f"] + rest)[1..] == rest;
    XtidyTakes(options, "-c", ["f"] + rest);
    XtidyTakes(options, "--config", ["f"] + rest);
    XtidyTakes(options, "-cf", rest);
  }

  lemma ConfigNeeds(options: seq<OptionDef>, o: OptionDef)
    requires options == [o] && o == OptionDef("config", RequiredArgument, 'c')
    ensures XtidyNeed(options, "-c") == XtidyNeed(options, "--config") == Argument && XtidyNeed(options, "-cf") == Nothing
  {
    hide XtidyNeed, ShortNeed, LongNeed;
    assert options[0] == o && IsFirst(options, (x: OptionDef) => x.val == 'c', o);
    assert IsFirst(options, (x: OptionDef) => "config" <= x.name, o);
    assert "" + "c" == "c" && "" + "cf" == "cf" && "-" + "c" == "-c" && "-" + "cf" == "-cf" && "--" + "config" == "--config";
    ShortNeedMeaning(options, "", "c");
    ShortNeedMeaning(options, "", "cf");
    LongNeedMeaning(options, "config", "", o);
    XtidyNeedMeaning(options, "c");
    XtidyNeedMeaning(options, "cf");
    XtidyNeedMeaning(options, "config");
  }
}

/** What one option of an argument vector means, and where every argument of the vector must end up,
    said about the vector as the user gave it: no permuting and no state (lib/getopt.c). */
module GetoptSpec {
  import opened Wrappers
  import opened Strings

  /** A `struct option`. `flag` stands for the address in it; 0 is NULL. */
  datatype LongOption = LongOption(name: string, hasArg: int, flag: nat, val: int)

  /** The option string, without a leading `+` or `-`, and the long options that all calls of a run
      are given. */
  datatype Config = Config(short: string, longs: Option<seq<LongOption>>, longOnly: bool) {
    /** -1 means that no option is left, so no option may be represented by it. */
    ghost predicate Valid() {
      longs.Some? ==> forall i :: 0 <= i < |longs.value| ==> longs.value[i].val != -1
    }
  }

  /** What a call reports: its return value, `optarg`, what it stores to `optopt`, if anything, and
      the index of the long option it found, if any. */
  datatype Report = Report(code: int, optarg: Option<string>, optopt: Option<int>, longind: Option<nat>)

  /** One option was handled: `used` arguments are done with, and `rest` is what is left of the
      cluster of short options that the next argument is. `NotLong` says that the argument is not a
      long option after all. */
  datatype Step = Step(report: Report, used: nat, rest: string) | NotLong

  function Bad(code: char, optopt: int): Report {
    Report(code as int, None, Some(optopt), None)
  }

  /** ':' if the option string asks for it, to tell a missing argument from an unknown option. */
  function Missing(cfg: Config): char {
    if |cfg.short| > 0 && cfg.short[0] == ':' then ':' else '?'
  }

  // ----- Long options -----

  datatype Lookup = Found(i: nat) | Ambiguous | Unknown

  function FindExact(longs: seq<LongOption>, name: string, from: nat): (r: Option<nat>)
    ensures r.Some? ==> from <= r.value < |longs| && longs[r.value].name == name
    ensures r.Some? ==> forall i :: from <= i < r.value ==> longs[i].name != name
    ensures r.None? ==> forall i :: from <= i < |longs| ==> longs[i].name != name
    decreases |longs| - from
  {
    if from >= |longs| then None
    else if longs[from].name == name then Some(from)
    else FindExact(longs, name, from + 1)
  }

  function FindPrefix(longs: seq<LongOption>, name: string, from: nat): (r: Option<nat>)
    ensures r.Some? ==> from <= r.value < |longs| && name <= longs[r.value].name
    ensures r.Some? ==> forall i :: from <= i < r.value ==> !(name <= longs[i].name)
    ensures r.None? ==> forall i :: from <= i < |longs| ==> !(name <= longs[i].name)
    decreases |longs| - from
  {
    if from >= |longs| then None
    else if name <= longs[from].name then Some(from)
    else FindPrefix(longs, name, from + 1)
  }

  /** Whether two options that a name abbreviates stand for the same thing. */
  predicate SameMeaning(a: LongOption, b: LongOption) {
    a.hasArg == b.hasArg && a.flag == b.flag && a.val == b.val
  }

  predicate IsAmbiguous(longs: seq<LongOption>, name: string, longOnly: bool, first: nat)
    requires first < |longs|
  {
    exists i :: first < i < |longs| && name <= longs[i].name && (longOnly || !SameMeaning(longs[first], longs[i]))
  }

  /** An exact match wins; otherwise an unambiguous abbreviation does. */
  function FindLong(longs: seq<LongOption>, name: string, longOnly: bool): (r: Lookup)
    ensures r.Found? ==> r.i < |longs| && name <= longs[r.i].name
  {
    var exact := FindExact(longs, name, 0);
    if exact.Some? then Found(exact.value) else
      var first := FindPrefix(longs, name, 0);
      if first.None? then Unknown
      else if IsAmbiguous(longs, name, longOnly, first.value) then Ambiguous
      else Found(first.value)
  }

  ghost predicate HasExact(longs: seq<LongOption>, name: string) {
    exists i :: 0 <= i < |longs| && longs[i].name == name
  }

  /** `name` abbreviates the names of both options, which do not stand for the same thing. */
  ghost predicate Conflict(longs: seq<LongOption>, name: string, longOnly: bool, i: nat, j: nat)
    requires i < |longs| && j < |longs|
  {
    i != j && name <= longs[i].name && name <= longs[j].name && (longOnly || !SameMeaning(longs[i], longs[j]))
  }

  /** What is found: the first option of that very name, or else the first that the name abbreviates
      if no two of those conflict; the name is unknown exactly if it abbreviates none. */
  lemma FindLongMeaning(longs: seq<LongOption>, name: string, longOnly: bool)
    ensures match FindLong(longs, name, longOnly)
      case Found(i) =>
        if HasExact(longs, name) then longs[i].name == name && forall j :: 0 <= j < i ==> longs[j].name != name
        else
          (forall j :: 0 <= j < i ==> !(name <= longs[j].name)) &&
          (forall j, k :: 0 <= j < |longs| && 0 <= k < |longs| ==> !Conflict(longs, name, longOnly, j, k))
      case Ambiguous =>
        !HasExact(longs, name) && exists j, k :: 0 <= j < |longs| && 0 <= k < |longs| && Conflict(longs, name, longOnly, j, k)
      case Unknown => forall j :: 0 <= j < |longs| ==> !(name <= longs[j].name)
  {
    var first := FindPrefix(longs, name, 0);
    if !HasExact(longs, name) && first.Some? && IsAmbiguous(longs, name, longOnly, first.value) {
      var i :| first.value < i < |longs| && name <= longs[i].name && (longOnly || !SameMeaning(longs[first.value], longs[i]));
      assert Conflict(longs, name, longOnly, first.value, i);
    }
  }

  /** The long option whose text is `text`, which is the end of `args[0]`. */
  function StepLong(cfg: Config, args: seq<string>, text: string, longOnly: bool): (s: Step)
    requires cfg.longs.Some? && args != []
    ensures !longOnly ==> s.Step?
    ensures s.Step? ==> 0 < s.used <= |args| && s.rest == ""
  {
    var n := IndexOf(text, '=');
    match FindLong(cfg.longs.value, text[..n], longOnly)
    case Ambiguous => Step(Bad('?', 0), 1, "")
    case Unknown =>
      if longOnly && !(|args[0]| > 1 && args[0][1] == '-') && (text == "" || text[0] in cfg.short) then NotLong
      else Step(Bad('?', 0), 1, "")
    case Found(i) =>
      var p := cfg.longs.value[i];
      var code := if p.flag != 0 then 0 else p.val;
      if n < |text| then
        if p.hasArg != 0 then Step(Report(code, Some(text[n + 1..]), None, Some(i)), 1, "")
        else Step(Bad('?', p.val), 1, "")
      else if p.hasArg == 1 then
        if |args| > 1 then Step(Report(code, Some(args[1]), None, Some(i)), 2, "")
        else Step(Bad(Missing(cfg), p.val), 1, "")
      else Step(Report(code, None, None, Some(i)), 1, "")
  }

  // ----- Short options -----

  predicate CharAt(s: string, i: nat, c: char) {
    i < |s| && s[i] == c
  }

  /** The short option that `cluster` begins with; `cluster` is the end of `args[0]`. */
  function StepShort(cfg: Config, args: seq<string>, cluster: string): (s: Step)
    requires cluster != "" && args != []
    ensures s.Step? && s.used <= |args|
    ensures if s.rest == "" then s.used > 0 else s.used == 0 && |s.rest| < |cluster|
  {
    var c, rest := cluster[0], cluster[1..];
    var used := if rest == "" then 1 else 0;
    var t := IndexOf(cfg.short, c);
    if t == |cfg.short| || c == ':' || c == ';' then Step(Bad('?', c as int), used, rest)
    else if c == 'W' && CharAt(cfg.short, t + 1, ';') && cfg.longs.Some? then
      if rest != "" then StepLong(cfg, args, rest, false)
      else if |args| == 1 then Step(Bad(Missing(cfg), c as int), 1, "")
      else var s := StepLong(cfg, args[1..], args[1], false); s.(used := s.used + 1)
    else if !CharAt(cfg.short, t + 1, ':') then Step(Report(c as int, None, None, None), used, rest)
    else if rest != "" then Step(Report(c as int, Some(rest), None, None), 1, "")
    else if CharAt(cfg.short, t + 2, ':') then Step(Report(c as int, None, None, None), 1, "")
    else if |args| == 1 then Step(Bad(Missing(cfg), c as int), 1, "")
    else Step(Report(c as int, Some(args[1]), None, None), 2, "")
  }

  // ----- Whole vectors -----

  predicate IsNonOption(arg: string) {
    |arg| < 2 || arg[0] != '-'
  }

  /** The option that comes next: `rest`, if that is not empty, or `args[0]`. */
  function NextStep(cfg: Config, args: seq<string>, rest: string): (s: Step)
    requires args != [] && (rest == "" ==> !IsNonOption(args[0]))
    ensures s.Step? && s.used <= |args|
    ensures if s.rest == "" then s.used > 0 else
      s.used == 0 && |s.rest| < if rest == "" then |args[0]| else |rest|
  {
    if rest != "" then StepShort(cfg, args, rest)
    else if cfg.longs.Some? && args[0][1] == '-' then
      StepLong(cfg, args, args[0][2..], cfg.longOnly)
    else if cfg.longs.Some? && cfg.longOnly && (|args[0]| > 2 || args[0][1] !in cfg.short) then
      var s := StepLong(cfg, args, args[0][1..], true);
      if s.Step? then s else StepShort(cfg, args, args[0][1..])
    else StepShort(cfg, args, args[0][1..])
  }

  lemma LongCodeIsNotMinusOne(cfg: Config, args: seq<string>, text: string, longOnly: bool)
    requires cfg.Valid() && cfg.longs.Some? && args != []
    ensures var s := StepLong(cfg, args, text, longOnly); s.Step? ==> s.report.code != -1
  {
  }

  lemma ShortCodeIsNotMinusOne(cfg: Config, args: seq<string>, cluster: string)
    requires cfg.Valid() && cluster != "" && args != []
    ensures StepShort(cfg, args, cluster).report.code != -1
  {
    if |args| > 1 && cfg.longs.Some? {
      LongCodeIsNotMinusOne(cfg, args[1..], args[1], false);
    }
    if cfg.longs.Some? {
      LongCodeIsNotMinusOne(cfg, args, cluster[1..], false);
    }
  }

  function Repeat(b: bool, n: nat): (m: seq<bool>)
    ensures |m| == n && forall i :: 0 <= i < n ==> m[i] == b
  {
    seq(n, _ => b)
  }

  /** For every argument, whether it is an option, the argument of one, or the `--` that ends them. */
  function Mask(cfg: Config, args: seq<string>, rest: string): (m: seq<bool>)
    ensures |m| == |args|
    decreases |args|, if rest != "" then |rest| else if args == [] then 0 else |args[0]|
  {
    if args == [] then []
    else if rest == "" && args[0] == "--" then [true] + Repeat(false, |args| - 1)
    else if rest == "" && IsNonOption(args[0]) then [false] + Mask(cfg, args[1..], "")
    else var s := NextStep(cfg, args, rest); Repeat(true, s.used) + Mask(cfg, args[s.used..], s.rest)
  }

  /** What the calls up to the first -1 report. */
  function Reports(cfg: Config, args: seq<string>, rest: string): seq<Report>
    decreases |args|, if rest != "" then |rest| else if args == [] then 0 else |args[0]|
  {
    if args == [] || (rest == "" && args[0] == "--") then []
    else if rest == "" && IsNonOption(args[0]) then Reports(cfg, args[1..], "")
    else var s := NextStep(cfg, args, rest); [s.report] + Reports(cfg, args[s.used..], s.rest)
  }

  /** The elements of `s` that `mask` marks with `b`, in order. */
  function Select<T>(s: seq<T>, mask: seq<bool>, b: bool): seq<T>
    requires |mask| == |s|
  {
    if s == [] then [] else (if mask[0] == b then [s[0]] else []) + Select(s[1..], mask[1..], b)
  }

  function Options(cfg: Config, args: seq<string>, rest: string): seq<string> {
    Select(args, Mask(cfg, args, rest), true)
  }

  function NonOptions(cfg: Config, args: seq<string>, rest: string): seq<string> {
    Select(args, Mask(cfg, args, rest), false)
  }

  lemma {:induction false} SelectConcat<T>(s: seq<T>, t: seq<T>, m: seq<bool>, n: seq<bool>, b: bool)
    requires |m| == |s| && |n| == |t|
    ensures Select(s + t, m + n, b) == Select(s, m, b) + Select(t, n, b)
  {
    if s == [] {
      assert s + t == t && m + n == n;
    } else {
      SelectConcat(s[1..], t, m[1..], n, b);
      SelectConcatStep(s[0], s[1..], t, m[0], m[1..], n, b);
      assert [s[0]] + s[1..] == s && [m[0]] + m[1..] == m;
      assert [s[0]] + (s[1..] + t) == s + t && [m[0]] + (m[1..] + n) == m + n;
    }
  }

  lemma SelectConcatStep<T>(x: T, s: seq<T>, t: seq<T>, mark: bool, m: seq<bool>, n: seq<bool>, b: bool)
    requires |m| == |s| && |n| == |t| && Select(s + t, m + n, b) == Select(s, m, b) + Select(t, n, b)
    ensures Select([x] + (s + t), [mark] + (m + n), b) == Select([x] + s, [mark] + m, b) + Select(t, n, b)
  {
    hide Select;
    SelectOneMore(x, s, mark, m);
    SelectOneMore(x, s + t, mark, m + n);
  }

  lemma SelectOneMore<T>(x: T, s: seq<T>, mark: bool, mask: seq<bool>)
    requires |mask| == |s|
    ensures Select([x] + s, [mark] + mask, mark) == [x] + Select(s, mask, mark)
    ensures Select([x] + s, [mark] + mask, !mark) == Select(s, mask, !mark)
  {
    assert ([x] + s)[1..] == s && ([mark] + mask)[1..] == mask;
  }

  lemma {:induction false} SelectRepeat<T>(s: seq<T>, b: bool)
    ensures Select(s, Repeat(b, |s|), b) == s
    ensures Select(s, Repeat(!b, |s|), b) == []
  {
    if s == [] {
    } else {
      assert Repeat(b, |s|)[1..] == Repeat(b, |s| - 1) && Repeat(!b, |s|)[1..] == Repeat(!b, |s| - 1);
      SelectRepeat(s[1..], b);
    }
  }

  /** Both selections together are a permutation of the arguments. */
  lemma {:induction false} SelectionsArePermutation<T>(s: seq<T>, mask: seq<bool>)
    requires |mask| == |s|
    ensures multiset(Select(s, mask, true) + Select(s, mask, false)) == multiset(s)
  {
    if s == [] {
    } else {
      SelectionsArePermutation(s[1..], mask[1..]);
      assert s == [s[0]] + s[1..];
    }
  }

  /** An argument that ends up among the non-options is one, or comes after a `--`; a non-option that
      ends up among the options comes right after one of them, as its argument. */
  lemma {:induction false} MaskMeaning(cfg: Config, args: seq<string>, rest: string, i: nat)
    requires i < |args|
    ensures var m := Mask(cfg, args, rest);
      && (!m[i] ==> IsNonOption(args[i]) || exists j :: 0 <= j < i && m[j] && args[j] == "--")
      && (m[i] && IsNonOption(args[i]) ==> (i > 0 && m[i - 1]) || (i == 0 && rest != ""))
    decreases |args|, if rest != "" then |rest| else |args[0]|, 0
  {
    var m := Mask(cfg, args, rest);
    if rest == "" && args[0] == "--" {
      assert m[0] && args[0] == "--";
    } else if rest == "" && IsNonOption(args[0]) {
      if i > 0 {
        MaskMeaningShifts(cfg, args, 1, "", i, m);
      }
    } else {
      var s := NextStep(cfg, args, rest);
      if i >= s.used {
        MaskMeaningShifts(cfg, args, s.used, s.rest, i, m);
      }
    }
  }

  /** The inductive step: what holds of the arguments from `k` on holds of them all. */
  lemma {:induction false} MaskMeaningShifts(cfg: Config, args: seq<string>, k: nat, rest: string, i: nat, m: seq<bool>)
    requires k <= i < |args| && |m| == |args| && m[k..] == Mask(cfg, args[k..], rest)
    requires rest != "" ==> k == 0
    ensures !m[i] ==> IsNonOption(args[i]) || exists j :: 0 <= j < i && m[j] && args[j] == "--"
    ensures m[i] && IsNonOption(args[i]) ==> (i > k && m[i - 1]) || (i == 0 && rest != "")
    decreases |args| - k, if rest != "" then |rest| else |args[k]|, 1
  {
    hide Mask;
    MaskMeaning(cfg, args[k..], rest, i - k);
    if !m[i] && !IsNonOption(args[i]) {
      var j :| 0 <= j < i - k && m[k..][j] && args[k..][j] == "--";
      assert m[k + j] && args[k + j] == "--";
    }
  }

  // ----- How the two selections and the reports unfold -----

  lemma EndOfOptions(cfg: Config, args: seq<string>)
    requires args != [] && args[0] == "--"
    ensures Options(cfg, args, "") == ["--"] && NonOptions(cfg, args, "") == args[1..]
    ensures Reports(cfg, args, "") == []
  {
    assert args == ["--"] + args[1..];
    SelectRepeat(args[1..], false);
    SelectRepeat(args[1..], true);
    SelectConcat(["--"], args[1..], [true], Repeat(false, |args| - 1), true);
    SelectConcat(["--"], args[1..], [true], Repeat(false, |args| - 1), false);
  }

  lemma NothingLeft(cfg: Config)
    ensures Options(cfg, [], "") == NonOptions(cfg, [], "") == [] && Reports(cfg, [], "") == []
  {
  }

  lemma SkipNonOption(cfg: Config, args: seq<string>)
    requires args != [] && IsNonOption(args[0])
    ensures Options(cfg, args, "") == Options(cfg, args[1..], "")
    ensures NonOptions(cfg, args, "") == [args[0]] + NonOptions(cfg, args[1..], "")
    ensures Reports(cfg, args, "") == Reports(cfg, args[1..], "")
  {
  }

  lemma TakeStep(cfg: Config, args: seq<string>, rest: string)
    requires args != [] && (rest == "" ==> !IsNonOption(args[0]) && args[0] != "--")
    ensures var s := NextStep(cfg, args, rest);
      && Options(cfg, args, rest) == args[..s.used] + Options(cfg, args[s.used..], s.rest)
      && NonOptions(cfg, args, rest) == NonOptions(cfg, args[s.used..], s.rest)
      && Reports(cfg, args, rest) == [s.report] + Reports(cfg, args[s.used..], s.rest)
  {
    var s := NextStep(cfg, args, rest);
    var a, b := args[..s.used], args[s.used..];
    assert args == a + b;
    SelectRepeat(a, true);
    SelectRepeat(a, false);
    SelectConcat(a, b, Repeat(true, s.used), Mask(cfg, b, s.rest), true);
    SelectConcat(a, b, Repeat(true, s.used), Mask(cfg, b, s.rest), false);
  }

  // ----- The orderings that do not permute -----

  /** What a call does when non-options are not permuted: they are reported as arguments of option 1,
      or they end the options, as `--` does. None is the end. */
  function InOrder(cfg: Config, args: seq<string>, rest: string, requireOrder: bool): Option<Step> {
    if args == [] || (rest == "" && args[0] == "--") then None
    else if rest == "" && IsNonOption(args[0]) then
      if requireOrder then None else Some(Step(Report(1, Some(args[0]), None, None), 1, ""))
    else Some(NextStep(cfg, args, rest))
  }

  function PassedAtEnd(args: seq<string>): nat {
    if args != [] && args[0] == "--" then 1 else 0
  }

  /** What the calls up to the first -1 report when non-options are not permuted. */
  function ReportsInOrder(cfg: Config, args: seq<string>, rest: string, requireOrder: bool): seq<Report>
    decreases |args|, if rest != "" then |rest| else if args == [] then 0 else |args[0]|
  {
    match InOrder(cfg, args, rest, requireOrder)
    case None => []
    case Some(s) => [s.report] + ReportsInOrder(cfg, args[s.used..], s.rest, requireOrder)
  }

  /** How many arguments they pass. */
  function PassedInOrder(cfg: Config, args: seq<string>, rest: string, requireOrder: bool): (n: nat)
    ensures n <= |args|
    decreases |args|, if rest != "" then |rest| else if args == [] then 0 else |args[0]|
  {
    match InOrder(cfg, args, rest, requireOrder)
    case None => PassedAtEnd(args)
    case Some(s) => s.used + PassedInOrder(cfg, args[s.used..], s.rest, requireOrder)
  }

  /** Which of the reports are about non-options, when those are returned in order. */
  function AboutNonOptions(cfg: Config, args: seq<string>, rest: string): (marks: seq<bool>)
    ensures |marks| == |ReportsInOrder(cfg, args, rest, false)|
    decreases |args|, if rest != "" then |rest| else if args == [] then 0 else |args[0]|
  {
    match InOrder(cfg, args, rest, false)
    case None => []
    case Some(s) => [rest == "" && IsNonOption(args[0])] + AboutNonOptions(cfg, args[s.used..], s.rest)
  }

  /** The non-options that are returned, in order. */
  function ReturnedInOrder(cfg: Config, args: seq<string>, rest: string): seq<string>
    decreases |args|, if rest != "" then |rest| else if args == [] then 0 else |args[0]|
  {
    match InOrder(cfg, args, rest, false)
    case None => []
    case Some(s) =>
      (if rest == "" && IsNonOption(args[0]) then [args[0]] else []) + ReturnedInOrder(cfg, args[s.used..], s.rest)
  }

  function AsReports(args: seq<string>): seq<Report> {
    if args == [] then [] else [Report(1, Some(args[0]), None, None)] + AsReports(args[1..])
  }

  /** The options are reported as if non-options were permuted; the non-options before a `--` are
      reported, in order, as arguments of option 1, and those after it are left. */
  ghost predicate IsReturnedInOrder(cfg: Config, args: seq<string>, rest: string) {
    var reports, marks := ReportsInOrder(cfg, args, rest, false), AboutNonOptions(cfg, args, rest);
    var returned, passed := ReturnedInOrder(cfg, args, rest), PassedInOrder(cfg, args, rest, false);
    && Select(reports, marks, false) == Reports(cfg, args, rest)
    && Select(reports, marks, true) == AsReports(returned)
    && NonOptions(cfg, args, rest) == returned + args[passed..]
  }

  /** What the calls report with `-`. */
  lemma {:induction false} InOrderReports(cfg: Config, args: seq<string>, rest: string)
    ensures IsReturnedInOrder(cfg, args, rest)
    decreases |args|, if rest != "" then |rest| else if args == [] then 0 else |args[0]|
  {
    if args == [] {
      NothingLeft(cfg);
    } else if rest == "" && args[0] == "--" {
      EndOfOptions(cfg, args);
    } else if rest == "" && IsNonOption(args[0]) {
      InOrderReports(cfg, args[1..], "");
      NonOptionReturned(cfg, args);
    } else {
      hide NextStep, IsReturnedInOrder;
      var s := NextStep(cfg, args, rest);
      InOrderReports(cfg, args[s.used..], s.rest);
      OptionReported(cfg, args, rest);
    }
  }

  lemma NonOptionReturned(cfg: Config, args: seq<string>)
    requires args != [] && IsNonOption(args[0]) && IsReturnedInOrder(cfg, args[1..], "")
    ensures IsReturnedInOrder(cfg, args, "")
  {
    hide Select, Reports, Mask, ReportsInOrder, AboutNonOptions, ReturnedInOrder, PassedInOrder, NonOptions, Options;
    SkipNonOption(cfg, args);
    ReturnedStep(cfg, args);
    SelectOneMore(Report(1, Some(args[0]), None, None), ReportsInOrder(cfg, args[1..], "", false),
                  true, AboutNonOptions(cfg, args[1..], ""));
    assert ([args[0]] + ReturnedInOrder(cfg, args[1..], ""))[1..] == ReturnedInOrder(cfg, args[1..], "");
  }

  lemma OptionReported(cfg: Config, args: seq<string>, rest: string)
    requires args != [] && (rest == "" ==> !IsNonOption(args[0]) && args[0] != "--")
    requires var s := NextStep(cfg, args, rest); IsReturnedInOrder(cfg, args[s.used..], s.rest)
    ensures IsReturnedInOrder(cfg, args, rest)
  {
    hide NextStep, Select, Reports, Mask, ReportsInOrder, AboutNonOptions, ReturnedInOrder, PassedInOrder, NonOptions, Options;
    var s := NextStep(cfg, args, rest);
    TakeStep(cfg, args, rest);
    OptionStep(cfg, args, rest);
    SelectOneMore(s.report, ReportsInOrder(cfg, args[s.used..], s.rest, false),
                  false, AboutNonOptions(cfg, args[s.used..], s.rest));
  }

  lemma ReturnedStep(cfg: Config, args: seq<string>)
    requires args != [] && IsNonOption(args[0])
    ensures var r := Report(1, Some(args[0]), None, None);
      && ReportsInOrder(cfg, args, "", false) == [r] + ReportsInOrder(cfg, args[1..], "", false)
      && AboutNonOptions(cfg, args, "") == [true] + AboutNonOptions(cfg, args[1..], "")
      && ReturnedInOrder(cfg, args, "") == [args[0]] + ReturnedInOrder(cfg, args[1..], "")
      && PassedInOrder(cfg, args, "", false) == 1 + PassedInOrder(cfg, args[1..], "", false)
  {
  }

  lemma OptionStep(cfg: Config, args: seq<string>, rest: string)
    requires args != [] && (rest == "" ==> !IsNonOption(args[0]) && args[0] != "--")
    ensures var s := NextStep(cfg, args, rest);
      && ReportsInOrder(cfg, args, rest, false) == [s.report] + ReportsInOrder(cfg, args[s.used..], s.rest, false)
      && AboutNonOptions(cfg, args, rest) == [false] + AboutNonOptions(cfg, args[s.used..], s.rest)
      && ReturnedInOrder(cfg, args, rest) == ReturnedInOrder(cfg, args[s.used..], s.rest)
      && PassedInOrder(cfg, args, rest, false) == s.used + PassedInOrder(cfg, args[s.used..], s.rest, false)
  {
    hide NextStep;
  }

  /** With `+`, the calls stop at the first non-option or after `--`: what is passed are options, and
      what they report is the first that permuting would report. */
  lemma {:induction false} StopsAtNonOption(cfg: Config, args: seq<string>, rest: string)
    ensures IsFirstFalse(Mask(cfg, args, rest), PassedInOrder(cfg, args, rest, true))
    ensures ReportsInOrder(cfg, args, rest, true) <= Reports(cfg, args, rest)
    decreases |args|, if rest != "" then |rest| else if args == [] then 0 else |args[0]|
  {
    if args == [] || (rest == "" && (args[0] == "--" || IsNonOption(args[0]))) {
    } else {
      hide NextStep, IsFirstFalse;
      var s := NextStep(cfg, args, rest);
      StopsAtNonOption(cfg, args[s.used..], s.rest);
      PassesOption(cfg, args, rest);
    }
  }

  lemma PassesOption(cfg: Config, args: seq<string>, rest: string)
    requires args != [] && (rest == "" ==> !IsNonOption(args[0]) && args[0] != "--")
    requires var s := NextStep(cfg, args, rest);
      && IsFirstFalse(Mask(cfg, args[s.used..], s.rest), PassedInOrder(cfg, args[s.used..], s.rest, true))
      && ReportsInOrder(cfg, args[s.used..], s.rest, true) <= Reports(cfg, args[s.used..], s.rest)
    ensures IsFirstFalse(Mask(cfg, args, rest), PassedInOrder(cfg, args, rest, true))
    ensures ReportsInOrder(cfg, args, rest, true) <= Reports(cfg, args, rest)
  {
    hide NextStep, IsFirstFalse, Repeat;
    var s := NextStep(cfg, args, rest);
    TruesFirst(Mask(cfg, args[s.used..], s.rest), s.used, PassedInOrder(cfg, args[s.used..], s.rest, true));
  }

  /** `n` is the number of marks before the first that is false. */
  predicate IsFirstFalse(m: seq<bool>, n: nat) {
    n <= |m| && (forall i :: 0 <= i < n ==> m[i]) && (n < |m| ==> !m[n])
  }

  lemma TruesFirst(m: seq<bool>, used: nat, n: nat)
    requires IsFirstFalse(m, n)
    ensures IsFirstFalse(Repeat(true, used) + m, used + n)
  {
  }
}

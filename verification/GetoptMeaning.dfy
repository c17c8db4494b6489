/** What the calls of a getopt run report for every kind of option, said about the arguments and the
    option string as the user sees them (lib/getopt.c; sections 12.1 and 12.2 of the POSIX.1-2017 Base
    Definitions). */
module GetoptMeanings {
  import opened Wrappers
  import opened Strings
  import opened GetoptSpec

  /** With `args` left, and of the first one only the letters `rest` if there are any, the next call
      reports `report`, whatever the ordering; then `used` arguments are done with, which are among the
      options, and the letters `rest'` of the next one are left. */
  ghost predicate Handles(cfg: Config, args: seq<string>, rest: string, report: Report, used: nat, rest': string) {
    && used <= |args|
    && Reports(cfg, args, rest) == [report] + Reports(cfg, args[used..], rest')
    && Options(cfg, args, rest) == args[..used] + Options(cfg, args[used..], rest')
    && NonOptions(cfg, args, rest) == NonOptions(cfg, args[used..], rest')
    && (forall requireOrder: bool :: ReportsInOrder(cfg, args, rest, requireOrder) ==
          [report] + ReportsInOrder(cfg, args[used..], rest', requireOrder))
    && (forall requireOrder: bool :: PassedInOrder(cfg, args, rest, requireOrder) ==
          used + PassedInOrder(cfg, args[used..], rest', requireOrder))
  }

  lemma StepHandles(cfg: Config, args: seq<string>, rest: string, report: Report, used: nat, rest': string)
    requires args != [] && (rest == "" ==> !IsNonOption(args[0]) && args[0] != "--")
    requires NextStep(cfg, args, rest) == Step(report, used, rest')
    ensures Handles(cfg, args, rest, report, used, rest')
  {
    hide NextStep, Mask, Select;
    TakeStep(cfg, args, rest);
  }

  /** The non-options are the arguments that do not begin with `-`, and `-` itself. */
  lemma NonOptionIff(arg: string)
    ensures IsNonOption(arg) <==> !exists letters :: letters != "" && arg == "-" + letters
  {
    if !IsNonOption(arg) {
      assert arg == "-" + arg[1..];
    }
  }

  // ----- Long options -----

  /** `arg` is the long option `text`, after two dashes or, if long options may begin with one and it is
      not a short option of one letter, after one. */
  ghost predicate IsLong(cfg: Config, arg: string, text: string) {
    && cfg.longs.Some? && text != ""
    && (arg == "--" + text ||
        (cfg.longOnly && text[0] != '-' && arg == "-" + text && (|text| > 1 || text[0] !in cfg.short)))
  }

  function CodeOf(o: LongOption): int {
    if o.flag != 0 then 0 else o.val
  }

  function MissingCode(cfg: Config): int {
    if ":" <= cfg.short then ':' as int else '?' as int
  }

  lemma LongStep(cfg: Config, args: seq<string>, text: string)
    requires args != [] && IsLong(cfg, args[0], text)
    requires FindLong(cfg.longs.value, text[..IndexOf(text, '=')], cfg.longOnly) != Unknown || args[0] == "--" + text
    ensures !IsNonOption(args[0]) && args[0] != "--"
    ensures NextStep(cfg, args, "") == StepLong(cfg, args, text, cfg.longOnly)
  {
    var arg := args[0];
    if arg == "--" + text {
      assert arg[0] == '-' && arg[1] == '-' && arg[2..] == text;
    } else {
      assert arg[0] == '-' && arg[1] == text[0] && arg[1..] == text;
    }
  }

  lemma NameBeforeEqual(name: string, value: string)
    requires '=' !in name
    ensures IndexOf(name, '=') == |name| && IndexOf(name + "=" + value, '=') == |name|
    ensures (name + "=" + value)[..|name|] == name && (name + "=" + value)[|name| + 1..] == value && name[..|name|] == name
  {
    var text := name + "=" + value;
    assert text[..|name|] == name && text[|name|] == '=' && name[..|name|] == name;
    IndexIs(text, '=', |name|);
    IndexIs(name, '=', |name|);
  }

  /** `--name=value` reports the value if the option takes an argument. */
  lemma LongWithValue(cfg: Config, args: seq<string>, name: string, value: string, i: nat)
    requires args != [] && '=' !in name && IsLong(cfg, args[0], name + "=" + value)
    requires FindLong(cfg.longs.value, name, cfg.longOnly) == Found(i)
    ensures var o := cfg.longs.value[i];
      Handles(cfg, args, "",
        if o.hasArg != 0 then Report(CodeOf(o), Some(value), None, Some(i))
        else Report('?' as int, None, Some(o.val), None),
        1, "")
  {
    var o := cfg.longs.value[i];
    NameBeforeEqual(name, value);
    LongStep(cfg, args, name + "=" + value);
    hide FindLong, NextStep;
    StepHandles(cfg, args, "",
      if o.hasArg != 0 then Report(CodeOf(o), Some(value), None, Some(i)) else Report('?' as int, None, Some(o.val), None),
      1, "");
  }

  /** `--name` reports no argument unless one is required, and then the one that follows, which is
      missing at the end. */
  lemma LongAlone(cfg: Config, args: seq<string>, name: string, i: nat)
    requires args != [] && '=' !in name && IsLong(cfg, args[0], name)
    requires FindLong(cfg.longs.value, name, cfg.longOnly) == Found(i)
    ensures var o := cfg.longs.value[i];
      if o.hasArg != 1 then Handles(cfg, args, "", Report(CodeOf(o), None, None, Some(i)), 1, "")
      else if |args| > 1 then Handles(cfg, args, "", Report(CodeOf(o), Some(args[1]), None, Some(i)), 2, "")
      else Handles(cfg, args, "", Report(MissingCode(cfg), None, Some(o.val), None), 1, "")
  {
    var o := cfg.longs.value[i];
    NameBeforeEqual(name, "");
    LongStep(cfg, args, name);
    hide FindLong, NextStep;
    assert ":" <= cfg.short <==> |cfg.short| > 0 && cfg.short[0] == ':';
    if o.hasArg != 1 {
      StepHandles(cfg, args, "", Report(CodeOf(o), None, None, Some(i)), 1, "");
    } else if |args| > 1 {
      StepHandles(cfg, args, "", Report(CodeOf(o), Some(args[1]), None, Some(i)), 2, "");
    } else {
      StepHandles(cfg, args, "", Report(MissingCode(cfg), None, Some(o.val), None), 1, "");
    }
  }

  /** An ambiguous or unknown name is an error without an option. */
  lemma LongNotFound(cfg: Config, args: seq<string>, text: string)
    requires args != [] && IsLong(cfg, args[0], text)
    requires var found := FindLong(cfg.longs.value, text[..IndexOf(text, '=')], cfg.longOnly);
      found == Ambiguous || (found == Unknown && args[0] == "--" + text)
    ensures Handles(cfg, args, "", Report('?' as int, None, Some(0), None), 1, "")
  {
    LongStep(cfg, args, text);
    if args[0] == "--" + text {
      assert args[0][1] == '-';
    }
    hide FindLong, NextStep;
    StepHandles(cfg, args, "", Report('?' as int, None, Some(0), None), 1, "");
  }

  /** Both spellings of a required argument report the same. */
  lemma SpellingsReportTheSame(cfg: Config, name: string, value: string, rest: seq<string>, i: nat)
    requires cfg.longs.Some? && '=' !in name && name != ""
    requires FindLong(cfg.longs.value, name, cfg.longOnly) == Found(i) && cfg.longs.value[i].hasArg == 1
    ensures Reports(cfg, ["--" + name + "=" + value] + rest, "") == Reports(cfg, ["--" + name, value] + rest, "")
  {
    hide Reports, FindLong;
    var one, two := ["--" + name + "=" + value] + rest, ["--" + name, value] + rest;
    assert "--" + name + "=" + value == "--" + (name + "=" + value);
    LongWithValue(cfg, one, name, value, i);
    LongAlone(cfg, two, name, i);
    assert one[1..] == rest && two[2..] == rest;
  }

  // ----- Short options -----

  /** `letters` are what the next call looks at: what is left of a cluster, or the whole one that
      `args[0]` is, if that is no long option. */
  ghost predicate IsCluster(cfg: Config, args: seq<string>, rest: string, letters: string) {
    && args != [] && letters != ""
    && (rest == letters ||
        (rest == "" && args[0] == "-" + letters && args[0] != "--" &&
         (cfg.longs == None || (letters[0] != '-' && (!cfg.longOnly || (|letters| == 1 && letters[0] in cfg.short))))))
  }

  /** What follows the option letter in the option string, where it is first. */
  ghost predicate IsLetter(cfg: Config, letter: char, before: string, after: string) {
    letter !in ":;" && cfg.short == before + [letter] + after && letter !in before
  }

  ghost predicate IsLongLetter(cfg: Config, letter: char, after: string) {
    letter == 'W' && ";" <= after && cfg.longs.Some?
  }

  lemma ClusterStep(cfg: Config, args: seq<string>, rest: string, letters: string)
    requires IsCluster(cfg, args, rest, letters)
    ensures rest == "" ==> !IsNonOption(args[0]) && args[0] != "--"
    ensures NextStep(cfg, args, rest) == StepShort(cfg, args, letters)
  {
    if rest == "" {
      assert args[0][0] == '-' && args[0][1] == letters[0] && args[0][1..] == letters;
    }
  }

  lemma LetterAt(cfg: Config, letter: char, before: string, after: string)
    requires IsLetter(cfg, letter, before, after)
    ensures IndexOf(cfg.short, letter) == |before|
    ensures CharAt(cfg.short, |before| + 1, ':') <==> ":" <= after
    ensures CharAt(cfg.short, |before| + 1, ';') <==> ";" <= after
    ensures CharAt(cfg.short, |before| + 1, ':') && CharAt(cfg.short, |before| + 2, ':') <==> "::" <= after
  {
    var s := cfg.short;
    assert s[..|before|] == before && s[|before|] == letter && s[|before| + 1..] == after;
    IndexIs(s, letter, |before|);
    assert forall k :: 0 <= k < |after| ==> s[|before| + 1 + k] == after[k];
  }

  /** A letter that is not an option. */
  lemma UnknownLetter(cfg: Config, args: seq<string>, rest: string, letters: string)
    requires IsCluster(cfg, args, rest, letters) && (letters[0] !in cfg.short || letters[0] in ":;")
    ensures Handles(cfg, args, rest, Report('?' as int, None, Some(letters[0] as int), None),
                    if |letters| == 1 then 1 else 0, letters[1..])
  {
    ClusterStep(cfg, args, rest, letters);
    assert IndexOf(cfg.short, letters[0]) < |cfg.short| ==> letters[0] in cfg.short;
    hide NextStep;
    StepHandles(cfg, args, rest, Report('?' as int, None, Some(letters[0] as int), None), if |letters| == 1 then 1 else 0, letters[1..]);
  }

  /** An option without an argument leaves the letters after it. */
  lemma LetterAlone(cfg: Config, args: seq<string>, rest: string, letters: string, before: string, after: string)
    requires IsCluster(cfg, args, rest, letters) && IsLetter(cfg, letters[0], before, after)
    requires !(":" <= after) && !IsLongLetter(cfg, letters[0], after)
    ensures Handles(cfg, args, rest, Report(letters[0] as int, None, None, None),
                    if |letters| == 1 then 1 else 0, letters[1..])
  {
    ClusterStep(cfg, args, rest, letters);
    LetterAt(cfg, letters[0], before, after);
    hide NextStep;
    StepHandles(cfg, args, rest, Report(letters[0] as int, None, None, None), if |letters| == 1 then 1 else 0, letters[1..]);
  }

  /** With one colon or two, the rest of the cluster is the argument. Without such a rest, there is none
      with two colons; with one, it is the argument that follows, which is missing at the end. */
  lemma LetterWithArgument(cfg: Config, args: seq<string>, rest: string, letters: string, before: string, after: string)
    requires IsCluster(cfg, args, rest, letters) && IsLetter(cfg, letters[0], before, after) && ":" <= after
    ensures var c := letters[0] as int;
      if |letters| > 1 then Handles(cfg, args, rest, Report(c, Some(letters[1..]), None, None), 1, "")
      else if "::" <= after then Handles(cfg, args, rest, Report(c, None, None, None), 1, "")
      else if |args| > 1 then Handles(cfg, args, rest, Report(c, Some(args[1]), None, None), 2, "")
      else Handles(cfg, args, rest, Report(MissingCode(cfg), None, Some(c), None), 1, "")
  {
    var c := letters[0] as int;
    ClusterStep(cfg, args, rest, letters);
    LetterAt(cfg, letters[0], before, after);
    assert ":" <= cfg.short <==> |cfg.short| > 0 && cfg.short[0] == ':';
    hide NextStep;
    if |letters| > 1 {
      StepHandles(cfg, args, rest, Report(c, Some(letters[1..]), None, None), 1, "");
    } else if "::" <= after {
      StepHandles(cfg, args, rest, Report(c, None, None, None), 1, "");
    } else if |args| > 1 {
      StepHandles(cfg, args, rest, Report(c, Some(args[1]), None, None), 2, "");
    } else {
      StepHandles(cfg, args, rest, Report(MissingCode(cfg), None, Some(c), None), 1, "");
    }
  }

  // ----- -W -----

  /** The same, without long options that begin with one dash. */
  function TwoDashes(cfg: Config): Config {
    cfg.(longOnly := false)
  }

  lemma TwoDashesStep(cfg: Config, args: seq<string>, text: string)
    requires args != [] && cfg.longs.Some? && text != ""
    ensures !IsNonOption("--" + text)
    ensures NextStep(TwoDashes(cfg), ["--" + text] + args[1..], "") == StepLong(cfg, args, text, false)
  {
    var arg := "--" + text;
    assert arg[0] == '-' && arg[1] == '-' && arg[2..] == text;
    assert |args| > 1 ==> ([arg] + args[1..])[1] == args[1];
  }

  /** `-Wtext` is `--text`. */
  lemma LongLetterAttached(cfg: Config, args: seq<string>, rest: string, letters: string, before: string, after: string,
                           report: Report, used: nat)
    requires IsCluster(cfg, args, rest, letters) && IsLetter(cfg, letters[0], before, after) && |letters| > 1
    requires IsLongLetter(cfg, letters[0], after)
    requires IsNextLong(cfg, ["--" + letters[1..]] + args[1..], report, used)
    ensures Handles(cfg, args, rest, report, used, "")
  {
    ClusterStep(cfg, args, rest, letters);
    LetterAt(cfg, letters[0], before, after);
    TwoDashesStep(cfg, args, letters[1..]);
    hide NextStep, StepLong;
    StepHandles(cfg, args, rest, report, used, "");
  }

  /** What the next call does with the long option `args[0]`. */
  ghost predicate IsNextLong(cfg: Config, args: seq<string>, report: Report, used: nat) {
    args != [] && !IsNonOption(args[0]) && NextStep(TwoDashes(cfg), args, "") == Step(report, used, "")
  }

  /** `-W text` is `--text`, with one argument more, which is missing at the end. */
  lemma LongLetterAlone(cfg: Config, args: seq<string>, rest: string, before: string, after: string, report: Report, used: nat)
    requires IsCluster(cfg, args, rest, "W") && IsLetter(cfg, 'W', before, after) && IsLongLetter(cfg, 'W', after)
    requires if |args| == 1 then report == Report(MissingCode(cfg), None, Some('W' as int), None) && used == 1
             else args[1] != "" && used > 0 && IsNextLong(cfg, ["--" + args[1]] + args[2..], report, used - 1)
    ensures Handles(cfg, args, rest, report, used, "")
  {
    ClusterStep(cfg, args, rest, "W");
    LetterAt(cfg, 'W', before, after);
    assert ":" <= cfg.short <==> |cfg.short| > 0 && cfg.short[0] == ':';
    if |args| > 1 {
      TwoDashesStep(cfg, args[1..], args[1]);
      assert args[1..][1..] == args[2..];
    }
    hide NextStep, StepLong;
    StepHandles(cfg, args, rest, report, used, "");
  }

  // ----- All arguments of options -----

  /** `v` is what is left of `args[p]` after some of its characters, or the argument after it. */
  ghost predicate IsArgumentOf(args: seq<string>, p: nat, v: string) {
    p < |args| && ((exists j :: 0 < j <= |args[p]| && v == args[p][j..]) || (p + 1 < |args| && v == args[p + 1]))
  }

  /** What is left of a cluster is the end of the argument that it is. */
  ghost predicate IsEnd(args: seq<string>, rest: string) {
    rest != "" ==> args != [] && exists j :: 0 < j <= |args[0]| && rest == args[0][j..]
  }

  lemma LongArgument(cfg: Config, args: seq<string>, text: string, longOnly: bool)
    requires cfg.longs.Some? && args != [] && exists j :: 0 <= j <= |args[0]| && text == args[0][j..]
    ensures var s := StepLong(cfg, args, text, longOnly);
      s.Step? && s.report.optarg.Some? ==> IsArgumentOf(args, 0, s.report.optarg.value)
  {
    hide FindLong;
    var s, n := StepLong(cfg, args, text, longOnly), IndexOf(text, '=');
    var j :| 0 <= j <= |args[0]| && text == args[0][j..];
    if s.Step? && s.report.optarg.Some? && n < |text| {
      assert text[n + 1..] == args[0][j + n + 1..];
    }
  }

  lemma ShortArgument(cfg: Config, args: seq<string>, letters: string)
    requires args != [] && letters != "" && IsEnd(args, letters)
    ensures var s := StepShort(cfg, args, letters);
      && (s.report.optarg.Some? ==> exists p :: 0 <= p < s.used && IsArgumentOf(args, p, s.report.optarg.value))
      && IsEnd(args, s.rest)
  {
    hide StepLong;
    var j :| 0 < j <= |args[0]| && letters == args[0][j..];
    var more := letters[1..];
    assert more == args[0][j + 1..];
    if cfg.longs.Some? {
      LongArgument(cfg, args, more, false);
      if |args| > 1 {
        assert args[1] == args[1..][0][0..];
        LongArgument(cfg, args[1..], args[1], false);
      }
    }
    assert IsArgumentOf(args, 0, more);
    if |args| > 1 {
      assert IsArgumentOf(args, 0, args[1]);
    }
    var s := StepShort(cfg, args, letters);
    if s.report.optarg.Some? {
      var v := s.report.optarg.value;
      assert IsArgumentOf(args, 0, v) || (|args| > 1 && s.used > 1 && IsArgumentOf(args[1..], 0, v));
      assert s.used > 0;
      if !IsArgumentOf(args, 0, v) {
        Shifted(args, 1, 0, v);
      }
    }
  }

  lemma StepArgument(cfg: Config, args: seq<string>, rest: string)
    requires args != [] && (rest == "" ==> !IsNonOption(args[0])) && IsEnd(args, rest)
    ensures var s := NextStep(cfg, args, rest);
      && (s.report.optarg.Some? ==> exists p :: 0 <= p < s.used && IsArgumentOf(args, p, s.report.optarg.value))
      && IsEnd(args[s.used..], s.rest)
  {
    hide StepLong, StepShort;
    if rest != "" {
      ShortArgument(cfg, args, rest);
    } else {
      assert IsEnd(args, args[0][1..]);
      if cfg.longs.Some? {
        LongArgument(cfg, args, args[0][2..], cfg.longOnly);
        LongArgument(cfg, args, args[0][1..], true);
      }
      ShortArgument(cfg, args, args[0][1..]);
    }
  }

  lemma Shifted(args: seq<string>, used: nat, p: nat, v: string)
    requires used <= |args| && IsArgumentOf(args[used..], p, v)
    ensures IsArgumentOf(args, used + p, v)
  {
  }

  /** Every `optarg` of a run is text of the user's: the end of an argument among the options, or the
      argument directly after one. */
  lemma {:induction false} ArgumentsAreText(cfg: Config, args: seq<string>, rest: string, k: nat)
    requires k < |Reports(cfg, args, rest)| && Reports(cfg, args, rest)[k].optarg.Some? && IsEnd(args, rest)
    ensures exists p :: 0 <= p < |args| && Mask(cfg, args, rest)[p] &&
              IsArgumentOf(args, p, Reports(cfg, args, rest)[k].optarg.value)
    decreases |args|, if rest != "" then |rest| else if args == [] then 0 else |args[0]|
  {
    hide NextStep, IsArgumentOf, IsEnd;
    var v := Reports(cfg, args, rest)[k].optarg.value;
    if args == [] || (rest == "" && args[0] == "--") {
    } else if rest == "" && IsNonOption(args[0]) {
      EndOfNothing(args[1..]);
      ArgumentsAreText(cfg, args[1..], "", k);
      var p :| 0 <= p < |args| - 1 && Mask(cfg, args[1..], "")[p] && IsArgumentOf(args[1..], p, v);
      Shifted(args, 1, p, v);
      assert Mask(cfg, args, rest)[1 + p];
    } else {
      var s := NextStep(cfg, args, rest);
      StepArgument(cfg, args, rest);
      if k == 0 {
        var p :| 0 <= p < s.used && IsArgumentOf(args, p, v);
        assert Mask(cfg, args, rest)[p];
      } else {
        ArgumentsAreText(cfg, args[s.used..], s.rest, k - 1);
        var p :| 0 <= p < |args| - s.used && Mask(cfg, args[s.used..], s.rest)[p] && IsArgumentOf(args[s.used..], p, v);
        Shifted(args, s.used, p, v);
        assert Mask(cfg, args, rest)[s.used + p];
      }
    }
  }

  lemma EndOfNothing(args: seq<string>)
    ensures IsEnd(args, "")
  {
  }
}

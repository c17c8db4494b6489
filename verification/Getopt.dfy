/** The reentrant state machine of lib/getopt.c, which permutes its argument vector in place. */
module Getopts {
  import opened Wrappers
  import opened Strings
  import opened GetoptSpec

  // ----- Exchanging two adjacent blocks -----

  /** `s` with the blocks [first, last) and [last, top) exchanged. */
  function Exchanged<T>(s: seq<T>, first: nat, last: nat, top: nat): (r: seq<T>)
    requires first <= last <= top <= |s|
    ensures |r| == |s|
  {
    s[..first] + s[last..top] + s[first..last] + s[top..]
  }

  /** `s` with two blocks of the same length swapped. */
  function Swapped<T>(s: seq<T>, i: nat, j: nat, len: nat): (r: seq<T>)
    requires i + len <= j && j + len <= |s|
    ensures |r| == |s|
  {
    s[..i] + s[j..j + len] + s[i + len..j] + s[i..i + len] + s[j + len..]
  }

  lemma ExchangedAt<T>(s: seq<T>, first: nat, last: nat, top: nat)
    requires first <= last <= top <= |s|
    ensures forall x :: 0 <= x < |s| ==> Exchanged(s, first, last, top)[x] == s[
      if x < first || x >= top then x else if x < first + (top - last) then x + (last - first) else x - (top - last)]
  {
  }

  lemma SwappedAt<T>(s: seq<T>, i: nat, j: nat, len: nat)
    requires i + len <= j && j + len <= |s|
    ensures forall x :: 0 <= x < |s| ==> Swapped(s, i, j, len)[x] == s[SwappedFrom(i, j, len, x)]
  {
  }

  /** Where the element at `x` was before the blocks of length `len` at `i` and `j` were swapped. */
  function SwappedFrom(i: nat, j: nat, len: nat, x: nat): nat
    requires i + len <= j
  {
    if i <= x < i + len then x + (j - i) else if j <= x < j + len then x - (j - i) else x
  }

  method SwapBlocks<T>(a: array<T>, i: nat, j: nat, len: nat)
    requires i + len <= j && j + len <= a.Length
    modifies a
    ensures a[..] == Swapped(old(a[..]), i, j, len)
  {
    hide Swapped;
    ghost var s := a[..];
    for k := 0 to len
      invariant forall x :: 0 <= x < a.Length ==> a[x] == s[SwappedFrom(i, j, k, x)]
    {
      assert a[i + k] == s[i + k] && a[j + k] == s[j + k];
      a[i + k], a[j + k] := a[j + k], a[i + k];
    }
    SwappedAt(s, i, j, len);
  }

  /** Swapping the shorter, lower block with the far end of the upper one puts it in place. */
  lemma LowerBlockPlaced<T>(s: seq<T>, first: nat, last: nat, top: nat)
    requires first <= last <= top <= |s| && last - first <= top - last
    ensures var len := last - first;
      Exchanged(Swapped(s, first, top - len, len), first, last, top - len) == Exchanged(s, first, last, top)
  {
    var len := last - first;
    hide Exchanged, Swapped;
    var t := Swapped(s, first, top - len, len);
    SwappedAt(s, first, top - len, len);
    ExchangedAt(t, first, last, top - len);
    ExchangedAt(s, first, last, top);
    var l, r := Exchanged(t, first, last, top - len), Exchanged(s, first, last, top);
    assert forall x :: 0 <= x < |s| ==> l[x] == r[x];
  }

  /** Swapping the shorter, upper block with the near end of the lower one puts it in place. */
  lemma UpperBlockPlaced<T>(s: seq<T>, first: nat, last: nat, top: nat)
    requires first <= last <= top <= |s| && top - last <= last - first
    ensures var len := top - last;
      Exchanged(Swapped(s, first, last, len), first + len, last, top) == Exchanged(s, first, last, top)
  {
    var len := top - last;
    hide Exchanged, Swapped;
    var t := Swapped(s, first, last, len);
    SwappedAt(s, first, last, len);
    ExchangedAt(t, first + len, last, top);
    ExchangedAt(s, first, last, top);
    var l, r := Exchanged(t, first + len, last, top), Exchanged(s, first, last, top);
    assert forall x :: 0 <= x < |s| ==> l[x] == r[x];
  }

  /** The source's `exchange`, on its own: repeated swaps of the shorter block. */
  method Exchange<T>(argv: array<T>, first: nat, last: nat, optind: nat)
    requires first <= last <= optind <= argv.Length
    modifies argv
    ensures argv[..] == Exchanged(old(argv[..]), first, last, optind)
  {
    hide Exchanged, Swapped;
    ghost var goal := Exchanged(argv[..], first, last, optind);
    var bottom, middle, top := first, last, optind;
    while top > middle && middle > bottom
      invariant first <= bottom <= middle <= top <= optind
      invariant Exchanged(argv[..], bottom, middle, top) == goal
      decreases top - bottom
    {
      if top - middle > middle - bottom {
        var len := middle - bottom;
        LowerBlockPlaced(argv[..], bottom, middle, top);
        SwapBlocks(argv, bottom, top - len, len);
        top := top - len;
      } else {
        var len := top - middle;
        UpperBlockPlaced(argv[..], bottom, middle, top);
        SwapBlocks(argv, bottom, middle, len);
        bottom := bottom + len;
      }
    }
    NothingToExchange(argv[..], bottom, middle, top);
  }

  lemma NothingToExchange<T>(s: seq<T>, first: nat, last: nat, top: nat)
    requires first <= last <= top <= |s| && (first == last || last == top)
    ensures Exchanged(s, first, last, top) == s
  {
  }

  lemma ExchangedBlocks<T>(s: seq<T>, start: nat, first: nat, last: nat, top: nat)
    requires start <= first <= last <= top <= |s|
    ensures var r, mid := Exchanged(s, first, last, top), first + (top - last);
      && r[..start] == s[..start] && r[start..mid] == s[start..first] + s[last..top]
      && r[mid..top] == s[first..last] && r[top..] == s[top..]
  {
    ExchangedAt(s, first, last, top);
    hide Exchanged;
  }

  /** Where a `--` at `i` goes, past the non-options [first, last) if there are any. */
  lemma DashDashBlocks<T>(v: seq<T>, start: nat, first: nat, last: nat, i: nat)
    requires start <= first <= last <= i < |v| && (last == i || first == last)
    ensures var r, mid := if first == last then v else Exchanged(v, first, last, i + 1), first + (i - last) + 1;
      && r[..start] == v[..start]
      && r[start..mid] == v[start..first] + v[last..i] + [v[i]]
      && r[mid..] == v[first..last] + v[i + 1..]
  {
    hide Exchanged;
    if first != last {
      ExchangedBlocks(v, start, first, last, i + 1);
      var r, mid := Exchanged(v, first, last, i + 1), first + (i - last) + 1;
      assert r[mid..] == r[mid..i + 1] + r[i + 1..];
    }
  }

  // ----- Looking up a long option -----

  method FindNameEnd(text: string) returns (n: nat)
    ensures n == IndexOf(text, '=')
  {
    n := 0;
    while n < |text| && text[n] != '='
      invariant n <= |text| && IndexOf(text, '=') == n + IndexOf(text[n..], '=')
    {
      assert text[n..][1..] == text[n + 1..];
      n := n + 1;
    }
  }

  /** The two loops of `process_long_option` over the long options. */
  method LookUp(longs: seq<LongOption>, name: string, longOnly: bool) returns (r: Lookup)
    ensures r == FindLong(longs, name, longOnly)
  {
    for p := 0 to |longs|
      invariant FindExact(longs, name, 0) == FindExact(longs, name, p)
    {
      if longs[p].name == name {
        return Found(p);
      }
    }
    hide IsAmbiguous;
    var found: Option<nat> := None;
    var ambiguous := false;
    for p := 0 to |longs|
      invariant found.None? ==> FindPrefix(longs, name, 0) == FindPrefix(longs, name, p) && !ambiguous
      invariant found.Some? ==> found.value < p && FindPrefix(longs, name, 0) == found
      invariant found.Some? ==> (ambiguous <==> IsAmbiguous(longs[..p], name, longOnly, found.value))
    {
      OneMoreOption(longs, name, longOnly, p);
      if name <= longs[p].name {
        if found.None? {
          found := Some(p);
        } else if longOnly || !SameMeaning(longs[found.value], longs[p]) {
          ambiguous := true;
        }
      }
    }
    assert longs[..|longs|] == longs;
    r := if found.None? then Unknown else if ambiguous then Ambiguous else Found(found.value);
  }

  lemma OneMoreOption(longs: seq<LongOption>, name: string, longOnly: bool, p: nat)
    requires p < |longs|
    ensures !IsAmbiguous(longs[..p + 1], name, longOnly, p)
    ensures forall first: nat :: first < p ==>
        (IsAmbiguous(longs[..p + 1], name, longOnly, first) <==>
          IsAmbiguous(longs[..p], name, longOnly, first) ||
          (name <= longs[p].name && (longOnly || !SameMeaning(longs[first], longs[p]))))
  {
    forall first: nat | first < p
      ensures IsAmbiguous(longs[..p + 1], name, longOnly, first) <==>
        IsAmbiguous(longs[..p], name, longOnly, first) ||
        (name <= longs[p].name && (longOnly || !SameMeaning(longs[first], longs[p])))
    {
      assert longs[..p + 1] == longs[..p] + [longs[p]];
      assert longs[..p + 1][first] == longs[first] && longs[..p][first] == longs[first];
    }
  }

  // ----- The state machine -----

  function Min(a: nat, b: nat): nat {
    if a < b then a else b
  }

  datatype Ordering = RequireOrder | Permute | ReturnInOrder

  class Getopt {
    // what every call of a run is given
    const argv: array<string>
    const optstring: string
    const longs: Option<seq<LongOption>>
    const longOnly: bool
    const posixlyCorrect: bool

    // the fields of struct _getopt_data; an empty `nextchar` also stands for NULL
    var optind: nat
    var optarg: Option<string>
    var optopt: int
    var longind: nat
    var initialized: bool
    var nextchar: string
    var ordering: Ordering
    var firstNonopt: nat
    var lastNonopt: nat

    ghost var start: nat

    constructor (argv: array<string>, optstring: string, longs: Option<seq<LongOption>>, longOnly: bool,
        posixlyCorrect: bool)
      ensures this.argv == argv && this.optstring == optstring && this.longs == longs
      ensures this.longOnly == longOnly && this.posixlyCorrect == posixlyCorrect
      ensures optind == 1 && !initialized
    {
      this.argv, this.optstring, this.longs := argv, optstring, longs;
      this.longOnly, this.posixlyCorrect := longOnly, posixlyCorrect;
      optind, initialized := 1, false;
      optarg, optopt, longind, nextchar := None, '?' as int, 0, "";
      ordering, firstNonopt, lastNonopt := Permute, 0, 0;
    }

    /** The option string without the character that selects the ordering. */
    function Short(): string {
      if optstring != "" && (optstring[0] == '-' || optstring[0] == '+') then optstring[1..] else optstring
    }

    function Cfg(): Config {
      Config(Short(), longs, longOnly)
    }

    function Mode(): Ordering {
      if optstring != "" && optstring[0] == '-' then ReturnInOrder
      else if optstring != "" && optstring[0] == '+' then RequireOrder
      else if posixlyCorrect then RequireOrder
      else Permute
    }

    /** The first character of the option string may select the ordering, and is no option then. */
    lemma OrderingIs(options: string)
      ensures optstring == "-" + options ==> Mode() == ReturnInOrder && Short() == options
      ensures optstring == "+" + options ==> Mode() == RequireOrder && Short() == options
      ensures optstring == options && !("-" <= options) && !("+" <= options) ==>
        (Mode() == if posixlyCorrect then RequireOrder else Permute) && Short() == options
    {
      assert ("-" + options)[1..] == options && ("+" + options)[1..] == options;
    }

    /** What holds between the calls of a run: [firstNonopt, lastNonopt) are the non-options skipped
        so far, and the options that came after them are still behind them. */
    ghost predicate Scanning()
      reads this`initialized, this`ordering, this`start, this`firstNonopt, this`lastNonopt, this`optind, this`nextchar
    {
      && initialized && ordering == Mode() && Cfg().Valid() && start > 0
      && start <= firstNonopt <= lastNonopt <= optind <= argv.Length
      && (nextchar != "" ==> optind < argv.Length)
      && (ordering != Permute ==> firstNonopt == lastNonopt)
    }

    /** All options and their arguments, first those scanned and then those to come. */
    ghost function Front(): seq<string>
      requires Scanning()
      reads this`initialized, this`ordering, this`start, this`firstNonopt, this`lastNonopt, this`optind, this`nextchar, argv
    {
      argv[start..firstNonopt] + argv[lastNonopt..optind] + Options(Cfg(), argv[optind..], nextchar)
    }

    /** All non-options. */
    ghost function Back(): seq<string>
      requires Scanning()
      reads this`initialized, this`ordering, this`start, this`firstNonopt, this`lastNonopt, this`optind, this`nextchar, argv
    {
      argv[firstNonopt..lastNonopt] + NonOptions(Cfg(), argv[optind..], nextchar)
    }

    ghost function ToReport(): seq<Report>
      requires Scanning()
      reads this`initialized, this`ordering, this`start, this`firstNonopt, this`lastNonopt, this`optind, this`nextchar, argv
    {
      Reports(Cfg(), argv[optind..], nextchar)
    }

    method Initialize()
      requires Cfg().Valid() && optind <= argv.Length && argv.Length > 0
      modifies this
      ensures Scanning() && start == optind == firstNonopt == lastNonopt && nextchar == ""
      ensures optind == if old(optind) == 0 then 1 else old(optind)
      ensures optarg == old(optarg) && optopt == old(optopt) && longind == old(longind)
    {
      if optind == 0 {
        optind := 1;
      }
      firstNonopt, lastNonopt, nextchar := optind, optind, "";
      if optstring != "" && optstring[0] == '-' {
        ordering := ReturnInOrder;
      } else if optstring != "" && optstring[0] == '+' {
        ordering := RequireOrder;
      } else if posixlyCorrect {
        ordering := RequireOrder;
      } else {
        ordering := Permute;
      }
      initialized := true;
      start := optind;
    }

    /** What was done is the step `s` from the position `from`: where it reports nothing for
        `optopt` or `longind`, they keep their values. */
    twostate predicate Took(s: Step, from: nat)
      reads this
    {
      && s.Step? && optind == from + s.used && nextchar == s.rest && optarg == s.report.optarg
      && optopt == (if s.report.optopt.Some? then s.report.optopt.value else old(optopt))
      && longind == (if s.report.longind.Some? then s.report.longind.value else old(longind))
    }

    method ProcessLongOption(longOnly: bool) returns (code: int)
      requires longs.Some? && optind < argv.Length && optarg == None
      modifies this`optind, this`nextchar, this`optarg, this`optopt, this`longind
      ensures var s := StepLong(Cfg(), argv[old(optind)..], old(nextchar), longOnly);
        if s.NotLong? then
          code == -1 && optind == old(optind) && nextchar == old(nextchar) && optarg == None &&
          optopt == old(optopt) && longind == old(longind)
        else Took(s, old(optind)) && code == s.report.code
    {
      var short := Short();
      var nameEnd := FindNameEnd(nextchar);
      var found := LookUp(longs.value, nextchar[..nameEnd], longOnly);
      if found.Ambiguous? {
        nextchar := "";
        optind := optind + 1;
        optopt := 0;
        return '?' as int;
      }
      if found.Unknown? {
        if !longOnly || (|argv[optind]| > 1 && argv[optind][1] == '-') || (nextchar != "" && nextchar[0] !in short) {
          nextchar := "";
          optind := optind + 1;
          optopt := 0;
          return '?' as int;
        }
        return -1;
      }
      var pfound := longs.value[found.i];
      var text := nextchar;
      optind := optind + 1;
      nextchar := "";
      if nameEnd < |text| {
        if pfound.hasArg != 0 {
          optarg := Some(text[nameEnd + 1..]);
        } else {
          optopt := pfound.val;
          return '?' as int;
        }
      } else if pfound.hasArg == 1 {
        if optind < argv.Length {
          optarg := Some(argv[optind]);
          optind := optind + 1;
        } else {
          optopt := pfound.val;
          return if short != "" && short[0] == ':' then ':' as int else '?' as int;
        }
      }
      longind := found.i;
      return if pfound.flag != 0 then 0 else pfound.val;
    }

    /** The part of `_getopt_internal_r` that handles the next short option of a cluster. */
    method ProcessShortOption() returns (code: int)
      requires nextchar != "" && optind < argv.Length && optarg == None
      modifies this`optind, this`nextchar, this`optarg, this`optopt, this`longind
      ensures var s := StepShort(Cfg(), argv[old(optind)..], old(nextchar));
        Took(s, old(optind)) && code == s.report.code
    {
      var optstring := Short();
      ghost var args := argv[optind..];
      var c := nextchar[0];
      nextchar := nextchar[1..];
      var temp := IndexOf(optstring, c);
      if nextchar == "" {
        optind := optind + 1;
      }
      if temp == |optstring| || c == ':' || c == ';' {
        optopt := c as int;
        return '?' as int;
      }
      if c == 'W' && CharAt(optstring, temp + 1, ';') && longs.Some? {
        if nextchar != "" {
          optarg := Some(nextchar);
        } else if optind == argv.Length {
          optopt := c as int;
          return if optstring != "" && optstring[0] == ':' then ':' as int else '?' as int;
        } else {
          assert args[1..] == argv[optind..];
          optarg := Some(argv[optind]);
        }
        nextchar := optarg.value;
        optarg := None;
        code := ProcessLongOption(false);
        return;
      }
      if CharAt(optstring, temp + 1, ':') {
        if CharAt(optstring, temp + 2, ':') {
          if nextchar != "" {
            optarg := Some(nextchar);
            optind := optind + 1;
          } else {
            optarg := None;
          }
          nextchar := "";
        } else {
          if nextchar != "" {
            optarg := Some(nextchar);
            optind := optind + 1;
          } else if optind == argv.Length {
            optopt := c as int;
            c := if optstring != "" && optstring[0] == ':' then ':' else '?';
          } else {
            optarg := Some(argv[optind]);
            optind := optind + 1;
          }
          nextchar := "";
        }
      }
      return c as int;
    }

    /** Puts the options scanned since before the non-options skipped. */
    method MoveOptionsForward()
      requires Scanning() && ordering == Permute
      modifies argv, this`firstNonopt, this`lastNonopt
      ensures Scanning() && lastNonopt == optind && argv[..start] == old(argv[..start])
      ensures argv[optind..] == old(argv[optind..]) && Front() == old(Front()) && Back() == old(Back())
      ensures lastNonopt - firstNonopt == old(lastNonopt - firstNonopt)
    {
      hide Exchanged, NextStep, Mask, Reports, Select, Options, NonOptions;
      ExchangedBlocks(argv[..], start, firstNonopt, lastNonopt, optind);
      Exchange(argv, firstNonopt, lastNonopt, optind);
      assert argv[optind..] == old(argv[optind..]);
      ghost var mid := firstNonopt + (optind - lastNonopt);
      assert argv[start..mid] == old(argv[start..firstNonopt] + argv[lastNonopt..optind]);
      assert argv[mid..optind] == old(argv[firstNonopt..lastNonopt]);
      firstNonopt := firstNonopt + (optind - lastNonopt);
      lastNonopt := optind;
      assert argv[lastNonopt..optind] == [];
    }

    /** What the PERMUTE ordering does before it looks at the next argument. */
    method SkipNonOptions()
      requires Scanning() && ordering == Permute && nextchar == ""
      modifies argv, this`optind, this`firstNonopt, this`lastNonopt
      ensures Scanning() && lastNonopt == optind && argv[..start] == old(argv[..start])
      ensures Front() == old(Front()) && Back() == old(Back()) && ToReport() == old(ToReport())
      ensures optind == argv.Length || !IsNonOption(argv[optind])
    {
      hide NextStep, Mask, Reports, Select, Options, NonOptions;
      if firstNonopt != lastNonopt && lastNonopt != optind {
        MoveOptionsForward();
      } else if lastNonopt != optind {
        assert argv[start..optind] == argv[start..firstNonopt] + argv[lastNonopt..optind];
        firstNonopt := optind;
        lastNonopt := optind;
      }
      SkipOver();
    }

    /** The loop of `SkipNonOptions`. */
    method SkipOver()
      requires Scanning() && ordering == Permute && nextchar == "" && lastNonopt == optind
      modifies this`optind, this`lastNonopt
      ensures Scanning() && lastNonopt == optind
      ensures Front() == old(Front()) && Back() == old(Back()) && ToReport() == old(ToReport())
      ensures optind == argv.Length || !IsNonOption(argv[optind])
    {
      hide NextStep, Mask, Reports, Select, Options, NonOptions;
      while optind < argv.Length && IsNonOption(argv[optind])
        invariant old(optind) <= optind <= argv.Length
        invariant Options(Cfg(), argv[optind..], "") == Options(Cfg(), argv[old(optind)..], "")
        invariant argv[firstNonopt..optind] + NonOptions(Cfg(), argv[optind..], "") == old(Back())
        invariant Reports(Cfg(), argv[optind..], "") == old(ToReport())
      {
        SkipNonOption(Cfg(), argv[optind..]);
        assert argv[optind..][1..] == argv[optind + 1..];
        assert argv[firstNonopt..optind + 1] == argv[firstNonopt..optind] + [argv[optind]];
        optind := optind + 1;
      }
      lastNonopt := optind;
    }

    /** `--` ends the options: it joins them, and everything after it is a non-option. */
    method PassDashDash()
      requires Scanning() && optind < argv.Length && argv[optind] == "--" && nextchar == ""
      requires lastNonopt == optind || firstNonopt == lastNonopt
      modifies argv, this`optind, this`firstNonopt, this`lastNonopt
      ensures start <= firstNonopt <= lastNonopt == optind == argv.Length
      ensures firstNonopt == old(firstNonopt + (optind - lastNonopt) + 1)
      ensures argv[..start] == old(argv[..start])
      ensures argv[start..firstNonopt] == old(Front()) && argv[firstNonopt..] == old(Back())
      ensures old(ToReport()) == []
      ensures ordering != Permute ==> argv[..] == old(argv[..])
    {
      hide Exchanged, NextStep, Mask, Reports, Select, Options, NonOptions;
      BeforeDashDash();
      DashDashBlocks(argv[..], start, firstNonopt, lastNonopt, optind);
      hide Getopt.Front, Getopt.Back, Getopt.ToReport;
      MoveDashDash();
      lastNonopt := argv.Length;
      optind := argv.Length;
    }

    lemma BeforeDashDash()
      requires Scanning() && optind < argv.Length && argv[optind] == "--" && nextchar == ""
      ensures Front() == argv[..][start..firstNonopt] + argv[..][lastNonopt..optind] + [argv[..][optind]]
      ensures Back() == argv[..][firstNonopt..lastNonopt] + argv[..][optind + 1..]
      ensures ToReport() == []
    {
      hide NextStep, Mask, Reports, Select, Options, NonOptions;
      EndOfOptions(Cfg(), argv[optind..]);
      assert argv[optind..][1..] == argv[optind + 1..];
    }

    /** Puts the `--` before the non-options skipped. */
    method MoveDashDash()
      requires firstNonopt <= lastNonopt <= optind < argv.Length
      requires lastNonopt == optind || firstNonopt == lastNonopt
      modifies argv, this`optind, this`firstNonopt, this`lastNonopt
      ensures firstNonopt == old(firstNonopt + (optind - lastNonopt) + 1)
      ensures argv[..] == old(if firstNonopt == lastNonopt then argv[..]
                              else Exchanged(argv[..], firstNonopt, lastNonopt, optind + 1))
    {
      hide Exchanged;
      optind := optind + 1;
      if firstNonopt != lastNonopt && lastNonopt != optind {
        Exchange(argv, firstNonopt, lastNonopt, optind);
        firstNonopt := firstNonopt + (optind - lastNonopt);
        lastNonopt := optind;
      } else if firstNonopt == lastNonopt {
        firstNonopt := optind;
      }
    }

    /** Comes to the next option, if there is one. */
    method FindOption() returns (found: bool)
      requires Scanning() && ordering == Permute && nextchar == ""
      modifies argv, this`optind, this`firstNonopt, this`lastNonopt
      ensures argv[..start] == old(argv[..start])
      ensures found <==> old(ToReport()) != []
      ensures found ==> Scanning() && optind < argv.Length && lastNonopt == optind
      ensures found ==> !IsNonOption(argv[optind]) && argv[optind] != "--"
      ensures found ==> Front() == old(Front()) && Back() == old(Back()) && ToReport() == old(ToReport())
      ensures !found ==> start <= optind <= argv.Length
      ensures !found ==> argv[start..optind] == old(Front()) && argv[optind..] == old(Back())
    {
      hide NextStep, Mask, Reports, Select, Options, NonOptions, Getopt.Front, Getopt.Back, Getopt.ToReport;
      lastNonopt := Min(lastNonopt, optind);
      firstNonopt := Min(firstNonopt, optind);
      SkipNonOptions();
      if optind == argv.Length {
        AtEnd();
      }
      if optind != argv.Length && argv[optind] == "--" {
        PassDashDash();
      }
      if optind == argv.Length {
        if firstNonopt != lastNonopt {
          optind := firstNonopt;
        }
        return false;
      }
      MoreToReport();
      return true;
    }

    lemma AtEnd()
      requires Scanning() && optind == lastNonopt == argv.Length
      ensures Front() == argv[start..firstNonopt] && Back() == argv[firstNonopt..] && ToReport() == []
    {
      NothingLeft(Cfg());
      assert argv[optind..] == [];
    }

    /** Handling an option moves arguments from those to come to those scanned. */
    twostate lemma StepKeeps(s: Step)
      requires old(Scanning()) && argv[..] == old(argv[..]) && start == old(start) && ordering == old(ordering)
      requires initialized && firstNonopt == old(firstNonopt) && lastNonopt == old(lastNonopt)
      requires ordering == Permute && old(optind) < argv.Length
      requires old(nextchar) == "" ==> !IsNonOption(argv[old(optind)]) && argv[old(optind)] != "--"
      requires s == NextStep(Cfg(), argv[old(optind)..], old(nextchar)) && Took(s, old(optind))
      ensures Scanning() && Front() == old(Front()) && Back() == old(Back())
      ensures old(ToReport()) == [s.report] + ToReport()
    {
      hide NextStep, Mask, Reports, Select;
      TakeStep(Cfg(), old(argv[optind..]), old(nextchar));
      assert argv[old(optind)..] == old(argv[optind..]);
      assert argv[old(optind)..][s.used..] == argv[optind..];
      assert argv[lastNonopt..optind] == argv[lastNonopt..old(optind)] + argv[old(optind)..optind];
    }

    /** One call of `_getopt_internal_r` when options and non-options may be permuted. It returns -1
        exactly when nothing is left to report; until then `Front()` and `Back()` stay what they are,
        and in the end they are what `argv` consists of. */
    method Continue() returns (code: int)
      requires Scanning() && ordering == Permute
      modifies argv, this
      ensures start == old(start) && argv[..start] == old(argv[..start])
      ensures code == -1 <==> old(ToReport()) == []
      ensures code == -1 ==> start <= optind <= argv.Length
      ensures code == -1 ==> argv[start..optind] == old(Front()) && argv[optind..] == old(Back())
      ensures code != -1 ==> Scanning() && ordering == Permute
      ensures code != -1 ==> Front() == old(Front()) && Back() == old(Back())
      ensures code != -1 ==> exists r :: Reported(r, code) && old(ToReport()) == [r] + ToReport()
    {
      hide NextStep, Mask, Reports, Select, Options, NonOptions, Getopt.Front, Getopt.Back, Getopt.ToReport;
      optarg := None;
      if nextchar == "" {
        var found := FindOption();
        if !found {
          return -1;
        }
      } else {
        MoreToReport();
      }
      label before:
      ghost var s := NextStep(Cfg(), argv[optind..], nextchar);
      code := HandleOption();
      StepKeeps@before(s);
      assert Reported(s.report, code);
    }

    lemma MoreToReport()
      requires Scanning() && optind < argv.Length
      requires nextchar == "" ==> !IsNonOption(argv[optind]) && argv[optind] != "--"
      ensures ToReport() != []
    {
      TakeStep(Cfg(), argv[optind..], nextchar);
    }

    /** What a call reports, and whether it stored to `optopt` and `longind`. */
    twostate predicate Reported(r: Report, code: int)
      reads this
    {
      && code == r.code && optarg == r.optarg
      && optopt == (if r.optopt.Some? then r.optopt.value else old(optopt))
      && longind == (if r.longind.Some? then r.longind.value else old(longind))
    }

    /** The rest of a call, when there is an option to handle. */
    method HandleOption() returns (code: int)
      requires Scanning() && optind < argv.Length && optarg == None
      requires nextchar == "" ==> !IsNonOption(argv[optind])
      modifies this`optind, this`nextchar, this`optarg, this`optopt, this`longind
      ensures var s := NextStep(Cfg(), argv[old(optind)..], old(nextchar));
        Took(s, old(optind)) && code == s.report.code && code != -1
    {
      hide StepLong, StepShort;
      if nextchar == "" {
        if longs.Some? {
          if argv[optind][1] == '-' {
            nextchar := argv[optind][2..];
            LongCodeIsNotMinusOne(Cfg(), argv[optind..], nextchar, longOnly);
            code := ProcessLongOption(longOnly);
            return;
          }
          if longOnly && (|argv[optind]| > 2 || argv[optind][1] !in Short()) {
            nextchar := argv[optind][1..];
            LongCodeIsNotMinusOne(Cfg(), argv[optind..], nextchar, true);
            code := ProcessLongOption(true);
            if code != -1 {
              return;
            }
          }
        }
        nextchar := argv[optind][1..];
      }
      ShortCodeIsNotMinusOne(Cfg(), argv[optind..], nextchar);
      code := ProcessShortOption();
    }

    /** One call of `_getopt_internal_r` for the two orderings that leave `argv` as it is. */
    method ContinueInOrder() returns (code: int)
      requires Scanning() && ordering != Permute
      modifies argv, this
      ensures argv[..] == old(argv[..]) && start == old(start) && ordering == old(ordering)
      ensures var s := InOrder(Cfg(), old(argv[optind..]), old(nextchar), ordering == RequireOrder);
        if s.None? then code == -1 && optind == old(optind) + PassedAtEnd(old(argv[optind..]))
        else code != -1 && Scanning() && Took(s.value, old(optind)) && code == s.value.report.code
    {
      hide NextStep, Mask, Reports, Select, Options, NonOptions, Getopt.Front, Getopt.Back, Getopt.ToReport;
      optarg := None;
      if nextchar == "" {
        lastNonopt := Min(lastNonopt, optind);
        firstNonopt := Min(firstNonopt, optind);
        var atEnd := ReachEnd();
        if atEnd {
          return -1;
        }
        if IsNonOption(argv[optind]) {
          if ordering == RequireOrder {
            return -1;
          }
          optarg := Some(argv[optind]);
          optind := optind + 1;
          return 1;
        }
      }
      code := HandleOption();
    }

    /** Whether no argument is left, or `--` ends them. */
    method ReachEnd() returns (atEnd: bool)
      requires Scanning() && ordering != Permute && nextchar == ""
      modifies argv, this`optind, this`firstNonopt, this`lastNonopt
      ensures argv[..] == old(argv[..])
      ensures atEnd <==> old(optind) == argv.Length || argv[old(optind)] == "--"
      ensures if atEnd then optind == old(optind) + PassedAtEnd(old(argv[optind..])) else Scanning() && optind == old(optind)
    {
      hide NextStep, Mask, Reports, Select, Options, NonOptions, Getopt.Front, Getopt.Back, Getopt.ToReport;
      if optind != argv.Length && argv[optind] == "--" {
        PassDashDash();
      }
      atEnd := optind == argv.Length;
      if atEnd {
        if firstNonopt != lastNonopt {
          optind := firstNonopt;
        }
      }
    }

    /** A whole run: calls until the first that returns -1, with what each of the others returned and
        left in `optarg`. The options and their arguments, then the non-options, each in the order the
        user gave them. */
    method Run() returns (seen: seq<(int, Option<string>)>)
      requires !initialized && Cfg().Valid() && Mode() == Permute
      requires argv.Length > 0 ==> optind <= argv.Length
      modifies argv, this
      ensures argv.Length == 0 ==> seen == []
      ensures argv.Length > 0 ==> var s := if old(optind) == 0 then 1 else old(optind);
        var args := old(argv[s..]);
        && argv[..s] == old(argv[..])[..s]
        && s <= optind <= argv.Length
        && argv[s..optind] == Options(Cfg(), args, "")
        && argv[optind..] == NonOptions(Cfg(), args, "")
        && |seen| == |Reports(Cfg(), args, "")|
        && forall i :: 0 <= i < |seen| ==>
          seen[i] == (Reports(Cfg(), args, "")[i].code, Reports(Cfg(), args, "")[i].optarg)
    {
      hide Mask, Reports, Select;
      seen := [];
      if argv.Length < 1 {
        return;
      }
      Initialize();
      ghost var reports := ToReport();
      ghost var front, back := Front(), Back();
      assert front == Options(Cfg(), argv[start..], "") && back == NonOptions(Cfg(), argv[start..], "");
      while true
        invariant Scanning() && ordering == Permute
        invariant start == if old(optind) == 0 then 1 else old(optind)
        invariant argv[..start] == old(argv[..])[..start] && Front() == front && Back() == back
        invariant |seen| + |ToReport()| == |reports| && ToReport() == reports[|seen|..]
        invariant forall i :: 0 <= i < |seen| ==> seen[i] == (reports[i].code, reports[i].optarg)
        decreases |ToReport()|
      {
        ghost var before := ToReport();
        var code := Continue();
        if code == -1 {
          return;
        }
        assert before == [before[0]] + ToReport() && before[0].code == code && before[0].optarg == optarg;
        assert before[1..] == reports[|seen| + 1..];
        seen := seen + [(code, optarg)];
      }
    }

    /** A whole run with one of the two orderings that leave `argv` as it is. */
    method RunInOrder() returns (seen: seq<(int, Option<string>)>)
      requires !initialized && Cfg().Valid() && Mode() != Permute
      requires argv.Length > 0 ==> optind <= argv.Length
      modifies argv, this
      ensures argv[..] == old(argv[..])
      ensures argv.Length == 0 ==> seen == []
      ensures argv.Length > 0 ==> var s := if old(optind) == 0 then 1 else old(optind);
        var reports := ReportsInOrder(Cfg(), old(argv[s..]), "", Mode() == RequireOrder);
        && optind == s + PassedInOrder(Cfg(), old(argv[s..]), "", Mode() == RequireOrder)
        && |seen| == |reports|
        && forall i :: 0 <= i < |seen| ==> seen[i] == (reports[i].code, reports[i].optarg)
    {
      hide InOrder, ReportsInOrder, PassedInOrder, PassedAtEnd;
      seen := [];
      if argv.Length < 1 {
        return;
      }
      Initialize();
      ghost var cfg, before, inOrder := Cfg(), argv[..], Mode() == RequireOrder;
      ghost var reports := ReportsInOrder(cfg, argv[start..], "", inOrder);
      ghost var end := start + PassedInOrder(cfg, argv[start..], "", inOrder);
      assert argv[start..] == before[start..];
      while true
        invariant Scanning() && start == (if old(optind) == 0 then 1 else old(optind)) && argv[..] == before
        invariant |seen| <= |reports| && ReportsInOrder(cfg, before[optind..], nextchar, inOrder) == reports[|seen|..]
        invariant optind + PassedInOrder(cfg, before[optind..], nextchar, inOrder) == end
        invariant forall i :: 0 <= i < |seen| ==> seen[i] == (reports[i].code, reports[i].optarg)
        decreases |reports| - |seen|
      {
        assert argv[optind..] == before[optind..];
        InOrderStep(cfg, before, optind, nextchar, inOrder);
        var code := ContinueInOrder();
        if code == -1 {
          return;
        }
        assert reports[|seen|].code == code && reports[|seen|].optarg == optarg;
        assert reports[|seen|..][1..] == reports[|seen| + 1..];
        seen := seen + [(code, optarg)];
      }
    }
  }

  lemma InOrderStep(cfg: Config, args: seq<string>, from: nat, rest: string, requireOrder: bool)
    requires from <= |args|
    ensures match InOrder(cfg, args[from..], rest, requireOrder)
      case None =>
        && ReportsInOrder(cfg, args[from..], rest, requireOrder) == []
        && PassedInOrder(cfg, args[from..], rest, requireOrder) == PassedAtEnd(args[from..])
      case Some(s) =>
        s.Step? && from + s.used <= |args| &&
        ReportsInOrder(cfg, args[from..], rest, requireOrder) ==
          [s.report] + ReportsInOrder(cfg, args[from + s.used..], s.rest, requireOrder) &&
        PassedInOrder(cfg, args[from..], rest, requireOrder) ==
          s.used + PassedInOrder(cfg, args[from + s.used..], s.rest, requireOrder)
  {
    hide NextStep;
    var step := InOrder(cfg, args[from..], rest, requireOrder);
    assert step.Some? ==> args[from..][step.value.used..] == args[from + step.value.used..];
  }
}

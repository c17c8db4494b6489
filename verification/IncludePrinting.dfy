/** Printing the include directives to add and to delete, and counting them (src/include.c). */
module IncludePrinting {
  import opened Wrappers
  import opened IncludeRecords
  import opened Sums
  import opened Symbols
  import IncludeVisitors

  datatype Group = Local | ThirdParty | Standard

  /** What printing reads of the record of an include file. */
  datatype Item = Item(relPath: string, isLocal: bool, isStandard: bool, sortRank: nat, isNeeded: bool,
                       handling: Handling, depth: nat, lines: seq<nat>)

  /** The colour and the comment of a printed directive. */
  datatype Mark = Unmarked | Add | Delete(line: nat) | DeleteSame(line: nat, first: nat)

  datatype Line = Blank | Directive(relPath: string, isLocal: bool, mark: Mark)

  function GroupOf(i: Item): Group {
    if i.isLocal then Local else if i.isStandard then Standard else ThirdParty
  }

  /** The source's `should_print_include`. */
  predicate ShouldPrint(i: Item, allIncludes: bool) {
    if |i.lines| > 1 then true
    else if i.isNeeded && i.handling == Elide then false
    else if allIncludes && (i.isNeeded || i.handling == Keep) then true
    else i.isNeeded != (i.depth == 0)
  }

  /** A file whose first line is to be deleted has one; the source reads it without looking. */
  predicate HasFirstLine(i: Item) {
    i.depth == 0 && !i.isNeeded && i.handling != Keep ==> i.lines != []
  }

  /** A file that has lines is included directly, and has a line to be deleted. */
  predicate IsConsistent(i: Item) {
    (i.lines != [] ==> i.depth == 0) && HasFirstLine(i)
  }

  /** That `i` has what the visitor found out about the file `id`. */
  ghost predicate IsVisited(es: seq<IncludeVisitors.Event>, id: nat, i: Item)
    requires IncludeVisitors.IsOrdered(es) && id in IncludeVisitors.VisitedAll(es)
  {
    var r := IncludeVisitors.VisitedAll(es)[id];
    i.depth == r.depth && i.lines == r.lines
  }

  /** Exactly when the visitor leaves it so: unless a file that is neither needed nor kept is only
      included directly by the names of links to it. */
  lemma ConsistentIff(es: seq<IncludeVisitors.Event>, id: nat, i: Item)
    requires IncludeVisitors.IsOrdered(es) && id in IncludeVisitors.VisitedAll(es) && IsVisited(es, id, i)
    ensures IsConsistent(i) <==>
      || i.isNeeded || i.handling == Keep
      || !IncludeVisitors.IsIncludedDirectly(es, id)
      || exists e :: e in es && e.included == id && e.direct && Some(e.file) == IncludeVisitors.FirstFile(es, id)
  {
    IncludeVisitors.RecordsAre(es, id);
    IncludeVisitors.LinesMeanDirect(es, id);
    if i.depth == 0 {
      IncludeVisitors.NoLineIff(es, id);
    }
  }

  /** It is always so if no file is included under two names. */
  lemma ConsistentAfterVisit(es: seq<IncludeVisitors.Event>, id: nat, i: Item)
    requires IncludeVisitors.IsOrdered(es) && id in IncludeVisitors.VisitedAll(es) && IsVisited(es, id, i)
    requires forall d, e :: d in es && e in es && d.included == e.included ==> d.file == e.file
    ensures IsConsistent(i)
  {
    IncludeVisitors.OneFileEach(es, id);
  }

  // ----- What is printed -----

  /** What is printed for a line after the first that includes the file. */
  function Duplicate(i: Item, n: nat): Line
    requires n < |i.lines|
  {
    Directive(i.relPath, i.isLocal, if i.isNeeded then DeleteSame(i.lines[n], i.lines[0]) else Delete(i.lines[n]))
  }

  function Duplicates(i: Item, n: nat): (lines: seq<Line>)
    requires n <= |i.lines|
    ensures |lines| == if n <= 1 then 0 else n - 1
  {
    if n <= 1 then [] else Duplicates(i, n - 1) + [Duplicate(i, n - 1)]
  }

  /** The directive itself, if it is printed. */
  function First(i: Item, allIncludes: bool): seq<Line>
  {
    if i.isNeeded || i.handling == Keep then
      if i.depth == 0 || i.handling == Keep then
        if allIncludes then [Directive(i.relPath, i.isLocal, Unmarked)] else []
      else [Directive(i.relPath, i.isLocal, Add)]
    else if i.depth == 0 && i.lines != [] then [Directive(i.relPath, i.isLocal, Delete(i.lines[0]))]
    else []
  }

  /** The lines that a selected include file gives rise to. */
  function LinesOf(i: Item, allIncludes: bool): seq<Line>
  {
    if i.handling == Keep && !allIncludes then [] else First(i, allIncludes) + Duplicates(i, |i.lines|)
  }

  ghost predicate AllConsistent(s: seq<Item>) {
    forall i :: i in s ==> IsConsistent(i)
  }

  ghost predicate AllHaveFirstLines(s: seq<Item>) {
    forall i :: i in s ==> HasFirstLine(i)
  }

  function LinesOfGroup(s: seq<Item>, group: Group, allIncludes: bool): seq<Line>
  {
    if s == [] then [] else
      var i := s[|s| - 1];
      LinesOfGroup(s[..|s| - 1], group, allIncludes) + if GroupOf(i) == group then LinesOf(i, allIncludes) else []
  }

  /** Groups are separated by blank lines if all includes are printed. */
  function Separated(a: seq<Line>, b: seq<Line>, allIncludes: bool): seq<Line> {
    a + (if a != [] && b != [] && allIncludes then [Blank] else []) + b
  }

  function Output(s: seq<Item>, allIncludes: bool): seq<Line>
  {
    Separated(Separated(LinesOfGroup(s, Local, allIncludes), LinesOfGroup(s, ThirdParty, allIncludes), allIncludes),
              LinesOfGroup(s, Standard, allIncludes), allIncludes)
  }

  // ----- What is printed, line by line -----

  /** Where a line comes from: the file, and which of its includes the line is about. */
  datatype Origin = Separator | Of(file: nat, occurrence: nat)

  /** Files of the project come first, then those of third parties, then standard ones. */
  function Rank(i: Item): nat {
    if i.isLocal then 0 else if !i.isStandard then 1 else 2
  }

  /** A line is printed about the n-th include of the file, of which the first may be one to be added. */
  predicate IsPrinted(i: Item, n: nat, allIncludes: bool) {
    && (i.handling == Keep ==> allIncludes)
    && if n > 0 then n < |i.lines|
       else if i.isNeeded || i.handling == Keep then allIncludes || i.depth > 0
       else i.depth == 0
  }

  /** What the line says about the n-th include of the file. */
  predicate IsLineOf(line: Line, i: Item, n: nat) {
    && line.Directive? && line.relPath == i.relPath && line.isLocal == i.isLocal
    && match line.mark
       case Unmarked => n == 0 && (i.handling == Keep || (i.isNeeded && i.depth == 0))
       case Add => n == 0 && i.handling != Keep && i.isNeeded && i.depth > 0
       case Delete(line) => !i.isNeeded && (n > 0 || i.handling != Keep) && n < |i.lines| && line == i.lines[n]
       case DeleteSame(line, first) => i.isNeeded && 0 < n < |i.lines| && line == i.lines[n] && first == i.lines[0]
  }

  predicate IsOrigin(s: seq<Item>, o: Origin, allIncludes: bool) {
    o.Of? && o.file < |s| && IsPrinted(s[o.file], o.occurrence, allIncludes)
  }

  predicate Precedes(s: seq<Item>, a: Origin, b: Origin)
    requires a.Of? && b.Of? && a.file < |s| && b.file < |s|
  {
    var j, k := Rank(s[a.file]), Rank(s[b.file]);
    j < k || (j == k && (a.file < b.file || (a.file == b.file && a.occurrence < b.occurrence)))
  }

  /** Every line has its origin in `os`, and all that is to be printed is there, once and in order. */
  ghost predicate Explains(s: seq<Item>, allIncludes: bool, out: seq<Line>, os: seq<Origin>) {
    && |os| == |out|
    && (forall k :: 0 <= k < |os| ==> IsExplained(s, allIncludes, out[k], os[k]))
    && (forall j, k :: 0 <= j < k < |os| && os[j].Of? && os[k].Of? ==> Precedes(s, os[j], os[k]))
    && (forall o :: IsOrigin(s, o, allIncludes) ==> o in os)
  }

  ghost predicate IsExplained(s: seq<Item>, allIncludes: bool, line: Line, o: Origin) {
    if line.Blank? then o.Separator?
    else IsOrigin(s, o, allIncludes) && IsLineOf(line, s[o.file], o.occurrence)
  }

  ghost predicate AreInOneGroup(s: seq<Item>, a: Origin, b: Origin) {
    a.Of? && b.Of? && a.file < |s| && b.file < |s| && Rank(s[a.file]) == Rank(s[b.file])
  }

  /** If all includes are printed, one blank line stands between two lines exactly if they are of
      different groups; otherwise none does. */
  ghost predicate AreSeparated(s: seq<Item>, allIncludes: bool, os: seq<Origin>) {
    && (forall k :: 0 <= k < |os| && os[k].Separator? ==>
          allIncludes && 0 < k < |os| - 1 && os[k - 1].Of? && os[k + 1].Of? && !AreInOneGroup(s, os[k - 1], os[k + 1]))
    && (allIncludes ==> forall k :: 0 < k < |os| && os[k - 1].Of? && os[k].Of? ==> AreInOneGroup(s, os[k - 1], os[k]))
  }

  /** `out` is what is to be printed for the selected files in printing order. */
  ghost predicate IsPrintout(s: seq<Item>, allIncludes: bool, out: seq<Line>) {
    exists os :: Explains(s, allIncludes, out, os) && AreSeparated(s, allIncludes, os)
  }

  /** The origins of the lines of one file. */
  ghost predicate ExplainsFile(i: Item, f: nat, allIncludes: bool, lines: seq<Line>, os: seq<Origin>) {
    && |os| == |lines|
    && (forall k :: 0 <= k < |os| ==>
          os[k].Of? && os[k].file == f && IsPrinted(i, os[k].occurrence, allIncludes) && IsLineOf(lines[k], i, os[k].occurrence))
    && (forall j, k :: 0 <= j < k < |os| ==> os[j].occurrence < os[k].occurrence)
    && (forall n: nat :: IsPrinted(i, n, allIncludes) ==> Of(f, n) in os)
  }

  lemma {:induction false} DuplicateAt(i: Item, n: nat, k: nat)
    requires n <= |i.lines| && k + 1 < n
    ensures Duplicates(i, n)[k] == Duplicate(i, k + 1)
  {
    if k + 1 < n - 1 {
      DuplicateAt(i, n - 1, k);
    }
  }

  lemma DuplicatesExplained(i: Item, f: nat, allIncludes: bool) returns (os: seq<Origin>)
    requires i.handling == Keep ==> allIncludes
    ensures var lines := Duplicates(i, |i.lines|);
      && |os| == |lines|
      && (forall k :: 0 <= k < |os| ==> os[k] == Of(f, k + 1))
      && (forall k :: 0 <= k < |os| ==> k + 1 < |i.lines| && IsLineOf(lines[k], i, k + 1))
  {
    hide Duplicates;
    var lines := Duplicates(i, |i.lines|);
    os := seq(|lines|, k requires 0 <= k => Of(f, k + 1));
    forall k | 0 <= k < |os|
      ensures IsLineOf(lines[k], i, k + 1)
    {
      DuplicateAt(i, |i.lines|, k);
    }
  }

  lemma FileExplained(i: Item, f: nat, allIncludes: bool) returns (os: seq<Origin>)
    requires HasFirstLine(i)
    ensures ExplainsFile(i, f, allIncludes, LinesOf(i, allIncludes), os)
  {
    if i.handling == Keep && !allIncludes {
      os := [];
    } else {
      hide Duplicates;
      var rest := DuplicatesExplained(i, f, allIncludes);
      var first := First(i, allIncludes);
      if first == [] {
        os := rest;
      } else {
        os := [Of(f, 0)] + rest;
        assert os[0] == Of(f, 0);
      }
      forall n: nat | IsPrinted(i, n, allIncludes)
        ensures Of(f, n) in os
      {
        if n > 0 {
          assert rest[n - 1] == Of(f, n);
        }
      }
    }
  }

  function RankOf(group: Group): nat {
    match group
    case Local => 0
    case ThirdParty => 1
    case Standard => 2
  }

  /** The origins of the lines of one group. */
  ghost predicate ExplainsGroup(s: seq<Item>, rank: nat, allIncludes: bool, lines: seq<Line>, os: seq<Origin>) {
    && |os| == |lines|
    && (forall k :: 0 <= k < |os| ==> IsExplainedIn(s, rank, allIncludes, lines[k], os[k]))
    && (forall j, k :: 0 <= j < k < |os| ==> Precedes(s, os[j], os[k]))
    && (forall o :: IsOrigin(s, o, allIncludes) && Rank(s[o.file]) == rank ==> o in os)
  }

  ghost predicate IsExplainedIn(s: seq<Item>, rank: nat, allIncludes: bool, line: Line, o: Origin) {
    !line.Blank? && IsExplained(s, allIncludes, line, o) && Rank(s[o.file]) == rank
  }

  lemma {:induction false} GroupExplained(s: seq<Item>, group: Group, allIncludes: bool) returns (os: seq<Origin>)
    requires AllHaveFirstLines(s)
    ensures ExplainsGroup(s, RankOf(group), allIncludes, LinesOfGroup(s, group, allIncludes), os)
  {
    if s == [] {
      os := [];
    } else {
      hide ExplainsGroup, ExplainsFile, LinesOf;
      var before, i := s[..|s| - 1], s[|s| - 1];
      assert s == before + [i];
      os := GroupExplained(before, group, allIncludes);
      var lines := LinesOfGroup(before, group, allIncludes);
      if GroupOf(i) == group {
        var more := FileExplained(i, |before|, allIncludes);
        GroupAndFile(before, i, RankOf(group), allIncludes, lines, os, LinesOf(i, allIncludes), more);
        os := os + more;
      } else {
        GroupWithout(before, i, RankOf(group), allIncludes, lines, os);
      }
    }
  }

  lemma GroupWithout(before: seq<Item>, i: Item, rank: nat, allIncludes: bool, lines: seq<Line>, os: seq<Origin>)
    requires ExplainsGroup(before, rank, allIncludes, lines, os) && Rank(i) != rank
    ensures ExplainsGroup(before + [i], rank, allIncludes, lines, os) && lines + [] == lines
  {
    hide IsPrinted, IsLineOf;
    var s := before + [i];
    assert forall f :: 0 <= f < |before| ==> s[f] == before[f];
    forall o | IsOrigin(s, o, allIncludes) && Rank(s[o.file]) == rank
      ensures o in os
    {
      assert IsOrigin(before, o, allIncludes);
    }
  }

  lemma GroupAndFile(before: seq<Item>, i: Item, rank: nat, allIncludes: bool, lines: seq<Line>, os: seq<Origin>,
                     lines': seq<Line>, more: seq<Origin>)
    requires ExplainsGroup(before, rank, allIncludes, lines, os) && Rank(i) == rank
    requires ExplainsFile(i, |before|, allIncludes, lines', more)
    ensures ExplainsGroup(before + [i], rank, allIncludes, lines + lines', os + more)
  {
    hide IsExplained, IsExplainedIn, Precedes, IsOrigin, Rank, IsPrinted, IsLineOf;
    BothExplained(before, i, rank, allIncludes, lines, os, lines', more);
    InOrderStill(before, i, rank, allIncludes, lines, os, more);
    AllOfBoth(before, i, rank, allIncludes, lines, os, more);
  }

  lemma AllOfBoth(before: seq<Item>, i: Item, rank: nat, allIncludes: bool, lines: seq<Line>, os: seq<Origin>, more: seq<Origin>)
    requires ExplainsGroup(before, rank, allIncludes, lines, os)
    requires forall n: nat :: IsPrinted(i, n, allIncludes) ==> Of(|before|, n) in more
    ensures forall o :: IsOrigin(before + [i], o, allIncludes) && Rank((before + [i])[o.file]) == rank ==> o in os + more
  {
    hide IsExplainedIn, Precedes, IsPrinted, Rank;
    var s := before + [i];
    forall o | IsOrigin(s, o, allIncludes) && Rank(s[o.file]) == rank
      ensures o in os + more
    {
      OriginsOfBoth(before, i, o, allIncludes);
      if o.file == |before| {
        assert o == Of(|before|, o.occurrence);
      }
    }
  }

  lemma BothExplained(before: seq<Item>, i: Item, rank: nat, allIncludes: bool, lines: seq<Line>, os: seq<Origin>,
                      lines': seq<Line>, more: seq<Origin>)
    requires ExplainsGroup(before, rank, allIncludes, lines, os) && Rank(i) == rank
    requires ExplainsFile(i, |before|, allIncludes, lines', more)
    ensures forall k :: 0 <= k < |os + more| ==> IsExplainedIn(before + [i], rank, allIncludes, (lines + lines')[k], (os + more)[k])
  {
    hide IsExplained, IsExplainedIn, Precedes, IsOrigin, Rank, IsPrinted, IsLineOf;
    var s := before + [i];
    forall k | 0 <= k < |os|
      ensures IsExplainedIn(s, rank, allIncludes, lines[k], os[k])
    {
      StillExplained(before, i, rank, allIncludes, lines[k], os[k]);
    }
    forall k | 0 <= k < |more|
      ensures IsExplainedIn(s, rank, allIncludes, lines'[k], more[k])
    {
      NewlyExplained(before, i, allIncludes, lines'[k], more[k].occurrence);
    }
  }

  lemma StillExplained(before: seq<Item>, i: Item, rank: nat, allIncludes: bool, line: Line, o: Origin)
    requires IsExplainedIn(before, rank, allIncludes, line, o)
    ensures IsExplainedIn(before + [i], rank, allIncludes, line, o)
  {
  }

  lemma NewlyExplained(before: seq<Item>, i: Item, allIncludes: bool, line: Line, n: nat)
    requires IsPrinted(i, n, allIncludes) && IsLineOf(line, i, n)
    ensures IsExplainedIn(before + [i], Rank(i), allIncludes, line, Of(|before|, n))
  {
  }

  lemma OriginsOfBoth(before: seq<Item>, i: Item, o: Origin, allIncludes: bool)
    ensures IsOrigin(before + [i], o, allIncludes) <==>
      || IsOrigin(before, o, allIncludes)
      || (o.Of? && o.file == |before| && IsPrinted(i, o.occurrence, allIncludes))
    ensures IsOrigin(before, o, allIncludes) ==> (before + [i])[o.file] == before[o.file]
  {
  }

  lemma InOrderStill(before: seq<Item>, i: Item, rank: nat, allIncludes: bool, lines: seq<Line>, os: seq<Origin>, more: seq<Origin>)
    requires ExplainsGroup(before, rank, allIncludes, lines, os) && Rank(i) == rank
    requires forall k :: 0 <= k < |more| ==> more[k].Of? && more[k].file == |before|
    requires forall j, k :: 0 <= j < k < |more| ==> more[j].occurrence < more[k].occurrence
    ensures var s, os' := before + [i], os + more;
      && (forall k :: 0 <= k < |os'| ==> os'[k].Of? && os'[k].file < |s| && Rank(s[os'[k].file]) == rank)
      && (forall j, k :: 0 <= j < k < |os'| ==> Precedes(s, os'[j], os'[k]))
  {
    hide IsPrinted, IsLineOf, Rank;
    var s := before + [i];
    forall k | 0 <= k < |os|
      ensures os[k].Of? && os[k].file < |before| && s[os[k].file] == before[os[k].file] && Rank(before[os[k].file]) == rank
    {
      assert IsExplainedIn(before, rank, allIncludes, lines[k], os[k]);
    }
  }

  /** The origins of the lines of the groups up to a rank. */
  ghost predicate ExplainsUpTo(s: seq<Item>, rank: nat, allIncludes: bool, out: seq<Line>, os: seq<Origin>) {
    && |os| == |out|
    && (forall k :: 0 <= k < |os| ==> IsExplained(s, allIncludes, out[k], os[k]))
    && (forall k :: 0 <= k < |os| && os[k].Of? ==> os[k].file < |s| && Rank(s[os[k].file]) <= rank)
    && (forall j, k :: 0 <= j < k < |os| && os[j].Of? && os[k].Of? ==> Precedes(s, os[j], os[k]))
    && (forall o :: IsOrigin(s, o, allIncludes) && Rank(s[o.file]) <= rank ==> o in os)
    && (os != [] ==> os[0].Of? && os[|os| - 1].Of?)
  }

  /** The origins of the lines of the group `rank`, or of groups up to `rank` and blank lines. */
  ghost predicate AreOfRank(s: seq<Item>, rank: nat, os: seq<Origin>) {
    forall k :: 0 <= k < |os| ==> os[k].Of? && os[k].file < |s| && Rank(s[os[k].file]) == rank
  }

  ghost predicate AreUpToRank(s: seq<Item>, rank: nat, os: seq<Origin>) {
    forall k :: 0 <= k < |os| && os[k].Of? ==> os[k].file < |s| && Rank(s[os[k].file]) <= rank
  }

  lemma GroupIsOfRank(s: seq<Item>, rank: nat, allIncludes: bool, lines: seq<Line>, os: seq<Origin>)
    requires ExplainsGroup(s, rank, allIncludes, lines, os)
    ensures AreOfRank(s, rank, os) && forall k :: 0 <= k < |os| ==> IsExplained(s, allIncludes, lines[k], os[k])
  {
    hide IsOrigin, IsPrinted, IsLineOf, Rank, Precedes;
    forall k | 0 <= k < |os|
      ensures os[k].Of? && os[k].file < |s| && Rank(s[os[k].file]) == rank && IsExplained(s, allIncludes, lines[k], os[k])
    {
      OfRank(s, rank, allIncludes, lines[k], os[k]);
    }
  }

  lemma LocalExplained(s: seq<Item>, allIncludes: bool, lines: seq<Line>, os: seq<Origin>)
    requires ExplainsGroup(s, 0, allIncludes, lines, os)
    ensures ExplainsUpTo(s, 0, allIncludes, lines, os) && AreSeparated(s, allIncludes, os)
  {
    hide IsExplained, IsExplainedIn, IsOrigin, Rank, Precedes, AreSeparated;
    GroupIsOfRank(s, 0, allIncludes, lines, os);
    GroupIsSeparated(s, 0, allIncludes, os);
  }

  lemma NextExplained(s: seq<Item>, rank: nat, allIncludes: bool, out: seq<Line>, os: seq<Origin>,
                      lines: seq<Line>, more: seq<Origin>)
    returns (os': seq<Origin>)
    requires ExplainsUpTo(s, rank, allIncludes, out, os) && AreSeparated(s, allIncludes, os)
    requires ExplainsGroup(s, rank + 1, allIncludes, lines, more)
    ensures ExplainsUpTo(s, rank + 1, allIncludes, Separated(out, lines, allIncludes), os')
    ensures AreSeparated(s, allIncludes, os')
  {
    hide IsExplained, IsExplainedIn, IsOrigin, Precedes, Rank, AreSeparated;
    GroupIsOfRank(s, rank + 1, allIncludes, lines, more);
    var blank := out != [] && lines != [] && allIncludes;
    os' := os + (if blank then [Separator] else []) + more;
    ExplainedBoth(s, allIncludes, out, os, lines, more, blank);
    NextInOrder(s, rank, blank, os, more);
    forall o: Origin
      ensures o in os' <==> o in os || (blank && o == Separator) || o in more
    {
      InBoth(os, blank, more, o);
    }
    NextSeparated(s, rank, allIncludes, os, more);
  }

  lemma InBoth(os: seq<Origin>, blank: bool, more: seq<Origin>, o: Origin)
    ensures o in os + (if blank then [Separator] else []) + more <==> o in os || (blank && o == Separator) || o in more
  {
  }

  lemma ExplainedBoth(s: seq<Item>, allIncludes: bool, out: seq<Line>, os: seq<Origin>,
                      lines: seq<Line>, more: seq<Origin>, blank: bool)
    requires |os| == |out| && forall k :: 0 <= k < |os| ==> IsExplained(s, allIncludes, out[k], os[k])
    requires |more| == |lines| && forall k :: 0 <= k < |more| ==> IsExplained(s, allIncludes, lines[k], more[k])
    ensures var out', os' := out + (if blank then [Blank] else []) + lines, os + (if blank then [Separator] else []) + more;
      && |out'| == |os'|
      && forall k :: 0 <= k < |os'| ==> IsExplained(s, allIncludes, out'[k], os'[k])
  {
    hide IsOrigin, IsLineOf;
  }

  lemma NextInOrder(s: seq<Item>, rank: nat, blank: bool, os: seq<Origin>, more: seq<Origin>)
    requires AreUpToRank(s, rank, os) && AreOfRank(s, rank + 1, more)
    requires forall j, k :: 0 <= j < k < |os| && os[j].Of? && os[k].Of? ==> Precedes(s, os[j], os[k])
    requires forall j, k :: 0 <= j < k < |more| ==> Precedes(s, more[j], more[k])
    ensures var os' := os + (if blank then [Separator] else []) + more;
      AreUpToRank(s, rank + 1, os') &&
      forall j, k :: 0 <= j < k < |os'| && os'[j].Of? && os'[k].Of? ==> Precedes(s, os'[j], os'[k])
  {
    hide Rank;
    var os' := os + (if blank then [Separator] else []) + more;
    forall j, k | 0 <= j < k < |os'| && os'[j].Of? && os'[k].Of?
      ensures os'[j].file < |s| && os'[k].file < |s| && Precedes(s, os'[j], os'[k])
    {
      if k < |os| {
        assert Precedes(s, os[j], os[k]);
      } else if j >= |os'| - |more| {
        var b := |os'| - |more|;
        assert Precedes(s, more[j - b], more[k - b]);
      }
    }
  }

  lemma OfRank(s: seq<Item>, rank: nat, allIncludes: bool, line: Line, o: Origin)
    requires IsExplainedIn(s, rank, allIncludes, line, o)
    ensures o.Of? && o.file < |s| && Rank(s[o.file]) == rank && IsExplained(s, allIncludes, line, o)
  {
  }

  lemma NextSeparated(s: seq<Item>, rank: nat, allIncludes: bool, os: seq<Origin>, more: seq<Origin>)
    requires AreSeparated(s, allIncludes, os) && AreUpToRank(s, rank, os) && AreOfRank(s, rank + 1, more)
    requires os != [] ==> os[0].Of? && os[|os| - 1].Of?
    ensures AreSeparated(s, allIncludes, os + (if os != [] && more != [] && allIncludes then [Separator] else []) + more)
  {
    hide AreSeparated, AreUpToRank, AreOfRank;
    if os == [] {
      GroupIsSeparated(s, rank + 1, allIncludes, more);
      assert [] + [] + more == more;
    } else if more == [] {
      assert os + [] + [] == os;
    } else {
      NewSeparator(s, rank, allIncludes, os, more);
      NoSeparator(s, rank, allIncludes, os, more);
    }
  }

  lemma GroupIsSeparated(s: seq<Item>, rank: nat, allIncludes: bool, os: seq<Origin>)
    requires AreOfRank(s, rank, os)
    ensures AreSeparated(s, allIncludes, os)
  {
    hide Rank;
  }

  lemma NewSeparator(s: seq<Item>, rank: nat, allIncludes: bool, os: seq<Origin>, more: seq<Origin>)
    requires AreSeparated(s, allIncludes, os) && AreUpToRank(s, rank, os) && AreOfRank(s, rank + 1, more)
    requires os != [] && os[0].Of? && os[|os| - 1].Of? && more != []
    ensures allIncludes ==> AreSeparated(s, allIncludes, os + [Separator] + more)
  {
    hide Rank;
    var os' := os + [Separator] + more;
    assert os'[|os|] == Separator;
    assert forall k :: 0 <= k < |os| ==> os'[k] == os[k];
    assert forall k :: |os| < k < |os'| ==> os'[k] == more[k - |os| - 1];
    assert os'[|os| - 1] == os[|os| - 1] && os'[|os| + 1] == more[0];
  }

  lemma NoSeparator(s: seq<Item>, rank: nat, allIncludes: bool, os: seq<Origin>, more: seq<Origin>)
    requires AreSeparated(s, allIncludes, os) && AreOfRank(s, rank + 1, more)
    ensures !allIncludes ==> AreSeparated(s, allIncludes, os + [] + more)
  {
    hide Rank, AreInOneGroup;
    var os' := os + [] + more;
    assert forall k :: 0 <= k < |os| ==> os'[k] == os[k];
    assert forall k :: |os| <= k < |os'| ==> os'[k] == more[k - |os|];
  }

  /** Main result: what is printed of the selected files. */
  lemma OutputIsPrintout(s: seq<Item>, allIncludes: bool)
    requires AllHaveFirstLines(s)
    ensures IsPrintout(s, allIncludes, Output(s, allIncludes))
  {
    hide ExplainsGroup, ExplainsUpTo, AreSeparated, LinesOfGroup, Separated;
    var a, b := LinesOfGroup(s, Local, allIncludes), LinesOfGroup(s, ThirdParty, allIncludes);
    var c := LinesOfGroup(s, Standard, allIncludes);
    var os := GroupExplained(s, Local, allIncludes);
    LocalExplained(s, allIncludes, a, os);
    var more := GroupExplained(s, ThirdParty, allIncludes);
    os := NextExplained(s, 0, allIncludes, a, os, b, more);
    more := GroupExplained(s, Standard, allIncludes);
    os := NextExplained(s, 1, allIncludes, Separated(a, b, allIncludes), os, c, more);
    AllExplained(s, allIncludes, Output(s, allIncludes), os);
  }

  lemma AllExplained(s: seq<Item>, allIncludes: bool, out: seq<Line>, os: seq<Origin>)
    requires ExplainsUpTo(s, 2, allIncludes, out, os)
    ensures Explains(s, allIncludes, out, os)
  {
  }

  /** The output `out` when `lines` follow it, after a blank line if `blank`. */
  function WithLines(out: seq<Line>, blank: bool, lines: seq<Line>): seq<Line> {
    out + (if lines != [] && blank then [Blank] else []) + lines
  }

  lemma NoLines(out: seq<Line>, blank: bool)
    ensures WithLines(out, blank, []) == out
  {
  }

  lemma MoreLines(out: seq<Line>, blank: bool, a: seq<Line>, b: seq<Line>)
    ensures WithLines(WithLines(out, blank, a), blank && a == [], b) == WithLines(out, blank, a + b)
  {
  }

  /** The arguments of the source's `maybe_print_include`, and standard output. */
  class Printer {
    const allIncludes: bool
    var wantGroup: Group
    var printBlankLine: bool
    var printedAnyIncludes: bool
    var out: seq<Line>

    constructor (allIncludes: bool)
      ensures this.allIncludes == allIncludes && wantGroup == Local && !printBlankLine && !printedAnyIncludes && out == []
    {
      this.allIncludes := allIncludes;
      wantGroup, printBlankLine, printedAnyIncludes, out := Local, false, false, [];
    }

    method Print(line: Line)
      modifies this
      ensures out == old(out) + (if old(printBlankLine) then [Blank] else []) + [line]
      ensures !printBlankLine && printedAnyIncludes && wantGroup == old(wantGroup)
    {
      if printBlankLine {
        printBlankLine := false;
        out := out + [Blank];
      }
      out := out + [line];
      printedAnyIncludes := true;
    }

    /** That `lines` were printed since. */
    twostate predicate Printed(lines: seq<Line>)
      reads this
    {
      && wantGroup == old(wantGroup)
      && out == WithLines(old(out), old(printBlankLine), lines)
      && printBlankLine == (old(printBlankLine) && lines == [])
      && printedAnyIncludes == (old(printedAnyIncludes) || lines != [])
    }

    /** The source's `maybe_print_include`; it reads a line that there is not unless `ok`. */
    method MaybePrint(i: Item) returns (ok: bool)
      modifies this
      ensures ok <==> (GroupOf(i) == old(wantGroup) ==> HasFirstLine(i))
      ensures ok ==> Printed(if GroupOf(i) == wantGroup then LinesOf(i, allIncludes) else [])
    {
      ok := true;
      var keep := i.handling == Keep;
      if keep && !allIncludes {
        return;
      }
      if GroupOf(i) != wantGroup {
        return;
      }
      ok := PrintFirst(i);
      if !ok {
        return;
      }
      hide First, Duplicates, WithLines;
      MoreLines(old(out), old(printBlankLine), First(i, allIncludes), Duplicates(i, |i.lines|));
      PrintDuplicates(i);
    }

    method PrintDuplicates(i: Item)
      modifies this
      ensures Printed(Duplicates(i, |i.lines|))
    {
      if |i.lines| > 1 {
        for n := 1 to |i.lines|
          invariant Printed(Duplicates(i, n))
        {
          Print(Duplicate(i, n));
        }
      }
    }

    method PrintFirst(i: Item) returns (ok: bool)
      modifies this
      ensures ok <==> HasFirstLine(i)
      ensures ok ==> Printed(First(i, allIncludes))
    {
      var keep := i.handling == Keep;
      var isDirect := i.depth == 0;
      var mark, doPrint := Unmarked, false;
      if i.isNeeded || keep {
        if isDirect || keep {
          doPrint := allIncludes;
        } else {
          mark, doPrint := Add, true;
        }
      } else if isDirect {
        if i.lines == [] {
          return false;
        }
        mark, doPrint := Delete(i.lines[0]), true;
      }
      if doPrint {
        Print(Directive(i.relPath, i.isLocal, mark));
      }
      return true;
    }

    /** The beginning of the second and the third pass. */
    method NextGroup(group: Group)
      modifies this
      ensures wantGroup == group && out == old(out)
      ensures if allIncludes && old(printedAnyIncludes) then printBlankLine && !printedAnyIncludes
              else printBlankLine == old(printBlankLine) && printedAnyIncludes == old(printedAnyIncludes)
    {
      if allIncludes && printedAnyIncludes {
        printedAnyIncludes := false;
        printBlankLine := true;
      }
      wantGroup := group;
    }

    method PrintGroup(s: seq<Item>) returns (ok: bool)
      modifies this
      ensures ok <==> forall i :: i in s && GroupOf(i) == old(wantGroup) ==> HasFirstLine(i)
      ensures ok ==> Printed(LinesOfGroup(s, wantGroup, allIncludes))
    {
      hide LinesOf, WithLines, HasFirstLine;
      NoLines(out, printBlankLine);
      for n := 0 to |s|
        invariant Printed(LinesOfGroup(s[..n], wantGroup, allIncludes))
        invariant forall k :: 0 <= k < n && GroupOf(s[k]) == wantGroup ==> HasFirstLine(s[k])
      {
        assert s[..n + 1][..n] == s[..n];
        MoreLines(old(out), old(printBlankLine), LinesOfGroup(s[..n], wantGroup, allIncludes),
                  if GroupOf(s[n]) == wantGroup then LinesOf(s[n], allIncludes) else []);
        ok := MaybePrint(s[n]);
        if !ok {
          assert s[n] in s;
          return;
        }
      }
      assert s[..|s|] == s;
      ok := true;
    }

    /** The three passes over all selected include files. */
    method PrintGroups(s: seq<Item>) returns (ok: bool)
      requires wantGroup == Local && !printBlankLine && !printedAnyIncludes && out == []
      modifies this
      ensures ok <==> AllHaveFirstLines(s)
      ensures ok ==> out == Output(s, allIncludes)
    {
      hide LinesOfGroup, HasFirstLine;
      ok := PrintGroup(s);
      if !ok {
        return;
      }
      NextGroup(ThirdParty);
      ok := PrintGroup(s);
      if !ok {
        return;
      }
      NextGroup(Standard);
      ok := PrintGroup(s);
    }
  }

  class Source {
    var includesMissing: nat
    var includesUnnecessary: nat
  }

  // ----- What is counted -----

  /** How much an include file adds to the number of missing includes. */
  function CountedMissing(i: Item, allIncludes: bool): nat {
    if ShouldPrint(i, allIncludes) && i.handling != Keep && i.isNeeded && i.depth > 0 then 1 else 0
  }

  /** How much an include file adds to the number of unnecessary includes. */
  function CountedUnnecessary(i: Item, allIncludes: bool): nat {
    if !ShouldPrint(i, allIncludes) then 0 else
      (if i.handling != Keep && !i.isNeeded then 1 else 0) + if |i.lines| > 1 then |i.lines| - 1 else 0
  }

  function Missing(s: seq<Item>, allIncludes: bool): nat {
    Sum((i: Item) => CountedMissing(i, allIncludes), s)
  }

  function Unnecessary(s: seq<Item>, allIncludes: bool): nat {
    Sum((i: Item) => CountedUnnecessary(i, allIncludes), s)
  }

  function Selected(s: seq<Item>, allIncludes: bool): (selected: seq<Item>)
    ensures forall i :: i in selected <==> i in s && ShouldPrint(i, allIncludes)
  {
    if s == [] then [] else
      var i := s[|s| - 1];
      assert s == s[..|s| - 1] + [i];
      Selected(s[..|s| - 1], allIncludes) + if ShouldPrint(i, allIncludes) then [i] else []
  }

  /** The source's `include_cmp_for_print`. */
  function CmpForPrint(i: Item, j: Item): int {
    if i.sortRank < j.sortRank then -1 else if i.sortRank > j.sortRank then 1 else StrCmp(i.relPath, j.relPath)
  }

  /** What comes first: the lower rank, and with the same rank the smaller path. */
  lemma CmpForPrintIs(i: Item, j: Item)
    ensures CmpForPrint(i, j) < 0 <==>
      i.sortRank < j.sortRank || (i.sortRank == j.sortRank && IsSmaller(i.relPath, j.relPath))
    ensures CmpForPrint(i, j) == 0 <==> i.sortRank == j.sortRank && i.relPath == j.relPath
  {
    StrCmpIsSmaller(i.relPath, j.relPath);
    StrCmpIsEquality(i.relPath, j.relPath);
  }

  ghost predicate InPrintingOrder(s: seq<Item>) {
    forall j, k :: 0 <= j < k < |s| ==> CmpForPrint(s[j], s[k]) <= 0
  }

  ghost predicate Sorts(sort: seq<Item> -> seq<Item>) {
    forall s {:trigger sort(s)} :: multiset(sort(s)) == multiset(s) && InPrintingOrder(sort(s))
  }

  lemma SameElements(s: seq<Item>, t: seq<Item>)
    requires multiset(s) == multiset(t)
    ensures forall i :: i in s <==> i in t
  {
    forall i ensures i in s <==> i in t {
      assert i in s <==> i in multiset(s);
    }
  }

  /** The source's `includes_print`, for the include files in the order of the table; it reads a line
      that there is not unless `ok`. */
  method IncludesPrint(source: Source, items: seq<Item>, allIncludes: bool, sort: seq<Item> -> seq<Item>)
    returns (ok: bool, out: seq<Line>)
    requires Sorts(sort)
    modifies source
    ensures source.includesMissing == old(source.includesMissing) + Missing(items, allIncludes)
    ensures source.includesUnnecessary == old(source.includesUnnecessary) + Unnecessary(items, allIncludes)
    ensures ok <==> AllHaveFirstLines(items)
    ensures ok ==> var sorted := sort(Selected(items, allIncludes)); InPrintingOrder(sorted) && out == Output(sorted, allIncludes)
    ensures ok ==> IsPrintout(sort(Selected(items, allIncludes)), allIncludes, out)
  {
    hide Output, IsPrintout, ShouldPrint, HasFirstLine, Missing, Unnecessary;
    var selected := CountAndSelect(source, items, allIncludes);
    var sorted := sort(selected);
    SameElements(selected, sorted);
    WithoutFirstLine(items, allIncludes);
    var printer := new Printer(allIncludes);
    ok := printer.PrintGroups(sorted);
    out := printer.out;
    if ok {
      OutputIsPrintout(sorted, allIncludes);
    }
  }

  /** A file without the line to be deleted is selected. */
  lemma WithoutFirstLine(items: seq<Item>, allIncludes: bool)
    ensures AllHaveFirstLines(items) <==> AllHaveFirstLines(Selected(items, allIncludes))
  {
    assert forall i: Item :: !HasFirstLine(i) ==> ShouldPrint(i, allIncludes);
  }

  method CountAndSelect(source: Source, items: seq<Item>, allIncludes: bool) returns (selected: seq<Item>)
    modifies source
    ensures source.includesMissing == old(source.includesMissing) + Missing(items, allIncludes)
    ensures source.includesUnnecessary == old(source.includesUnnecessary) + Unnecessary(items, allIncludes)
    ensures selected == Selected(items, allIncludes)
  {
    selected := [];
    for n := 0 to |items|
      invariant source.includesMissing == old(source.includesMissing) + Missing(items[..n], allIncludes)
      invariant source.includesUnnecessary == old(source.includesUnnecessary) + Unnecessary(items[..n], allIncludes)
      invariant selected == Selected(items[..n], allIncludes)
    {
      assert items[..n + 1][..n] == items[..n];
      var i := items[n];
      if ShouldPrint(i, allIncludes) {
        selected := selected + [i];
        if i.handling != Keep {
          if !i.isNeeded {
            source.includesUnnecessary := source.includesUnnecessary + 1;
          } else if i.depth > 0 {
            source.includesMissing := source.includesMissing + 1;
          }
        }
        if |i.lines| > 1 {
          source.includesUnnecessary := source.includesUnnecessary + |i.lines| - 1;
        }
      }
    }
    assert items[..|items|] == items;
  }

  // ----- What is printed is what is counted -----

  function IsAdd(line: Line): nat {
    if line.Directive? && line.mark.Add? then 1 else 0
  }

  function IsDelete(line: Line): nat {
    if line.Directive? && (line.mark.Delete? || line.mark.DeleteSame?) then 1 else 0
  }

  /** The lines of a kept file that are counted as duplicates and not printed. */
  function Hidden(i: Item, allIncludes: bool): nat {
    if i.handling == Keep && !allIncludes && |i.lines| > 1 then |i.lines| - 1 else 0
  }

  lemma {:induction false} DuplicatesAreDeletes(i: Item, n: nat)
    requires n <= |i.lines|
    ensures Sum(IsAdd, Duplicates(i, n)) == 0
    ensures Sum(IsDelete, Duplicates(i, n)) == |Duplicates(i, n)|
  {
    if n <= 1 {
    } else {
      DuplicatesAreDeletes(i, n - 1);
      var lines := Duplicates(i, n);
      assert lines[..|lines| - 1] == Duplicates(i, n - 1);
    }
  }

  lemma SumOfOne(f: Line -> nat, line: Line)
    ensures Sum(f, [line]) == f(line)
  {
    assert [line][..0] == [];
  }

  /** The lines of one selected file. */
  lemma LinesAreCounted(i: Item, allIncludes: bool)
    requires IsConsistent(i) && ShouldPrint(i, allIncludes)
    ensures Sum(IsAdd, LinesOf(i, allIncludes)) == CountedMissing(i, allIncludes)
    ensures Sum(IsDelete, LinesOf(i, allIncludes)) + Hidden(i, allIncludes) == CountedUnnecessary(i, allIncludes)
  {
    DuplicatesAreDeletes(i, |i.lines|);
    FirstIsCounted(i, allIncludes);
    SumConcat(IsAdd, First(i, allIncludes), Duplicates(i, |i.lines|));
    SumConcat(IsDelete, First(i, allIncludes), Duplicates(i, |i.lines|));
  }

  lemma FirstIsCounted(i: Item, allIncludes: bool)
    requires IsConsistent(i)
    ensures Sum(IsAdd, First(i, allIncludes)) == if i.handling != Keep && i.isNeeded && i.depth > 0 then 1 else 0
    ensures Sum(IsDelete, First(i, allIncludes)) == if i.handling != Keep && !i.isNeeded && i.depth == 0 then 1 else 0
  {
    var first := First(i, allIncludes);
    if first != [] {
      SumOfOne(IsAdd, first[0]);
      SumOfOne(IsDelete, first[0]);
      assert first == [first[0]];
    }
  }

  function HiddenIn(s: seq<Item>, allIncludes: bool): nat {
    Sum((i: Item) => Hidden(i, allIncludes), s)
  }

  ghost predicate AllSelected(s: seq<Item>, allIncludes: bool) {
    forall i :: i in s ==> IsConsistent(i) && ShouldPrint(i, allIncludes)
  }

  /** The lines of a kind in all three groups. */
  function InGroups(f: Line -> nat, s: seq<Item>, allIncludes: bool): nat
  {
    Sum(f, LinesOfGroup(s, Local, allIncludes)) + Sum(f, LinesOfGroup(s, ThirdParty, allIncludes)) +
    Sum(f, LinesOfGroup(s, Standard, allIncludes))
  }

  /** Every file is in exactly one of the groups. */
  lemma InOneGroup(f: Line -> nat, s: seq<Item>, allIncludes: bool)
    requires s != [] && AllConsistent(s)
    ensures InGroups(f, s, allIncludes) ==
            InGroups(f, s[..|s| - 1], allIncludes) + Sum(f, LinesOf(s[|s| - 1], allIncludes))
  {
    var before, i := s[..|s| - 1], s[|s| - 1];
    forall group: Group
      ensures Sum(f, LinesOfGroup(s, group, allIncludes)) ==
              Sum(f, LinesOfGroup(before, group, allIncludes)) + if GroupOf(i) == group then Sum(f, LinesOf(i, allIncludes)) else 0
    {
      SumConcat(f, LinesOfGroup(before, group, allIncludes), LinesOf(i, allIncludes));
      assert LinesOfGroup(before, group, allIncludes) + [] == LinesOfGroup(before, group, allIncludes);
    }
  }

  lemma {:induction false} GroupsAreCounted(s: seq<Item>, allIncludes: bool)
    requires AllSelected(s, allIncludes)
    ensures InGroups(IsAdd, s, allIncludes) == Missing(s, allIncludes)
    ensures InGroups(IsDelete, s, allIncludes) + HiddenIn(s, allIncludes) == Unnecessary(s, allIncludes)
  {
    hide LinesOf, InGroups;
    if s == [] {
      NothingInGroups(IsAdd, allIncludes);
      NothingInGroups(IsDelete, allIncludes);
    } else {
      GroupsAreCounted(s[..|s| - 1], allIncludes);
      InOneGroup(IsAdd, s, allIncludes);
      InOneGroup(IsDelete, s, allIncludes);
      LinesAreCounted(s[|s| - 1], allIncludes);
    }
  }

  lemma NothingInGroups(f: Line -> nat, allIncludes: bool)
    ensures InGroups(f, [], allIncludes) == 0
  {
  }

  lemma OutputIsGroups(f: Line -> nat, s: seq<Item>, allIncludes: bool)
    requires AllConsistent(s) && f(Blank) == 0
    ensures Sum(f, Output(s, allIncludes)) == InGroups(f, s, allIncludes)
  {
    hide LinesOfGroup;
    var a, b := LinesOfGroup(s, Local, allIncludes), LinesOfGroup(s, ThirdParty, allIncludes);
    var c := LinesOfGroup(s, Standard, allIncludes);
    SumSeparated(f, a, b, allIncludes);
    SumSeparated(f, Separated(a, b, allIncludes), c, allIncludes);
  }

  lemma SumSeparated(f: Line -> nat, a: seq<Line>, b: seq<Line>, allIncludes: bool)
    requires f(Blank) == 0
    ensures Sum(f, Separated(a, b, allIncludes)) == Sum(f, a) + Sum(f, b)
  {
    var blank := if a != [] && b != [] && allIncludes then [Blank] else [];
    SumOfOne(f, Blank);
    SumConcat(f, a, blank);
    SumConcat(f, a + blank, b);
  }

  lemma {:induction false} SelectedIsAll(f: Item -> nat, s: seq<Item>, allIncludes: bool)
    requires forall i :: !ShouldPrint(i, allIncludes) ==> f(i) == 0
    ensures Sum(f, Selected(s, allIncludes)) == Sum(f, s)
  {
    hide ShouldPrint;
    if s == [] {
    } else {
      var before, i := s[..|s| - 1], s[|s| - 1];
      SelectedIsAll(f, before, allIncludes);
      var selected := Selected(before, allIncludes);
      assert (selected + [i])[..|selected|] == selected;
      assert Selected(s, allIncludes) == if ShouldPrint(i, allIncludes) then selected + [i] else selected;
    }
  }

  /** Main result: the lines printed for adding are as many as the includes counted as missing. Those
      printed for deleting are as many as counted as unnecessary, but for the duplicates of kept files. */
  lemma PrintedAndCounted(items: seq<Item>, sorted: seq<Item>, allIncludes: bool)
    requires AllConsistent(items) && multiset(sorted) == multiset(Selected(items, allIncludes))
    ensures AllConsistent(sorted)
    ensures Sum(IsAdd, Output(sorted, allIncludes)) == Missing(items, allIncludes)
    ensures Sum(IsDelete, Output(sorted, allIncludes)) + HiddenIn(items, allIncludes) == Unnecessary(items, allIncludes)
  {
    hide LinesOfGroup, Output;
    var selected := Selected(items, allIncludes);
    SameElements(selected, sorted);
    OutputIsGroups(IsAdd, sorted, allIncludes);
    OutputIsGroups(IsDelete, sorted, allIncludes);
    GroupsAreCounted(sorted, allIncludes);
    SameSum((i: Item) => CountedMissing(i, allIncludes), items, sorted, allIncludes);
    SameSum((i: Item) => CountedUnnecessary(i, allIncludes), items, sorted, allIncludes);
    SameSum((i: Item) => Hidden(i, allIncludes), items, sorted, allIncludes);
  }

  lemma SameSum(f: Item -> nat, items: seq<Item>, sorted: seq<Item>, allIncludes: bool)
    requires multiset(sorted) == multiset(Selected(items, allIncludes))
    requires forall i :: !ShouldPrint(i, allIncludes) ==> f(i) == 0
    ensures Sum(f, sorted) == Sum(f, items)
  {
    SumOfPermutation(f, sorted, Selected(items, allIncludes));
    SelectedIsAll(f, items, allIncludes);
  }

  /** When the two numbers of unnecessary includes are the same. */
  lemma DeletesAreCountedIff(items: seq<Item>, sorted: seq<Item>, allIncludes: bool)
    requires AllConsistent(items) && multiset(sorted) == multiset(Selected(items, allIncludes))
    ensures AllConsistent(sorted)
    ensures Sum(IsDelete, Output(sorted, allIncludes)) == Unnecessary(items, allIncludes) <==>
      allIncludes || forall i :: i in items && i.handling == Keep ==> |i.lines| <= 1
  {
    PrintedAndCounted(items, sorted, allIncludes);
    SumIsZero((i: Item) => Hidden(i, allIncludes), items);
  }

  /** A kept file included twice: nothing is printed, and one unnecessary include is counted. */
  lemma KeptDuplicate()
    ensures var i := Item("a.h", true, false, 0, true, Keep, 0, [1, 2]);
      && IsConsistent(i) && Selected([i], false) == [i]
      && Output([i], false) == [] && Sum(IsDelete, Output([i], false)) == 0 && Unnecessary([i], false) == 1
  {
    var i := Item("a.h", true, false, 0, true, Keep, 0, [1, 2]);
    assert [i][..0] == [];
    assert Selected([], false) == [];
    assert forall group: Group :: LinesOfGroup([], group, false) == [];
    assert forall group: Group :: LinesOfGroup([i], group, false) == [];
    PrintedAndCounted([i], [i], false);
  }

  // ----- Comments -----

  /** The directive is printed with a comment made of the symbols used of the file, if there are to be
      such comments. */
  predicate MakesComment(i: Item, allIncludes: bool) {
    && ShouldPrint(i, allIncludes) && (i.handling == Keep ==> allIncludes)
    && (i.isNeeded || i.handling == Keep) && First(i, allIncludes) != []
  }

  /** Exactly when a comment is asked for of a file without symbols, of which the comment with the most
      referenced symbol alone reads the first: for a kept file if all includes are printed, and for the
      associated header, which is marked needed whether it is or not. Other files are needed exactly
      if they have symbols. */
  lemma NoSymbolIff(i: Item, allIncludes: bool, isAssociated: bool, symbols: nat)
    requires IsConsistent(i) && (i.isNeeded <==> symbols > 0 || isAssociated)
    ensures MakesComment(i, allIncludes) && symbols == 0 <==> symbols == 0 && IsAsked(i, allIncludes, isAssociated)
  {
  }

  predicate IsAsked(i: Item, allIncludes: bool, isAssociated: bool) {
    match i.handling
    case Keep => allIncludes
    case Elide => isAssociated && allIncludes && |i.lines| > 1
    case Default => isAssociated && (allIncludes || i.depth > 0)
  }

  /** Such a file is an associated header without a line of its own, which nothing is used of. */
  lemma AssociatedWithoutSymbol()
    ensures MakesComment(Item("a.h", true, false, 0, true, Default, 1, []), false)
  {
  }

  // ----- Which lines are printed -----

  /** A file is asked to be added exactly when it is needed, not included directly, and neither elided
      nor kept. */
  lemma AddedIff(items: seq<Item>, sorted: seq<Item>, allIncludes: bool, line: Line)
    requires AllConsistent(items) && multiset(sorted) == multiset(Selected(items, allIncludes))
    requires line.Directive? && line.mark.Add?
    ensures AllConsistent(sorted)
    ensures line in Output(sorted, allIncludes) <==>
      exists i :: i in items && i.relPath == line.relPath && i.isLocal == line.isLocal &&
                  i.isNeeded && i.depth > 0 && i.handling == Default
  {
    hide LinesOf, Output;
    SameElements(Selected(items, allIncludes), sorted);
    InOutputIff(sorted, allIncludes, line);
    forall i | i in items {
      AddsOf(i, allIncludes, line);
    }
  }

  /** A directive is printed as it is exactly for the files that are kept, and for those needed that are
      included directly, if all includes are printed; the elided ones among the latter only if they are
      included more than once. */
  lemma UnmarkedIff(items: seq<Item>, sorted: seq<Item>, allIncludes: bool, line: Line)
    requires AllConsistent(items) && multiset(sorted) == multiset(Selected(items, allIncludes))
    requires line.Directive? && line.mark.Unmarked?
    ensures AllConsistent(sorted)
    ensures line in Output(sorted, allIncludes) <==>
      allIncludes && exists i :: i in items && i.relPath == line.relPath && i.isLocal == line.isLocal && IsUnmarked(i)
  {
    hide LinesOf, Output, IsUnmarked, ShouldPrint;
    SameElements(Selected(items, allIncludes), sorted);
    InOutputIff(sorted, allIncludes, line);
    forall i | i in items {
      UnmarkedOf(i, allIncludes, line);
    }
  }

  predicate IsUnmarked(i: Item) {
    i.handling == Keep || (i.isNeeded && i.depth == 0 && (i.handling == Elide ==> |i.lines| > 1))
  }

  lemma UnmarkedOf(i: Item, allIncludes: bool, line: Line)
    requires IsConsistent(i) && line.Directive? && line.mark.Unmarked?
    ensures ShouldPrint(i, allIncludes) && line in LinesOf(i, allIncludes) <==>
      allIncludes && i.relPath == line.relPath && i.isLocal == line.isLocal && IsUnmarked(i)
  {
    InDuplicatesIff(i, |i.lines|, line);
    hide Duplicates;
  }

  lemma AddsOf(i: Item, allIncludes: bool, line: Line)
    requires IsConsistent(i) && line.Directive? && line.mark.Add?
    ensures line in LinesOf(i, allIncludes) <==>
      i.relPath == line.relPath && i.isLocal == line.isLocal && i.isNeeded && i.depth > 0 && i.handling != Keep
  {
    InDuplicatesIff(i, |i.lines|, line);
    hide Duplicates;
  }

  lemma {:induction false} InDuplicatesIff(i: Item, n: nat, line: Line)
    requires n <= |i.lines|
    ensures line in Duplicates(i, n) <==> exists k :: 1 <= k < n && line == Duplicate(i, k)
  {
    if n <= 1 {
    } else {
      InDuplicatesIff(i, n - 1, line);
    }
  }

  lemma InOutputIff(s: seq<Item>, allIncludes: bool, line: Line)
    requires AllConsistent(s) && line != Blank
    ensures line in Output(s, allIncludes) <==> exists i :: i in s && line in LinesOf(i, allIncludes)
  {
    InGroupIff(s, Local, allIncludes, line);
    InGroupIff(s, ThirdParty, allIncludes, line);
    InGroupIff(s, Standard, allIncludes, line);
  }

  lemma {:induction false} InGroupIff(s: seq<Item>, group: Group, allIncludes: bool, line: Line)
    requires AllConsistent(s)
    ensures line in LinesOfGroup(s, group, allIncludes) <==>
      exists i :: i in s && GroupOf(i) == group && line in LinesOf(i, allIncludes)
  {
    hide LinesOf;
    if s == [] {
    } else {
      var before := s[..|s| - 1];
      InGroupIff(before, group, allIncludes, line);
      assert s == before + [s[|s| - 1]];
    }
  }

  ghost predicate IsDeleteOf(line: Line, relPath: string, isLocal: bool, n: nat) {
    && line.Directive? && line.relPath == relPath && line.isLocal == isLocal
    && ((line.mark.Delete? && line.mark.line == n) || (line.mark.DeleteSame? && line.mark.line == n))
  }

  ghost predicate AsksToDelete(lines: seq<Line>, relPath: string, isLocal: bool, n: nat) {
    exists line :: line in lines && IsDeleteOf(line, relPath, isLocal, n)
  }

  /** All lines of a file that is neither needed nor kept are to be deleted, and all but the first of
      any other. */
  ghost predicate IsToDelete(i: Item, n: nat) {
    exists k :: 0 <= k < |i.lines| && i.lines[k] == n && (k > 0 || (!i.isNeeded && i.handling != Keep))
  }

  lemma DeletesOf(i: Item, allIncludes: bool, relPath: string, isLocal: bool, n: nat)
    requires IsConsistent(i)
    ensures AsksToDelete(LinesOf(i, allIncludes), relPath, isLocal, n) <==>
      i.relPath == relPath && i.isLocal == isLocal && (i.handling == Keep ==> allIncludes) && IsToDelete(i, n)
    ensures IsToDelete(i, n) ==> ShouldPrint(i, allIncludes)
  {
    if AsksToDelete(LinesOf(i, allIncludes), relPath, isLocal, n) {
      var line :| line in LinesOf(i, allIncludes) && IsDeleteOf(line, relPath, isLocal, n);
      InDuplicatesIff(i, |i.lines|, line);
      hide Duplicates;
      if line in First(i, allIncludes) {
        assert i.lines[0] == n;
      }
    }
    if IsToDelete(i, n) && i.relPath == relPath && i.isLocal == isLocal && (i.handling == Keep ==> allIncludes) {
      var k :| 0 <= k < |i.lines| && i.lines[k] == n && (k > 0 || (!i.isNeeded && i.handling != Keep));
      InDuplicatesIff(i, |i.lines|, Duplicate(i, k));
      hide Duplicates;
      var line := if k == 0 then First(i, allIncludes)[0] else Duplicate(i, k);
      assert line in LinesOf(i, allIncludes) && IsDeleteOf(line, relPath, isLocal, n);
    }
  }

  /** Which lines are asked to be deleted. */
  lemma DeletedIff(items: seq<Item>, sorted: seq<Item>, allIncludes: bool, relPath: string, isLocal: bool, n: nat)
    requires AllConsistent(items) && multiset(sorted) == multiset(Selected(items, allIncludes))
    ensures AllConsistent(sorted)
    ensures AsksToDelete(Output(sorted, allIncludes), relPath, isLocal, n) <==>
      exists i :: i in items && i.relPath == relPath && i.isLocal == isLocal &&
                  (i.handling == Keep ==> allIncludes) && IsToDelete(i, n)
  {
    hide LinesOf, Output, ShouldPrint, IsToDelete, AsksToDelete;
    SameElements(Selected(items, allIncludes), sorted);
    AsksIff(sorted, allIncludes, relPath, isLocal, n);
    forall i | i in items {
      DeletesOf(i, allIncludes, relPath, isLocal, n);
    }
  }

  /** The line asks to delete one of the includes of the file, and names the first of them if that is
      to stay. */
  ghost predicate IsDeletion(i: Item, line: Line) {
    && line.Directive? && line.relPath == i.relPath && line.isLocal == i.isLocal
    && exists k :: 0 <= k < |i.lines| && match line.mark
         case Delete(n) => !i.isNeeded && (k > 0 || i.handling != Keep) && n == i.lines[k]
         case DeleteSame(n, first) => i.isNeeded && k > 0 && n == i.lines[k] && first == i.lines[0]
         case _ => false
  }

  lemma DeletionOf(i: Item, allIncludes: bool, line: Line)
    requires IsConsistent(i) && line.Directive? && (line.mark.Delete? || line.mark.DeleteSame?)
    ensures line in LinesOf(i, allIncludes) <==> (i.handling == Keep ==> allIncludes) && IsDeletion(i, line)
    ensures IsDeletion(i, line) ==> ShouldPrint(i, allIncludes)
  {
    InDuplicatesIff(i, |i.lines|, line);
    hide Duplicates;
    if line in First(i, allIncludes) {
      assert line.mark == Delete(i.lines[0]);
    }
    if IsDeletion(i, line) {
      var k :| 0 <= k < |i.lines| && line.mark in {Delete(i.lines[k]), DeleteSame(i.lines[k], i.lines[0])} &&
               (k > 0 || (!i.isNeeded && i.handling != Keep));
      assert line == if k > 0 then Duplicate(i, k) else First(i, allIncludes)[0];
    }
  }

  /** Exactly what the lines to be deleted are printed with. */
  lemma DeletionsIff(items: seq<Item>, sorted: seq<Item>, allIncludes: bool, line: Line)
    requires AllConsistent(items) && multiset(sorted) == multiset(Selected(items, allIncludes))
    requires line.Directive? && (line.mark.Delete? || line.mark.DeleteSame?)
    ensures AllConsistent(sorted)
    ensures line in Output(sorted, allIncludes) <==>
      exists i :: i in items && (i.handling == Keep ==> allIncludes) && IsDeletion(i, line)
  {
    hide LinesOf, Output, ShouldPrint, IsDeletion;
    SameElements(Selected(items, allIncludes), sorted);
    InOutputIff(sorted, allIncludes, line);
    forall i | i in items {
      DeletionOf(i, allIncludes, line);
    }
  }

  lemma AsksIff(s: seq<Item>, allIncludes: bool, relPath: string, isLocal: bool, n: nat)
    requires AllConsistent(s)
    ensures AsksToDelete(Output(s, allIncludes), relPath, isLocal, n) <==>
      exists i :: i in s && AsksToDelete(LinesOf(i, allIncludes), relPath, isLocal, n)
  {
    hide LinesOf, Output;
    forall line | line != Blank
      ensures line in Output(s, allIncludes) <==> exists i :: i in s && line in LinesOf(i, allIncludes)
    {
      InOutputIff(s, allIncludes, line);
    }
  }
}

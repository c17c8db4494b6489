/** The set of include files that the visitor of src/include.c builds from the `#include` directives
    of a translation unit, which come as a sequence of events. */
module IncludeVisitors {
  import opened Wrappers
  import opened IncludeRecords

  type FileId = nat

  /** An `#include` directive: the included file (its unique ID, the CXFile it is included as, and its
      base name), whether the file being tidied itself contains it, the including file otherwise, and
      the line. */
  datatype Event = Event(included: FileId, file: nat, basename: string, direct: bool, includer: FileId, line: nat)

  /** What is kept about an include file. */
  datatype Record = Record(file: nat, basename: string, includer: Option<FileId>, depth: nat, lines: seq<nat>)

  type Records = map<FileId, Record>

  /** The record of a file when it is first included. */
  function Inserted(m: Records, e: Event): Record
    requires !e.direct ==> e.includer in m
  {
    if e.direct then Record(e.file, e.basename, None, 0, [])
    else Record(e.file, e.basename, Some(e.includer), m[e.includer].depth + 1, [])
  }

  /** The record `r` of a file that is included again, by a file with base name `includerName` if by
      a header. */
  function Revised(r: Record, e: Event, includerName: string): Record {
    if e.direct then r.(depth := 0, includer := None)
    else if r.includer.Some? && r.includer.value != e.includer && r.basename == includerName then
      r.(includer := Some(e.includer))
    else r
  }

  /** The line of a direct include counts unless it names a link to the file. */
  function WithLine(r: Record, e: Event): Record {
    if e.direct && e.file == r.file then r.(lines := r.lines + [e.line]) else r
  }

  /** One event, on values. */
  function Visited(m: Records, e: Event): (m': Records)
    requires !e.direct ==> e.includer in m
    ensures m'.Keys == m.Keys + {e.included}
  {
    var r := if e.included !in m then Inserted(m, e)
             else Revised(m[e.included], e, if e.direct then "" else m[e.includer].basename);
    m[e.included := WithLine(r, e)]
  }

  lemma VisitedIs(m: Records, e: Event)
    requires !e.direct ==> e.includer in m
    ensures var r := if e.included !in m then Inserted(m, e)
                     else Revised(m[e.included], e, if e.direct then "" else m[e.includer].basename);
      && Visited(m, e) == m[e.included := r][e.included := WithLine(r, e)]
      && (e.included !in m ==> r.file == e.file)
      && (!(e.direct && e.file == r.file) ==> Visited(m, e) == m[e.included := r])
      && (e.included in m && r == m[e.included] ==> m[e.included := r] == m)
  {
  }

  /** Files are visited before the files that they include. */
  ghost predicate IsOrdered(es: seq<Event>) {
    forall i :: 0 <= i < |es| && !es[i].direct ==> exists j :: 0 <= j < i && es[j].included == es[i].includer
  }

  lemma OrderedPrefix(es: seq<Event>)
    requires IsOrdered(es) && es != []
    ensures var before, e := es[..|es| - 1], es[|es| - 1];
      IsOrdered(before) && (!e.direct ==> exists d :: d in before && d.included == e.includer)
  {
    var before := es[..|es| - 1];
    forall i | 0 <= i < |es| && !es[i].direct
      ensures exists j :: 0 <= j < i && before[j].included == es[i].includer
    {
      var j :| 0 <= j < i && es[j].included == es[i].includer;
      assert before[j].included == es[i].includer;
    }
  }

  function VisitedAll(es: seq<Event>): (m: Records)
    requires IsOrdered(es)
    ensures forall e :: e in es ==> e.included in m
    ensures es == [] ==> m == map[]
  {
    if es == [] then map[] else
      var before, e := es[..|es| - 1], es[|es| - 1];
      var m := VisitedAll(before);
      OrderedPrefix(es);
      Visited(m, e)
  }

  // ----- What the records say about the events -----

  /** The first event that includes `id`, or the number of events. */
  function First(es: seq<Event>, id: FileId): (n: nat)
    ensures n <= |es| && (n < |es| ==> es[n].included == id)
    ensures forall k :: 0 <= k < n ==> es[k].included != id
  {
    if es == [] || es[0].included == id then 0 else 1 + First(es[1..], id)
  }

  /** The file that `id` was first included as. */
  function FirstFile(es: seq<Event>, id: FileId): Option<nat> {
    var n := First(es, id);
    if n < |es| then Some(es[n].file) else None
  }

  /** The base name of the file that `id` was first included as. */
  function FirstName(es: seq<Event>, id: FileId): Option<string> {
    var n := First(es, id);
    if n < |es| then Some(es[n].basename) else None
  }

  ghost predicate IsIncludedDirectly(es: seq<Event>, id: FileId) {
    exists e :: e in es && e.included == id && e.direct
  }

  ghost predicate IsIncludedBy(es: seq<Event>, id: FileId, includer: FileId) {
    exists e :: e in es && e.included == id && !e.direct && e.includer == includer
  }

  /** The lines of the direct includes of `id` as the file `file`. */
  function LinesOf(es: seq<Event>, id: FileId, file: nat): seq<nat> {
    if es == [] then [] else
      var e := es[|es| - 1];
      LinesOf(es[..|es| - 1], id, file) + if e.included == id && e.direct && e.file == file then [e.line] else []
  }

  lemma FirstOfPrefix(before: seq<Event>, e: Event, id: FileId)
    ensures var n := First(before, id);
      First(before + [e], id) == if n < |before| || e.included == id then n else n + 1
  {
    var es := before + [e];
    var n, n' := First(before, id), First(es, id);
    assert forall k :: 0 <= k < |before| ==> es[k] == before[k];
    if n < |before| {
      assert es[n].included == id;
    }
    if n' < |before| {
      assert before[n'].included == id;
    }
    assert es[|before|] == e;
  }

  lemma FirstFileIff(es: seq<Event>, id: FileId)
    ensures FirstFile(es, id).Some? <==> exists i :: 0 <= i < |es| && es[i].included == id
  {
    var n := First(es, id);
    if n < |es| {
      assert es[n].included == id;
    }
  }

  lemma {:induction false} NoLinesBefore(es: seq<Event>, id: FileId, file: nat)
    requires FirstFile(es, id).None?
    ensures LinesOf(es, id, file) == []
  {
    if es == [] {
    } else {
      FirstFileIff(es, id);
      FirstFileIff(es[..|es| - 1], id);
      NoLinesBefore(es[..|es| - 1], id, file);
    }
  }

  lemma VisitedAllStep(before: seq<Event>, e: Event)
    requires IsOrdered(before + [e])
    ensures IsOrdered(before) && (!e.direct ==> e.includer in VisitedAll(before))
    ensures VisitedAll(before + [e]) == Visited(VisitedAll(before), e)
  {
    var es := before + [e];
    OrderedPrefix(es);
    assert es[..|es| - 1] == before;
  }

  lemma OneMoreEvent(before: seq<Event>, e: Event, id: FileId)
    ensures FirstFile(before + [e], id) ==
            if FirstFile(before, id).Some? then FirstFile(before, id)
            else if e.included == id then Some(e.file) else None
    ensures FirstName(before + [e], id) ==
            if FirstFile(before, id).Some? then FirstName(before, id)
            else if e.included == id then Some(e.basename) else None
    ensures IsIncludedDirectly(before + [e], id) <==> IsIncludedDirectly(before, id) || (e.included == id && e.direct)
    ensures forall includer :: IsIncludedBy(before + [e], id, includer) <==>
              IsIncludedBy(before, id, includer) || (e.included == id && !e.direct && e.includer == includer)
    ensures forall file :: LinesOf(before + [e], id, file) ==
              LinesOf(before, id, file) + if e.included == id && e.direct && e.file == file then [e.line] else []
  {
    var es := before + [e];
    assert es[..|es| - 1] == before;
    FirstOfPrefix(before, e, id);
    assert forall x :: x in es <==> x in before || x == e;
    if IsIncludedDirectly(before, id) {
      var x :| x in before && x.included == id && x.direct;
      assert x in es;
    }
    if e.included == id && e.direct {
      assert e in es;
    }
  }

  lemma NotDirectUpTo(before: seq<Event>, e: Event, id: FileId)
    requires !IsIncludedDirectly(before + [e], id)
    ensures !IsIncludedDirectly(before, id) && (e.included == id ==> !e.direct)
  {
    hide FirstFile, FirstName, LinesOf, IsIncludedDirectly;
    OneMoreEvent(before, e, id);
  }

  /** What the events say about the record of `id`. */
  ghost predicate Agrees(es: seq<Event>, id: FileId, r: Record) {
    && FirstFile(es, id) == Some(r.file) && FirstName(es, id) == Some(r.basename)
    && (r.depth == 0 <==> IsIncludedDirectly(es, id))
    && (r.includer.None? <==> r.depth == 0)
    && (r.includer.Some? ==> IsIncludedBy(es, id, r.includer.value))
    && r.lines == LinesOf(es, id, r.file)
  }

  lemma AgreesStep(before: seq<Event>, e: Event, id: FileId, m: Records)
    requires !e.direct ==> e.includer in m
    requires if id in m then Agrees(before, id, m[id]) else FirstFile(before, id).None?
    requires id in m || e.included == id
    ensures Agrees(before + [e], id, Visited(m, e)[id])
  {
    hide FirstFile, FirstName, LinesOf, IsIncludedDirectly, IsIncludedBy;
    OneMoreEvent(before, e, id);
    if id !in m {
      NoLinesBefore(before, id, e.file);
      NotDirectBefore(before, id);
    }
  }

  lemma NotDirectBefore(es: seq<Event>, id: FileId)
    requires FirstFile(es, id).None?
    ensures !IsIncludedDirectly(es, id)
  {
    if IsIncludedDirectly(es, id) {
      var x :| x in es && x.included == id && x.direct;
      var i :| 0 <= i < |es| && es[i] == x;
      assert es[i].included == id;
      FirstFileIff(es, id);
      assert false;
    }
  }

  /** What is known of every record: a file has depth 0 exactly when it is included directly at least
      once, its base name is the one it was first included with, its includer is a file that includes it, and its lines are those of its direct includes
      under the name it was first included as, however directly included that was. */
  lemma {:induction false} RecordsAre(es: seq<Event>, id: FileId)
    requires IsOrdered(es) && id in VisitedAll(es)
    ensures Agrees(es, id, VisitedAll(es)[id])
  {
    hide VisitedAll, Visited, Agrees, FirstFile, FirstName;
    var before, e := es[..|es| - 1], es[|es| - 1];
    assert es == before + [e];
    VisitedAllStep(before, e);
    FirstFileIff(before, id);
    if id in VisitedAll(before) {
      RecordsAre(before, id);
    }
    AgreesStep(before, e, id, VisitedAll(before));
  }

  /** What counting what is printed rests on. */
  lemma LinesMeanDirect(es: seq<Event>, id: FileId)
    requires IsOrdered(es) && id in VisitedAll(es)
    ensures VisitedAll(es)[id].lines != [] ==> VisitedAll(es)[id].depth == 0
  {
    RecordsAre(es, id);
    var r := VisitedAll(es)[id];
    if r.lines != [] {
      SomeLine(es, id, r.file);
    }
  }

  lemma {:induction false} SomeLine(es: seq<Event>, id: FileId, file: nat)
    ensures LinesOf(es, id, file) != [] <==>
      exists e :: e in es && e.included == id && e.direct && e.file == file
  {
    if es == [] {
    } else {
      var before := es[..|es| - 1];
      SomeLine(before, id, file);
      assert es == before + [es[|es| - 1]];
    }
  }

  /** A directly included file has no line exactly when it is never included directly under the name
      it was first included as, but only through links to it. */
  lemma NoLineIff(es: seq<Event>, id: FileId)
    requires IsOrdered(es) && id in VisitedAll(es) && VisitedAll(es)[id].depth == 0
    ensures VisitedAll(es)[id].lines == [] <==>
      forall e :: e in es && e.included == id && e.direct ==> Some(e.file) != FirstFile(es, id)
  {
    RecordsAre(es, id);
    SomeLine(es, id, VisitedAll(es)[id].file);
  }

  /** With one CXFile for every file ID, depth 0 and having a line are the same. */
  lemma OneFileEach(es: seq<Event>, id: FileId)
    requires IsOrdered(es) && id in VisitedAll(es)
    requires forall d, e :: d in es && e in es && d.included == e.included ==> d.file == e.file
    ensures VisitedAll(es)[id].depth == 0 <==> VisitedAll(es)[id].lines != []
  {
    RecordsAre(es, id);
    LinesMeanDirect(es, id);
    if VisitedAll(es)[id].depth == 0 {
      NoLineIff(es, id);
      FirstFileAmong(es, id);
    }
  }

  lemma FirstFileAmong(es: seq<Event>, id: FileId)
    requires FirstFile(es, id).Some?
    ensures exists e :: e in es && e.included == id && Some(e.file) == FirstFile(es, id)
  {
    var n := First(es, id);
    if n < |es| {
      assert es[n] in es;
    }
  }

  /** It can happen: a header includes file 2 as 20, and then the source includes a link to it, 21. */
  lemma DirectWithoutLine()
    ensures var es := [Event(1, 10, "a.h", true, 0, 1), Event(2, 20, "b.h", false, 1, 1), Event(2, 21, "c.h", true, 0, 2)];
      IsOrdered(es) && 2 in VisitedAll(es) && VisitedAll(es)[2].depth == 0 && VisitedAll(es)[2].lines == []
  {
    var es := [Event(1, 10, "a.h", true, 0, 1), Event(2, 20, "b.h", false, 1, 1), Event(2, 21, "c.h", true, 0, 2)];
    assert es[0].included == 1 && es[1].included == 2 && es[2].direct;
    RecordsAre(es, 2);
    SomeLine(es, 2, 20);
    assert IsIncludedDirectly(es, 2) by {
      assert es[2] in es;
    }
  }

  // ----- Which lines are recorded -----

  ghost predicate IsDirectAs(es: seq<Event>, id: FileId, file: nat, n: nat) {
    n < |es| && es[n].included == id && es[n].direct && es[n].file == file
  }

  /** `ns` are, in order, the direct includes of `id` as the file `file`. */
  ghost predicate AreDirect(es: seq<Event>, id: FileId, file: nat, ns: seq<nat>) {
    && (forall j, k :: 0 <= j < k < |ns| ==> ns[j] < ns[k])
    && forall n: nat :: n in ns <==> IsDirectAs(es, id, file, n)
  }

  ghost predicate AreLinesAt(es: seq<Event>, ns: seq<nat>, lines: seq<nat>) {
    && |lines| == |ns|
    && forall k :: 0 <= k < |ns| ==> ns[k] < |es| && lines[k] == es[ns[k]].line
  }

  ghost predicate AreLinesOfDirect(es: seq<Event>, id: FileId, lines: seq<nat>) {
    exists file, ns :: FirstFile(es, id) == Some(file) && AreDirect(es, id, file, ns) && AreLinesAt(es, ns, lines)
  }

  /** The lines of a file are those of its direct includes under the name it was first included as, in
      the order of the includes. */
  lemma LinesInOrder(es: seq<Event>, id: FileId)
    requires IsOrdered(es) && id in VisitedAll(es)
    ensures AreLinesOfDirect(es, id, VisitedAll(es)[id].lines)
  {
    hide VisitedAll, AreDirect, AreLinesAt;
    RecordsAre(es, id);
    var ns := LinesAreAt(es, id, VisitedAll(es)[id].file);
  }

  lemma {:induction false} LinesAreAt(es: seq<Event>, id: FileId, file: nat) returns (ns: seq<nat>)
    ensures AreDirect(es, id, file, ns) && AreLinesAt(es, ns, LinesOf(es, id, file))
  {
    if es == [] {
      ns := [];
    } else {
      hide AreDirect, AreLinesAt, IsDirectAs;
      var before, e := es[..|es| - 1], es[|es| - 1];
      assert es == before + [e];
      var ns' := LinesAreAt(before, id, file);
      var lines := LinesOf(before, id, file);
      DirectStay(before, e, id, file, ns');
      LinesStay(before, e, ns', lines);
      var isOne := e.included == id && e.direct && e.file == file;
      ns := if isOne then ns' + [|before|] else ns';
    }
  }

  lemma DirectStay(before: seq<Event>, e: Event, id: FileId, file: nat, ns: seq<nat>)
    requires AreDirect(before, id, file, ns)
    ensures AreDirect(before + [e], id, file,
                      if e.included == id && e.direct && e.file == file then ns + [|before|] else ns)
  {
    hide IsDirectAs;
    forall n: nat
      ensures IsDirectAs(before + [e], id, file, n) <==>
        IsDirectAs(before, id, file, n) || (n == |before| && e.included == id && e.direct && e.file == file)
    {
      OneMoreDirect(before, e, id, file, n);
    }
    forall k | 0 <= k < |ns|
      ensures ns[k] < |before|
    {
      assert ns[k] in ns;
      OneMoreDirect(before, e, id, file, ns[k]);
    }
  }

  lemma OneMoreDirect(before: seq<Event>, e: Event, id: FileId, file: nat, n: nat)
    ensures IsDirectAs(before, id, file, n) ==> n < |before|
    ensures IsDirectAs(before + [e], id, file, n) <==>
      IsDirectAs(before, id, file, n) || (n == |before| && e.included == id && e.direct && e.file == file)
  {
  }

  lemma LinesStay(before: seq<Event>, e: Event, ns: seq<nat>, lines: seq<nat>)
    requires AreLinesAt(before, ns, lines)
    ensures AreLinesAt(before + [e], ns, lines) && AreLinesAt(before + [e], ns + [|before|], lines + [e.line])
    ensures lines + [] == lines
  {
  }

  // ----- Which includer is recorded -----

  /** The n-th event: a header includes `id`, which has the base name that `id` has. */
  ghost predicate IsNamesake(es: seq<Event>, id: FileId, n: nat) {
    && n < |es| && es[n].included == id && !es[n].direct
    && FirstName(es, es[n].includer) == FirstName(es, id)
  }

  /** The n-th event decides about the includer: it is the last include of `id` by a header with its
      base name, or the first include if there is none. */
  ghost predicate Decides(es: seq<Event>, id: FileId, n: nat) {
    || (IsNamesake(es, id, n) && forall k: nat :: n < k < |es| ==> !IsNamesake(es, id, k))
    || (n == First(es, id) < |es| && forall k: nat :: k < |es| ==> !IsNamesake(es, id, k))
  }

  ghost predicate IsDecided(es: seq<Event>, id: FileId, includer: Option<FileId>) {
    exists n: nat :: Decides(es, id, n) && n < |es| && includer == Some(es[n].includer)
  }

  lemma NamesakesStay(before: seq<Event>, e: Event, id: FileId, k: nat)
    requires IsOrdered(before + [e])
    ensures k < |before| ==> (IsNamesake(before + [e], id, k) <==> IsNamesake(before, id, k))
  {
    if k < |before| && before[k].included == id && !before[k].direct {
      var es := before + [e];
      var j :| 0 <= j < k && es[j].included == es[k].includer;
      assert before[j].included == es[k].includer;
      FirstFileIff(before, id);
      FirstFileIff(before, before[k].includer);
      OneMoreEvent(before, e, id);
      OneMoreEvent(before, e, before[k].includer);
    }
  }

  /** Main result: a file that is never included directly has the includer of its last include by a
      header with its base name, if there is one, and otherwise of its first include. */
  lemma {:induction false} IncluderIs(es: seq<Event>, id: FileId)
    requires IsOrdered(es) && id in VisitedAll(es) && !IsIncludedDirectly(es, id)
    ensures IsDecided(es, id, VisitedAll(es)[id].includer)
  {
    if es == [] {
    } else {
      hide VisitedAll, Visited, IsOrdered, IsDecided, Agrees, FirstFile, FirstName, LinesOf, IsIncludedDirectly;
      var before, e := es[..|es| - 1], es[|es| - 1];
      assert es == before + [e];
      VisitedAllStep(before, e);
      NotDirectUpTo(before, e, id);
      if id in VisitedAll(before) {
        IncluderIs(before, id);
        RecordsAre(before, id);
      }
      if !e.direct {
        RecordsAre(before, e.includer);
      }
      FirstFileIff(before, id);
      DecidedStep(before, e, id, VisitedAll(before));
    }
  }

  lemma DecidedStep(before: seq<Event>, e: Event, id: FileId, m: Records)
    requires IsOrdered(before + [e]) && (!e.direct ==> e.includer in m && Agrees(before, e.includer, m[e.includer]))
    requires if id in m then Agrees(before, id, m[id]) && IsDecided(before, id, m[id].includer)
             else FirstFile(before, id).None? && e.included == id
    requires e.included == id ==> !e.direct
    ensures IsDecided(before + [e], id, Visited(m, e)[id].includer)
  {
    hide FirstFile, FirstName, LinesOf, IsIncludedDirectly, IsIncludedBy, IsNamesake;
    var es := before + [e];
    LastNamesakeIff(before, e, id, m);
    if id !in m {
      FirstDecides(before, e, id);
      assert es[|before|] == e;
    } else if IsNamesake(es, id, |before|) {
      assert Decides(es, id, |before|);
    } else {
      var n: nat :| Decides(before, id, n) && n < |before| && m[id].includer == Some(before[n].includer);
      DecidesStill(before, e, id, n);
    }
  }

  lemma DecidesStill(before: seq<Event>, e: Event, id: FileId, n: nat)
    requires IsOrdered(before + [e]) && n < |before| && Decides(before, id, n)
    requires !IsNamesake(before + [e], id, |before|)
    ensures Decides(before + [e], id, n)
  {
    hide IsNamesake, IsOrdered;
    FirstOfPrefix(before, e, id);
    forall k: nat
      ensures k < |before| ==> (IsNamesake(before + [e], id, k) <==> IsNamesake(before, id, k))
    {
      NamesakesStay(before, e, id, k);
    }
  }

  lemma FirstDecides(before: seq<Event>, e: Event, id: FileId)
    requires FirstFile(before, id).None? && e.included == id && !e.direct
    ensures Decides(before + [e], id, |before|)
  {
    FirstOfPrefix(before, e, id);
    FirstFileIff(before, id);
  }

  lemma LastNamesakeIff(before: seq<Event>, e: Event, id: FileId, m: Records)
    requires !e.direct ==> e.includer in m && Agrees(before, e.includer, m[e.includer])
    requires id in m ==> Agrees(before, id, m[id])
    ensures id in m ==> (IsNamesake(before + [e], id, |before|) <==>
              e.included == id && !e.direct && m[e.includer].basename == m[id].basename)
  {
    OneMoreEvent(before, e, id);
    OneMoreEvent(before, e, e.includer);
  }

  // ----- What the depths say -----

  /** `p` leads from a file included directly, by includes, to its last file. */
  ghost predicate IsChainTo(es: seq<Event>, p: seq<FileId>, id: FileId) {
    && p != [] && p[|p| - 1] == id && IsIncludedDirectly(es, p[0])
    && forall x :: 0 < x < |p| ==> IsIncludedBy(es, p[x], p[x - 1])
  }

  lemma StillChain(before: seq<Event>, e: Event, p: seq<FileId>, id: FileId)
    requires IsChainTo(before, p, id)
    ensures IsChainTo(before + [e], p, id)
  {
    hide IsIncludedDirectly, IsIncludedBy;
    OneMoreEvent(before, e, p[0]);
    forall x | 0 < x < |p|
      ensures IsIncludedBy(before + [e], p[x], p[x - 1])
    {
      OneMoreEvent(before, e, p[x]);
    }
  }

  lemma LongerChain(es: seq<Event>, p: seq<FileId>, a: FileId, b: FileId)
    requires IsChainTo(es, p, a) && IsIncludedBy(es, b, a)
    ensures IsChainTo(es, p + [b], b)
  {
  }

  ghost predicate HasChain(es: seq<Event>, id: FileId, depth: nat) {
    exists p :: IsChainTo(es, p, id) && |p| == depth + 1
  }

  /** The depth of a file that is never included directly is that of the header which first includes it,
      as it was then, plus one, however deep the headers are that include it later. */
  lemma {:induction false} DepthIs(es: seq<Event>, id: FileId)
    requires IsOrdered(es) && id in VisitedAll(es) && !IsIncludedDirectly(es, id)
    ensures HasDepth(es, id, VisitedAll(es)[id].depth)
  {
    if es == [] {
    } else {
      hide VisitedAll, Visited, IsOrdered, IsIncludedDirectly, HasDepth;
      var before, e := es[..|es| - 1], es[|es| - 1];
      assert es == before + [e];
      VisitedAllStep(before, e);
      NotDirectUpTo(before, e, id);
      DepthAfterEvent(VisitedAll(before), e, id);
      if id in VisitedAll(before) {
        DepthIs(before, id);
        DepthStays(before, e, id, VisitedAll(before)[id].depth);
      } else {
        DepthBegins(before, e, id);
      }
    }
  }

  lemma DepthAfterEvent(m: Records, e: Event, id: FileId)
    requires !e.direct ==> e.includer in m
    ensures id in m && !(e.included == id && e.direct) ==> Visited(m, e)[id].depth == m[id].depth
    ensures id !in m && e.included == id && !e.direct ==> Visited(m, e)[id].depth == m[e.includer].depth + 1
  {
  }

  ghost predicate HasDepth(es: seq<Event>, id: FileId, depth: nat) {
    var n := First(es, id);
    && n < |es| && IsOrdered(es[..n]) && es[n].includer in VisitedAll(es[..n])
    && depth == VisitedAll(es[..n])[es[n].includer].depth + 1
  }

  lemma DepthStays(before: seq<Event>, e: Event, id: FileId, depth: nat)
    requires HasDepth(before, id, depth)
    ensures HasDepth(before + [e], id, depth)
  {
    hide VisitedAll, IsOrdered;
    FirstOfPrefix(before, e, id);
    var n := First(before, id);
    assert (before + [e])[..n] == before[..n];
  }

  lemma DepthBegins(before: seq<Event>, e: Event, id: FileId)
    requires IsOrdered(before) && id !in VisitedAll(before) && e.included == id && e.includer in VisitedAll(before)
    ensures HasDepth(before + [e], id, VisitedAll(before)[e.includer].depth + 1)
  {
    hide VisitedAll, IsOrdered;
    FirstOfPrefix(before, e, id);
    var n := First(before, id);
    forall k | 0 <= k < |before|
      ensures before[k].included != id
    {
      assert before[k] in before;
    }
    assert (before + [e])[..|before|] == before;
  }

  /** A depth is the length of a chain of includes from a file that is included directly. */
  lemma {:induction false} DepthIsChain(es: seq<Event>, id: FileId)
    requires IsOrdered(es) && id in VisitedAll(es)
    ensures HasChain(es, id, VisitedAll(es)[id].depth)
  {
    if es == [] {
    } else {
      hide VisitedAll, HasChain, Agrees;
      var before, e := es[..|es| - 1], es[|es| - 1];
      assert es == before + [e];
      VisitedAllStep(before, e);
      if id in VisitedAll(before) {
        DepthIsChain(before, id);
      }
      if !e.direct {
        DepthIsChain(before, e.includer);
      }
      ChainStep(before, e, id, VisitedAll(before));
    }
  }

  lemma ChainStep(before: seq<Event>, e: Event, id: FileId, m: Records)
    requires !e.direct ==> e.includer in m && HasChain(before, e.includer, m[e.includer].depth)
    requires if id in m then HasChain(before, id, m[id].depth) else e.included == id
    ensures HasChain(before + [e], id, Visited(m, e)[id].depth)
  {
    var es := before + [e];
    OneMoreEvent(before, e, id);
    hide IsIncludedDirectly, IsIncludedBy;
    if e.included == id && e.direct {
      assert IsChainTo(es, [id], id);
    } else if id in m {
      var p :| IsChainTo(before, p, id) && |p| == m[id].depth + 1;
      StillChain(before, e, p, id);
    } else {
      var p :| IsChainTo(before, p, e.includer) && |p| == m[e.includer].depth + 1;
      StillChain(before, e, p, e.includer);
      LongerChain(es, p, e.includer, id);
    }
  }

  ghost predicate IsShortest(es: seq<Event>, id: FileId, depth: nat) {
    forall p :: IsChainTo(es, p, id) ==> depth + 1 <= |p|
  }

  /** The file is at most one deeper than the header that includes it. */
  ghost predicate IsNotMuchDeeper(m: Records, e: Event) {
    !e.direct ==> e.includer in m && e.included in m && m[e.included].depth <= m[e.includer].depth + 1
  }

  /** Exactly when all depths are the lengths of shortest chains: when no file is more than one deeper
      than any file that includes it. */
  lemma DepthsAreShortestIff(es: seq<Event>)
    requires IsOrdered(es)
    ensures (forall id :: id in VisitedAll(es) ==> IsShortest(es, id, VisitedAll(es)[id].depth)) <==>
      forall e :: e in es ==> IsNotMuchDeeper(VisitedAll(es), e)
  {
    hide VisitedAll, IsShortest;
    var m := VisitedAll(es);
    forall e | e in es
      ensures e.included in m && (!e.direct ==> e.includer in m)
    {
      EventsAreVisited(es, e);
    }
    if forall id :: id in m ==> IsShortest(es, id, m[id].depth) {
      forall e | e in es
        ensures IsNotMuchDeeper(m, e)
      {
        if !e.direct {
          NotDeeper(es, e);
        }
      }
    }
    if forall e :: e in es ==> IsNotMuchDeeper(m, e) {
      forall id | id in m
        ensures IsShortest(es, id, m[id].depth)
      {
        ChainsAreLong(es, id);
      }
    }
  }

  lemma EventsAreVisited(es: seq<Event>, e: Event)
    requires IsOrdered(es) && e in es
    ensures e.included in VisitedAll(es) && (!e.direct ==> e.includer in VisitedAll(es))
  {
    hide VisitedAll;
    var i :| 0 <= i < |es| && es[i] == e;
    if !e.direct {
      var j :| 0 <= j < i && es[j].included == e.includer;
      assert es[j] in es;
    }
  }

  lemma NotDeeper(es: seq<Event>, e: Event)
    requires IsOrdered(es) && e in es && !e.direct && e.included in VisitedAll(es) && e.includer in VisitedAll(es)
    requires IsShortest(es, e.included, VisitedAll(es)[e.included].depth)
    ensures VisitedAll(es)[e.included].depth <= VisitedAll(es)[e.includer].depth + 1
  {
    hide VisitedAll;
    DepthIsChain(es, e.includer);
    var p :| IsChainTo(es, p, e.includer) && |p| == VisitedAll(es)[e.includer].depth + 1;
    LongerChain(es, p, e.includer, e.included);
  }

  lemma ChainsAreLong(es: seq<Event>, id: FileId)
    requires IsOrdered(es) && id in VisitedAll(es)
    requires forall e :: e in es ==> IsNotMuchDeeper(VisitedAll(es), e)
    ensures IsShortest(es, id, VisitedAll(es)[id].depth)
  {
    hide VisitedAll;
    forall p | IsChainTo(es, p, id)
      ensures VisitedAll(es)[id].depth + 1 <= |p|
    {
      ChainIsLong(es, p, id);
    }
  }

  lemma {:induction false} ChainIsLong(es: seq<Event>, p: seq<FileId>, id: FileId)
    requires IsOrdered(es) && IsChainTo(es, p, id)
    requires forall e :: e in es ==> IsNotMuchDeeper(VisitedAll(es), e)
    ensures id in VisitedAll(es) && VisitedAll(es)[id].depth + 1 <= |p|
    decreases |p|
  {
    hide VisitedAll;
    if |p| == 1 {
      var e :| e in es && e.included == id && e.direct;
      EventsAreVisited(es, e);
      RecordsAre(es, id);
    } else {
      var a := p[|p| - 2];
      assert IsIncludedBy(es, p[|p| - 1], a);
      ChainIsLong(es, p[..|p| - 1], a);
    }
  }

  function Example(): seq<Event> {
    [Event(1, 10, "a.h", true, 0, 1), Event(2, 20, "b.h", false, 1, 1),
     Event(3, 30, "c.h", false, 2, 1), Event(2, 20, "b.h", true, 0, 2)]
  }

  /** They need not be: 3 is included by 2, which a header includes before the source does. */
  lemma DepthIsNotShortest()
    ensures var es := Example();
      IsOrdered(es) && 3 in VisitedAll(es) && VisitedAll(es)[3].depth == 2 && IsChainTo(es, [2, 3], 3)
  {
    hide VisitedAll, Visited, IsChainTo, IsOrdered;
    var es := Example();
    ExampleIsChain();
    OrderedUpTo(es, 0);
    OrderedUpTo(es, 1);
    OrderedUpTo(es, 2);
    OrderedUpTo(es, 3);
    assert es[..4] == es;
    DepthAfter(es, 0);
    DepthAfter(es, 1);
    DepthAfter(es, 2);
    DepthAfter(es, 3);
  }

  lemma ExampleIsChain()
    ensures IsOrdered(Example()) && IsChainTo(Example(), [2, 3], 3)
  {
    var es := Example();
    assert es[0].included == 1 && es[1].included == 2;
    assert es[2] in es && es[3] in es;
  }

  /** How the next event sets a depth. */
  lemma DepthAfter(es: seq<Event>, n: nat)
    requires n < |es| && IsOrdered(es[..n + 1])
    ensures IsOrdered(es[..n])
    ensures var m, m', e := VisitedAll(es[..n]), VisitedAll(es[..n + 1]), es[n];
      && (!e.direct ==> e.includer in m)
      && m'.Keys == m.Keys + {e.included}
      && (forall id :: id in m && id != e.included ==> m'[id].depth == m[id].depth)
      && m'[e.included].depth ==
         if e.direct then 0 else if e.included in m then m[e.included].depth else m[e.includer].depth + 1
    ensures n == 0 ==> VisitedAll(es[..n]) == map[]
  {
    hide VisitedAll;
    assert es[..n + 1] == es[..n] + [es[n]];
    VisitedAllStep(es[..n], es[n]);
    if n == 0 {
      NothingVisited(es[..n]);
    }
  }

  lemma NothingVisited(es: seq<Event>)
    requires es == []
    ensures VisitedAll(es) == map[]
  {
  }

  lemma {:induction false} OrderedUpTo(es: seq<Event>, n: nat)
    requires IsOrdered(es) && n <= |es|
    ensures IsOrdered(es[..n])
    decreases |es|
  {
    if n == |es| {
      assert es[..n] == es;
    } else {
      OrderedPrefix(es);
      OrderedUpTo(es[..|es| - 1], n);
      assert es[..|es| - 1][..n] == es[..n];
    }
  }

  // ----- The records in place -----

  ghost function RecordOf(i: Include): Record
    reads i
  {
    Record(i.file, i.basename, if i.includer == null then None else Some(i.includer.fileId), i.depth, i.lines)
  }

  method NewInclude(e: Event, includer: Include?, ghost m: Records) returns (include_: Include)
    requires if e.direct then includer == null
             else includer != null && includer.fileId == e.includer && e.includer in m && m[e.includer] == RecordOf(includer)
    ensures fresh(include_) && include_.fileId == e.included && include_.includer == includer
    ensures RecordOf(include_) == Inserted(m, e)
  {
    include_ := new Include(e.included, e.file, e.basename);
    if includer != null {
      include_.includer := includer;
      include_.depth := includer.depth + 1;
    }
  }

  /** What the visitor does to a file that it has seen before; a header that has the same base name
      takes over as its includer. */
  method ReviseRecord(included: Include, e: Event, includer: Include?)
    requires !e.direct ==> includer != null && includer.fileId == e.includer
    requires included.includer != null && includer != null && included.includer.fileId == includer.fileId ==>
               included.includer == includer
    modifies included`depth, included`includer
    ensures included.includer in {null, old(included.includer), includer}
    ensures RecordOf(included) == Revised(old(RecordOf(included)), e, if e.direct then "" else includer.basename)
  {
    if e.direct {
      included.depth := 0;
      included.includer := null;
    } else {
      var oldIncluder := included.includer;
      if oldIncluder != null {
        if includer != oldIncluder && included.basename == includer.basename {
          included.includer := includer;
        }
      }
    }
  }

  class IncludeSet {
    var includes: map<FileId, Include>
    ghost var records: Records   // what they contain

    ghost predicate Valid()
      reads this, includes.Values
    {
      && records.Keys == includes.Keys
      && forall id :: id in includes ==> IsRight(id, includes[id])
    }

    ghost predicate Has(include_: Include?)
      reads this
    {
      include_ == null || (include_.fileId in includes && includes[include_.fileId] == include_)
    }

    ghost predicate IsRight(id: FileId, include_: Include)
      reads this, include_
    {
      include_.fileId == id && Has(include_.includer) && id in records && records[id] == RecordOf(include_)
    }

    constructor ()
      ensures Valid() && records == map[]
    {
      includes, records := map[], map[];
    }

    /** The source's `include_insert`. The including file, if any, has been visited before. */
    method Insert(e: Event) returns (include_: Include, inserted: bool)
      requires Valid() && (!e.direct ==> e.includer in records)
      modifies this
      ensures Valid() && e.included in includes && includes[e.included] == include_
      ensures inserted <==> e.included !in old(includes)
      ensures if inserted then fresh(include_) && includes == old(includes)[e.included := include_]
              else includes == old(includes)
      ensures records == if inserted then old(records)[e.included := Inserted(old(records), e)] else old(records)
    {
      if e.included in includes {
        return includes[e.included], false;
      }
      hide RecordOf, Inserted;
      var includer: Include? := null;
      if !e.direct {
        assert IsRight(e.includer, includes[e.includer]);
        includer := includes[e.includer];
      }
      include_ := NewInclude(e, includer, records);
      records := records[e.included := Inserted(records, e)];
      includes := includes[e.included := include_];
      forall id | id in old(includes) ensures IsRight(id, includes[id]) {
        assert old(IsRight(id, includes[id]));
      }
      inserted := true;
    }

    method Revise(included: Include, e: Event)
      requires Valid() && (!e.direct ==> e.includer in records)
      requires e.included in includes && includes[e.included] == included
      modifies this`records, included
      ensures Valid()
      ensures records == old(records)[e.included :=
        Revised(old(records)[e.included], e, if e.direct then "" else old(records)[e.includer].basename)]
    {
      var includer: Include? := null;
      if !e.direct {
        includer := includes[e.includer];
      }
      assert IsRight(e.included, included);
      ReviseRecord(included, e, includer);
      records := records[e.included := RecordOf(included)];
    }

    lemma FileOf(include_: Include, id: FileId)
      requires IsRight(id, include_)
      ensures records[id].file == include_.file
    {
    }

    method AddLine(included: Include, e: Event)
      requires Valid() && e.direct && e.file == included.file
      requires e.included in includes && includes[e.included] == included
      modifies this`records, included`lines
      ensures Valid()
      ensures records == old(records)[e.included := WithLine(old(records)[e.included], e)]
    {
      assert IsRight(e.included, included);
      included.lines := included.lines + [e.line];
      records := records[e.included := RecordOf(included)];
    }

    /** The source's `includes_init_visitor`, for one directive. The line of one that names a link to
        the file does not count. */
    method Visit(e: Event)
      requires Valid() && (!e.direct ==> e.includer in records)
      modifies this, includes.Values
      ensures Valid() && records == Visited(old(records), e)
      ensures fresh(includes.Values - old(includes.Values))
    {
      hide Visited, Inserted, Revised, WithLine, RecordOf;
      VisitedIs(records, e);
      var included, inserted := Insert(e);
      if !inserted {
        Revise(included, e);
      }
      FileOf(included, e.included);
      if e.direct && (inserted || e.file == included.file) {
        AddLine(included, e);
      }
    }

    /** All directives of a translation unit. */
    method VisitAll(es: seq<Event>)
      requires Valid() && records == map[] && IsOrdered(es)
      modifies this
      ensures Valid() && records == VisitedAll(es)
    {
      hide VisitedAll, Visited;
      for n := 0 to |es|
        invariant Valid() && fresh(includes.Values)
        invariant IsOrdered(es[..n]) && records == VisitedAll(es[..n])
      {
        OrderedUpTo(es, n + 1);
        assert es[..n + 1] == es[..n] + [es[n]];
        VisitedAllStep(es[..n], es[n]);
        Visit(es[n]);
      }
      assert es[..|es|] == es;
    }
  }
}

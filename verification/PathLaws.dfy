/** What normalizing a path promises, and `path_equal` on normalized paths. */
module PathLaws {
  import opened Strings
  import opened Paths

  // ----- What a path means -----

  /** Where `..`, `.` or a name leads from a place. */
  ghost predicate LeadsTo(dir: seq<string>, c: string, m: seq<string>) {
    if c == "." then m == dir
    else if c == ".." then if dir == [] then m == [] else exists last :: dir == m + [last]
    else m == dir + [c]
  }

  lemma EnterLeads(dir: seq<string>, c: string)
    ensures LeadsTo(dir, c, Enter(dir, c))
  {
    if c == ".." && dir != [] {
      assert dir == dir[..|dir| - 1] + [dir[|dir| - 1]];
    }
  }

  lemma WalkOne(dir: seq<string>, cs: seq<string>, c: string)
    ensures Walk(dir, cs + [c]) == Enter(Walk(dir, cs), c)
  {
    assert (cs + [c])[..|cs|] == cs;
  }

  /** A path begins at the root directory if it is absolute, and otherwise at the working directory. */
  lemma MeaningOfStart(c: string, cwd: seq<string>)
    requires IsComponent(c)
    ensures Meaning("", cwd) == cwd && Meaning("/", cwd) == []
    ensures LeadsTo(cwd, c, Meaning(c, cwd)) && LeadsTo([], c, Meaning("/" + c, cwd))
  {
    hide Enter, Walk, Components, LeadsTo, IsAbsolute;
    OnlySlash();
    OneComponent(c);
    WalkNothing(cwd);
    WalkNothing([]);
    WalkOne(cwd, [], c);
    WalkOne([], [], c);
    EnterLeads(cwd, c);
    EnterLeads([], c);
  }

  lemma OnlySlash()
    ensures Components("") == [] && Components("/") == [] && !IsAbsolute("") && IsAbsolute("/")
  {
    assert "/"[1..] == "";
  }

  lemma OneComponent(c: string)
    requires IsComponent(c)
    ensures Components(c) == [] + [c] && !IsAbsolute(c)
    ensures Components("/" + c) == [] + [c] && IsAbsolute("/" + c)
  {
    hide Components;
    NoComponents();
    NameFirst(c, "");
    assert c + "" == c && c[0] in c;
    SlashFirst("/" + c);
    assert ("/" + c)[1..] == c;
  }

  lemma WalkNothing(dir: seq<string>)
    ensures Walk(dir, []) == dir
  {
  }

  /** Each component leads on from where those before it lead; a `/` more does not. */
  lemma MeaningOfMore(path: string, c: string, cwd: seq<string>)
    requires path != "" && IsComponent(c)
    ensures LeadsTo(Meaning(path, cwd), c, Meaning(path + "/" + c, cwd))
    ensures Meaning(path + "/", cwd) == Meaning(path, cwd)
  {
    hide Components, Enter, LeadsTo;
    var dir := if IsAbsolute(path) then [] else cwd;
    assert path + "/" + c == path + ("/" + c) && ("/" + c)[1..] == c && c + "" == c && [c] + [] == [c];
    SplitAt(path, "/" + c);
    SlashFirst("/" + c);
    NameFirst(c, "");
    NoComponents();
    WalkOne(dir, Components(path), c);
    EnterLeads(Meaning(path, cwd), c);
    TrailingSlash(path);
  }

  /** A path escapes exactly if it leads, on its way, to a place above where it starts; that is to be
      seen from any place deep enough. */
  lemma EscapesIff(dir: seq<string>, cs: seq<string>)
    requires |dir| >= |cs|
    ensures Escapes(cs) <==> exists k :: 0 <= k <= |cs| && |Walk(dir, cs[..k])| < |dir|
  {
    hide Walk, Depth;
    forall k | 0 <= k <= |cs|
      ensures |Walk(dir, cs[..k])| == |dir| + Depth(cs[..k])
    {
      LengthOfWalk(dir, cs[..k]);
    }
  }

  lemma {:induction false} LengthOfWalk(dir: seq<string>, cs: seq<string>)
    requires |dir| >= |cs|
    ensures |Walk(dir, cs)| == |dir| + Depth(cs) && Depth(cs) >= -|cs|
  {
    if cs == [] {
    } else {
      LengthOfWalk(dir, cs[..|cs| - 1]);
    }
  }

  // ----- The normal form -----

  lemma {:induction false} StaysBelow(dir: seq<string>, cs: seq<string>)
    requires !Escapes(cs)
    ensures Depth(cs) >= 0 && |Walk(dir, cs)| == |dir| + Depth(cs) && Walk(dir, cs)[..|dir|] == dir
  {
    assert cs[..|cs|] == cs;
    assert Depth(cs) >= 0;
    if cs == [] {
    } else {
      var before := cs[..|cs| - 1];
      EscapesStep(cs, |cs| - 1);
      StaysBelow(dir, before);
    }
  }

  lemma {:induction false} PlainDepth(cs: seq<string>)
    requires ArePlain(cs)
    ensures Depth(cs) == |cs| && !Escapes(cs)
  {
    if cs == [] {
      NoEscape(cs);
      assert cs[..0] == cs;
    } else {
      assert cs[|cs| - 1] in cs;
      PlainDepth(cs[..|cs| - 1]);
      EscapesStep(cs, |cs| - 1);
      assert cs[..|cs|] == cs;
    }
  }

  ghost predicate IsAnchored(path: string) {
    IsAbsolute(path) || path == "." || Escapes(Components(path))
  }

  /** The components of the normal form. */
  ghost function NormalComponents(path: string, cwd: string): seq<string> {
    var m := Meaning(path, Components(cwd));
    if IsAnchored(path) then m else if |Components(cwd)| <= |m| then m[|Components(cwd)|..] else []
  }

  lemma DotComponents()
    ensures Components(".") == ["."]
  {
    assert IndexOf(".", '/') == 1;
    assert "."[..1] == "." && "."[1..] == "";
  }

  lemma NormalComponentsArePlain(path: string, cwd: string)
    requires IsReal(cwd)
    ensures ArePlain(NormalComponents(path, cwd))
  {
    var m := Meaning(path, Components(cwd));
    ComponentsAreComponents(path);
    WalkStaysPlain(if IsAbsolute(path) then [] else Components(cwd), Components(path));
    forall c | c in NormalComponents(path, cwd)
      ensures IsPlain(c)
    {
      assert c in m;
    }
  }

  /** A normal form has no component `.` or `..`, no empty one, and no `/` at its end, except for the
      working directory that `.` stands for; it is absolute exactly when the path is, or escapes. */
  lemma NormalForm(path: string, cwd: string)
    requires IsReal(cwd)
    ensures ArePlain(NormalComponents(path, cwd))
    ensures Components(Normal(path, cwd)) == NormalComponents(path, cwd)
    ensures IsAbsolute(Normal(path, cwd)) <==> IsAnchored(path)
    ensures path != "." ==> Normal(path, cwd) == Render(IsAnchored(path), NormalComponents(path, cwd))
    ensures path == "." ==> Normal(path, cwd) == PathCwd(cwd) && NormalComponents(path, cwd) == Components(cwd)
    ensures !IsAnchored(path) ==>
      Meaning(path, Components(cwd)) == Components(cwd) + NormalComponents(path, cwd) &&
      |NormalComponents(path, cwd)| == Depth(Components(path))
  {
    NormalComponentsArePlain(path, cwd);
    if path == "." {
      NormalOfDot(cwd);
    } else {
      NormalOfOther(path, cwd);
      hide Escapes, IsReal, Normal, NormalComponents, Walk;
      ComponentsOfRender(IsAnchored(path), NormalComponents(path, cwd));
    }
  }

  lemma NormalOfOther(path: string, cwd: string)
    requires IsReal(cwd) && path != "."
    ensures Normal(path, cwd) == Render(IsAnchored(path), NormalComponents(path, cwd))
    ensures !IsAnchored(path) ==>
      Meaning(path, Components(cwd)) == Components(cwd) + NormalComponents(path, cwd) &&
      |NormalComponents(path, cwd)| == Depth(Components(path))
  {
    if !IsAnchored(path) {
      StaysBelow(Components(cwd), Components(path));
    }
  }

  lemma NormalOfDot(cwd: string)
    requires IsReal(cwd)
    ensures NormalComponents(".", cwd) == Components(cwd) == Components(Normal(".", cwd))
    ensures IsAbsolute(Normal(".", cwd))
  {
    DotComponents();
    assert ["."][..0] == [];
    assert Walk(Components(cwd), ["."]) == Enter(Walk(Components(cwd), []), ".");
    CwdComponents(cwd);
    ComponentsOfRender(true, Components(cwd));
  }

  /** Normalizing changes no path's meaning: absolute, relative, or escaping. */
  lemma NormalizingKeepsMeaning(path: string, cwd: string)
    requires IsReal(cwd)
    ensures Meaning(Normal(path, cwd), Components(cwd)) == Meaning(path, Components(cwd))
  {
    var dir := Components(cwd);
    NormalForm(path, cwd);
    hide Normal;
    var cs := NormalComponents(path, cwd);
    WalkPlain([], cs);
    WalkPlain(dir, cs);
    if IsAnchored(path) {
      assert [] + cs == cs;
    }
  }

  /** `path_normalize` returns NULL exactly for the relative paths, other than `.`, that lead back to
      the working directory without leaving it. */
  lemma NormalizesToNothingIff(path: string, cwd: string)
    requires IsReal(cwd)
    ensures Normal(path, cwd) == "" <==> !IsAnchored(path) && Depth(Components(path)) == 0
  {
    NormalForm(path, cwd);
    ComponentsOfJoined(NormalComponents(path, cwd));
  }

  lemma RootIsReal()
    ensures Components("/") == [] && IsReal("/")
  {
    assert "/"[1..] == "";
    RenderNothing(true);
  }

  lemma UpAgain()
    ensures Components("a/..") == ["a", ".."]
  {
    var cs := ["a", ".."];
    assert cs[1..] == [".."];
    assert Joined(cs) == "a" + "/" + "..";
    ComponentsOfJoined(cs);
    assert "a" + "/" + ".." == "a/..";
  }

  lemma StaysAtStart()
    ensures Depth(["a", ".."]) == 0 && !Escapes(["a", ".."])
  {
    var cs := ["a", ".."];
    assert cs[..0] == [] && cs[..1] == ["a"] && cs[..2] == cs;
    NoEscape(cs);
    EscapesStep(cs, 0);
    EscapesStep(cs, 1);
  }

  /** Such a path is `a/..`. */
  lemma LeadsToNothing()
    ensures IsReal("/") && !IsAnchored("a/..") && Normal("a/..", "/") == ""
  {
    hide Components, Escapes, Depth, Normal, IsReal;
    RootIsReal();
    UpAgain();
    StaysAtStart();
    NormalizesToNothingIff("a/..", "/");
  }

  // ----- path_equal -----

  /** The path without the `/` at its end, but for the root directory's. */
  function Stripped(path: string): (s: string)
    ensures s <= path
  {
    if |path| > 1 && path[|path| - 1] == '/' then Stripped(path[..|path| - 1]) else path
  }

  /** Nothing but `/` is stripped, and all of them at the end, but never the first character. */
  lemma {:induction false} StrippedIs(path: string)
    ensures var n := |Stripped(path)|;
      && (path != "" ==> n > 0)
      && (n > 1 ==> path[n - 1] != '/')
      && forall k :: n <= k < |path| ==> path[k] == '/'
  {
    if |path| > 1 && path[|path| - 1] == '/' {
      var before := path[..|path| - 1];
      StrippedIs(before);
      assert forall k :: 0 <= k < |before| ==> path[k] == before[k];
    }
  }

  method PathEqual(i: string, j: string) returns (equal: bool)
    ensures equal <==> Stripped(i) == Stripped(j)
  {
    var iLen := StrippedLength(i);
    var jLen := StrippedLength(j);
    equal := iLen == jLen && i[..iLen] == j[..jLen];
  }

  method StrippedLength(path: string) returns (len: nat)
    ensures len <= |path| && path[..len] == Stripped(path)
  {
    len := |path|;
    assert path[..len] == path;
    while len > 1 && path[len - 1] == '/'
      invariant len <= |path| && Stripped(path[..len]) == Stripped(path)
    {
      assert path[..len][..len - 1] == path[..len - 1];
      len := len - 1;
    }
  }

  lemma StrippedCwd(cwd: string)
    requires IsReal(cwd)
    ensures Stripped(PathCwd(cwd)) == cwd == Stripped(cwd)
  {
    StrippedRender(true, Components(cwd));
    if cwd[|cwd| - 1] != '/' {
      assert (cwd + "/")[..|cwd|] == cwd;
    }
  }

  /** A rendered path has nothing to strip. */
  lemma StrippedRender(absolute: bool, cs: seq<string>)
    requires ArePlain(cs)
    ensures Stripped(Render(absolute, cs)) == Render(absolute, cs)
  {
    if cs != [] {
      LastCharacter(cs);
      var s := Render(absolute, cs);
      assert s[|s| - 1] == Joined(cs)[|Joined(cs)| - 1];
    }
  }

  lemma StrippedNormal(path: string, cwd: string)
    requires IsReal(cwd)
    ensures Stripped(Normal(path, cwd)) == Render(IsAnchored(path), NormalComponents(path, cwd))
  {
    NormalForm(path, cwd);
    hide Normal;
    StrippedRender(IsAnchored(path), NormalComponents(path, cwd));
    if path == "." {
      StrippedCwd(cwd);
    }
  }

  /** Normalizing twice gives a path equal to normalizing once. */
  lemma NormalizingTwice(path: string, cwd: string)
    requires IsReal(cwd)
    ensures Stripped(Normal(Normal(path, cwd), cwd)) == Stripped(Normal(path, cwd))
  {
    var n := Normal(path, cwd);
    NormalForm(path, cwd);
    NormalForm(n, cwd);
    StrippedNormal(path, cwd);
    StrippedNormal(n, cwd);
    NormalizingKeepsMeaning(path, cwd);
    PlainDepth(NormalComponents(path, cwd));
    hide Normal;
    if n == "." {
      DotComponents();
      assert "." in Components(n);
    }
  }

  /** Two normalized paths are `path_equal` exactly when they mean the same and are both absolute, or
      both relative. */
  lemma EqualIffSameMeaning(p: string, q: string, cwd: string)
    requires IsReal(cwd)
    ensures Stripped(Normal(p, cwd)) == Stripped(Normal(q, cwd)) <==>
      Meaning(p, Components(cwd)) == Meaning(q, Components(cwd)) && (IsAnchored(p) <==> IsAnchored(q))
  {
    var dir, cs, ds := Components(cwd), NormalComponents(p, cwd), NormalComponents(q, cwd);
    NormalForm(p, cwd);
    NormalForm(q, cwd);
    StrippedNormal(p, cwd);
    StrippedNormal(q, cwd);
    hide Normal;
    ComponentsOfRender(IsAnchored(p), cs);
    ComponentsOfRender(IsAnchored(q), ds);
    assert dir + cs == dir + ds ==> cs == ds by {
      assert (dir + cs)[|dir|..] == cs && (dir + ds)[|dir|..] == ds;
    }
  }
}

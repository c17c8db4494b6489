/** The `-I` directories of src/ipath.c, and paths made relative to them. Paths are what `realpath`
    makes of them. */
module IncludePaths {
  import opened Wrappers
  import opened Strings
  import opened Paths

  /** `dir` is a prefix of `path` up to the end of a component. The source's test, for lengths above
      0. */
  predicate Matches(dir: string, path: string) {
    dir != "" && dir <= path && (|dir| == |path| || path[|dir|] == '/')
  }

  /** The rest of `path` after the directory `dir` and the `/` that follows it. */
  function After(dir: string, path: string): string
    requires dir <= path
  {
    var rest := path[|dir|..];
    if IsAbsolute(rest) then rest[1..] else rest
  }

  /** The source's `path_no_dot_slash`. */
  function NoDotSlash(path: string): (r: string)
    ensures |r| <= |path| && r == path[|path| - |r|..] && !("./" <= r)
  {
    if "./" <= path then NoDotSlash(path[2..]) else path
  }

  /** Nothing but every "./" at the beginning is removed. */
  lemma {:induction false} NoDotSlashIs(path: string)
    ensures AreDotSlashes(path, |path| - |NoDotSlash(path)|)
  {
    if "./" <= path {
      var n := |path[2..]| - |NoDotSlash(path[2..])|;
      NoDotSlashIs(path[2..]);
      assert path[..2] == "./";
      MoreDotSlashes(path, n);
    }
  }

  /** The first `n` characters of `path` are "./" again and again. */
  ghost predicate AreDotSlashes(path: string, n: nat) {
    && n % 2 == 0 && n <= |path|
    && forall k :: 0 <= k < n ==> path[k] == if k % 2 == 0 then '.' else '/'
  }

  lemma MoreDotSlashes(path: string, n: nat)
    requires |path| >= 2 && path[..2] == "./" && AreDotSlashes(path[2..], n)
    ensures AreDotSlashes(path, n + 2)
  {
    assert path[0] == path[..2][0] && path[1] == path[..2][1];
    forall k | 2 <= k < n + 2
      ensures path[k] == if k % 2 == 0 then '.' else '/'
    {
      assert path[k] == path[2..][k - 2];
    }
  }

  /** `dir` is the longest of `dirs` that matches. */
  ghost predicate IsLongest(dirs: set<string>, path: string, dir: string) {
    && dir in dirs && Matches(dir, path)
    && forall d :: d in dirs && Matches(d, path) ==> |d| <= |dir|
  }

  class IncludePathList {
    var dirs: seq<string>

    /** `ipath_add` keeps the directories distinct. */
    ghost predicate Valid()
      reads this
    {
      forall i, j :: 0 <= i < j < |dirs| ==> dirs[i] != dirs[j]
    }

    ghost function Dirs(): set<string>
      reads this
    {
      set d | d in dirs
    }

    constructor ()
      ensures Valid() && Dirs() == {}
    {
      dirs := [];
    }

    /** Adds a directory, unless it is there already. */
    method Add(dir: string)
      requires Valid()
      modifies this
      ensures Valid() && Dirs() == old(Dirs()) + {dir}
      ensures dirs == old(dirs) || dirs == old(dirs) + [dir]
    {
      for i := 0 to |dirs|
        invariant dir !in dirs[..i] && dirs == old(dirs)
      {
        if dir == dirs[i] {
          return;
        }
      }
      dirs := dirs + [dir];
    }

    /** Makes `path` relative to the longest directory that matches it; None when the result is
        absolute, which the source asserts that it never is. */
    method Relativize(path: string) returns (r: Option<string>)
      ensures r == RelativeTo(Dirs(), path)
    {
      hide IsBest;
      var longest, shortest := 0, path;
      ghost var best: Option<string> := None;
      NoneIsBest(path);
      for i := 0 to |dirs|
        invariant IsBest(dirs[..i], path, best) && longest == LengthOf(best) && shortest == RestOf(path, best)
      {
        var dir := dirs[i];
        OneMoreDir(dirs[..i], dir, path, best);
        assert dirs[..i] + [dir] == dirs[..i + 1];
        if |dir| > longest && dir <= path {
          if |dir| == |path| || path[|dir|] == '/' {
            best := Some(dir);
            longest := |dir|;
            shortest := path[|dir|..];
            if IsAbsolute(shortest) {
              shortest := shortest[1..];
            }
          }
        }
      }
      assert dirs[..|dirs|] == dirs;
      BestIsLongest(dirs, path, best);
      r := Checked(NoDotSlash(shortest));
    }

    /** Because the directories are distinct, one entry at most is the longest that matches. */
    lemma OneEntry(path: string, i: nat, j: nat)
      requires Valid() && i < |dirs| && j < |dirs|
      requires IsLongest(Dirs(), path, dirs[i]) && IsLongest(Dirs(), path, dirs[j])
      ensures i == j
    {
      LongestIsUnique(Dirs(), path, dirs[i], dirs[j]);
    }
  }

  /** `path` relative to the longest of the directories that matches, or `path` if none does. */
  ghost function RelativeTo(dirs: set<string>, path: string): Option<string> {
    if exists d :: IsLongest(dirs, path, d)
    then var d :| IsLongest(dirs, path, d); Checked(NoDotSlash(After(d, path)))
    else Checked(NoDotSlash(path))
  }

  lemma {:induction false} HasLongest(dirs: set<string>, path: string, d: string)
    requires d in dirs && Matches(d, path)
    ensures exists l :: IsLongest(dirs, path, l)
    decreases |path| - |d|
  {
    if forall e :: e in dirs && Matches(e, path) ==> |e| <= |d| {
      assert IsLongest(dirs, path, d);
    } else {
      var e :| e in dirs && Matches(e, path) && |e| > |d|;
      HasLongest(dirs, path, e);
    }
  }

  /** The source's assertion fails exactly for the paths that lie below no directory of the list. */
  lemma FailsIff(dirs: set<string>, path: string)
    requires IsReal(path) && forall d :: d in dirs ==> IsReal(d)
    ensures RelativeTo(dirs, path) == None <==>
      forall d :: d in dirs ==> !(Components(d) <= Components(path) && (d == "/" ==> path == "/"))
  {
    hide Components, IsReal, Matches, RelativeTo;
    forall d | d in dirs
      ensures Matches(d, path) <==> Components(d) <= Components(path) && (d == "/" ==> path == "/")
    {
      MatchesIff(d, path);
    }
    if d :| d in dirs && Matches(d, path) {
      Succeeds(dirs, path, d);
    } else {
      NoneMatches(dirs, path);
      RealIsAbsolute(path);
    }
  }

  lemma Succeeds(dirs: set<string>, path: string, d: string)
    requires IsReal(path) && (forall e :: e in dirs ==> IsReal(e)) && d in dirs && Matches(d, path)
    ensures RelativeTo(dirs, path) != None
  {
    hide Components, IsReal, NoDotSlash, After, Checked;
    HasLongest(dirs, path, d);
    forall l | IsLongest(dirs, path, l)
      ensures l <= path && Checked(NoDotSlash(After(l, path))) != None
    {
      Relativized(l, path);
    }
  }

  lemma RealIsAbsolute(path: string)
    requires IsReal(path)
    ensures IsAbsolute(path) && Checked(NoDotSlash(path)) == None
  {
  }

  /** Such a path is `/inc/a.h` when the only directory is `/src`. */
  lemma OutsideFails()
    ensures IsReal("/src") && IsReal("/inc/a.h") && RelativeTo({"/src"}, "/inc/a.h") == None
  {
    hide IsReal, NoDotSlash, RelativeTo, Matches;
    ExamplesAreReal();
    DoesNotMatch();
    NoneMatches({"/src"}, "/inc/a.h");
    RealIsAbsolute("/inc/a.h");
  }

  lemma DoesNotMatch()
    ensures !Matches("/src", "/inc/a.h")
  {
    var dir, path := "/src", "/inc/a.h";
    assert dir[1] != path[1];
  }

  lemma NoneMatches(dirs: set<string>, path: string)
    requires forall d :: d in dirs ==> !Matches(d, path)
    ensures RelativeTo(dirs, path) == Checked(NoDotSlash(path))
  {
  }

  lemma ExamplesAreReal()
    ensures IsReal("/src") && IsReal("/inc/a.h")
  {
    hide IsReal;
    var cs := ["inc", "a.h"];
    assert cs[1..] == ["a.h"];
    assert Joined(cs) == "inc" + "/" + "a.h";
    assert "/" + ("inc" + "/" + "a.h") == "/inc/a.h";
    RenderedIsReal(cs, "/inc/a.h");
    assert "/" + "src" == "/src";
    RenderedIsReal(["src"], "/src");
  }

  lemma RenderedIsReal(cs: seq<string>, path: string)
    requires ArePlain(cs) && path == Render(true, cs)
    ensures IsReal(path)
  {
    ComponentsOfRender(true, cs);
  }

  function LengthOf(best: Option<string>): nat {
    if best.None? then 0 else |best.value|
  }

  function RestOf(path: string, best: Option<string>): string {
    if best.Some? && best.value <= path then After(best.value, path) else path
  }

  /** `best` is the longest of the directories that matches, if one does. */
  ghost predicate IsBest(ds: seq<string>, path: string, best: Option<string>) {
    && (best.Some? ==> best.value in ds && Matches(best.value, path))
    && forall d :: d in ds && Matches(d, path) ==> |d| <= LengthOf(best)
  }

  lemma NoneIsBest(path: string)
    ensures IsBest([], path, None)
  {
  }

  lemma OneMoreDir(ds: seq<string>, dir: string, path: string, best: Option<string>)
    requires IsBest(ds, path, best)
    ensures IsBest(ds + [dir], path, if |dir| > LengthOf(best) && Matches(dir, path) then Some(dir) else best)
  {
  }

  lemma BestIsLongest(ds: seq<string>, path: string, best: Option<string>)
    requires IsBest(ds, path, best)
    ensures var dirs := set d | d in ds;
      && (best.Some? ==> IsLongest(dirs, path, best.value))
      && (best.None? ==> forall d :: d in dirs ==> !Matches(d, path))
      && (forall d :: IsLongest(dirs, path, d) ==> best == Some(d))
  {
    var dirs := set d | d in ds;
    forall d | IsLongest(dirs, path, d)
      ensures best == Some(d)
    {
      assert d in ds;
      LongestIsUnique(dirs, path, d, best.value);
    }
  }

  function Checked(path: string): Option<string> {
    if IsAbsolute(path) then None else Some(path)
  }

  /** There is one longest directory at most: the order in which they were added does not matter. */
  lemma LongestIsUnique(dirs: set<string>, path: string, d: string, e: string)
    requires IsLongest(dirs, path, d) && e in dirs && Matches(e, path) && |e| >= |d|
    ensures d == e
  {
    assert |e| == |d|;
    assert d == path[..|d|] && e == path[..|e|];
  }

  /** `r` is what comes after the directory `dir` in `path`. */
  ghost predicate IsRest(path: string, dir: string, r: string) {
    path == if r == "" then dir else dir + "/" + r
  }

  /** Main result: the result is what comes after one of the directories, and nothing that comes after
      any of them is shorter. */
  lemma RelativeIsShortest(dirs: set<string>, path: string, dir: string, q: string)
    requires IsReal(path) && (forall d :: d in dirs ==> IsReal(d)) && dir in dirs && IsRest(path, dir, q)
    ensures var r := RelativeTo(dirs, path);
      r.Some? && |r.value| <= |q| && exists l :: l in dirs && IsRest(path, l, r.value)
  {
    hide IsReal, NoDotSlash, Checked, Components, After, RelativeTo;
    RestMatches(path, dir, q);
    HasLongest(dirs, path, dir);
    var l := LongestDir(dirs, path);
    Relativized(l, path);
    Shorter(path, l, NoDotSlash(After(l, path)), dir, q);
  }

  lemma RestMatches(path: string, dir: string, q: string)
    requires IsReal(dir) && IsRest(path, dir, q)
    ensures Matches(dir, path)
  {
    if q != "" {
      assert path == dir + ("/" + q);
    }
  }

  lemma LongestDir(dirs: set<string>, path: string) returns (l: string)
    requires exists d :: IsLongest(dirs, path, d)
    ensures IsLongest(dirs, path, l) && RelativeTo(dirs, path) == Checked(NoDotSlash(After(l, path)))
  {
    hide Checked, NoDotSlash, After, Matches;
    l :| IsLongest(dirs, path, l);
    forall d | IsLongest(dirs, path, d)
      ensures d == l
    {
      LongestIsUnique(dirs, path, l, d);
    }
  }

  lemma Shorter(path: string, l: string, r: string, dir: string, q: string)
    requires IsRest(path, l, r) && IsRest(path, dir, q) && |dir| <= |l|
    ensures |r| <= |q|
  {
  }

  // ----- Matching, by components -----

  /** Comparing characters finds out whether the components of the directory are the first ones of the
      path, except that the root directory only matches itself. */
  lemma MatchesIff(dir: string, path: string)
    requires IsReal(dir) && IsReal(path)
    ensures Matches(dir, path) <==> Components(dir) <= Components(path) && (dir == "/" ==> path == "/")
  {
    var ds, ps := Components(dir), Components(path);
    if Matches(dir, path) {
      SplitAt(dir, path[|dir|..]);
      assert path == dir + path[|dir|..];
      if dir == "/" && path != "/" {
        RootOnly(path);
      }
    }
    if ds <= ps {
      if ds == [] {
        assert dir == "/";
      } else {
        PrefixMatches(ds, ps);
      }
    }
  }

  /** A real path other than the root does not begin with two `/`. */
  lemma RootOnly(path: string)
    requires IsReal(path) && path != "/"
    ensures |path| > 1 && path[1] != '/'
  {
    var cs := Components(path);
    assert cs != [];
    ComponentsOfJoined(cs);
    assert path[1..] == Joined(cs);
  }

  lemma {:induction false} PrefixMatches(ds: seq<string>, ps: seq<string>)
    requires ds != [] && ds <= ps
    ensures Joined(ds) <= Joined(ps)
    ensures |Joined(ds)| == |Joined(ps)| || Joined(ps)[|Joined(ds)|] == '/'
  {
    if |ds| > 1 {
      PrefixMatches(ds[1..], ps[1..]);
      assert Joined(ps) == ds[0] + "/" + Joined(ps[1..]);
    } else if |ps| > 1 {
      assert Joined(ps) == ds[0] + ("/" + Joined(ps[1..]));
    }
  }

  /** What `Relativize` strips, and nothing else: the directory's components and those of the result
      are those of the path, and the directory, a `/` and the result give back the path. */
  lemma Relativized(dir: string, path: string)
    requires IsReal(dir) && IsReal(path) && Matches(dir, path)
    ensures var r := NoDotSlash(After(dir, path));
      && Checked(r) == Some(r)
      && Components(dir) + Components(r) == Components(path)
      && (path == if r == "" then dir else dir + "/" + r)
  {
    hide Components, Joined, Render, NoDotSlash, IsPlain;
    var rest := path[|dir|..];
    assert path == dir + rest;
    SplitAt(dir, rest);
    StrippedRest(dir, rest);
  }

  lemma StrippedRest(dir: string, rest: string)
    requires IsReal(dir) && IsReal(dir + rest) && (rest == "" || rest[0] == '/')
    requires Components(dir + rest) == Components(dir) + Components(rest)
    ensures var s := if IsAbsolute(rest) then rest[1..] else rest;
      var r := NoDotSlash(s);
      && Checked(r) == Some(r)
      && Components(r) == Components(rest)
      && (dir + rest == if r == "" then dir else dir + "/" + r)
  {
    hide Components, Joined, Render, NoDotSlash, IsPlain;
    var ds, rs := Components(dir), Components(rest);
    ArePlainAfter(ds, rs);
    RestIsRendered(ds, rs, dir, rest);
    NormalRest(rest, rs);
  }

  lemma ArePlainAfter(ds: seq<string>, rs: seq<string>)
    requires ArePlain(ds + rs)
    ensures ArePlain(rs)
  {
    forall c | c in rs
      ensures IsPlain(c)
    {
      assert c in ds + rs;
    }
  }

  lemma NormalRest(rest: string, rs: seq<string>)
    requires ArePlain(rs) && rest == if rs == [] then "" else "/" + Joined(rs)
    ensures var r := if IsAbsolute(rest) then rest[1..] else rest;
      && NoDotSlash(r) == r && Components(r) == rs && !IsAbsolute(r)
      && rest == if r == "" then "" else "/" + r
  {
    ComponentsOfJoined(rs);
    if rs == [] {
      assert Joined(rs) == "";
    } else {
      assert rest[1..] == Joined(rs);
      NotDotSlash(rs);
    }
  }

  /** What follows the directory is the rest of the components, rendered after a `/`. */
  lemma RestIsRendered(ds: seq<string>, rs: seq<string>, dir: string, rest: string)
    requires ArePlain(ds) && ArePlain(rs) && dir == Render(true, ds) && dir + rest == Render(true, ds + rs)
    requires rest == "" || rest[0] == '/'
    ensures rest == if rs == [] then "" else "/" + Joined(rs)
  {
    if rs == [] {
      assert ds + rs == ds;
    } else if ds == [] {
      assert ds + rs == rs;
      OneSlash(rest, rs);
    } else {
      JoinedConcat(ds, rs);
      assert dir + rest == dir + ("/" + Joined(rs));
      assert (dir + rest)[|dir|..] == rest;
    }
  }

  lemma OneSlash(rest: string, rs: seq<string>)
    requires ArePlain(rs) && rs != [] && "/" + rest == "/" + Joined(rs)
    ensures rest != "" && rest[0] != '/'
  {
    ComponentsOfJoined(rs);
    assert ("/" + rest)[1..] == rest && ("/" + Joined(rs))[1..] == Joined(rs);
  }

  lemma {:induction false} JoinedConcat(ds: seq<string>, rs: seq<string>)
    requires ds != [] && rs != []
    ensures Joined(ds + rs) == Joined(ds) + "/" + Joined(rs)
  {
    if |ds| == 1 {
      assert (ds + rs)[1..] == rs;
    } else {
      assert (ds + rs)[1..] == ds[1..] + rs;
      JoinedConcat(ds[1..], rs);
    }
  }

  lemma NotDotSlash(cs: seq<string>)
    requires cs != [] && ArePlain(cs)
    ensures !("./" <= Joined(cs))
  {
    var c := cs[0];
    assert c in cs && c[0] in c;
    assert Joined(cs)[..|c|] == c;
    if |c| == 1 {
      assert c == [c[0]];
    } else {
      assert c[1] in c;
    }
  }

  /** `path_is_local`: the path lies below the working directory. */
  lemma LocalIff(path: string, cwd: string)
    requires IsReal(path) && IsReal(cwd)
    ensures PathCwd(cwd) <= path <==>
      Components(cwd) <= Components(path) && (cwd == "/" || Components(cwd) != Components(path))
  {
    if cwd != "/" {
      MatchesIff(cwd, path);
      RootOnly(cwd);
      LastCharacter(Components(cwd));
      assert cwd[|cwd| - 1] == Joined(Components(cwd))[|Joined(Components(cwd))| - 1];
      hide IsReal;
      BelowIff(cwd, path);
    }
  }

  lemma BelowIff(dir: string, path: string)
    requires dir != ""
    ensures dir + "/" <= path <==> Matches(dir, path) && dir != path
  {
    if dir + "/" <= path {
      assert path[..|dir|] == (dir + "/")[..|dir|] == dir && path[|dir|] == (dir + "/")[|dir|];
    }
    if Matches(dir, path) && dir != path {
      assert path[..|dir| + 1] == dir + "/";
    }
  }
}

/** Lexical path operations of src/path_util.c. Paths are strings; the current working directory,
    which the source gets from `getcwd`, is a parameter. */
module Paths {
  import opened Wrappers
  import opened Strings

  // ----- Components -----

  /** What `strtok_r` with the separator `/` splits a path into. */
  function Components(s: string): seq<string> {
    if s == "" then []
    else if s[0] == '/' then Components(s[1..])
    else [s[..IndexOf(s, '/')]] + Components(s[IndexOf(s, '/')..])
  }

  predicate IsAbsolute(path: string) {
    path != "" && path[0] == '/'
  }

  predicate IsComponent(c: string) {
    c != "" && '/' !in c
  }

  /** A component that names something. */
  predicate IsPlain(c: string) {
    IsComponent(c) && c != "." && c != ".."
  }

  ghost predicate ArePlain(cs: seq<string>) {
    forall c :: c in cs ==> IsPlain(c)
  }

  function Joined(cs: seq<string>): string {
    if cs == [] then "" else if |cs| == 1 then cs[0] else cs[0] + "/" + Joined(cs[1..])
  }

  /** The path with exactly these components, and no `/` more than it needs. */
  function Render(absolute: bool, cs: seq<string>): string {
    (if absolute then "/" else "") + Joined(cs)
  }

  lemma {:induction false} SpanOf(c: string, rest: string)
    requires '/' !in c && (rest == "" || rest[0] == '/')
    ensures IndexOf(c + rest, '/') == |c|
  {
    if c == "" {
      assert c + rest == rest;
    } else {
      assert c[0] in c && (c + rest)[1..] == c[1..] + rest;
      SpanOf(c[1..], rest);
    }
  }

  /** Components survive being joined and split again. */
  lemma {:induction false} ComponentsOfJoined(cs: seq<string>)
    requires forall c :: c in cs ==> IsComponent(c)
    ensures Components(Joined(cs)) == cs && (cs != [] ==> !IsAbsolute(Joined(cs)) && Joined(cs) != "")
  {
    if cs == [] {
    } else {
      var c, rest := cs[0], if |cs| == 1 then "" else "/" + Joined(cs[1..]);
      assert c in cs && c[0] in c;
      ComponentsOfJoined(cs[1..]);
      SpanOf(c, rest);
      assert Joined(cs) == c + rest;
      assert (c + rest)[..|c|] == c && (c + rest)[|c|..] == rest;
      if |cs| > 1 {
        assert rest[1..] == Joined(cs[1..]);
      }
    }
  }

  lemma ComponentsOfRender(absolute: bool, cs: seq<string>)
    requires forall c :: c in cs ==> IsComponent(c)
    ensures Components(Render(absolute, cs)) == cs && IsAbsolute(Render(absolute, cs)) == absolute
  {
    ComponentsOfJoined(cs);
    if absolute {
      assert Render(absolute, cs)[1..] == Joined(cs);
    } else {
      assert Render(absolute, cs) == Joined(cs);
    }
  }

  lemma {:induction false} ComponentsAreComponents(s: string)
    ensures forall c :: c in Components(s) ==> IsComponent(c)
  {
    if s == "" {
    } else {
      ComponentsAreComponents(if s[0] == '/' then s[1..] else s[IndexOf(s, '/')..]);
    }
  }

  lemma {:induction false} JoinedLast(cs: seq<string>, c: string)
    requires cs != []
    ensures Joined(cs + [c]) == Joined(cs) + "/" + c
  {
    if |cs| == 1 {
      assert (cs + [c])[1..] == [c];
    } else {
      assert (cs + [c])[1..] == cs[1..] + [c];
      JoinedLast(cs[1..], c);
    }
  }

  lemma NameFirst(c: string, rest: string)
    requires c != "" && '/' !in c && (rest == "" || rest[0] == '/')
    ensures Components(c + rest) == [c] + Components(rest)
  {
    SpanOf(c, rest);
    assert (c + rest)[..|c|] == c && (c + rest)[|c|..] == rest;
  }

  /** Splitting before a `/` splits the components. */
  lemma {:induction false} SplitAt(s: string, rest: string)
    requires rest == "" || rest[0] == '/'
    ensures Components(s + rest) == Components(s) + Components(rest)
  {
    hide Components;
    if s == "" {
      NoComponents();
      assert s + rest == rest;
    } else if s[0] == '/' {
      SplitAt(s[1..], rest);
      SlashFirst(s);
      SlashFirst(s + rest);
      assert (s + rest)[1..] == s[1..] + rest;
    } else {
      var n := IndexOf(s, '/');
      SplitAt(s[n..], rest);
      NameFirst(s[..n], s[n..]);
      NameFirst(s[..n], s[n..] + rest);
      assert s + rest == s[..n] + (s[n..] + rest) && s == s[..n] + s[n..];
    }
  }

  lemma NoComponents()
    ensures Components("") == []
  {
  }

  lemma SlashFirst(s: string)
    requires s != "" && s[0] == '/'
    ensures Components(s) == Components(s[1..])
  {
  }

  // ----- What a path means -----

  function Enter(dir: seq<string>, c: string): seq<string> {
    if c == ".." then if dir == [] then [] else dir[..|dir| - 1]
    else if c == "." then dir
    else dir + [c]
  }

  /** Where the components `cs` lead, one after the other, from the directory `dir`. */
  function Walk(dir: seq<string>, cs: seq<string>): seq<string> {
    if cs == [] then dir else Enter(Walk(dir, cs[..|cs| - 1]), cs[|cs| - 1])
  }

  /** The absolute location of a path, by its components, when the working directory is `cwd`. */
  function Meaning(path: string, cwd: seq<string>): seq<string> {
    Walk(if IsAbsolute(path) then [] else cwd, Components(path))
  }

  /** How many levels below its start a relative path leads; negative when it leads above it. */
  function Depth(cs: seq<string>): int {
    if cs == [] then 0
    else Depth(cs[..|cs| - 1]) + if cs[|cs| - 1] == ".." then -1 else if cs[|cs| - 1] == "." then 0 else 1
  }

  /** Whether a relative path leaves, on its way, the directory it starts from. */
  ghost predicate Escapes(cs: seq<string>) {
    exists k :: 0 <= k <= |cs| && Depth(cs[..k]) < 0
  }

  lemma {:induction false} WalkPlain(dir: seq<string>, cs: seq<string>)
    requires ArePlain(cs)
    ensures Walk(dir, cs) == dir + cs
  {
    if cs == [] {
    } else {
      assert cs[|cs| - 1] in cs;
      WalkPlain(dir, cs[..|cs| - 1]);
      assert dir + cs == dir + cs[..|cs| - 1] + [cs[|cs| - 1]];
    }
  }

  lemma {:induction false} WalkStaysPlain(dir: seq<string>, cs: seq<string>)
    requires ArePlain(dir) && forall c :: c in cs ==> IsComponent(c)
    ensures ArePlain(Walk(dir, cs))
  {
    if cs == [] {
    } else {
      assert cs[|cs| - 1] in cs;
      WalkStaysPlain(dir, cs[..|cs| - 1]);
    }
  }

  // ----- Normalizing -----

  /** What `getcwd` and `realpath` return: an absolute path without `.`, `..` or an unneeded `/`. */
  ghost predicate IsReal(path: string) {
    ArePlain(Components(path)) && path == Render(true, Components(path))
  }

  /** The source's `path_cwd`: the working directory, always with a `/` at the end. */
  function PathCwd(cwd: string): string
    requires cwd != ""
  {
    if cwd[|cwd| - 1] != '/' then cwd + "/" else cwd
  }

  /** The source's `strbuf_paths`: exactly one `/` between what is there and the component. */
  function AppendPath(buf: string, component: string): string {
    if component == "" then buf
    else if buf == "" then component
    else if buf[|buf| - 1] == '/' then if IsAbsolute(component) then buf + component[1..] else buf + component
    else if IsAbsolute(component) then buf + component
    else buf + "/" + component
  }

  /** The normal form of a path: absolute if the path is, or if it escapes from the working directory,
      and otherwise relative to it. */
  ghost function Normal(path: string, cwd: string): string
    requires cwd != ""
  {
    var dir := Components(cwd);
    if path == "." then PathCwd(cwd)
    else if IsAbsolute(path) || Escapes(Components(path)) then Render(true, Meaning(path, dir))
    else if |dir| <= |Meaning(path, dir)| then Render(false, Meaning(path, dir)[|dir|..])
    else ""
  }

  /** The source's `path_normalize`. None stands for the NULL that it returns for an empty result. */
  method PathNormalize(path: string, cwd: string) returns (r: Option<string>)
    requires IsReal(cwd)
    ensures r == if Normal(path, cwd) == "" then None else Some(Normal(path, cwd))
  {
    if path == "." {
      return Some(PathCwd(cwd));
    }
    ComponentsAreComponents(path);
    var absolute, stack := StackComponents(Components(path), IsAbsolute(path), cwd);
    var out := RenderStack(absolute, stack);
    assert !absolute ==> Meaning(path, Components(cwd))[|Components(cwd)|..] == stack;
    r := if out == "" then None else Some(out);
  }

  /** The first loop of `path_normalize`, over the components of a path that is absolute or not. */
  method StackComponents(cs: seq<string>, isAbsolute: bool, cwd: string) returns (absolute: bool, stack: seq<string>)
    requires IsReal(cwd) && forall c :: c in cs ==> IsComponent(c)
    ensures ArePlain(stack) && (absolute <==> isAbsolute || Escapes(cs))
    ensures Walk(if isAbsolute then [] else Components(cwd), cs) == if absolute then stack else Components(cwd) + stack
  {
    hide IsReal, Escapes, Components;
    ghost var base := if isAbsolute then [] else Components(cwd);
    absolute, stack := isAbsolute, [];
    NoEscape(cs);
    for i := 0 to |cs|
      invariant ArePlain(stack)
      invariant absolute <==> isAbsolute || Escapes(cs[..i])
      invariant absolute ==> Walk(base, cs[..i]) == stack
      invariant !absolute ==> Walk(base, cs[..i]) == base + stack && |stack| == Depth(cs[..i])
    {
      assert cs[..i + 1][..i] == cs[..i] && cs[i] in cs;
      EscapesStep(cs, i);
      if cs[i] == ".." {
        if |stack| > 0 {
          assert (base + stack)[..|base + stack| - 1] == base + stack[..|stack| - 1];
          stack := stack[..|stack| - 1];
        } else if !absolute {
          absolute := true;
          stack := StackCwd(cwd);
          assert base + [] == base;
          if stack != [] {
            stack := stack[..|stack| - 1];
          }
        }
      } else if cs[i] != "." {
        assert base + stack + [cs[i]] == base + (stack + [cs[i]]);
        stack := stack + [cs[i]];
      }
    }
    assert cs[..|cs|] == cs;
  }

  /** The inner loop of the first one, which anchors a path that escapes. */
  method StackCwd(cwd: string) returns (stack: seq<string>)
    requires IsReal(cwd)
    ensures stack == Components(cwd) && ArePlain(stack)
  {
    CwdComponents(cwd);
    var cs := Components(PathCwd(cwd));
    stack := [];
    for j := 0 to |cs|
      invariant stack == cs[..j]
    {
      stack := stack + [cs[j]];
    }
  }

  /** The second loop of `path_normalize`. */
  method RenderStack(absolute: bool, stack: seq<string>) returns (out: string)
    requires ArePlain(stack)
    ensures out == Render(absolute, stack)
  {
    hide Render;
    out := if absolute then "/" else "";
    assert out == Render(absolute, []) by {
      RenderNothing(absolute);
    }
    for i := 0 to |stack|
      invariant out == Render(absolute, stack[..i])
    {
      AppendComponent(absolute, stack[..i], stack[i]);
      assert stack[..i + 1] == stack[..i] + [stack[i]];
      out := AppendPath(out, stack[i]);
    }
    assert stack[..|stack|] == stack;
  }

  lemma RenderNothing(absolute: bool)
    ensures Render(absolute, []) == if absolute then "/" else ""
  {
  }

  lemma NoEscape(cs: seq<string>)
    ensures !Escapes(cs[..0])
  {
  }

  lemma EscapesStep(cs: seq<string>, i: nat)
    requires i < |cs|
    ensures Escapes(cs[..i + 1]) <==> Escapes(cs[..i]) || Depth(cs[..i + 1]) < 0
    ensures Depth(cs[..i + 1]) == Depth(cs[..i]) + if cs[i] == ".." then -1 else if cs[i] == "." then 0 else 1
  {
    var now, next := cs[..i], cs[..i + 1];
    assert forall k :: 0 <= k <= i ==> next[..k] == now[..k];
    assert next[..i] == now && next[..i + 1] == next;
    if Escapes(now) {
      var k :| 0 <= k <= i && Depth(now[..k]) < 0;
      assert Depth(next[..k]) < 0;
    }
    if Depth(next) < 0 {
      assert Depth(next[..i + 1]) < 0;
    }
    if Escapes(next) {
      var k :| 0 <= k <= i + 1 && Depth(next[..k]) < 0;
      assert k <= i ==> Depth(now[..k]) < 0;
    }
  }

  lemma CwdComponents(cwd: string)
    requires cwd != ""
    ensures Components(PathCwd(cwd)) == Components(cwd)
  {
    TrailingSlash(cwd);
  }

  /** A `/` at the end does not change the components. */
  lemma {:induction false} TrailingSlash(s: string)
    ensures Components(s + "/") == Components(s)
  {
    var t := s + "/";
    if s == "" {
      assert t[1..] == s;
    } else if s[0] == '/' {
      TrailingSlash(s[1..]);
      assert t[1..] == s[1..] + "/";
    } else {
      var n := IndexOf(s, '/');
      assert t == s[..n] + (s[n..] + "/");
      SpanOf(s[..n], s[n..] + "/");
      TrailingSlash(s[n..]);
      assert t[n..] == s[n..] + "/" && t[..n] == s[..n];
    }
  }

  /** Appending a component to a rendered path renders it with one component more. */
  lemma AppendComponent(absolute: bool, cs: seq<string>, c: string)
    requires ArePlain(cs) && IsPlain(c)
    ensures AppendPath(Render(absolute, cs), c) == Render(absolute, cs + [c])
  {
    assert c[0] in c;
    if cs == [] {
      assert cs + [c] == [c];
    } else {
      var root, names := if absolute then "/" else "", Joined(cs);
      JoinedLast(cs, c);
      LastCharacter(cs);
      hide Joined;
      assert (root + names)[|root + names| - 1] == names[|names| - 1];
      AppendToName(root + names, c);
      assert root + (names + "/" + c) == root + names + "/" + c;
    }
  }

  /** There is exactly one `/` between what is there and the component, whether there was one before or
      after, or both. */
  lemma AppendPathIs(buf: string, component: string)
    requires buf != "" && component != ""
    ensures var b := if buf[|buf| - 1] == '/' then buf[..|buf| - 1] else buf;
      var c := if component[0] == '/' then component[1..] else component;
      AppendPath(buf, component) == b + "/" + c
  {
    if buf[|buf| - 1] == '/' {
      assert buf == buf[..|buf| - 1] + "/";
    }
    if component[0] == '/' {
      assert component == "/" + component[1..];
    }
  }

  lemma AppendToName(buf: string, c: string)
    requires buf != "" && buf[|buf| - 1] != '/' && c != "" && c[0] != '/'
    ensures AppendPath(buf, c) == buf + "/" + c
  {
  }

  lemma {:induction false} LastCharacter(cs: seq<string>)
    requires cs != [] && forall c :: c in cs ==> IsComponent(c)
    ensures var s := Joined(cs); s != "" && s[|s| - 1] != '/'
  {
    if |cs| == 1 {
      var c := cs[0];
      assert c in cs && c[|c| - 1] in c;
    } else {
      LastCharacter(cs[1..]);
    }
  }
}

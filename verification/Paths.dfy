/** Path handling of the command layer (commands.c): the in-place tokeniser, the resolver of
    "." and "..", and the cut at the last slash. */
module Paths {
  import opened Inodes
  import opened Directories

  // -------------------------------------------------------------- tokens

  /** Splitting on '/' and dropping empty pieces. */
  function Tokens(s: string): (ts: seq<string>)
    ensures forall i :: 0 <= i < |ts| ==> PlainName(ts[i])
    decreases |s|
  {
    if s == "" then []
    else if s[0] == '/' then Tokens(s[1..])
    else
      var w := UpToSlash(s);
      [w] + Tokens(s[|w|..])
  }

  /** Position j begins a maximal slash-free run. */
  predicate StartsAt(s: string, j: nat)
    requires j < |s|
  {
    s[j] != '/' && (j == 0 || s[j - 1] == '/')
  }

  function StartsFrom(s: string, j: nat): (starts: seq<nat>)
    requires j <= |s|
    ensures forall k :: 0 <= k < |starts| ==> j <= starts[k] < |s| && StartsAt(s, starts[k])
    decreases |s| - j
  {
    if j == |s| then [] else (if StartsAt(s, j) then [j] else []) + StartsFrom(s, j + 1)
  }

  function Runs(s: string, starts: seq<nat>): seq<string>
    requires forall k :: 0 <= k < |starts| ==> starts[k] < |s|
  {
    seq(|starts|, (k: int) requires 0 <= k < |starts| && starts[k] < |s| => UpToSlash(s[starts[k]..]))
  }

  lemma {:induction false} NoStartInside(s: string, j: nat, k: nat)
    requires 0 < j <= k <= |s| && forall i :: j - 1 <= i < k ==> s[i] != '/'
    ensures StartsFrom(s, j) == StartsFrom(s, k)
    decreases k - j
  {
    if j < k {
      NoStartInside(s, j + 1, k);
    }
  }

  lemma {:induction false} UpToSlashIs(s: string)
    ensures forall i :: 0 <= i < |UpToSlash(s)| ==> s[i] != '/'
    ensures |UpToSlash(s)| < |s| ==> s[|UpToSlash(s)|] == '/'
  {
    if s != "" && s[0] != '/' {
      UpToSlashIs(s[1..]);
    }
  }

  /** The maximal slash-free runs, in order, are the tokens. */
  lemma {:induction false} RunsAreTokens(s: string, j: nat)
    requires j <= |s| && (j == |s| || s[j] == '/' || StartsAt(s, j))
    ensures Runs(s, StartsFrom(s, j)) == Tokens(s[j..])
    decreases |s| - j
  {
    hide Tokens, StartsFrom, UpToSlash;
    if j == |s| {
      NothingLeft(s);
    } else {
      if s[j] == '/' {
        SlashSkipped(s, j);
        RunsAreTokens(s, j + 1);
      } else {
        var k := RunEnds(s, j);
        RunsAreTokens(s, k);
        RunsCons(s, j, StartsFrom(s, k));
      }
    }
  }

  lemma NothingLeft(s: string)
    ensures Runs(s, StartsFrom(s, |s|)) == Tokens(s[|s|..]) == []
  {}

  lemma SlashSkipped(s: string, j: nat)
    requires j < |s| && s[j] == '/'
    ensures StartsFrom(s, j) == StartsFrom(s, j + 1) && Tokens(s[j..]) == Tokens(s[j + 1..])
  {
    assert s[j..][1..] == s[j + 1..];
  }

  /** A run that starts at j: one start, one token, and nothing more until its end k. */
  lemma RunEnds(s: string, j: nat) returns (k: nat)
    requires j < |s| && StartsAt(s, j)
    ensures j < k <= |s| && (k == |s| || s[k] == '/')
    ensures StartsFrom(s, j) == [j] + StartsFrom(s, k)
    ensures Tokens(s[j..]) == [UpToSlash(s[j..])] + Tokens(s[k..])
  {
    hide UpToSlash;
    var t := s[j..];
    UpToSlashIs(t);
    k := j + |UpToSlash(t)|;
    assert forall i :: j <= i < k ==> s[i] == t[i - j];
    assert k < |s| ==> s[k] == t[k - j];
    NoStartInside(s, j + 1, k);
    assert t[k - j..] == s[k..];
  }

  lemma RunsCons(s: string, j: nat, starts: seq<nat>)
    requires j < |s| && forall k :: 0 <= k < |starts| ==> starts[k] < |s|
    ensures Runs(s, [j] + starts) == [UpToSlash(s[j..])] + Runs(s, starts)
  {}

  /** What a `char *` into a buffer points at. */
  function PointedAt(buf: seq<char>, j: nat): string
    requires j <= |buf|
    decreases |buf| - j
  {
    if j == |buf| || buf[j] == '\0' then "" else [buf[j]] + PointedAt(buf, j + 1)
  }

  /** A buffer holding the nonempty string s and its terminator. */
  ghost predicate Holds(buf: seq<char>, s: string) {
    && |buf| == |s| + 1 && |s| > 0
    && buf[..|s|] == s && buf[|s|] == '\0'
    && '\0' !in s
  }

  function Terminated(s: string): (buf: seq<char>)
    ensures |buf| == |s| + 1
  {
    seq(|s| + 1, (i: int) requires 0 <= i <= |s| => if i == |s| || s[i] == '/' then '\0' else s[i])
  }

  lemma {:induction false} PointedAtIsRun(s: string, j: nat)
    requires j <= |s| && '\0' !in s
    ensures PointedAt(Terminated(s), j) == UpToSlash(s[j..])
    decreases |s| - j
  {
    var buf := Terminated(s);
    if j < |s| && s[j] != '/' {
      assert s[j] in s;
      PointedAtIsRun(s, j + 1);
      assert s[j..][1..] == s[j + 1..];
      assert buf[j] == s[j] != '\0';
    }
  }

  /** str_process: separators become terminators in place, and argv points at every token. */
  method StrProcess(buf: array<char>, ghost s: string) returns (argv: seq<nat>)
    requires Holds(buf[..], s)
    modifies buf
    ensures buf[..] == Terminated(s)
    ensures argv == StartsFrom(s, 0)
    ensures |argv| == |Tokens(s)|
    ensures forall k :: 0 <= k < |argv| ==> argv[k] < |s| && PointedAt(buf[..], argv[k]) == Tokens(s)[k]
  {
    hide Tokens, PointedAt, Terminated, StartsFrom;
    ArgvIsTokens(s);
    TerminateSlashes(buf, s);
    argv := CollectArgs(buf, s);
  }

  /** Its first loop. */
  method TerminateSlashes(buf: array<char>, ghost s: string)
    requires Holds(buf[..], s)
    modifies buf
    ensures buf[..] == Terminated(s)
  {
    assert forall i :: 0 <= i < |s| ==> buf[..][..|s|][i] == buf[i];
    for i := 0 to buf.Length - 1
      invariant forall j :: 0 <= j < i ==> buf[j] == Terminated(s)[j]
      invariant forall j :: i <= j < |s| ==> buf[j] == s[j]
      invariant buf[|s|] == '\0'
    {
      if buf[i] == '/' {
        buf[i] := '\0';
      }
    }
  }

  /** Its second loop: the first argument starts at 0 or 1, each further one behind a terminator. */
  method CollectArgs(buf: array<char>, ghost s: string) returns (argv: seq<nat>)
    requires buf[..] == Terminated(s) && s != "" && '\0' !in s
    ensures argv == StartsFrom(s, 0)
  {
    hide Terminated, StartsFrom;
    TerminatedAt(s);
    var count := buf.Length - 2;
    assert forall i :: 0 <= i <= |s| ==> buf[i] == buf[..][i];
    argv := [];
    if buf[0] != '\0' {
      argv := argv + [0];
    } else if buf[1] != '\0' {
      argv := argv + [1];
    }
    FirstStarts(s);
    StartsEnd(s);
    var i := 1;
    while i <= count - 1
      invariant 1 <= i <= |s|
      invariant i < |s| || |s| == 1
      invariant |s| > 1 ==> argv + StartsFrom(s, i + 1) == StartsFrom(s, 0)
      invariant |s| == 1 ==> argv == StartsFrom(s, 0)
    {
      StartsStep(s, i + 1, argv);
      if buf[i] == '\0' && buf[i + 1] != '\0' {
        argv := argv + [i + 1];
      }
      i := i + 1;
    }
  }

  lemma TerminatedAt(s: string)
    requires '\0' !in s
    ensures forall i :: 0 <= i < |s| ==> (Terminated(s)[i] == '\0' <==> s[i] == '/')
    ensures Terminated(s)[|s|] == '\0'
  {
    assert forall i :: 0 <= i < |s| ==> s[i] in s;
  }

  lemma FirstStarts(s: string)
    requires s != ""
    ensures s[0] != '/' ==> StartsFrom(s, 0) == [0] + StartsFrom(s, 1)
    ensures s[0] == '/' ==> StartsFrom(s, 0) == StartsFrom(s, 1)
    ensures |s| > 1 && s[0] == '/' && s[1] != '/' ==> StartsFrom(s, 1) == [1] + StartsFrom(s, 2)
    ensures |s| > 1 && !(s[0] == '/' && s[1] != '/') ==> StartsFrom(s, 1) == StartsFrom(s, 2)
  {}

  lemma StartsStep(s: string, j: nat, argv: seq<nat>)
    requires j < |s|
    ensures argv + StartsFrom(s, j) == (if StartsAt(s, j) then argv + [j] else argv) + StartsFrom(s, j + 1)
  {}

  lemma StartsEnd(s: string)
    ensures StartsFrom(s, |s|) == []
  {}

  lemma ArgvIsTokens(s: string)
    requires '\0' !in s
    ensures var argv := StartsFrom(s, 0);
      |argv| == |Tokens(s)|
      && forall k :: 0 <= k < |argv| ==> argv[k] < |s| && PointedAt(Terminated(s), argv[k]) == Tokens(s)[k]
  {
    var argv := StartsFrom(s, 0);
    RunsAreTokens(s, 0);
    assert s[0..] == s;
    forall k | 0 <= k < |argv|
      ensures PointedAt(Terminated(s), argv[k]) == Tokens(s)[k]
    {
      PointedAtIsRun(s, argv[k]);
      assert Runs(s, argv)[k] == UpToSlash(s[argv[k]..]);
    }
  }

  // ----------------------------------------------- component stacks

  function Trail(cs: seq<string>): string {
    if cs == [] then "" else Trail(cs[..|cs| - 1]) + "/" + cs[|cs| - 1]
  }

  /** The absolute path of a component stack. */
  function Render(cs: seq<string>): string {
    if cs == [] then "/" else Trail(cs)
  }

  /** A component a canonical path may hold. */
  predicate Proper(c: string) {
    PlainName(c) && c != "." && c != ".."
  }

  predicate Canonical(cs: seq<string>) {
    forall i :: 0 <= i < |cs| ==> Proper(cs[i])
  }

  /** One token: "." stays, ".." pops and is the identity at the root, a name is pushed. */
  function Walk(cs: seq<string>, token: string): seq<string> {
    if token == "." then cs
    else if token == ".." then (if cs == [] then [] else cs[..|cs| - 1])
    else cs + [token]
  }

  function WalkAll(cs: seq<string>, tokens: seq<string>, k: nat): (r: seq<string>)
    requires k <= |tokens|
  {
    if k == 0 then cs else Walk(WalkAll(cs, tokens, k - 1), tokens[k - 1])
  }

  lemma {:induction false} WalkStaysCanonical(cs: seq<string>, tokens: seq<string>, k: nat)
    requires k <= |tokens| && Canonical(cs) && forall i :: 0 <= i < |tokens| ==> PlainName(tokens[i])
    ensures Canonical(WalkAll(cs, tokens, k))
  {
    if k > 0 {
      WalkStaysCanonical(cs, tokens, k - 1);
    }
  }

  // ------------------------------------------------------ the last slash

  /** The index of the last '/', -1 if there is none. */
  function LastSlash(path: string): (k: int)
    ensures -1 <= k < |path|
    ensures k >= 0 ==> path[k] == '/'
    ensures forall j :: k < j < |path| ==> path[j] != '/'
  {
    if path == "" then -1
    else if path[|path| - 1] == '/' then |path| - 1
    else LastSlash(path[..|path| - 1])
  }

  function UpOne(path: string): string {
    var k := LastSlash(path);
    if k > 0 then path[..k] else if k == 0 then path[..1] else path
  }

  lemma LastSlashUnique(path: string, k: int)
    requires 0 <= k < |path| && path[k] == '/' && forall j :: k < j < |path| ==> path[j] != '/'
    ensures LastSlash(path) == k
  {}

  /** Around the last slash of a nonempty stack's rendering. */
  lemma LastComponent(cs: seq<string>)
    requires Canonical(cs) && cs != []
    ensures var path, front, c := Render(cs), Trail(cs[..|cs| - 1]), cs[|cs| - 1];
      && Proper(c) && |path| == |front| + 1 + |c|
      && path[..|front|] == front && path[|front|] == '/' && path[|front| + 1..] == c
      && path[|path| - 1] == c[|c| - 1] != '/'
      && LastSlash(path) == |front|
  {
    hide Trail;
    var front, c := Trail(cs[..|cs| - 1]), cs[|cs| - 1];
    assert Proper(c);
    TrailOfMore(cs);
    SlashBefore(front, c);
  }

  lemma TrailOfMore(cs: seq<string>)
    requires cs != []
    ensures Trail(cs) == Trail(cs[..|cs| - 1]) + "/" + cs[|cs| - 1]
  {}

  lemma SlashBefore(front: string, c: string)
    requires PlainName(c)
    ensures var path := front + "/" + c;
      && |path| == |front| + 1 + |c|
      && path[..|front|] == front && path[|front|] == '/' && path[|front| + 1..] == c
      && path[|path| - 1] == c[|c| - 1] != '/'
      && LastSlash(path) == |front|
  {
    hide LastSlash;
    var path := front + "/" + c;
    assert forall j :: |front| < j < |path| ==> path[j] == c[j - |front| - 1];
    assert c[|c| - 1] in c;
    LastSlashUnique(path, |front|);
  }

  lemma FrontIsRendering(cs: seq<string>)
    requires Canonical(cs) && cs != []
    ensures var front := Trail(cs[..|cs| - 1]);
      if |cs| == 1 then front == "" else front == Render(cs[..|cs| - 1]) && |front| > 1
  {
    if |cs| > 1 {
      LastComponent(cs[..|cs| - 1]);
    }
  }

  /** Cutting the rendering of a stack at its last slash pops the stack. */
  lemma UpOnePops(cs: seq<string>)
    requires Canonical(cs)
    ensures UpOne(Render(cs)) == Render(Walk(cs, ".."))
  {
    if cs == [] {
      LastSlashUnique("/", 0);
    } else {
      hide LastSlash, Trail;
      LastComponent(cs);
      FrontIsRendering(cs);
      if |cs| == 1 {
        assert Render(cs)[..1] == "/";
      }
    }
  }

  /** Appending a name, with a separator unless the path ends in one, pushes it. */
  lemma AppendPushes(cs: seq<string>, c: string)
    requires Canonical(cs) && Proper(c)
    ensures var path := Render(cs);
      && path != ""
      && (if path[|path| - 1] != '/' then path + "/" + c else path + c) == Render(cs + [c])
  {
    assert (cs + [c])[..|cs|] == cs;
    assert Trail(cs + [c]) == Trail(cs) + "/" + c;
    if cs == [] {
      assert Trail(cs) == "";
      assert "" + "/" == "/";
    } else {
      LastComponent(cs);
    }
  }

  /** The inner loop of rel_to_abs for "..". */
  method CutLastComponent(path: string) returns (shorter: string)
    ensures shorter == UpOne(path)
  {
    shorter := path;
    var k := |path| - 1;
    while k >= 0
      invariant -1 <= k < |path|
      invariant forall j :: k < j < |path| ==> path[j] != '/'
    {
      if path[k] == '/' && k != 0 {
        LastSlashUnique(path, k);
        return path[..k];
      } else if path[k] == '/' && k == 0 {
        LastSlashUnique(path, k);
        return path[..k + 1];
      }
      k := k - 1;
    }
  }

  // ------------------------------------------------------ split and join

  function SplitPwd(path: string): string {
    var k := LastSlash(path);
    if k > 0 then path[..k] else "/"
  }

  function SplitName(path: string): string {
    path[LastSlash(path) + 1..]
  }

  /** The loop in mkdir1, rmdir1 and touch; `found` is false when the path has no slash and
      nothing is called. */
  method CutAtLastSlash(path: string) returns (found: bool, pwd: string, name: string)
    ensures found <==> '/' in path
    ensures found ==> pwd == SplitPwd(path) && name == SplitName(path)
  {
    found, pwd, name := false, "", "";
    var k := |path| - 1;
    while k >= 0
      invariant -1 <= k < |path|
      invariant forall j :: k < j < |path| ==> path[j] != '/'
    {
      if path[k] == '/' && k != 0 {
        LastSlashUnique(path, k);
        return true, path[..k], path[k + 1..];
      } else if path[k] == '/' && k == 0 {
        LastSlashUnique(path, k);
        return true, "/", path[k + 1..];
      }
      k := k - 1;
    }
  }

  lemma AroundSlash(path: string, k: nat)
    requires k < |path| && path[k] == '/'
    ensures path == path[..k] + "/" + path[k + 1..]
  {}

  /** Splitting and joining again gives the path back, except for "//name". */
  lemma JoinUndoesSplit(path: string)
    requires '/' in path
    ensures Join(SplitPwd(path), SplitName(path)) == path <==> !(LastSlash(path) == 1 && path[0] == '/')
  {
    hide LastSlash;
    var k := LastSlash(path);
    AroundSlash(path, k);
    if k == 0 {
      assert path[..0] + "/" == "/";
    } else if k == 1 {
      OneCharPwd(path);
    } else {
      assert |path[..k]| > 1;
    }
  }

  lemma OneCharPwd(path: string)
    requires |path| > 1 && path[1] == '/'
    ensures Join(path[..1], path[2..]) == path <==> path[0] != '/'
  {
    AroundSlash(path, 1);
    assert path[..1][0] == path[0];
    if path[0] == '/' {
      assert path[..1] == "/";
      assert |Join(path[..1], path[2..])| == |path| - 1;
    }
  }

  /** For the canonical path of a nonempty stack the command loops and the directory layer
      agree: the parts are the parent's path and the last component, and they rejoin. */
  lemma CanonicalSplits(cs: seq<string>)
    requires Canonical(cs) && cs != []
    ensures var path := Render(cs);
      && '/' in path
      && SplitPwd(path) == Render(cs[..|cs| - 1])
      && SplitName(path) == cs[|cs| - 1]
      && Join(SplitPwd(path), SplitName(path)) == path
      && (|path| < NAME_FIELD ==> Cut(Join(SplitPwd(path), SplitName(path))) == path)
  {
    hide LastSlash, Trail;
    LastComponent(cs);
    FrontIsRendering(cs);
    var path := Render(cs);
    assert path[LastSlash(path)] == '/';
    JoinUndoesSplit(path);
  }

  // ------------------------------------------------------------ resolving

  /** The stack a list of tokens leads to. */
  function Resolve(cs: seq<string>, tokens: seq<string>): seq<string> {
    WalkAll(cs, tokens, |tokens|)
  }

  /** What each kind of token does, on paths: "." nothing, ".." the parent, the root being its own, and
      a name an entry. */
  lemma ResolveOne(cs: seq<string>, token: string)
    requires Canonical(cs) && PlainName(token)
    ensures var path, r := Render(cs), Render(Resolve(cs, [token]));
      && (token == "." ==> r == path)
      && (token == ".." ==> r == SplitPwd(path))
      && (Proper(token) ==> r == Join(path, token))
  {
    ResolveSingle(cs, token);
    if token == ".." {
      UpOnePops(cs);
      ParentIsUpOne(cs);
    } else if token != "." {
      AppendPushes(cs, token);
      EntryOf(cs, token);
    }
  }

  lemma ResolveSingle(cs: seq<string>, token: string)
    ensures Resolve(cs, [token]) == Walk(cs, token)
  {
    assert WalkAll(cs, [token], 0) == cs;
    assert [token][0] == token;
  }

  lemma ParentIsUpOne(cs: seq<string>)
    requires Canonical(cs)
    ensures SplitPwd(Render(cs)) == UpOne(Render(cs))
  {
    if cs == [] {
      LastSlashUnique("/", 0);
    } else {
      LastComponent(cs);
    }
    var path := Render(cs);
    assert LastSlash(path) == 0 ==> path[..1] == [path[0]] == "/";
  }

  lemma EntryOf(cs: seq<string>, c: string)
    requires Canonical(cs) && Proper(c)
    ensures Join(Render(cs), c) == Render(cs + [c])
  {
    AppendPushes(cs, c);
    if cs != [] {
      LastComponent(cs);
      assert Render(cs) != "/";
    }
  }

  /** Resolving one list of tokens after another is resolving them as one. */
  lemma {:induction false} ResolveAppend(cs: seq<string>, a: seq<string>, b: seq<string>)
    ensures Resolve(cs, a + b) == Resolve(Resolve(cs, a), b)
  {
    if b == [] {
      assert a + b == a;
    } else {
      var front := b[..|b| - 1];
      ResolveAppend(cs, a, front);
      LastToken(cs, a + b);
      LastToken(Resolve(cs, a), b);
      assert (a + b)[..|a + b| - 1] == a + front;
    }
  }

  lemma LastToken(cs: seq<string>, tokens: seq<string>)
    requires tokens != []
    ensures var k := |tokens| - 1; Resolve(cs, tokens) == Walk(Resolve(cs, tokens[..k]), tokens[k])
  {
    WalkPrefix(cs, tokens, tokens[..|tokens| - 1], |tokens| - 1);
  }

  lemma {:induction false} WalkPrefix(cs: seq<string>, tokens: seq<string>, front: seq<string>, k: nat)
    requires k <= |front| <= |tokens| && front == tokens[..|front|]
    ensures WalkAll(cs, tokens, k) == WalkAll(cs, front, k)
  {
    if k > 0 {
      WalkPrefix(cs, tokens, front, k - 1);
    }
  }

  /** The tokens without the "." ones. */
  function WithoutDots(tokens: seq<string>): (kept: seq<string>)
    ensures "." !in kept && forall t :: t in kept ==> t in tokens
  {
    if tokens == [] then []
    else
      var k := |tokens| - 1;
      WithoutDots(tokens[..k]) + if tokens[k] == "." then [] else [tokens[k]]
  }

  /** Leaving out every "." changes nothing. */
  lemma {:induction false} DotsAreIdle(cs: seq<string>, tokens: seq<string>)
    ensures Resolve(cs, WithoutDots(tokens)) == Resolve(cs, tokens)
  {
    if tokens != [] {
      var k := |tokens| - 1;
      DotsAreIdle(cs, tokens[..k]);
      LastToken(cs, tokens);
      if tokens[k] == "." {
        assert WithoutDots(tokens) == WithoutDots(tokens[..k]);
      } else {
        assert WithoutDots(tokens)[..|WithoutDots(tokens)| - 1] == WithoutDots(tokens[..k]);
        LastToken(cs, WithoutDots(tokens));
      }
    }
  }

  /** Going down and up again comes back, from any directory. */
  lemma UpUndoesDown(cs: seq<string>, c: string)
    requires Canonical(cs) && Proper(c)
    ensures Resolve(cs, [c, ".."]) == cs
  {
    ResolveAppend(cs, [c], [".."]);
    ResolveSingle(cs, c);
    ResolveSingle(cs + [c], "..");
    assert [c] + [".."] == [c, ".."];
    assert (cs + [c])[..|cs|] == cs;
  }

  lemma ResolvedTo(cs: seq<string>, tokens: seq<string>)
    requires Canonical(cs) && forall i :: 0 <= i < |tokens| ==> PlainName(tokens[i])
    ensures Resolve(cs, tokens) == WalkAll(cs, tokens, |tokens|)
    ensures tokens == ["."] ==> Render(Resolve(cs, tokens)) == Render(cs)
    ensures tokens == [".."] ==> Render(Resolve(cs, tokens)) == SplitPwd(Render(cs))
    ensures |tokens| == 1 && Proper(tokens[0]) ==> Render(Resolve(cs, tokens)) == Join(Render(cs), tokens[0])
  {
    if |tokens| == 1 {
      assert tokens == [tokens[0]];
      ResolveOne(cs, tokens[0]);
    }
  }

  /** rel_to_abs: an absolute argument is copied, a relative one walks the component stack of the
      current path; the result is canonical again. "." alone gives the current path, ".." alone its
      parent, and a name an entry of it; with more tokens `ResolveAppend` applies. */
  method RelToAbs(relative: array<char>, ghost s: string, curPath: string, ghost cs: seq<string>)
      returns (absolute: string)
    requires Holds(relative[..], s)
    requires Canonical(cs) && curPath == Render(cs)
    modifies relative
    ensures s[0] == '/' ==> absolute == s
    ensures s[0] != '/' ==> absolute == Render(Resolve(cs, Tokens(s))) && Canonical(Resolve(cs, Tokens(s)))
    ensures s[0] != '/' && Tokens(s) == ["."] ==> absolute == curPath
    ensures s[0] != '/' && Tokens(s) == [".."] ==> absolute == SplitPwd(curPath)
    ensures s[0] != '/' && |Tokens(s)| == 1 && Proper(Tokens(s)[0]) ==> absolute == Join(curPath, Tokens(s)[0])
  {
    hide Tokens, StartsFrom, PointedAt, Terminated, Trail, Render, LastSlash, Join, SplitPwd, Resolve;
    assert s[0] == relative[..][..|s|][0];
    if relative[0] != '/' {
      var newPath := curPath;
      var argv := StrProcess(relative, s);
      ghost var tokens := Tokens(s);
      for i := 0 to |argv|
        invariant newPath == Render(WalkAll(cs, tokens, i))
        invariant relative[..] == Terminated(s)
      {
        WalkStaysCanonical(cs, tokens, i);
        ghost var stack := WalkAll(cs, tokens, i);
        var arg := PointedAt(relative[..], argv[i]);
        assert arg == tokens[i] && PlainName(arg);
        if arg == "." {
          continue;
        } else if arg == ".." {
          UpOnePops(stack);
          newPath := CutLastComponent(newPath);
        } else {
          AppendPushes(stack, arg);
          if newPath[|newPath| - 1] != '/' {
            newPath := newPath + "/";
          }
          newPath := newPath + arg;
        }
      }
      WalkStaysCanonical(cs, tokens, |tokens|);
      absolute := newPath;
      ResolvedTo(cs, tokens);
    } else {
      absolute := relative[..relative.Length - 1];
    }
  }
}

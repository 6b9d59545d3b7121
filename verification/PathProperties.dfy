/** What normalising a path promises, and when printing and parsing are inverse. */
module PathProperties {
  import opened Paths
  import opened Ustring

  // ---------------------------------------------------------------- normalising

  lemma {:induction false} FoldedHasNoParents(route: seq<string>)
    ensures PARENT_SEGMENT !in Folded(route)
  {
    if route == [] {
    } else {
      FoldedHasNoParents(route[..|route| - 1]);
    }
  }

  /** A route is left as it is exactly when it has no parent segment. */
  lemma {:induction false} FoldedFixed(route: seq<string>)
    ensures Folded(route) == route <==> PARENT_SEGMENT !in route
  {
    FoldedHasNoParents(route);
    if PARENT_SEGMENT !in route && route != [] {
      FoldedFixed(route[..|route| - 1]);
    }
  }

  /** Normalising a front part first makes no difference. */
  lemma {:induction false} FoldedConcat(a: seq<string>, b: seq<string>)
    ensures Folded(a + b) == Folded(Folded(a) + b)
  {
    if b == [] {
      assert a + b == a && Folded(a) + b == Folded(a);
      FoldedHasNoParents(a);
      FoldedFixed(Folded(a));
    } else {
      var init := b[..|b| - 1];
      FoldedConcat(a, init);
      assert (a + b)[..|a + b| - 1] == a + init;
      assert (Folded(a) + b)[..|Folded(a) + b| - 1] == Folded(a) + init;
    }
  }

  /** A parent segment takes the component in front of it away, wherever the two stand. */
  lemma FoldedPops(a: seq<string>, c: string, b: seq<string>)
    requires c != PARENT_SEGMENT
    ensures Folded(a + [c, PARENT_SEGMENT] + b) == Folded(a + b)
  {
    var ac := a + [c];
    assert (a + [c, PARENT_SEGMENT])[..|a| + 1] == ac && ac[..|a|] == a;
    assert Folded(ac) == Folded(a) + [c];
    assert Folded(a + [c, PARENT_SEGMENT]) == Folded(a);
    FoldedConcat(a + [c, PARENT_SEGMENT], b);
    FoldedConcat(a, b);
  }

  /** A parent segment at the front goes nowhere. */
  lemma FoldedAtRoot(b: seq<string>)
    ensures Folded([PARENT_SEGMENT] + b) == Folded(b)
  {
    assert [PARENT_SEGMENT][..0] == [];
    assert Folded([PARENT_SEGMENT]) == [];
    FoldedConcat([PARENT_SEGMENT], b);
    assert [] + b == b;
  }

  /** Both for resolved paths: /a/c/../b is /a/b, and /../b is /b. */
  lemma ResolvedPops(a: seq<string>, c: string, b: seq<string>, cwd: string)
    requires c != PARENT_SEGMENT
    ensures Resolved(PathValue(true, a + [c, PARENT_SEGMENT] + b), cwd) == Resolved(PathValue(true, a + b), cwd)
    ensures Resolved(PathValue(true, [PARENT_SEGMENT] + b), cwd) == Resolved(PathValue(true, b), cwd)
  {
    FoldedPops(a, c, b);
    FoldedAtRoot(b);
  }

  /** getcwd yields an absolute path, or the code works with the empty string. */
  predicate UsableCwd(cwd: string) {
    Parse(cwd).absolute || Parse(cwd) == PathValue(false, [])
  }

  lemma ResolvedHasNoParents(p: PathValue, cwd: string)
    ensures PARENT_SEGMENT !in Resolved(p, cwd).route
  {
    FoldedHasNoParents(Absolute(p, cwd).route);
  }

  lemma ResolvedIdempotent(p: PathValue, cwd: string)
    requires UsableCwd(cwd)
    ensures Resolved(Resolved(p, cwd), cwd) == Resolved(p, cwd)
  {
    var r := Resolved(p, cwd);
    assert Absolute(r, cwd).route == r.route && Absolute(r, cwd).absolute == r.absolute;
    FoldedHasNoParents(Absolute(p, cwd).route);
    FoldedFixed(r.route);
  }

  /** Resolving a prefix first does not change the resolution of the whole path. */
  lemma ResolvedPrefix(a: PathValue, b: PathValue, cwd: string)
    requires UsableCwd(cwd) && !b.absolute
    ensures Resolved(Joined(Resolved(a, cwd), b), cwd) == Resolved(Joined(a, b), cwd)
  {
    var r := Resolved(a, cwd);
    assert Absolute(Joined(r, b), cwd).route == r.route + b.route;
    assert Absolute(Joined(a, b), cwd).route == Absolute(a, cwd).route + b.route by {
      assert Parse(cwd).route + (a.route + b.route) == Parse(cwd).route + a.route + b.route;
    }
    FoldedConcat(Absolute(a, cwd).route, b.route);
  }

  /** The current directory does not matter for an absolute path. */
  lemma ResolvedAbsolute(p: PathValue, cwd: string)
    requires p.absolute && PARENT_SEGMENT !in p.route
    ensures Resolved(p, cwd) == p
  {
    FoldedFixed(p.route);
  }

  lemma {:induction false} JoinConcat(a: seq<string>, b: seq<string>, sep: string)
    requires a != [] && b != []
    ensures Join(a + b, sep) == Join(a, sep) + sep + Join(b, sep)
  {
    if |a| == 1 {
      assert (a + b)[1..] == b;
    } else {
      assert (a + b)[1..] == a[1..] + b;
      JoinConcat(a[1..], b, sep);
      Shuffled(a[0], sep, Join(a[1..], sep), Join(b, sep));
    }
  }

  lemma Shuffled(p: string, sep: string, x: string, y: string)
    ensures p + sep + (x + sep + y) == p + sep + x + sep + y
  {
  }

  /** In the text, a relative path without parent segments is resolved to the current directory, a
      separator, and the path. */
  lemma ResolvedBelow(p: PathValue, q: PathValue)
    requires !p.absolute && p.route != [] && PARENT_SEGMENT !in p.route
    requires q.absolute && q.route != [] && PARENT_SEGMENT !in q.route && Canonical(q)
    ensures Print(Resolved(p, Print(q))) == Print(q) + [PATH_SEP] + Print(p)
  {
    CanonicalReadsBack(q);
    ResolvedRoute(p, q);
    JoinConcat(q.route, p.route, [PATH_SEP]);
    Regrouped([PATH_SEP], Join(q.route, [PATH_SEP]) + [PATH_SEP], Join(p.route, [PATH_SEP]));
    Regrouped([PATH_SEP], Join(q.route, [PATH_SEP]), [PATH_SEP]);
  }

  lemma ResolvedRoute(p: PathValue, q: PathValue)
    requires !p.absolute && PARENT_SEGMENT !in p.route && PARENT_SEGMENT !in q.route && Parse(Print(q)) == q
    ensures Resolved(p, Print(q)) == PathValue(q.absolute, q.route + p.route)
  {
    FoldedFixed(q.route + p.route);
  }

  // ---------------------------------------------------------------- stripping

  function Blanks(n: nat): (s: string)
    ensures |s| == n && forall i :: 0 <= i < n ==> s[i] == ' '
  {
    seq(n, _ => ' ')
  }

  lemma {:induction false} StripLeftBlanks(n: nat, s: string)
    ensures StripLeft(Blanks(n) + s) == StripLeft(s)
  {
    if n == 0 {
      assert Blanks(0) + s == s;
    } else {
      assert (Blanks(n) + s)[1..] == Blanks(n - 1) + s;
      StripLeftBlanks(n - 1, s);
    }
  }

  lemma {:induction false} StripRightBlanks(s: string, n: nat)
    ensures StripRight(s + Blanks(n)) == StripRight(s)
  {
    if n == 0 {
      assert s + Blanks(0) == s;
    } else {
      assert (s + Blanks(n))[..|s| + n - 1] == s + Blanks(n - 1);
      StripRightBlanks(s, n - 1);
    }
  }

  /** Stripping takes exactly the outer blanks away. */
  lemma StripRemovesBlanks(n: nat, s: string, m: nat)
    requires NoOuterBlanks(s)
    ensures Strip(Blanks(n) + s + Blanks(m)) == s
  {
    assert Blanks(n) + s + Blanks(m) == Blanks(n) + (s + Blanks(m));
    StripLeftBlanks(n, s + Blanks(m));
    if s == "" {
      assert s + Blanks(m) == Blanks(m) + "" == Blanks(m);
      StripLeftBlanks(m, "");
    } else {
      StripLeftShorter(s + Blanks(m));
      StripRightBlanks(s, m);
      StripRightShorter(s);
    }
  }

  lemma {:induction false} StripLeftShorter(s: string)
    ensures |StripLeft(s)| <= |s|
    ensures StripLeft(s) == s <==> s == "" || s[0] != ' '
    ensures s != "" && s[0] == ' ' ==> |StripLeft(s)| < |s|
    ensures StripLeft(s) != "" ==> Last(StripLeft(s)) == Last(s)
  {
    if s != "" && s[0] == ' ' {
      StripLeftShorter(s[1..]);
    }
  }

  lemma {:induction false} StripRightShorter(s: string)
    ensures |StripRight(s)| <= |s|
    ensures StripRight(s) == s <==> s == "" || Last(s) != ' '
    ensures s != "" && Last(s) == ' ' ==> |StripRight(s)| < |s|
  {
    if s != "" && Last(s) == ' ' {
      StripRightShorter(s[..|s| - 1]);
    }
  }

  predicate NoOuterBlanks(s: string) {
    s == "" || (s[0] != ' ' && Last(s) != ' ')
  }

  lemma StripExact(s: string)
    ensures Strip(s) == s <==> NoOuterBlanks(s)
    ensures !NoOuterBlanks(s) ==> |Strip(s)| < |s|
  {
    StripLeftShorter(s);
    StripRightShorter(StripLeft(s));
  }

  // ---------------------------------------------------------------- printing and parsing

  predicate GoodComponent(c: string) {
    c != "" && c != CURRENT_SEGMENT && PATH_SEP !in c
  }

  predicate GoodComponents(route: seq<string>) {
    forall i :: 0 <= i < |route| ==> GoodComponent(route[i])
  }

  /** The paths that survive printing: good components, and no blank where it would be stripped. */
  predicate Canonical(p: PathValue) {
    && GoodComponents(p.route)
    && (p.route != [] ==> Last(Last(p.route)) != ' ')
    && (p.route != [] && !p.absolute ==> p.route[0][0] != ' ')
  }

  lemma {:induction false} KeptGood(parts: seq<string>)
    requires NoneContain(parts, PATH_SEP)
    ensures GoodComponents(Kept(parts))
  {
    if parts == [] {
    } else {
      KeptGood(parts[1..]);
    }
  }

  lemma {:induction false} KeptSame(parts: seq<string>)
    requires GoodComponents(parts)
    ensures Kept(parts) == parts
  {
    if parts == [] {
    } else {
      KeptSame(parts[1..]);
      assert parts == [parts[0]] + parts[1..];
    }
  }

  lemma ComponentsGood(s: string)
    ensures GoodComponents(Components(s))
  {
    SplitTokensClean(s, PATH_SEP);
    KeptGood(Split(s, PATH_SEP));
  }

  lemma ComponentsOfToken(token: string)
    requires PATH_SEP !in token
    ensures Components(token) == if token == "" || token == CURRENT_SEGMENT then [] else [token]
  {
    SplitOne(token, PATH_SEP);
    KeptOne(token);
  }

  lemma ComponentsCons(token: string, rest: string)
    requires PATH_SEP !in token
    ensures Components(token + [PATH_SEP] + rest) == Components(token) + Components(rest)
  {
    SplitCons(token, PATH_SEP, rest);
    KeptCons(token, Split(rest, PATH_SEP));
    ComponentsOfToken(token);
  }

  lemma Reassociated(token: string, rest: string, b: string)
    ensures token + [PATH_SEP] + rest + [PATH_SEP] + b == token + [PATH_SEP] + (rest + [PATH_SEP] + b)
  {
  }

  /** A separator anywhere in a path divides it: the components in front of it and those behind. Empty
      and current-directory segments disappear on both sides. */
  lemma {:induction false} ComponentsConcat(a: string, b: string)
    ensures Components(a + [PATH_SEP] + b) == Components(a) + Components(b)
    decreases |a|, 1
  {
    var k := IndexOf(a, PATH_SEP);
    if k == |a| {
      ComponentsCons(a, b);
    } else {
      var token, rest := a[..k], a[k + 1..];
      assert a == token + [PATH_SEP] + rest;
      ComponentsConcatAfter(token, rest, b);
    }
  }

  lemma {:induction false} ComponentsConcatAfter(token: string, rest: string, b: string)
    requires PATH_SEP !in token
    ensures Components(token + [PATH_SEP] + rest + [PATH_SEP] + b)
         == Components(token + [PATH_SEP] + rest) + Components(b)
    decreases |token + [PATH_SEP] + rest|, 0
  {
    Reassociated(token, rest, b);
    ComponentsCons(token, rest + [PATH_SEP] + b);
    ComponentsCons(token, rest);
    ComponentsConcat(rest, b);
    Regrouped(Components(token), Components(rest), Components(b));
  }

  /** Joined good components are split back. */
  lemma ComponentsOfJoin(route: seq<string>)
    requires GoodComponents(route)
    ensures Components(Join(route, [PATH_SEP])) == route
  {
    SplitInvertsJoinIff(route, PATH_SEP);
    KeptSame(route);
  }

  lemma ComponentsOfRooted(s: string)
    ensures Components([PATH_SEP] + s) == Components(s)
  {
    SeparatorStep([PATH_SEP] + s, 0);
    assert ([PATH_SEP] + s)[0..] == [PATH_SEP] + s && ([PATH_SEP] + s)[1..] == s;
  }

  lemma EndsOfThree(a: string, b: string, c: string)
    requires a != "" && c != ""
    ensures a + b + c != "" && (a + b + c)[0] == a[0] && Last(a + b + c) == Last(c)
  {
  }

  predicate NoneEmpty(parts: seq<string>) {
    forall i :: 0 <= i < |parts| ==> parts[i] != ""
  }

  lemma {:induction false} JoinEnds(parts: seq<string>)
    requires NoneEmpty(parts) && parts != []
    ensures var s := Join(parts, [PATH_SEP]);
      s != "" && s[0] == parts[0][0] && Last(s) == Last(Last(parts))
  {
    if |parts| == 1 {
    } else {
      var rest := parts[1..];
      assert Last(rest) == Last(parts);
      JoinEnds(rest);
      EndsOfThree(parts[0], [PATH_SEP], Join(rest, [PATH_SEP]));
    }
  }

  lemma PrintEnds(p: PathValue)
    requires GoodComponents(p.route)
    ensures Print(p) != "" && (Print(p)[0] == PATH_SEP <==> p.absolute)
    ensures NoOuterBlanks(Print(p)) <==> Canonical(p)
  {
    if p.route != [] {
      JoinEnds(p.route);
    }
  }

  lemma ComponentsOfPrint(p: PathValue)
    requires GoodComponents(p.route)
    ensures Components(Print(p)) == p.route
  {
    ComponentsOfJoin(p.route);
    if p.absolute {
      ComponentsOfRooted(Join(p.route, [PATH_SEP]));
    } else if p.route == [] {
      assert IndexOf(CURRENT_SEGMENT, PATH_SEP) == 1;
      KeptOne(CURRENT_SEGMENT);
    }
  }

  lemma CanonicalReadsBack(p: PathValue)
    requires Canonical(p)
    ensures Parse(Print(p)) == p
  {
    PrintEnds(p);
    StripExact(Print(p));
    ComponentsOfPrint(p);
  }

  // The other direction counts characters: what is stripped cannot come back.

  function JoinSize(parts: seq<string>): nat {
    if parts == [] then 0 else if |parts| == 1 then |parts[0]| else |parts[0]| + 1 + JoinSize(parts[1..])
  }

  lemma {:induction false} JoinSizeIsLength(parts: seq<string>)
    ensures |Join(parts, [PATH_SEP])| == JoinSize(parts)
  {
    if |parts| <= 1 {
    } else {
      JoinSizeIsLength(parts[1..]);
    }
  }

  lemma JoinSizeCons(part: string, rest: seq<string>)
    ensures JoinSize([part] + rest) <= |part| + 1 + JoinSize(rest)
  {
    assert ([part] + rest)[1..] == rest;
  }

  lemma FirstComponent(s: string, k: nat)
    requires k == IndexOf(s, PATH_SEP) < |s|
    ensures Components(s)
         == (if s[..k] == "" || s[..k] == CURRENT_SEGMENT then [] else [s[..k]]) + Components(s[k + 1..])
  {
    SeparatorStep(s, k);
    assert s[0..] == s;
    if k > 0 {
      ComponentsStep(s, 0, k);
    }
  }

  lemma {:induction false} ComponentsSize(s: string)
    ensures JoinSize(Components(s)) <= |s|
    decreases |s|
  {
    var k := IndexOf(s, PATH_SEP);
    if s != "" && k == |s| {
      KeptOne(s);
    } else if s != "" {
      FirstComponent(s, k);
      ComponentsSize(s[k + 1..]);
      JoinSizeCons(s[..k], Components(s[k + 1..]));
      assert [] + Components(s[k + 1..]) == Components(s[k + 1..]);
    }
  }

  lemma RootedComponentsSize(s: string)
    requires s != "" && s[0] == PATH_SEP
    ensures JoinSize(Components(s)) + 1 <= |s|
  {
    assert s == [PATH_SEP] + s[1..];
    ComponentsOfRooted(s[1..]);
    ComponentsSize(s[1..]);
  }

  /** A path that is read back was not shortened by stripping. */
  lemma ReadBackIsStripped(p: PathValue)
    requires Parse(Print(p)) == p
    ensures NoOuterBlanks(Print(p))
  {
    var s, t := Print(p), Strip(Print(p));
    StripExact(s);
    JoinSizeIsLength(p.route);
    if p.absolute {
      RootedComponentsSize(t);
    } else {
      ComponentsSize(t);
    }
  }

  /** Parsing a printed path gives the path back if and only if it is canonical. */
  lemma RoundTripExactly(p: PathValue)
    ensures Parse(Print(p)) == p <==> Canonical(p)
  {
    if Canonical(p) {
      CanonicalReadsBack(p);
    }
    if Parse(Print(p)) == p {
      ComponentsGood(Strip(Print(p)));
      ReadBackIsStripped(p);
      PrintEnds(p);
    }
  }

  /** Not every parsed path is canonical: a dropped segment may uncover a blank. */
  lemma ParsedMayLoseBlank()
    ensures Parse("./ a") == PathValue(false, [" a"]) && !Canonical(Parse("./ a"))
  {
    StripExact("./ a");
    assert IndexOf("./ a", PATH_SEP) == 1 && "./ a"[2..] == " a" && "./ a"[..1] == ".";
    assert IndexOf(" a", PATH_SEP) == 2;
    assert Split(" a", PATH_SEP) == [" a"];
    assert Split("./ a", PATH_SEP) == [".", " a"];
    KeptOne(" a");
    assert [".", " a"][1..] == [" a"];
  }
}

/** File paths as lists of components: parsing, printing, joining and normalising. */
module Paths {
  import opened Ustring

  const PATH_SEP: char := '/'
  const CURRENT_SEGMENT: string := "."
  const PARENT_SEGMENT: string := ".."

  datatype PathValue = PathValue(absolute: bool, route: seq<string>)

  // ---------------------------------------------------------------- specification functions

  /** The components of a split path: neither empty nor the current directory. */
  function Kept(parts: seq<string>): seq<string> {
    if parts == [] then []
    else (if parts[0] == "" || parts[0] == CURRENT_SEGMENT then [] else [parts[0]]) + Kept(parts[1..])
  }

  function Components(s: string): seq<string> {
    Kept(Split(s, PATH_SEP))
  }

  function ParseStripped(s: string): PathValue {
    PathValue(s != "" && s[0] == PATH_SEP, Components(s))
  }

  function Parse(path: string): PathValue {
    ParseStripped(Strip(path))
  }

  function Print(p: PathValue): string {
    if p.absolute then [PATH_SEP] + Join(p.route, [PATH_SEP])
    else if p.route == [] then CURRENT_SEGMENT
    else Join(p.route, [PATH_SEP])
  }

  /** operator/ */
  function Joined(p: PathValue, q: PathValue): PathValue {
    if q.absolute then q else p.(route := p.route + q.route)
  }

  /** cwd is the current directory, or empty when it cannot be found. */
  function Absolute(p: PathValue, cwd: string): PathValue {
    Joined(Parse(cwd), p)
  }

  /** The components as a stack: a parent segment pops, if there is something to pop. */
  function Folded(route: seq<string>): seq<string> {
    if route == [] then []
    else
      var stack, c := Folded(route[..|route| - 1]), route[|route| - 1];
      if c != PARENT_SEGMENT then stack + [c]
      else if stack != [] then stack[..|stack| - 1]
      else []
  }

  function Resolved(p: PathValue, cwd: string): PathValue {
    var q := Absolute(p, cwd);
    q.(route := Folded(q.route))
  }

  // ---------------------------------------------------------------- the class

  lemma KeptCons(part: string, rest: seq<string>)
    ensures Kept([part] + rest) == (if part == "" || part == CURRENT_SEGMENT then [] else [part]) + Kept(rest)
  {
    assert ([part] + rest)[1..] == rest;
  }

  lemma KeptOne(part: string)
    ensures Kept([part]) == if part == "" || part == CURRENT_SEGMENT then [] else [part]
  {
    KeptCons(part, []);
    assert [part] + [] == [part];
  }

  /** The token up to the next separator, and what follows that separator. */
  lemma ComponentsToken(s: string, i: nat, end: nat)
    requires i < |s| && i <= end <= |s|
    requires (forall k :: i <= k < end ==> s[k] != PATH_SEP) && (end < |s| ==> s[end] == PATH_SEP)
    ensures Components(s[i..])
         == (if s[i..end] == "" || s[i..end] == CURRENT_SEGMENT then [] else [s[i..end]]) + Components(s[After(s, end)..])
  {
    SplitStep(s, PATH_SEP, i, end);
    KeptCons(s[i..end], Split(s[After(s, end)..], PATH_SEP));
  }

  lemma SeparatorStep(s: string, i: nat)
    requires i < |s| && s[i] == PATH_SEP
    ensures Components(s[i..]) == Components(s[i + 1..])
  {
    ComponentsToken(s, i, i);
    assert s[i..i] == "";
  }

  /** A separator at i, or a component from i to j. */
  lemma ComponentsStep(s: string, i: nat, j: nat)
    requires i < j <= |s|
    requires (s[i] == PATH_SEP && j == i + 1)
          || ((forall k :: i <= k < j ==> s[k] != PATH_SEP) && (j < |s| ==> s[j] == PATH_SEP))
    ensures Components(s[i..])
         == (if s[i] == PATH_SEP || s[i..j] == CURRENT_SEGMENT then [] else [s[i..j]]) + Components(s[j..])
  {
    if s[i] == PATH_SEP {
      SeparatorStep(s, i);
    } else {
      ComponentsToken(s, i, j);
      if j < |s| {
        SeparatorStep(s, j);
      }
    }
  }

  class Path {
    var absolute: bool
    var route: seq<string>

    ghost function Value(): PathValue
      reads this
    {
      PathValue(absolute, route)
    }

    constructor (path: string)
      ensures Value() == Parse(path)
    {
      absolute, route := false, [];
      new;
      Fill(Strip(path));
    }

    method Fill(s: string)
      requires !absolute && route == []
      modifies this
      ensures Value() == ParseStripped(s)
    {
      if s == "" {
        return;
      }
      if s[0] == PATH_SEP {
        absolute := true;
      }
      route := ParseComponents(s);
    }

    static method ParseComponents(s: string) returns (route: seq<string>)
      ensures route == Components(s)
    {
      route := [];
      var i, j := 0, 0;
      assert s[0..] == s;
      while i < |s|
        invariant 0 <= i <= |s| && Components(s) == route + Components(s[i..])
      {
        j := ComponentEnd(s, i);
        ComponentsStep(s, i, j);
        if s[i] != PATH_SEP && s[i..j] != CURRENT_SEGMENT {
          Shifted(route, s[i..j], Components(s[j..]));
          route := route + [s[i..j]];
        }
        i := j;
      }
    }

    /** Behind the separator at i, or behind the component that starts there. */
    static method ComponentEnd(s: string, i: nat) returns (j: nat)
      requires i < |s|
      ensures i < j <= |s|
      ensures (s[i] == PATH_SEP && j == i + 1)
           || ((forall k :: i <= k < j ==> s[k] != PATH_SEP) && (j < |s| ==> s[j] == PATH_SEP))
    {
      j := i + 1;
      if s[i] == PATH_SEP {
        return;
      }
      while j < |s| && s[j] != PATH_SEP
        invariant i < j <= |s| && forall k :: i <= k < j ==> s[k] != PATH_SEP
      {
        j := j + 1;
      }
    }

    constructor Copy(absolute: bool, route: seq<string>)
      ensures Value() == PathValue(absolute, route)
    {
      this.absolute, this.route := absolute, route;
    }

    method ToString() returns (raw: string)
      ensures raw == Print(Value())
    {
      raw := "";
      if absolute {
        raw := [PATH_SEP];
      } else if route == [] {
        return CURRENT_SEGMENT;
      }
      var joined := JoinStrings(route, [PATH_SEP]);
      raw := raw + joined;
    }

    /** operator/ on an expiring left-hand side. */
    method Append(rhs: Path)
      requires rhs != this
      modifies this
      ensures Value() == Joined(old(Value()), rhs.Value())
    {
      if rhs.absolute {
        absolute, route := true, rhs.route;
        return;
      }
      var i := 0;
      while i < |rhs.route|
        invariant 0 <= i <= |rhs.route| && absolute == old(absolute)
        invariant route == old(route) + rhs.route[..i]
      {
        route := route + [rhs.route[i]];
        i := i + 1;
      }
    }

    method Resolve(cwd: string) returns (path: Path)
      ensures fresh(path) && path.Value() == Resolved(Value(), cwd)
    {
      path := new Path(cwd);
      path.Append(this);
      path.Compact();
    }

    /** One pass with a fast reading and a slow writing position in the same list. */
    method Compact()
      modifies this`route
      ensures route == Folded(old(route))
    {
      var fast, slow := 0, 0;
      while fast < |route|
        invariant 0 <= slow <= fast <= |route| == |old(route)|
        invariant route[..slow] == Folded(old(route)[..fast])
        invariant forall k :: fast <= k < |route| ==> route[k] == old(route)[k]
      {
        assert old(route)[..fast + 1][..fast] == old(route)[..fast];
        ghost var stack := route[..slow];
        if route[fast] != PARENT_SEGMENT {
          route := route[slow := route[fast]];
          slow := slow + 1;
          assert route[..slow] == stack + [route[slow - 1]];
        } else if slow > 0 {
          slow := slow - 1;
          assert route[..slow] == stack[..slow];
        }
        fast := fast + 1;
      }
      assert old(route)[..fast] == old(route);
      route := route[..slow];
    }
  }
}

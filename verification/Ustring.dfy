/** String helpers, over any element type so that they serve both texts and raw bytes. */
module Ustring {

  function Last<T>(s: seq<T>): T
    requires s != []
  {
    s[|s| - 1]
  }

  /** Position of the first c in s, or |s| when there is none. */
  function IndexOf<T(==)>(s: seq<T>, c: T): (k: nat)
    ensures k <= |s| && (forall i :: 0 <= i < k ==> s[i] != c)
    ensures k < |s| ==> s[k] == c
  {
    if s == [] || s[0] == c then 0 else 1 + IndexOf(s[1..], c)
  }

  /** The tokens that repeated getline calls deliver. */
  function Split<T(==)>(s: seq<T>, c: T): seq<seq<T>> {
    if s == [] then []
    else
      var k := IndexOf(s, c);
      if k == |s| then [s] else [s[..k]] + Split(s[k + 1..], c)
  }

  function Join<T>(parts: seq<seq<T>>, sep: seq<T>): seq<T> {
    if parts == [] then []
    else if |parts| == 1 then parts[0]
    else parts[0] + sep + Join(parts[1..], sep)
  }

  lemma {:induction false} JoinSnoc<T>(parts: seq<seq<T>>, sep: seq<T>, p: seq<T>)
    requires parts != []
    ensures Join(parts + [p], sep) == Join(parts, sep) + sep + p
  {
    if |parts| == 1 {
      assert (parts + [p])[1..] == [p];
    } else {
      JoinSnoc(parts[1..], sep, p);
      assert (parts + [p])[1..] == parts[1..] + [p];
    }
  }

  lemma SplitCons<T>(p: seq<T>, c: T, rest: seq<T>)
    requires c !in p
    ensures Split(p + [c] + rest, c) == [p] + Split(rest, c)
  {
    var s := p + [c] + rest;
    assert IndexOf(s, c) == |p| by {
      assert s[|p|] == c && forall i :: 0 <= i < |p| ==> s[i] == p[i];
    }
    assert s[..|p|] == p && s[|p| + 1..] == rest;
  }

  predicate NoneContain<T(==)>(parts: seq<seq<T>>, c: T) {
    forall i :: 0 <= i < |parts| ==> c !in parts[i]
  }

  /** A list without its last token when that token is empty. */
  function WithoutTrailingEmpty<T(==)>(parts: seq<seq<T>>): seq<seq<T>> {
    if parts != [] && Last(parts) == [] then parts[..|parts| - 1] else parts
  }

  lemma SplitOne<T>(p: seq<T>, c: T)
    requires c !in p
    ensures Split(p, c) == if p == [] then [] else [p]
  {
    if p != [] {
      assert IndexOf(p, c) == |p|;
    }
  }

  /** Splitting a joined list loses a trailing empty token and nothing else. */
  lemma {:induction false} SplitOfJoin<T>(parts: seq<seq<T>>, c: T)
    requires NoneContain(parts, c)
    ensures Split(Join(parts, [c]), c) == WithoutTrailingEmpty(parts)
  {
    if |parts| == 1 {
      SplitOne(parts[0], c);
    } else if |parts| > 1 {
      var rest := parts[1..];
      SplitCons(parts[0], c, Join(rest, [c]));
      SplitOfJoin(rest, c);
      TrailingOfRest(parts);
    }
  }

  lemma TrailingOfRest<T>(parts: seq<seq<T>>)
    requires |parts| > 1
    ensures [parts[0]] + WithoutTrailingEmpty(parts[1..]) == WithoutTrailingEmpty(parts)
  {
  }

  /** SplitString inverts Join exactly on the lists that do not end in an empty token. */
  lemma SplitInvertsJoinIff<T>(parts: seq<seq<T>>, c: T)
    requires NoneContain(parts, c)
    ensures Split(Join(parts, [c]), c) == parts <==> parts == [] || Last(parts) != []
  {
    SplitOfJoin(parts, c);
  }

  /** No token holds the separator. */
  lemma {:induction false} SplitTokensClean<T>(s: seq<T>, c: T)
    ensures NoneContain(Split(s, c), c)
    decreases |s|
  {
    if s == [] {
    } else {
      var k := IndexOf(s, c);
      if k < |s| {
        SplitTokensClean(s[k + 1..], c);
      }
    }
  }

  method JoinStrings<T>(parts: seq<seq<T>>, sep: seq<T>) returns (ret: seq<T>)
    ensures ret == Join(parts, sep)
  {
    ret := [];
    if parts == [] {
      return;
    }
    ret := parts[0];
    var i := 1;
    assert parts[..1] == [parts[0]];
    while i < |parts|
      invariant 1 <= i <= |parts|
      invariant ret == Join(parts[..i], sep)
    {
      JoinSnoc(parts[..i], sep, parts[i]);
      assert parts[..i + 1] == parts[..i] + [parts[i]];
      ret := ret + sep;
      ret := ret + parts[i];
      i := i + 1;
    }
    assert parts[..i] == parts;
  }

  /** Where the next getline starts when this one stopped at end. */
  function After<T>(s: seq<T>, end: nat): (next: nat)
    requires end <= |s|
    ensures end <= next <= |s|
  {
    if end < |s| then end + 1 else end
  }

  lemma CutAt<T>(s: seq<T>, pos: nat, end: nat)
    requires pos <= end < |s|
    ensures s[pos..] == s[pos..end] + [s[end]] + s[end + 1..]
  {
  }

  lemma SplitStep<T>(s: seq<T>, c: T, pos: nat, end: nat)
    requires pos < |s| && pos <= end <= |s|
    requires forall i :: pos <= i < end ==> s[i] != c
    requires end < |s| ==> s[end] == c
    ensures Split(s[pos..], c) == [s[pos..end]] + Split(s[After(s, end)..], c)
  {
    if end < |s| {
      CutAt(s, pos, end);
      SplitCons(s[pos..end], c, s[end + 1..]);
    } else {
      assert s[pos..] == s[pos..end] && s[end..] == [];
      SplitOne(s[pos..end], c);
    }
  }

  lemma Shifted<T>(res: seq<T>, token: T, rest: seq<T>)
    ensures res + ([token] + rest) == res + [token] + rest
  {
  }

  /** Each round of the outer loop is one successful getline. */
  method SplitString<T(==)>(s: seq<T>, c: T) returns (res: seq<seq<T>>)
    ensures res == Split(s, c)
  {
    res := [];
    var pos := 0;
    assert s[0..] == s;
    while pos < |s|
      invariant 0 <= pos <= |s|
      invariant Split(s, c) == res + Split(s[pos..], c)
    {
      var end := NextSeparator(s, c, pos);
      SplitStep(s, c, pos, end);
      Shifted(res, s[pos..end], Split(s[After(s, end)..], c));
      res := res + [s[pos..end]];
      pos := After(s, end);
    }
  }

  method NextSeparator<T(==)>(s: seq<T>, c: T, pos: nat) returns (end: nat)
    requires pos <= |s|
    ensures pos <= end <= |s| && (forall i :: pos <= i < end ==> s[i] != c)
    ensures end < |s| ==> s[end] == c
  {
    end := pos;
    while end < |s| && s[end] != c
      invariant pos <= end <= |s|
      invariant forall i :: pos <= i < end ==> s[i] != c
    {
      end := end + 1;
    }
  }

  // ---------------------------------------------------------------- concatenation

  lemma Regrouped<T>(a: seq<T>, b: seq<T>, c: seq<T>)
    ensures a + (b + c) == a + b + c
  {
  }

  function Concat<T>(chunks: seq<seq<T>>): seq<T> {
    if chunks == [] then [] else Concat(chunks[..|chunks| - 1]) + chunks[|chunks| - 1]
  }

  lemma ConcatSnoc<T>(chunks: seq<seq<T>>, c: seq<T>)
    ensures Concat(chunks + [c]) == Concat(chunks) + c
  {
    assert (chunks + [c])[..|chunks|] == chunks;
  }

  lemma {:induction false} ConcatParts<T>(a: seq<seq<T>>, b: seq<seq<T>>)
    ensures Concat(a + b) == Concat(a) + Concat(b)
  {
    if b == [] {
      assert a + b == a;
    } else {
      var init, last := b[..|b| - 1], b[|b| - 1];
      calc {
        Concat(a + b);
        { assert a + b == a + init + [last]; }
        Concat(a + init + [last]);
        { ConcatSnoc(a + init, last); }
        Concat(a + init) + last;
        { ConcatParts(a, init); }
        Concat(a) + Concat(init) + last;
        Concat(a) + Concat(b);
      }
    }
  }

  lemma ConcatAt<T>(chunks: seq<seq<T>>, c: nat)
    requires c <= |chunks|
    ensures Concat(chunks) == Concat(chunks[..c]) + Concat(chunks[c..])
  {
    assert chunks[..c] + chunks[c..] == chunks;
    ConcatParts(chunks[..c], chunks[c..]);
  }

  /** Every chunk is a beginning of its whole. */
  predicate CutShort<T(==)>(chunks: seq<seq<T>>, wholes: seq<seq<T>>) {
    |chunks| == |wholes| && forall i :: 0 <= i < |chunks| ==> chunks[i] <= wholes[i]
  }

  lemma {:induction false} CutShortSize<T>(chunks: seq<seq<T>>, wholes: seq<seq<T>>)
    requires CutShort(chunks, wholes)
    ensures |Concat(chunks)| <= |Concat(wholes)|
    ensures |Concat(chunks)| == |Concat(wholes)| <==> chunks == wholes
  {
    if chunks == [] {
    } else {
      var n := |chunks| - 1;
      CutShortSize(chunks[..n], wholes[..n]);
      if chunks[n] == wholes[n] && chunks[..n] == wholes[..n] {
        assert chunks == chunks[..n] + [chunks[n]] == wholes;
      }
    }
  }

  // ---------------------------------------------------------------- blanks

  /** Leading blanks removed, then trailing blanks. */
  function StripLeft(s: string): string {
    if s != [] && s[0] == ' ' then StripLeft(s[1..]) else s
  }

  function StripRight(s: string): string {
    if s != [] && Last(s) == ' ' then StripRight(s[..|s| - 1]) else s
  }

  function Strip(s: string): string {
    StripRight(StripLeft(s))
  }
}

/** Absolute path names: splitting, printing and the laws that connect the two. */
module PathNames {
  import opened Core

  /** A component that a path may contain. */
  predicate ValidName(t: string) {
    t != "" && t != "." && t != ".." && '/' !in t
  }

  /** Number of characters before the first slash (all of them when there is none). */
  function SegmentLength(s: string): (n: nat)
    ensures n <= |s|
    ensures '/' !in s[..n]
    ensures n < |s| ==> s[n] == '/'
  {
    if s == "" || s[0] == '/' then 0 else
      assert s[..1 + SegmentLength(s[1..])] == [s[0]] + s[1..][..SegmentLength(s[1..])];
      1 + SegmentLength(s[1..])
  }

  /** The maximal non-empty slash-free segments of a string, in order. */
  function Tokens(s: string): (ts: seq<string>)
    decreases |s|
  {
    if s == "" then []
    else if s[0] == '/' then Tokens(s[1..])
    else [s[..SegmentLength(s)]] + Tokens(s[SegmentLength(s)..])
  }

  /** What splitting a path means: absolute, and no component is "." or "..". */
  function Split(path: string): (r: Result<seq<string>>) {
    if path == "" || path[0] != '/' then Failure(InvalidArgument)
    else if forall i | 0 <= i < |Tokens(path)| :: ValidName(Tokens(path)[i]) then Success(Tokens(path))
    else Failure(InvalidArgument)
  }

  /** The printed form of a list of components. */
  function Print(ts: seq<string>): (p: string)
    ensures p != "" && p[0] == '/'
  {
    if |ts| == 0 then "/"
    else if |ts| == 1 then "/" + ts[0]
    else "/" + ts[0] + Print(ts[1..])
  }

  lemma SkipSlash(path: string, start: nat)
    requires start < |path| && path[start] == '/'
    ensures Tokens(path[start..]) == Tokens(path[start + 1..])
  {
    assert path[start..][1..] == path[start + 1..];
  }

  lemma NoTokens(path: string)
    ensures Tokens(path[|path|..]) == [] && Tokens("") == []
  {
  }

  lemma TakeSegment(path: string, start: nat, n: nat)
    requires start < |path| && path[start] != '/' && n == SegmentLength(path[start..])
    ensures start + n <= |path| && (start + n < |path| ==> path[start + n] == '/')
    ensures Tokens(path[start..]) == [path[start..start + n]] + Tokens(path[start + n..])
  {
    assert path[start..][..n] == path[start..start + n];
    assert path[start..][n..] == path[start + n..];
  }

  /** The scanning loop computes `Split`. */
  method SplitPath(path: string) returns (r: Result<seq<string>>)
    ensures r == Split(path)
  {
    if path == "" || path[0] != '/' {
      return Failure(InvalidArgument);
    }
    var tokens := Scan(path);
    TokensAreSegments(path);
    for i := 0 to |tokens|
      invariant forall j | 0 <= j < i :: ValidName(tokens[j])
    {
      if tokens[i] == "" || tokens[i] == "." || tokens[i] == ".." {
        return Failure(InvalidArgument);
      }
    }
    return Success(tokens);
  }

  method Scan(path: string) returns (tokens: seq<string>)
    requires path != "" && path[0] == '/'
    ensures tokens == Tokens(path)
  {
    hide Tokens, SegmentLength;
    tokens := [];
    var start := 1;
    SkipSlash(path, 0);
    NoTokens(path);
    assert path[0..] == path;
    while start < |path|
      invariant 1 <= start <= |path|
      invariant tokens + Tokens(path[start..]) == Tokens(path)
    {
      while start < |path| && path[start] == '/'
        invariant 1 <= start <= |path|
        invariant tokens + Tokens(path[start..]) == Tokens(path)
      {
        SkipSlash(path, start);
        start := start + 1;
      }
      if start >= |path| {
        break;
      }
      var n := SegmentLength(path[start..]);
      TakeSegment(path, start, n);
      tokens := tokens + [path[start..start + n]];
      if start + n == |path| {
        start := start + n;
        break;
      }
      SkipSlash(path, start + n);
      start := start + n + 1;
    }
  }

  /** Every token is non-empty and slash-free. */
  lemma {:induction false} TokensAreSegments(s: string)
    ensures forall i | 0 <= i < |Tokens(s)| :: Tokens(s)[i] != "" && '/' !in Tokens(s)[i]
    decreases |s|
  {
    if s != "" {
      if s[0] == '/' {
        TokensAreSegments(s[1..]);
      } else {
        TokensAreSegments(s[SegmentLength(s)..]);
      }
    }
  }

  lemma {:induction false} SegmentOfConcat(a: string, b: string)
    ensures SegmentLength(a + "/" + b) == SegmentLength(a)
  {
    var w := a + "/" + b;
    if a == "" {
      assert w[0] == '/';
    } else {
      assert w[0] == a[0];
      assert w[1..] == a[1..] + "/" + b;
      SegmentOfConcat(a[1..], b);
    }
  }

  /** A slash separates: tokens of a joined path are the tokens of its halves. */
  lemma {:induction false} TokensConcat(a: string, b: string)
    ensures Tokens(a + "/" + b) == Tokens(a) + Tokens(b)
    decreases |a|
  {
    var w := a + "/" + b;
    if a == "" {
      assert w[1..] == b;
    } else {
      assert w[0] == a[0];
      if a[0] == '/' {
        assert w[1..] == a[1..] + "/" + b;
        TokensConcat(a[1..], b);
      } else {
        SegmentOfConcat(a, b);
        var n := SegmentLength(a);
        assert w[..n] == a[..n];
        assert w[n..] == a[n..] + "/" + b;
        TokensConcat(a[n..], b);
      }
    }
  }

  lemma TokensOfName(t: string)
    requires t != "" && '/' !in t
    ensures Tokens(t) == [t]
  {
    var n := SegmentLength(t);
    assert t[..n] == t && t[n..] == "";
    assert t[0] in t;
  }

  lemma {:induction false} TokensOfPrint(ts: seq<string>)
    requires forall i | 0 <= i < |ts| :: ValidName(ts[i])
    ensures Tokens(Print(ts)) == ts
  {
    hide Tokens;
    NoTokens("");
    TokensConcat("", Print(ts)[1..]);
    assert "" + "/" + Print(ts)[1..] == Print(ts);
    if |ts| == 0 {
      assert Print(ts)[1..] == "";
    } else if |ts| == 1 {
      assert Print(ts)[1..] == ts[0];
      TokensOfName(ts[0]);
    } else {
      var rest := Print(ts[1..]);
      assert "" + "/" + rest[1..] == rest;
      assert Print(ts)[1..] == ts[0] + "/" + rest[1..];
      TokensConcat("", rest[1..]);
      TokensConcat(ts[0], rest[1..]);
      TokensOfName(ts[0]);
      TokensOfPrint(ts[1..]);
      assert [ts[0]] + ts[1..] == ts;
    }
  }

  /** Splitting undoes printing. */
  lemma SplitUndoesPrint(ts: seq<string>)
    requires forall i | 0 <= i < |ts| :: ValidName(ts[i])
    ensures Split(Print(ts)) == Success(ts)
  {
    TokensOfPrint(ts);
  }

  /** Every accepted path means the same as the printed form of its components. */
  lemma SplitIsCanonical(path: string)
    requires Split(path).Success?
    ensures Split(Print(Split(path).value)) == Split(path)
    ensures forall i | 0 <= i < |Split(path).value| :: ValidName(Split(path).value[i])
  {
    SplitUndoesPrint(Split(path).value);
  }

  /** Doubling a slash or adding one at the end never changes what a path means. */
  lemma ExtraSlashesDoNotMatter(a: string, b: string)
    ensures Split(a + "//" + b) == Split(a + "/" + b)
    ensures a != "" ==> Split(a + "/") == Split(a)
  {
    TokensConcat(a, b);
    TokensConcat(a + "/", b);
    TokensConcat(a, "");
    assert a + "/" + "/" + b == a + "//" + b;
    assert a + "/" + "" == a + "/";
    assert Tokens(a + "/") == Tokens(a);
    assert (a + "//" + b)[0] == (a + "/" + b)[0];
  }
}

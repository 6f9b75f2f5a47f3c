/** The parts of .NET string semantics the service relies on: `char.IsWhiteSpace`,
    `string.IsNullOrWhiteSpace` and `string.Trim()`. */
module Text {

  /** The characters `char.IsWhiteSpace` accepts: the space separators (U+0020,
      U+00A0, U+1680, U+2000 to U+200A, U+202F, U+205F, U+3000), the line and
      paragraph separators (U+2028, U+2029), and the control characters U+0009 to
      U+000D and U+0085. */
  predicate IsWhiteSpace(c: char) {
    || ('\t' <= c <= '\r') || c == ' ' || c == '\U{0085}' || c == '\U{00A0}' || c == '\U{1680}'
    || ('\U{2000}' <= c <= '\U{200A}') || c == '\U{2028}' || c == '\U{2029}'
    || c == '\U{202F}' || c == '\U{205F}' || c == '\U{3000}'
  }

  /** Every character of `s` is white space (true of the empty string). */
  predicate AllWhiteSpace(s: string) {
    forall i :: 0 <= i < |s| ==> IsWhiteSpace(s[i])
  }

  /** `string.IsNullOrWhiteSpace` on a non-null string. */
  predicate IsBlank(s: string) {
    AllWhiteSpace(s)
  }

  /** `TrimStart()`: drops the leading white space and nothing else. */
  function TrimStart(s: string): (r: string)
    ensures |r| <= |s| && r == s[|s| - |r|..]
    ensures AllWhiteSpace(s[..|s| - |r|])
    ensures r == [] || !IsWhiteSpace(r[0])
  {
    if s != [] && IsWhiteSpace(s[0]) then
      var r := TrimStart(s[1..]);
      WhitePrefixGrows(s, r);
      r
    else s
  }

  /** `TrimEnd()`: drops the trailing white space and nothing else. */
  function TrimEnd(s: string): (r: string)
    ensures |r| <= |s| && r == s[..|r|]
    ensures AllWhiteSpace(s[|r|..])
    ensures r == [] || !IsWhiteSpace(r[|r| - 1])
  {
    if s != [] && IsWhiteSpace(s[|s| - 1]) then
      var r := TrimEnd(s[..|s| - 1]);
      WhiteSuffixGrows(s, r);
      r
    else s
  }

  /** A white first character extends a white prefix of the rest by one. */
  lemma WhitePrefixGrows(s: string, r: string)
    requires s != [] && IsWhiteSpace(s[0]) && |r| <= |s[1..]|
    requires AllWhiteSpace(s[1..][..|s[1..]| - |r|])
    ensures AllWhiteSpace(s[..|s| - |r|])
  {
    assert s[..|s| - |r|] == [s[0]] + s[1..][..|s[1..]| - |r|];
    AllWhiteSpaceAppend([s[0]], s[1..][..|s[1..]| - |r|]);
  }

  /** A white last character extends a white suffix of the rest by one. */
  lemma WhiteSuffixGrows(s: string, r: string)
    requires s != [] && IsWhiteSpace(s[|s| - 1]) && |r| <= |s[..|s| - 1]|
    requires AllWhiteSpace(s[..|s| - 1][|r|..])
    ensures AllWhiteSpace(s[|r|..])
  {
    assert s[|r|..] == s[..|s| - 1][|r|..] + [s[|s| - 1]];
    AllWhiteSpaceAppend(s[..|s| - 1][|r|..], [s[|s| - 1]]);
  }

  /** `Trim()`: drops white space at both ends. */
  function Trim(s: string): (r: string)
    ensures r == [] || (!IsWhiteSpace(r[0]) && !IsWhiteSpace(r[|r| - 1]))
  {
    TrimEnd(TrimStart(s))
  }

  /** What `Trim` returns is the one infix of `s` whose surroundings are white space
      and whose ends are not: any `s == pre + r + post` with white `pre` and `post` and
      with `r` neither starting nor ending in white space has `Trim(s) == r`. */
  lemma {:induction false} TrimUnique(pre: string, r: string, post: string)
    requires AllWhiteSpace(pre) && AllWhiteSpace(post)
    requires r == [] || (!IsWhiteSpace(r[0]) && !IsWhiteSpace(r[|r| - 1]))
    ensures Trim(pre + r + post) == r
  {
    if r == [] {
      assert AllWhiteSpace(pre + r + post);
    } else {
      assert pre + r + post == pre + (r + post);
      TrimStartUnique(pre, r + post);
      TrimEndUnique(r, post);
    }
  }

  lemma {:induction false} TrimStartUnique(pre: string, rest: string)
    requires AllWhiteSpace(pre)
    requires rest == [] || !IsWhiteSpace(rest[0])
    ensures TrimStart(pre + rest) == rest
  {
    if pre == [] {
      assert pre + rest == rest;
    } else {
      assert (pre + rest)[1..] == pre[1..] + rest;
      TrimStartUnique(pre[1..], rest);
    }
  }

  lemma {:induction false} TrimEndUnique(rest: string, post: string)
    requires AllWhiteSpace(post)
    requires rest == [] || !IsWhiteSpace(rest[|rest| - 1])
    ensures TrimEnd(rest + post) == rest
  {
    if post == [] {
      assert rest + post == rest;
    } else {
      assert (rest + post)[..|rest + post| - 1] == rest + post[..|post| - 1];
      TrimEndUnique(rest, post[..|post| - 1]);
    }
  }

  /** `Trim` splits its argument into white space, the result, and white space. */
  lemma TrimSplit(s: string) returns (pre: string, post: string)
    ensures s == pre + Trim(s) + post
    ensures AllWhiteSpace(pre) && AllWhiteSpace(post)
  {
    var t0;
    pre, t0 := TrimStartSplit(s);
    post := TrimEndSplit(t0);
    Associative(pre, Trim(s), post);
  }

  lemma TrimStartSplit(s: string) returns (pre: string, rest: string)
    ensures rest == TrimStart(s) && s == pre + rest && AllWhiteSpace(pre)
  {
    rest := TrimStart(s);
    pre := s[..|s| - |rest|];
  }

  lemma TrimEndSplit(s: string) returns (post: string)
    ensures s == TrimEnd(s) + post && AllWhiteSpace(post)
  {
    post := s[|TrimEnd(s)|..];
  }

  lemma Associative(a: string, b: string, c: string)
    ensures a + (b + c) == (a + b) + c
  {
  }

  /** White space appended to a string does not change its trimmed form. */
  lemma TrimIgnoresTrailingWhiteSpace(s: string, w: string)
    requires AllWhiteSpace(w)
    ensures Trim(s + w) == Trim(s)
  {
    var pre, post := TrimSplit(s);
    var r := Trim(s);
    AllWhiteSpaceAppend(post, w);
    Associative(pre + r, post, w);
    TrimUnique(pre, r, post + w);
  }

  lemma AllWhiteSpaceAppend(a: string, b: string)
    requires AllWhiteSpace(a) && AllWhiteSpace(b)
    ensures AllWhiteSpace(a + b)
  {
    forall i | 0 <= i < |a + b| ensures IsWhiteSpace((a + b)[i]) {
      if i < |a| { assert (a + b)[i] == a[i]; } else { assert (a + b)[i] == b[i - |a|]; }
    }
  }
}

/** The text operations of the standard library that the models share. */
module Text {

  /** The characters `str::trim` removes: Unicode White_Space. */
  predicate IsWhitespace(c: char) {
    var u := c as int;
    || 0x09 <= u <= 0x0D || u == 0x20 || u == 0x85 || u == 0xA0 || u == 0x1680 || 0x2000 <= u <= 0x200A
    || u == 0x2028 || u == 0x2029 || u == 0x202F || u == 0x205F || u == 0x3000
  }

  function TrimStart(s: string): string {
    if s != [] && IsWhitespace(s[0]) then TrimStart(s[1..]) else s
  }

  function TrimEnd(s: string): string {
    if s != [] && IsWhitespace(s[|s| - 1]) then TrimEnd(s[..|s| - 1]) else s
  }

  function Trim(s: string): string { TrimEnd(TrimStart(s)) }

  /** `t` is `s` without the whitespace around it. */
  ghost predicate IsTrimOf(s: string, t: string) {
    && (exists i, j :: 0 <= i <= j <= |s| && t == s[i..j] && Blank(s, 0, i) && Blank(s, j, |s|))
    && (t != [] ==> !IsWhitespace(t[0]) && !IsWhitespace(t[|t| - 1]))
  }

  ghost predicate Blank(s: string, i: int, j: int)
    requires 0 <= i <= j <= |s|
  {
    forall k :: i <= k < j ==> IsWhitespace(s[k])
  }

  lemma {:induction false} TrimStartIs(s: string)
    ensures |TrimStart(s)| <= |s| && TrimStart(s) == s[|s| - |TrimStart(s)|..] && Blank(s, 0, |s| - |TrimStart(s)|)
    ensures TrimStart(s) != [] ==> !IsWhitespace(TrimStart(s)[0])
  {
    if s != [] && IsWhitespace(s[0]) {
      var rest := s[1..];
      TrimStartIs(rest);
      assert forall k :: 1 <= k < |s| ==> s[k] == rest[k - 1];
    }
  }

  lemma {:induction false} TrimEndIs(s: string)
    ensures |TrimEnd(s)| <= |s| && TrimEnd(s) == s[..|TrimEnd(s)|] && Blank(s, |TrimEnd(s)|, |s|)
    ensures TrimEnd(s) != [] ==> !IsWhitespace(TrimEnd(s)[|TrimEnd(s)| - 1])
  {
    if s != [] && IsWhitespace(s[|s| - 1]) {
      var front := s[..|s| - 1];
      TrimEndIs(front);
      assert forall k :: 0 <= k < |front| ==> s[k] == front[k];
    }
  }

  lemma TrimTrims(s: string)
    ensures IsTrimOf(s, Trim(s))
  {
    var u := TrimStart(s);
    TrimStartIs(s);
    TrimEndIs(u);
    var t := TrimEnd(u);
    var i := |s| - |u|;
    assert t == s[i..i + |t|];
    assert forall k :: i <= k < |s| ==> s[k] == u[k - i];
    assert Blank(s, i + |t|, |s|);
    assert t != [] ==> t[0] == u[0];
  }

  /** The trimmed text, by where it starts and ends. */
  ghost predicate TrimmedAt(s: string, i: int, j: int) {
    && 0 <= i <= j <= |s| && Blank(s, 0, i) && Blank(s, j, |s|)
    && (i < j ==> !IsWhitespace(s[i]) && !IsWhitespace(s[j - 1]))
  }

  lemma TrimmedOnce(s: string, i: int, j: int, k: int, l: int)
    requires TrimmedAt(s, i, j) && TrimmedAt(s, k, l) && i < j
    ensures k == i && l == j
  {
  }

  lemma TrimOne(s: string, t: string, u: string)
    requires IsTrimOf(s, t) && IsTrimOf(s, u)
    ensures t != [] ==> t == u
  {
    var i, j :| 0 <= i <= j <= |s| && t == s[i..j] && Blank(s, 0, i) && Blank(s, j, |s|);
    var k, l :| 0 <= k <= l <= |s| && u == s[k..l] && Blank(s, 0, k) && Blank(s, l, |s|);
    assert (t != [] ==> t[0] == s[i] && t[|t| - 1] == s[j - 1]) && (u != [] ==> u[0] == s[k] && u[|u| - 1] == s[l - 1]);
    assert TrimmedAt(s, i, j) && TrimmedAt(s, k, l);
    if t != [] {
      TrimmedOnce(s, i, j, k, l);
    }
  }

  /** `str::trim` removes exactly the whitespace at both ends. */
  lemma TrimExactly(s: string, t: string)
    ensures Trim(s) == t <==> IsTrimOf(s, t)
  {
    TrimTrims(s);
    if IsTrimOf(s, t) {
      TrimOne(s, t, Trim(s));
      TrimOne(s, Trim(s), t);
    }
  }

  /** ASCII lower case. */
  function Lower(c: char): char {
    if 'A' <= c <= 'Z' then (c as int + 32) as char else c
  }

  function LowerAll(s: string): (r: string)
    ensures |r| == |s|
  {
    seq(|s|, i requires 0 <= i < |s| => Lower(s[i]))
  }

  lemma ConcatAssociates<T>(a: seq<T>, b: seq<T>, c: seq<T>)
    ensures a + (b + c) == (a + b) + c
  {
  }
}

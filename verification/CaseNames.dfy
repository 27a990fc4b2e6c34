/** The two name converters of `macros/src/util.rs`. */
module CaseNames {
  import opened Text

  /** The case tables of `char`: `is_uppercase` and `to_uppercase`, which may give several characters. */
  datatype Unicode = Unicode(isUpper: char -> bool, toUpper: char -> string)

  predicate IsCapital(c: char) { 'A' <= c <= 'Z' }

  predicate IsSmall(c: char) { 'a' <= c <= 'z' }

  predicate IsAscii(c: char) { c as int < 128 }

  function Capital(c: char): char { if IsSmall(c) then (c as int - 32) as char else c }

  /**
   * What is asked of the tables: the usual letters in ASCII, upper case is its own upper case, a character
   * that is not starts with another one, and no underscore comes from anything else.
   */
  ghost predicate Sensible(u: Unicode) {
    && (forall c :: IsAscii(c) ==> (u.isUpper(c) <==> IsCapital(c)) && u.toUpper(c) == [Capital(c)])
    && (forall c :: u.isUpper(c) ==> u.toUpper(c) == [c])
    && (forall c :: u.toUpper(c) != [] && (u.toUpper(c)[0] == c ==> u.toUpper(c) == [c]))
    && (forall c :: '_' in u.toUpper(c) ==> c == '_')
  }

  /** What one character contributes; only ASCII capitals are changed. */
  function SnakePiece(u: Unicode, c: char, first: bool): string {
    if u.isUpper(c) then (if first then [] else ['_']) + [Lower(c)] else [c]
  }

  function SnakeTail(u: Unicode, s: string): string {
    if s == [] then [] else SnakePiece(u, s[0], false) + SnakeTail(u, s[1..])
  }

  function Snake(u: Unicode, s: string): string {
    if s == [] then [] else SnakePiece(u, s[0], true) + SnakeTail(u, s[1..])
  }

  function Pascal(u: Unicode, s: string, capitalize: bool): string {
    if s == [] then []
    else if s[0] == '_' then Pascal(u, s[1..], true)
    else if capitalize then u.toUpper(s[0]) + Pascal(u, s[1..], false)
    else [s[0]] + Pascal(u, s[1..], false)
  }

  function SnakeRest(u: Unicode, s: string, first: bool): string {
    if first then Snake(u, s) else SnakeTail(u, s)
  }

  lemma SnakeRestStep(u: Unicode, done: string, s: string, first: bool)
    requires s != []
    ensures done + SnakeRest(u, s, first) == (done + SnakePiece(u, s[0], first)) + SnakeRest(u, s[1..], false)
  {
    ConcatAssociates(done, SnakePiece(u, s[0], first), SnakeTail(u, s[1..]));
  }

  /** `to_snake_case`. */
  method ToSnakeCase(u: Unicode, s: string) returns (result: string)
    ensures result == Snake(u, s)
  {
    result := [];
    assert s[0..] == s && result + Snake(u, s) == Snake(u, s);
    for i := 0 to |s|
      invariant result + SnakeRest(u, s[i..], i == 0) == Snake(u, s)
    {
      SnakeRestStep(u, result, s[i..], i == 0);
      assert s[i..][1..] == s[i + 1..];
      var piece := PieceOf(u, s[i], i == 0);
      result := result + piece;
    }
    assert result + [] == result;
  }

  /** The body of the loop: what is pushed for one character. */
  method PieceOf(u: Unicode, ch: char, first: bool) returns (piece: string)
    ensures piece == SnakePiece(u, ch, first)
  {
    piece := [];
    if u.isUpper(ch) {
      if !first {
        piece := piece + ['_'];
      }
      piece := piece + [Lower(ch)];
    } else {
      piece := piece + [ch];
    }
  }

  /** `to_pascal_case`. */
  method ToPascalCase(u: Unicode, s: string) returns (result: string)
    ensures result == Pascal(u, s, true)
  {
    result := [];
    var capitalize := true;
    assert s[0..] == s && [] + Pascal(u, s, true) == Pascal(u, s, true);
    for i := 0 to |s|
      invariant Pascal(u, s, true) == result + Pascal(u, s[i..], capitalize)
    {
      assert s[i..][1..] == s[i + 1..];
      ghost var rest := Pascal(u, s[i + 1..], false);
      if s[i] == '_' {
        capitalize := true;
      } else if capitalize {
        ConcatAssociates(result, u.toUpper(s[i]), rest);
        result := result + u.toUpper(s[i]);
        capitalize := false;
      } else {
        ConcatAssociates(result, [s[i]], rest);
        result := result + [s[i]];
      }
    }
    assert s[|s|..] == [] && result + [] == result;
  }

  // ---------- to snake case and back ----------

  lemma {:induction false} PascalSnakeTail(u: Unicode, s: string)
    requires Sensible(u) && '_' !in s
    ensures Pascal(u, SnakeTail(u, s), false) == s
  {
    if s != [] {
      PascalSnakeTail(u, s[1..]);
      var c, rest, t := s[0], SnakeTail(u, s[1..]), SnakeTail(u, s);
      assert s == [c] + s[1..] && c in s;
      if u.isUpper(c) {
        assert t == ['_', Lower(c)] + rest;
        assert t[1..] == [Lower(c)] + rest && t[1..][1..] == rest;
        LowerBack(u, c);
      } else {
        assert t == [c] + rest && t[1..] == rest;
      }
    }
  }

  /** Upper case is reached again from what the snake-case converter writes for it. */
  lemma LowerBack(u: Unicode, c: char)
    requires Sensible(u) && c != '_'
    ensures u.isUpper(c) ==> u.toUpper(Lower(c)) == [c] && Lower(c) != '_'
    ensures !u.isUpper(c) ==> Lower(c) == c
  {
    assert IsAscii(c) ==> (u.isUpper(c) <==> IsCapital(c));
    if IsCapital(c) {
      assert Capital(Lower(c)) == c && IsAscii(Lower(c));
    }
  }

  lemma {:induction false} PascalHasNoUnderscore(u: Unicode, s: string, capitalize: bool)
    requires Sensible(u)
    ensures '_' !in Pascal(u, s, capitalize)
    decreases s
  {
    if s != [] {
      PascalHasNoUnderscore(u, s[1..], s[0] == '_');
    }
  }

  /** A name a snake-case round trip keeps: no underscore, and its first character is its own upper case. */
  predicate TypeName(u: Unicode, s: string) {
    '_' !in s && (s != [] ==> u.toUpper(s[0]) == [s[0]])
  }

  /** Converting to snake case and back gives the name exactly when it is a type name. */
  lemma PascalOfSnake(u: Unicode, s: string)
    requires Sensible(u)
    ensures Pascal(u, Snake(u, s), true) == s <==> TypeName(u, s)
  {
    PascalHasNoUnderscore(u, Snake(u, s), true);
    if s != [] && '_' !in s {
      var c, rest := s[0], s[1..];
      assert c in s && s == [c] + rest;
      PascalSnakeTail(u, rest);
      LowerBack(u, c);
      assert Snake(u, s) == [Lower(c)] + SnakeTail(u, rest) && Snake(u, s)[1..] == SnakeTail(u, rest);
      assert u.toUpper(Lower(c)) == u.toUpper(c);
      assert Pascal(u, Snake(u, s), true) == u.toUpper(c) + rest;
      if u.toUpper(c) + rest == s {
        assert |u.toUpper(c)| == 1 && (u.toUpper(c) + rest)[0] == c;
      }
    }
  }

  // ---------- to Pascal case and back ----------

  /** What may start a word: a small ASCII letter, or upper case outside ASCII, which is never lowered. */
  predicate StartsWord(u: Unicode, c: char) { IsSmall(c) || (!IsAscii(c) && u.isUpper(c)) }

  /** What may start the name: a small ASCII letter, or what is its own upper case and no ASCII capital. */
  predicate StartsName(u: Unicode, c: char) { IsSmall(c) || (u.toUpper(c) == [c] && !IsCapital(c) && c != '_') }

  /** Every underscore comes before the start of a word, and upper case nowhere else. */
  predicate Words(u: Unicode, t: string) {
    t != [] ==>
      if t[0] == '_' then |t| > 1 && StartsWord(u, t[1]) && Words(u, t[2..])
      else !u.isUpper(t[0]) && Words(u, t[1..])
  }

  /** A snake-case name. */
  predicate SnakeName(u: Unicode, t: string) {
    t != [] ==> StartsName(u, t[0]) && Words(u, t[1..])
  }

  lemma {:induction false} SnakeTailOfPascal(u: Unicode, t: string)
    requires Sensible(u) && Words(u, t)
    ensures SnakeTail(u, Pascal(u, t, false)) == t
    decreases |t|
  {
    if t != [] {
      if t[0] == '_' {
        var c, rest := t[1], t[2..];
        assert t == ['_', c] + rest;
        assert t[1..][0] == c && t[1..][1..] == rest;
        SnakeTailOfPascal(u, rest);
        WordStart(u, c);
        var up := u.toUpper(c)[0];
        assert Pascal(u, t, false) == [up] + Pascal(u, rest, false);
        assert Pascal(u, t, false)[1..] == Pascal(u, rest, false);
      } else {
        var rest := t[1..];
        assert t == [t[0]] + rest;
        SnakeTailOfPascal(u, rest);
        assert Pascal(u, t, false)[1..] == Pascal(u, rest, false);
      }
    }
  }

  /** A word start is raised to one upper-case character, which is lowered back to it. */
  lemma WordStart(u: Unicode, c: char)
    requires Sensible(u) && StartsWord(u, c)
    ensures c != '_' && |u.toUpper(c)| == 1 && SnakePiece(u, u.toUpper(c)[0], false) == ['_', c]
  {
    if IsSmall(c) {
      assert IsAscii(c) && IsAscii(Capital(c));
    } else {
      assert u.toUpper(c) == [c];
    }
  }

  lemma {:induction false} SnakeTailShape(u: Unicode, s: string)
    requires Sensible(u) && '_' !in s
    ensures Words(u, SnakeTail(u, s))
  {
    if s != [] {
      SnakeTailShape(u, s[1..]);
      assert s[0] in s;
      PieceShape(u, s[0], SnakeTail(u, s[1..]));
    }
  }

  lemma PieceShape(u: Unicode, c: char, rest: string)
    requires Sensible(u) && c != '_' && Words(u, rest)
    ensures Words(u, SnakePiece(u, c, false) + rest)
  {
    assert IsAscii(c) ==> (u.isUpper(c) <==> IsCapital(c));
    var t := SnakePiece(u, c, false) + rest;
    assert if u.isUpper(c) then t[2..] == rest else t[1..] == rest;
  }

  lemma SnakeNameReturns(u: Unicode, t: string)
    requires Sensible(u) && SnakeName(u, t)
    ensures Snake(u, Pascal(u, t, true)) == t
  {
    if t != [] {
      var c, rest := t[0], t[1..];
      SnakeTailOfPascal(u, rest);
      assert t == [c] + rest && (IsSmall(c) ==> IsAscii(c) && IsAscii(Capital(c)));
      var up := u.toUpper(c)[0];
      assert Pascal(u, t, true) == [up] + Pascal(u, rest, false);
      assert Pascal(u, t, true)[1..] == Pascal(u, rest, false);
      assert SnakePiece(u, up, true) == [c];
    }
  }

  /** Only a snake-case name comes back. */
  lemma ReturnsSnakeName(u: Unicode, t: string)
    requires Sensible(u) && Snake(u, Pascal(u, t, true)) == t
    ensures SnakeName(u, t)
  {
    if t != [] {
      var s := Pascal(u, t, true);
      PascalHasNoUnderscore(u, t, true);
      assert s != [] && s[0] in s;
      SnakeTailShape(u, s[1..]);
      LowerBack(u, s[0]);
      assert Snake(u, s) == [Lower(s[0])] + SnakeTail(u, s[1..]);
      assert t[0] == Lower(s[0]) && t[1..] == SnakeTail(u, s[1..]);
      FirstReturns(u, t[0], s[0]);
    }
  }

  lemma FirstReturns(u: Unicode, c: char, up: char)
    requires Sensible(u) && c == Lower(up) && up != '_' && (c != '_' ==> u.toUpper(c)[0] == up)
    ensures StartsName(u, c)
  {
  }

  /** Converting to Pascal case and back gives the name exactly when it is a snake-case name. */
  lemma SnakeOfPascal(u: Unicode, t: string)
    requires Sensible(u)
    ensures Snake(u, Pascal(u, t, true)) == t <==> SnakeName(u, t)
  {
    if SnakeName(u, t) {
      SnakeNameReturns(u, t);
    }
    if Snake(u, Pascal(u, t, true)) == t {
      ReturnsSnakeName(u, t);
    }
  }

  /** Distinct type names get distinct default job kinds. */
  lemma JobKindsDistinct(u: Unicode, a: string, b: string)
    requires Sensible(u) && TypeName(u, a) && TypeName(u, b)
    ensures Snake(u, a) == Snake(u, b) <==> a == b
  {
    PascalOfSnake(u, a);
    PascalOfSnake(u, b);
  }
}

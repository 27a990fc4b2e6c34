/** The token printer of `macros/src/field_shape.rs`, and the lexer that reads its output back. */
module TokenPrinter {

  datatype Delimiter = Parenthesis | Brace | Bracket | Invisible

  /** Words are identifiers and literals; punctuation is one character at a time. */
  datatype Token = Word(text: string) | Punct(ch: char) | Group(delimiter: Delimiter, stream: seq<Token>)

  predicate IsBracket(c: char) { c in "(){}[]" }

  /**
   * The test that tells words from punctuation: alphanumeric in Unicode, or an underscore. All that the
   * proofs ask of it is that spaces, commas and brackets are no part of a word.
   */
  type WordTest = w: char -> bool | !w(' ') && !w(',') && !w('(') && !w(')') && !w('{') && !w('}') && !w('[') && !w(']')
    witness (c: char) => c == '_'

  predicate WellFormed(w: WordTest, t: Token) {
    match t
    case Word(text) => text != [] && forall c <- text :: w(c)
    case Punct(c) => !w(c) && !IsBracket(c) && c != ' '
    case Group(_, stream) => forall u <- stream :: WellFormed(w, u)
  }

  predicate AllWellFormed(w: WordTest, ts: seq<Token>) { forall t <- ts :: WellFormed(w, t) }

  function Open(d: Delimiter): string {
    match d case Parenthesis => "(" case Brace => "{" case Bracket => "[" case Invisible => ""
  }

  function Close(d: Delimiter): string {
    match d case Parenthesis => ")" case Brace => "}" case Bracket => "]" case Invisible => ""
  }

  // ---------- the printer ----------

  predicate StartsWord(w: WordTest, s: string) { s != [] && w(s[0]) }

  predicate EndsWord(w: WordTest, s: string) { s != [] && w(s[|s| - 1]) }

  predicate StartsClose(s: string) { s != [] && s[0] in ")]}" }

  predicate EndsComma(s: string) { s != [] && s[|s| - 1] == ',' }

  /** The printer's running state. */
  datatype Printed = Printed(out: string, prevIdent: bool, prevComma: bool)

  function Gap(w: WordTest, p: Printed, s: string): string {
    (if StartsWord(w, s) && p.prevIdent then " " else "") + (if p.prevComma && !StartsClose(s) then " " else "")
  }

  function Emit(w: WordTest, p: Printed, s: string): Printed {
    Printed(p.out + Gap(w, p, s) + s, StartsWord(w, s), EndsComma(s))
  }

  function Render(w: WordTest, t: Token): string
    decreases t, 1
  {
    match t
    case Word(text) => text
    case Punct(c) => [c]
    case Group(d, stream) => Open(d) + Print(w, stream).out + Close(d)
  }

  function Print(w: WordTest, ts: seq<Token>): Printed
    decreases ts, 0
  {
    if ts == [] then Printed("", false, false)
    else Emit(w, Print(w, ts[..|ts| - 1]), Render(w, ts[|ts| - 1]))
  }

  /** `clean_token_stream`. */
  method CleanTokenStream(w: WordTest, ts: seq<Token>) returns (out: string)
    ensures out == Print(w, ts).out
    decreases ts
  {
    out := "";
    var prevIdent, prevComma := false, false;
    for i := 0 to |ts|
      invariant Print(w, ts[..i]) == Printed(out, prevIdent, prevComma)
    {
      var s: string;
      match ts[i] {
        case Word(text) => s := text;
        case Punct(c) => s := [c];
        case Group(d, stream) =>
          var inner := CleanTokenStream(w, stream);
          s := Open(d) + inner + Close(d);
      }
      assert s == Render(w, ts[i]);
      assert ts[..i + 1][..i] == ts[..i];
      ghost var before := Printed(out, prevIdent, prevComma);
      var curIdent := StartsWord(w, s);
      var gap := "";
      if curIdent && prevIdent {
        gap := gap + " ";
      }
      if prevComma && !StartsClose(s) {
        gap := gap + " ";
      }
      assert gap == Gap(w, before, s);
      out := out + gap + s;
      prevIdent := curIdent;
      prevComma := EndsComma(s);
    }
    assert ts[..|ts|] == ts;
  }

  /** The texts of two tokens in a row, and where a space is due between them. */
  predicate BothWords(w: WordTest, before: string, s: string) {
    before != [] && s != [] && w(before[0]) && w(s[0])
  }

  predicate AfterComma(before: string, s: string) {
    before != [] && before[|before| - 1] == ',' && !(s != [] && (s[0] == ')' || s[0] == ']' || s[0] == '}'))
  }

  lemma PrintSnoc(w: WordTest, ts: seq<Token>, t: Token)
    ensures Print(w, ts + [t]) == Emit(w, Print(w, ts), Render(w, t))
  {
    assert (ts + [t])[..|ts|] == ts;
  }

  lemma LastFlags(w: WordTest, ts: seq<Token>)
    requires ts != []
    ensures var p, before := Print(w, ts), Render(w, ts[|ts| - 1]);
      p.prevIdent == StartsWord(w, before) && p.prevComma == EndsComma(before)
  {
  }

  lemma GapIs(w: WordTest, p: Printed, before: string, s: string)
    requires p.prevIdent == StartsWord(w, before) && p.prevComma == EndsComma(before)
    ensures Gap(w, p, s) == (if BothWords(w, before, s) then " " else "") + (if AfterComma(before, s) then " " else "")
  {
  }

  /**
   * Where the spaces are: each token is printed right after the one before it, but for a space between two
   * that start like words and a space after a comma that no bracket closes; nothing comes before the first.
   */
  lemma SpacesExactly(w: WordTest, ts: seq<Token>, t: Token)
    ensures ts == [] ==> Print(w, ts + [t]).out == Render(w, t)
    ensures ts != [] ==>
      var before, s := Render(w, ts[|ts| - 1]), Render(w, t);
      var gap := (if BothWords(w, before, s) then " " else "") + (if AfterComma(before, s) then " " else "");
      Print(w, ts + [t]).out == Print(w, ts).out + gap + s
  {
    PrintSnoc(w, ts, t);
    if ts == [] {
      assert "" + "" + Render(w, t) == Render(w, t);
    } else {
      LastFlags(w, ts);
      GapIs(w, Print(w, ts), Render(w, ts[|ts| - 1]), Render(w, t));
    }
  }

  /** A group is printed between a matching pair of brackets, an invisible one between none. */
  lemma GroupsExactly(w: WordTest, stream: seq<Token>)
    ensures Render(w, Group(Parenthesis, stream)) == "(" + Print(w, stream).out + ")"
    ensures Render(w, Group(Brace, stream)) == "{" + Print(w, stream).out + "}"
    ensures Render(w, Group(Bracket, stream)) == "[" + Print(w, stream).out + "]"
    ensures Render(w, Group(Invisible, stream)) == Print(w, stream).out
  {
    assert "" + Print(w, stream).out + "" == Print(w, stream).out;
  }

  // ---------- the lexer and the flattened tokens ----------

  /** Read one more character: a space ends a word, a word character may let it grow, others stand alone. */
  function Push(r: seq<string>, grows: bool, c: char): seq<string> {
    if c == ' ' then r
    else if grows && r != [] then r[..|r| - 1] + [r[|r| - 1] + [c]]
    else r + [[c]]
  }

  /** Maximal munch, one character at a time. */
  function Lex(w: WordTest, s: string): (r: seq<string>)
    ensures EndsWord(w, s) ==> r != []
  {
    if s == [] then []
    else
      var front, c := s[..|s| - 1], s[|s| - 1];
      Push(Lex(w, front), w(c) && EndsWord(w, front), c)
  }

  function FlattenOne(t: Token): seq<string>
    decreases t, 1
  {
    match t
    case Word(text) => [text]
    case Punct(c) => [[c]]
    case Group(d, stream) =>
      (if d.Invisible? then [] else [Open(d)]) + Flatten(stream) + (if d.Invisible? then [] else [Close(d)])
  }

  function Flatten(ts: seq<Token>): seq<string>
    decreases ts, 0
  {
    if ts == [] then [] else Flatten(ts[..|ts| - 1]) + FlattenOne(ts[|ts| - 1])
  }

  // ---------- how lexing meets concatenation ----------

  lemma LexSnoc(w: WordTest, s: string, c: char)
    ensures Lex(w, s + [c]) == Push(Lex(w, s), w(c) && EndsWord(w, s), c)
  {
    assert (s + [c])[..|s|] == s;
  }

  lemma PushConcat(a: seq<string>, b: seq<string>, grows: bool, c: char)
    requires grows ==> b != []
    ensures Push(a + b, grows, c) == a + Push(b, grows, c)
  {
    if c != ' ' && grows {
      assert (a + b)[..|a + b| - 1] == a + b[..|b| - 1];
    }
  }

  lemma EndsWithIt(w: WordTest, x: string, y: string)
    requires y != []
    ensures EndsWord(w, x + y) == EndsWord(w, y)
  {
  }

  /** Two texts are read one after the other unless a word runs across the seam. */
  lemma {:induction false} LexApart(w: WordTest, x: string, y: string)
    requires !(EndsWord(w, x) && StartsWord(w, y))
    ensures Lex(w, x + y) == Lex(w, x) + Lex(w, y)
  {
    if y == [] {
      assert x + y == x;
    } else {
      var front, c := y[..|y| - 1], y[|y| - 1];
      LexApart(w, x, front);
      LexSnoc(w, x + front, c);
      LexSnoc(w, front, c);
      assert x + y == (x + front) + [c] && y == front + [c];
      if front == [] {
        assert x + front == x;
        PushConcat(Lex(w, x), [], false, c);
      } else {
        EndsWithIt(w, x, front);
        PushConcat(Lex(w, x), Lex(w, front), w(c) && EndsWord(w, front), c);
      }
    }
  }

  /** A word that runs across the seam costs a token. */
  lemma {:induction false} LexAcross(w: WordTest, x: string, y: string)
    requires EndsWord(w, x) && StartsWord(w, y)
    ensures |Lex(w, x + y)| == |Lex(w, x)| + |Lex(w, y)| - 1
  {
    var front, c := y[..|y| - 1], y[|y| - 1];
    LexSnoc(w, x + front, c);
    LexSnoc(w, front, c);
    assert x + y == (x + front) + [c] && y == front + [c];
    if front == [] {
      assert x + front == x;
    } else {
      EndsWithIt(w, x, front);
      LexAcross(w, x, front);
    }
  }

  lemma {:induction false} LexWord(w: WordTest, text: string)
    requires text != [] && forall c <- text :: w(c)
    ensures Lex(w, text) == [text]
  {
    var n := |text| - 1;
    assert text[n] in text;
    if n == 0 {
      assert text == [text[0]] && text[..0] == [];
    } else {
      assert text[n - 1] in text;
      LexWord(w, text[..n]);
      assert text == text[..n] + [text[n]];
    }
  }

  lemma LexChar(w: WordTest, c: char)
    ensures Lex(w, [c]) == if c == ' ' then [] else [[c]]
  {
    assert [c][..0] == [];
  }

  // ---------- when printing loses nothing ----------

  predicate FirstIsWord(w: WordTest, atoms: seq<string>) { atoms != [] && StartsWord(w, atoms[0]) }

  predicate LastIsWord(w: WordTest, atoms: seq<string>) { atoms != [] && EndsWord(w, atoms[|atoms| - 1]) }

  /**
   * A word that ends the tokens before `t` runs into the word that starts `t`: the printer only
   * looks at how the token just before `t` starts, and that one does not start with a word.
   */
  predicate Glued(w: WordTest, before: seq<Token>, t: Token) {
    && before != []
    && LastIsWord(w, Flatten(before)) && FirstIsWord(w, FlattenOne(t))
    && !FirstIsWord(w, FlattenOne(before[|before| - 1]))
  }

  predicate SeparableOne(w: WordTest, t: Token)
    decreases t, 1
  {
    t.Group? ==> Separable(w, t.stream)
  }

  /** Nowhere in the tree are two words glued. */
  predicate Separable(w: WordTest, ts: seq<Token>)
    decreases ts, 0
  {
    ts != [] ==>
      var n := |ts| - 1;
      Separable(w, ts[..n]) && SeparableOne(w, ts[n]) && !Glued(w, ts[..n], ts[n])
  }

  /** What is true of a text printed for some tokens: its ends, and the tokens it lexes to. */
  ghost predicate Reads(w: WordTest, s: string, atoms: seq<string>, separable: bool) {
    && (s == [] <==> atoms == [])
    && (StartsWord(w, s) <==> FirstIsWord(w, atoms))
    && (EndsWord(w, s) <==> LastIsWord(w, atoms))
    && (separable ==> Lex(w, s) == atoms)
    && (!separable ==> |Lex(w, s)| < |atoms|)
  }

  lemma ReadsChar(w: WordTest, c: char)
    requires c != ' '
    ensures Reads(w, [c], [[c]], true)
  {
    LexChar(w, c);
  }

  lemma LexGap(w: WordTest, x: string, gap: string)
    requires gap == "" || gap == " " || gap == "  "
    ensures Lex(w, x + gap) == Lex(w, x)
  {
    if gap == "" {
      assert x + gap == x;
    } else {
      assert (x + " ")[..|x|] == x;
      if gap == "  " {
        assert (x + gap)[..|x| + 1] == x + " ";
      }
    }
  }

  lemma LexConcat(w: WordTest, x: string, xs: seq<string>, sx: bool, gap: string, y: string, ys: seq<string>, sy: bool)
    requires Reads(w, x, xs, sx) && Reads(w, y, ys, sy) && (gap == "" || gap == " " || gap == "  ")
    ensures var separable := sx && sy && !(gap == "" && EndsWord(w, x) && StartsWord(w, y));
      if separable then Lex(w, x + gap + y) == xs + ys else |Lex(w, x + gap + y)| < |xs + ys|
  {
    LexGap(w, x, gap);
    if gap == "" {
      assert x + gap == x;
    } else {
      assert (x + gap)[|x + gap| - 1] == ' ';
    }
    if EndsWord(w, x + gap) && StartsWord(w, y) {
      LexAcross(w, x + gap, y);
    } else {
      LexApart(w, x + gap, y);
    }
  }

  /** Putting one printed text after another, with a gap of spaces between them. */
  lemma ReadsConcat(w: WordTest, x: string, xs: seq<string>, sx: bool, gap: string, y: string, ys: seq<string>, sy: bool)
    requires Reads(w, x, xs, sx) && Reads(w, y, ys, sy)
    requires gap == "" || gap == " " || gap == "  "
    requires gap != "" ==> x != [] && (y == [] ==> !EndsWord(w, x))
    ensures var glued := gap == "" && EndsWord(w, x) && StartsWord(w, y);
      Reads(w, x + gap + y, xs + ys, sx && sy && !glued)
  {
    LexConcat(w, x, xs, sx, gap, y, ys, sy);
    var s := x + gap + y;
    if x == [] {
      assert s == y && xs + ys == ys;
    } else if y == [] {
      assert s == x + gap && xs + ys == xs;
      assert gap != "" ==> s[|s| - 1] == ' ';
      assert gap == "" ==> s == x;
    } else {
      assert s[0] == x[0] && s[|s| - 1] == y[|y| - 1];
    }
  }

  /** The printer's flags describe the token printed last. */
  lemma LastPrinted(w: WordTest, ts: seq<Token>)
    ensures var p := Print(w, ts);
      && (p.prevIdent <==> ts != [] && StartsWord(w, Render(w, ts[|ts| - 1])))
      && (p.prevIdent ==> p.out != [])
      && (p.prevComma ==> EndsComma(p.out))
  {
  }

  lemma ReadsBracketed(w: WordTest, open: char, close: char, inner: string, atoms: seq<string>, sep: bool)
    requires Reads(w, inner, atoms, sep)
    requires !w(open) && open != ' ' && !w(close) && close != ' '
    ensures Reads(w, [open] + inner + [close], [[open]] + atoms + [[close]], sep)
  {
    ReadsChar(w, open);
    ReadsChar(w, close);
    ReadsConcat(w, [open], [[open]], true, "", inner, atoms, sep);
    assert [open] + "" + inner == [open] + inner;
    ReadsConcat(w, [open] + inner, [[open]] + atoms, sep, "", [close], [[close]], true);
    assert [open] + inner + "" + [close] == [open] + inner + [close];
  }

  lemma {:induction false} ReadsOne(w: WordTest, t: Token)
    requires WellFormed(w, t)
    ensures Reads(w, Render(w, t), FlattenOne(t), SeparableOne(w, t))
    decreases t, 1
  {
    match t
    case Word(text) =>
      ReadsWord(w, text);
    case Punct(c) =>
      ReadsChar(w, c);
    case Group(d, stream) =>
      ReadsAll(w, stream);
      ReadsGroup(w, d, Print(w, stream).out, Flatten(stream), Separable(w, stream));
  }

  lemma ReadsWord(w: WordTest, text: string)
    requires text != [] && forall c <- text :: w(c)
    ensures Reads(w, text, [text], true)
  {
    LexWord(w, text);
    assert text[0] in text && text[|text| - 1] in text;
  }

  lemma ReadsGroup(w: WordTest, d: Delimiter, inner: string, atoms: seq<string>, sep: bool)
    requires Reads(w, inner, atoms, sep)
    ensures Reads(w, Open(d) + inner + Close(d),
                  (if d.Invisible? then [] else [Open(d)]) + atoms + (if d.Invisible? then [] else [Close(d)]), sep)
  {
    if d.Invisible? {
      assert "" + inner + "" == inner && [] + atoms + [] == atoms;
    } else {
      ReadsBracketed(w, Open(d)[0], Close(d)[0], inner, atoms, sep);
    }
  }

  /** Printing one token more. */
  lemma ReadsNext(w: WordTest, front: seq<Token>, t: Token, sf: bool, st: bool)
    requires Reads(w, Print(w, front).out, Flatten(front), sf) && Reads(w, Render(w, t), FlattenOne(t), st)
    requires front != [] ==>
      var last := front[|front| - 1]; StartsWord(w, Render(w, last)) == FirstIsWord(w, FlattenOne(last))
    ensures Reads(w, Emit(w, Print(w, front), Render(w, t)).out, Flatten(front) + FlattenOne(t),
                  sf && st && !Glued(w, front, t))
  {
    var p, s := Print(w, front), Render(w, t);
    LastPrinted(w, front);
    ReadsConcat(w, p.out, Flatten(front), sf, Gap(w, p, s), s, FlattenOne(t), st);
    assert Glued(w, front, t) <==> Gap(w, p, s) == "" && EndsWord(w, p.out) && StartsWord(w, s);
  }

  lemma {:induction false} ReadsAll(w: WordTest, ts: seq<Token>)
    requires AllWellFormed(w, ts)
    ensures Reads(w, Print(w, ts).out, Flatten(ts), Separable(w, ts))
    decreases ts, 0
  {
    if ts != [] {
      var n := |ts| - 1;
      var front, t := ts[..n], ts[n];
      ReadsAll(w, front);
      ReadsOne(w, t);
      if front != [] {
        ReadsOne(w, front[n - 1]);
      }
      ReadsNext(w, front, t, Separable(w, front), SeparableOne(w, t));
    }
  }

  /** Lexing the printed text gives the flattened tokens back exactly when no two words are glued. */
  lemma PrintedTextRelexes(w: WordTest, ts: seq<Token>)
    requires AllWellFormed(w, ts)
    ensures Lex(w, Print(w, ts).out) == Flatten(ts) <==> Separable(w, ts)
  {
    ReadsAll(w, ts);
  }

  /** Every group in the tree has brackets of its own. */
  predicate Bracketed(ts: seq<Token>) {
    forall t <- ts :: t.Group? ==> !t.delimiter.Invisible? && Bracketed(t.stream)
  }

  lemma {:induction false} BracketedIsSeparable(w: WordTest, ts: seq<Token>)
    requires AllWellFormed(w, ts) && Bracketed(ts)
    ensures Separable(w, ts)
    decreases ts
  {
    if ts != [] {
      var n := |ts| - 1;
      var front, t := ts[..n], ts[n];
      BracketedIsSeparable(w, front);
      assert WellFormed(w, t) && t in ts;
      if t.Group? {
        BracketedIsSeparable(w, t.stream);
      }
      if front != [] {
        var last := front[n - 1];
        assert last in ts && WellFormed(w, last);
        LastAtom(w, front);
        if last.Word? {
          assert last.text[0] in last.text;
        }
      }
    }
  }

  /** With brackets everywhere, the tokens end in a word exactly when the last of them is one. */
  lemma LastAtom(w: WordTest, ts: seq<Token>)
    requires ts != [] && AllWellFormed(w, ts) && Bracketed(ts)
    ensures LastIsWord(w, Flatten(ts)) ==> ts[|ts| - 1].Word?
  {
    var t := ts[|ts| - 1];
    assert t in ts && WellFormed(w, t);
    if !t.Word? {
      LastAtomOf(w, t);
      var before, atoms := Flatten(ts[..|ts| - 1]), FlattenOne(t);
      assert (before + atoms)[|before + atoms| - 1] == atoms[|atoms| - 1];
    }
  }

  lemma LastAtomOf(w: WordTest, t: Token)
    requires WellFormed(w, t) && !t.Word? && (t.Group? ==> !t.delimiter.Invisible?)
    ensures var atoms := FlattenOne(t); atoms != [] && !EndsWord(w, atoms[|atoms| - 1])
  {
  }

  /** On bracketed trees the text determines the token sequence. */
  lemma PrintingIsInjective(w: WordTest, ts: seq<Token>, us: seq<Token>)
    requires AllWellFormed(w, ts) && AllWellFormed(w, us) && Bracketed(ts) && Bracketed(us)
    ensures Lex(w, Print(w, ts).out) == Flatten(ts)
    ensures Print(w, ts).out == Print(w, us).out ==> Flatten(ts) == Flatten(us)
  {
    BracketedIsSeparable(w, ts);
    BracketedIsSeparable(w, us);
    PrintedTextRelexes(w, ts);
    PrintedTextRelexes(w, us);
  }

  /** An invisible group can hide a seam: two words around an empty one print as one word. */
  lemma InvisibleGroupGlues(w: WordTest)
    requires w('a') && w('b')
    ensures var ts := [Word("a"), Group(Invisible, []), Word("b")];
      AllWellFormed(w, ts) && !Separable(w, ts) && Lex(w, Print(w, ts).out) != Flatten(ts)
  {
    var ts := [Word("a"), Group(Invisible, []), Word("b")];
    var front := [Word("a"), Group(Invisible, [])];
    assert ts[..2] == front && front[..1] == [Word("a")] && [Word("a")][..0] == [];
    assert Flatten([Word("a")]) == ["a"];
    assert Flatten(front) == ["a"];
    assert Glued(w, front, Word("b"));
    PrintedTextRelexes(w, ts);
  }
}

/** Formatting a formatted text can change it again: shown on one text, with the program's own word lists. */
module LatexIdempotence {
  import opened PyText
  import opened LatexScanners
  import opened LatexReflow
  import opened LatexContent
  import opened LatexStable

  predicate AsciiAlpha(c: char) { 'a' <= c <= 'z' || 'A' <= c <= 'Z' }

  predicate AsciiAlnum(c: char) { AsciiAlpha(c) || '0' <= c <= '9' }

  function AsciiLower(c: char): string {
    [if 'A' <= c <= 'Z' then c - 'A' + 'a' else c]
  }

  function English(): (lang: Language) {
    Language(CharClasses(UnicodeSpace, UnicodeLineBreak, AsciiAlpha, AsciiAlnum, AsciiLower), BLOCK, STANDALONE, PROTECTED)
  }

  lemma {:induction false} NoWordStartsHere(lang: Language, s: string, i: nat, n: nat)
    requires lang.Valid() && i < |s| && n <= |lang.protected|
    requires forall w :: w in lang.protected ==> lang.cc.lower(w[0]) != lang.cc.lower(s[i])
    ensures FirstWord(lang, s, i, n) == NoMatch
    decreases |lang.protected| - n
  {
    if n < |lang.protected| {
      assert lang.protected[n] in lang.protected;
      NoWordStartsHere(lang, s, i, n + 1);
    }
  }

  lemma EnglishIsValid()
    ensures English().Valid()
  {
    UnicodeClassesAreValid(AsciiAlpha, AsciiAlnum, AsciiLower);
    SourceListsAreValid(English().cc);
  }

  /** No protected word starts with a comma or with an x. */
  lemma NoWordHere(s: string, i: nat)
    requires i < |s| && (s[i] == ',' || s[i] == 'x')
    ensures ProtectedAt(English(), s, i) == NoMatch
  {
    var lang := English();
    EnglishIsValid();
    forall w | w in PROTECTED ensures lang.cc.lower(w[0]) != lang.cc.lower(s[i]) {
      assert w[0] in "eicvFESTDMP";
    }
    NoWordStartsHere(lang, s, i, 0);
  }

  /** A word spelled as in the list is matched. */
  lemma {:induction false} WordMatchesItself(cc: CharClasses, s: string, i: nat, w: string, k: nat)
    requires k <= |w| && StartsWith(s, w[k..], i) && forall c :: c in w ==> !cc.space(c)
    ensures MatchWord(cc, s, i, w, k) == Match(i + |w| - k, w[k..])
    decreases |w| - k
  {
    if k < |w| {
      assert s[i..i + |w| - k][0] == s[i] && w[k..][0] == w[k];
      assert s[i + 1..i + |w| - k] == s[i..i + |w| - k][1..] && w[k + 1..] == w[k..][1..];
      if k + 1 < |w| {
        assert s[i..i + |w| - k][1] == s[i + 1] && w[k..][1] == w[k + 1];
      }
      WordMatchesItself(cc, s, i + 1, w, k + 1);
    }
  }

  lemma FirstOfTheList(lang: Language, s: string)
    requires lang.protected != [] && WordAt(lang.cc, s, 0, lang.protected[0]).Match?
    ensures ProtectedAt(lang, s, 0) == WordAt(lang.cc, s, 0, lang.protected[0])
  {
  }

  lemma WordEg(s: string)
    requires |s| > 5 && s[..4] == "e.g." && s[4] in " ," && s[5] in ",\n"
    ensures ProtectedAt(English(), s, 0) == if s[4] == ',' then Match(5, "e.g.,") else Match(4, "e.g.")
  {
    var lang, w := English(), "e.g.";
    WordMatchesItself(lang.cc, s, 0, w, 0);
    FirstOfTheList(lang, s);
  }

  lemma LexPlain(s: string, i: nat)
    requires i < |s| && (s[i] == ',' || s[i] == 'x')
    ensures English().Valid()
    ensures LexemeAt(English(), s, i) == Lexeme(if s[i] == ',' then Stop else Plain, [s[i]], i + 1)
  {
    EnglishIsValid();
    NoWordHere(s, i);
  }

  lemma LexWord(s: string)
    requires |s| > 5 && s[..4] == "e.g." && s[4] in " ," && s[5] in ",\n"
    ensures English().Valid()
    ensures LexemeAt(English(), s, 0) == if s[4] == ',' then Lexeme(Protected, "e.g.,", 5) else Lexeme(Protected, "e.g.", 4)
  {
    EnglishIsValid();
    WordEg(s);
    assert s[0] == s[..4][0];
  }

  lemma NextSpace(lang: Language, s: string, i: nat, gap: bool)
    requires lang.Valid() && i < |s| && lang.cc.space(s[i])
    ensures Tokens(lang, s, i, gap) == Tokens(lang, s, i + 1, true)
  {
  }

  lemma NextLexeme(lang: Language, s: string, i: nat, gap: bool, x: Lexeme)
    requires lang.Valid() && i < |s| && !lang.cc.space(s[i]) && x == LexemeAt(lang, s, i)
    ensures Tokens(lang, s, i, gap) == [Token(gap, x.kind, x.text)] + Tokens(lang, s, x.end, false)
  {
  }

  lemma FirstTokens(s: string)
    requires s == "e.g. , x"
    ensures English().Valid()
    ensures Tokens(English(), s, 0, false)
         == [Token(false, Protected, "e.g.")] + [Token(true, Stop, ",")] + [Token(true, Plain, "x")]
  {
    EnglishIsValid();
    var lang := English();
    LexWord(s);
    LexPlain(s, 5);
    LexPlain(s, 7);
    NextLexeme(lang, s, 0, false, Lexeme(Protected, "e.g.", 4));
    NextSpace(lang, s, 4, false);
    NextLexeme(lang, s, 5, true, Lexeme(Stop, ",", 6));
    NextSpace(lang, s, 6, false);
    NextLexeme(lang, s, 7, true, Lexeme(Plain, "x", 8));
    assert Tokens(lang, s, 8, false) == [];
  }

  lemma SecondTokens(s: string)
    requires s == "e.g.,\nx"
    ensures English().Valid()
    ensures Tokens(English(), s, 0, false) == [Token(false, Protected, "e.g.,")] + [Token(true, Plain, "x")]
  {
    EnglishIsValid();
    var lang := English();
    LexWord(s);
    LexPlain(s, 6);
    NextLexeme(lang, s, 0, false, Lexeme(Protected, "e.g.,", 5));
    NextSpace(lang, s, 5, false);
    NextLexeme(lang, s, 6, true, Lexeme(Plain, "x", 7));
    assert Tokens(lang, s, 7, false) == [];
  }

  lemma LaidOne(a: Token)
    ensures Laid([a]) == [a.text]
  {
    assert [a][..0] == [] && Laid([]) == [];
    assert [] + [] + [a.text] == [a.text];
  }

  lemma LaidTwo(a: Token, b: Token)
    ensures Laid([a, b]) == [a.text] + Between(a, b) + [b.text]
  {
    assert [a, b][..1] == [a];
    LaidOne(a);
  }

  lemma LaidThree(a: Token, b: Token, c: Token)
    ensures Laid([a, b, c]) == [a.text] + Between(a, b) + [b.text] + Between(b, c) + [c.text]
  {
    assert [a, b, c][..2] == [a, b];
    LaidTwo(a, b);
  }

  lemma ConcatThree(a: string, b: string, c: string)
    ensures Concat([a, b, c]) == a + b + c
  {
    assert [a, b, c] == [a, b] + [c] && [a, b] == [a] + [b];
    ConcatAppend([a, b], [c]);
    ConcatAppend([a], [b]);
    ConcatOne(a);
    ConcatOne(b);
    ConcatOne(c);
  }

  lemma FirstPieces(a: Token, b: Token, c: Token)
    requires a.kind == Protected && b.kind == Stop && c.kind == Plain
    ensures Concat(Pieces([a] + [b] + [c])) == a.text + b.text + "\n" + c.text
  {
    assert [a] + [b] + [c] == [a, b, c];
    LaidThree(a, b, c);
    ConcatThree(a.text, b.text, "\n");
    ConcatAppend([a.text, b.text, "\n"], [c.text]);
    ConcatOne(c.text);
    assert Pieces([a, b, c]) == [a.text, b.text, "\n"] + [c.text];
  }

  lemma SecondPieces(a: Token, b: Token)
    requires a.kind == Protected && b.kind == Plain && b.gap
    ensures Concat(Pieces([a] + [b])) == a.text + " " + b.text
  {
    assert [a] + [b] == [a, b];
    LaidTwo(a, b);
    ConcatThree(a.text, " ", b.text);
    assert Pieces([a, b]) == [a.text, " ", b.text];
  }

  lemma BothAreNeat(cc: CharClasses, t: string)
    requires cc.Valid() && cc.space == UnicodeSpace && (t == "e.g.," + "\n" + "x" || t == "e.g.," + " " + "x")
    ensures TrimLines(cc, t) == t
  {
    NeatTextStays(cc, t);
  }

  lemma FirstReflow(s: string)
    requires s == "e.g. , x"
    ensures English().Valid() && Reflow(English(), s) == "e.g.," + "\n" + "x"
  {
    FirstTokens(s);
    FirstPieces(Token(false, Protected, "e.g."), Token(true, Stop, ","), Token(true, Plain, "x"));
    assert "e.g." + "," == "e.g.,";
    BothAreNeat(English().cc, "e.g.," + "\n" + "x");
  }

  lemma SecondReflow(s: string)
    requires s == "e.g.,\nx"
    ensures English().Valid() && Reflow(English(), s) == "e.g.," + " " + "x"
  {
    SecondTokens(s);
    SecondPieces(Token(false, Protected, "e.g.,"), Token(true, Plain, "x"));
    BothAreNeat(English().cc, "e.g.," + " " + "x");
  }

  /** Formatting a formatted text can change it again: a comma that was apart from a protected word is read as
      part of the word the second time. */
  lemma ReflowIsNotIdempotent(s: string)
    requires s == "e.g. , x"
    ensures English().Valid() && Reflow(English(), Reflow(English(), s)) != Reflow(English(), s)
  {
    FirstReflow(s);
    var once := "e.g.," + "\n" + "x";
    SecondReflow(once);
    assert once[5] != ("e.g.," + " " + "x")[5];
  }
}

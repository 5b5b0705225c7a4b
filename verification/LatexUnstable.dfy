/** One text for each further cause for which formatting a formatted text changes it. */
module LatexUnstable {
  import opened PyText
  import opened LatexScanners
  import opened LatexReflow
  import opened LatexContent
  import opened LatexLines
  import opened LatexIdempotence
  import opened LatexMachines
  import opened LatexMarkup
  import opened LatexReread
  import opened LatexSecondPass
  import opened LatexWords
  import opened LatexProtected
  import opened LatexJoins
  import opened LatexFixedPoint
  import opened LatexEnglish
  import Stable = LatexStable

  // ---------------------------------------------------------------- single characters

  /** One more character in front of what is read after it. */
  lemma CharInFront(lang: Language, s: string, i: nat, gap: bool, rest: seq<Token>, t: Token)
    requires lang.Valid() && i < |s| && s[i] !in "\\$%" && !lang.cc.space(s[i]) && ProtectedAt(lang, s, i) == NoMatch
    requires Tokens(lang, s, i + 1, false) == rest && t == Token(gap, Stable.KindOf(s[i]), [s[i]])
    ensures Tokens(lang, s, i, gap) == [t] + rest
  {
    assert LexemeAt(lang, s, i) == Lexeme(t.kind, t.text, i + 1);
    NextLexeme(lang, s, i, gap, LexemeAt(lang, s, i));
  }

  /** A letter inside a run of letters. */
  lemma LetterInFront(lang: Language, s: string, i: nat, rest: seq<Token>, t: Token)
    requires lang.Valid() && 0 < i < |s| && lang.cc.alnum(s[i - 1]) && s[i] !in "\\$%" && !lang.cc.space(s[i])
    requires Tokens(lang, s, i + 1, false) == rest && t == Token(false, Stable.KindOf(s[i]), [s[i]])
    ensures Tokens(lang, s, i, false) == [t] + rest
  {
    CharInFront(lang, s, i, false, rest, t);
  }

  /** No word starts where there is no letter. */
  lemma NoWordAtSign(lang: Language, s: string, i: nat)
    requires Orderly(lang) && i < |s| && !lang.cc.alpha(s[i])
    ensures ProtectedAt(lang, s, i) == NoMatch
  {
    forall w | w in lang.protected ensures WordAt(lang.cc, s, i, w) == NoMatch {
      assert IsWord(lang.cc, w);
    }
    NoWordMatches(lang, s, i);
  }

  // ---------------------------------------------------------------- words found only on the second pass

  /** If the first tokens spell a word and other text follows, the text changes. */
  lemma FirstWordChanges(lang: Language, s: string, ts: seq<Token>, w: string, l: nat)
    requires Orderly(lang) && Named(lang) && ts == Tokens(lang, s, 0, false) && MarkupFree(lang, s) && w in lang.protected
    requires ts != [] && ts[0].kind == Plain && ts[|ts| - 1].kind == Plain && l == SpelledTo(lang.cc, ts, 0, w, 0) > 0
    ensures Reflow(lang, Reflow(lang, s)) != Reflow(lang, s)
  {
    assert JoinsAt(lang, ts, 0);
    assert FirstJoined(lang, ts, 0);
    PlainEndIsNotTaken(lang, s, ts);
    MarkupFreeIsStableIff(lang, s);
  }

  lemma PlainEndIsNotTaken(lang: Language, s: string, ts: seq<Token>)
    requires Orderly(lang) && ts == Tokens(lang, s, 0, false) && ts != [] && ts[0].kind == Plain && ts[|ts| - 1].kind == Plain
    ensures !TakesRest(lang, ts, 0)
  {
    if TakesRest(lang, ts, 0) {
      var v :| v in lang.protected && SpelledTo(lang.cc, ts, 0, v, 0) == |ts|;
      LastIsStop(lang, s, ts, 0, v, |ts|);
    }
  }

  lemma MarkupFreeText(lang: Language, s: string)
    requires forall c :: c in s ==> !Stable.IsMarkup(c)
    ensures MarkupFree(lang, s)
  {
    forall c | c in NonSpace(lang.cc, s) ensures c in s {
      VisibleFrom(lang.cc, s, c);
    }
  }

  lemma {:induction false} VisibleFrom(cc: CharClasses, s: string, c: char)
    requires c in NonSpace(cc, s)
    ensures c in s
  {
    if c != s[|s| - 1] {
      VisibleFrom(cc, s[..|s| - 1], c);
    }
  }

  /** A digit follows the word. */
  lemma FigBeforeDigit(cc: CharClasses, s: string, w: string)
    requires cc.Valid() && |s| == 5 && s[..4] == w == "Fig." && WordPart(cc, s[4]) && s[4] != ','
    ensures MatchWord(cc, s, 0, w, 0).Match? && WordAt(cc, s, 0, w) == NoMatch
  {
    assert w[0..] == w;
    WordMatchesItself(cc, s, 0, w, 0);
  }

  lemma OtherWord(lang: Language, s: string, w: string, v: string)
    requires Orderly(lang) && v in lang.protected && w in lang.protected && v != w && MatchWord(lang.cc, s, 0, w, 0).Match?
    ensures WordAt(lang.cc, s, 0, v) == NoMatch
  {
    var j: nat :| DifferFirst(lang.cc, v, w, j);
    assert IsWord(lang.cc, v) && IsWord(lang.cc, w);
    OneWordOnly(lang.cc, s, 0, v, w, j, 0);
  }

  lemma FigIsRejected(lang: Language, s: string)
    requires Orderly(lang) && "Fig." in lang.protected && |s| == 5 && s[..4] == "Fig." && WordPart(lang.cc, s[4]) && s[4] != ','
    ensures ProtectedAt(lang, s, 0) == NoMatch
  {
    FigBeforeDigit(lang.cc, s, "Fig.");
    forall v | v in lang.protected ensures WordAt(lang.cc, s, 0, v) == NoMatch {
      if v != "Fig." {
        OtherWord(lang, s, "Fig.", v);
      }
    }
    NoWordMatches(lang, s, 0);
  }

  /** White space comes after two letters, and a full stop next. */
  lemma NoWordOverSpace(lang: Language, s: string, v: string)
    requires Orderly(lang) && v in lang.protected && |s| == 6 && lang.cc.alpha(s[0]) && lang.cc.alpha(s[1]) && s[2] == ' ' && s[3] == '.'
    ensures WordAt(lang.cc, s, 0, v) == NoMatch
  {
    var cc := lang.cc;
    assert IsWord(cc, v) && !cc.alnum('.') && !cc.space('.');
    if MatchWord(cc, s, 0, v, 0).Match? {
      assert MatchWord(cc, s, 1, v, 1).Match? && |v| > 1;
      assert MatchWord(cc, s, 2, v, 2).Match? && |v| > 2;
      assert cc.space(v[2]) && cc.alpha(v[3]);
      assert ClassEnd(s, 3, cc.space) == 3;
      assert MatchWord(cc, s, 3, v, 3).Match?;
    }
  }

  lemma CfIsRejected(lang: Language, s: string)
    requires Orderly(lang) && |s| == 6 && lang.cc.alpha(s[0]) && lang.cc.alpha(s[1]) && s[2] == ' ' && s[3] == '.'
    ensures ProtectedAt(lang, s, 0) == NoMatch
  {
    forall v | v in lang.protected ensures WordAt(lang.cc, s, 0, v) == NoMatch {
      NoWordOverSpace(lang, s, v);
    }
    NoWordMatches(lang, s, 0);
  }

  const F: Token := Token(false, Plain, "F")
  const I: Token := Token(false, Plain, "i")
  const G: Token := Token(false, Plain, "g")
  const STOP: Token := Token(false, Stop, ".")
  const THREE: Token := Token(false, Plain, "3")

  lemma FigRest(lang: Language, s: string)
    requires lang.Valid() && |s| == 5 && s[2] == 'g' && s[3] == '.' && s[4] == '3' && lang.cc.alnum('g')
    requires ProtectedAt(lang, s, 4) == NoMatch
    ensures Tokens(lang, s, 3, false) == [STOP] + [THREE]
  {
    assert Tokens(lang, s, 5, false) == [];
    CharInFront(lang, s, 4, false, [], THREE);
    LetterInFront(lang, s, 3, [THREE], STOP);
  }

  lemma FigLetters(lang: Language, s: string, rest: seq<Token>)
    requires lang.Valid() && |s| == 5 && s[0] == 'F' && s[1] == 'i' && s[2] == 'g' && lang.cc.alnum('F') && lang.cc.alnum('i')
    requires Tokens(lang, s, 3, false) == rest
    ensures Tokens(lang, s, 1, false) == [I] + ([G] + rest)
  {
    LetterInFront(lang, s, 2, rest, G);
    LetterInFront(lang, s, 1, [G] + rest, I);
  }

  lemma FigTokens(lang: Language, s: string)
    requires lang.Valid() && |s| == 5 && s[0] == 'F' && s[1] == 'i' && s[2] == 'g' && s[3] == '.' && s[4] == '3'
    requires lang.cc.alnum('F') && lang.cc.alnum('i') && lang.cc.alnum('g')
    requires ProtectedAt(lang, s, 0) == NoMatch && ProtectedAt(lang, s, 4) == NoMatch
    ensures Tokens(lang, s, 0, false) == [F] + ([I] + ([G] + ([STOP] + [THREE])))
  {
    FigRest(lang, s);
    FigLetters(lang, s, [STOP] + [THREE]);
    CharInFront(lang, s, 0, false, [I] + ([G] + ([STOP] + [THREE])), F);
  }

  const C: Token := Token(false, Plain, "c")
  const LATER_F: Token := Token(false, Plain, "f")
  const LATE_STOP: Token := Token(true, Stop, ".")
  const LATE_THREE: Token := Token(true, Plain, "3")

  lemma CfRest(lang: Language, s: string)
    requires lang.Valid() && |s| == 6 && s[2] == ' ' && s[3] == '.' && s[4] == ' ' && s[5] == '3'
    requires ProtectedAt(lang, s, 3) == NoMatch && ProtectedAt(lang, s, 5) == NoMatch
    ensures Tokens(lang, s, 2, false) == [LATE_STOP] + [LATE_THREE]
  {
    assert Tokens(lang, s, 6, false) == [];
    CharInFront(lang, s, 5, true, [], LATE_THREE);
    NextSpace(lang, s, 4, false);
    CharInFront(lang, s, 3, true, [LATE_THREE], LATE_STOP);
    NextSpace(lang, s, 2, false);
  }

  lemma CfTokens(lang: Language, s: string)
    requires lang.Valid() && |s| == 6 && s[0] == 'c' && s[1] == 'f' && s[2] == ' ' && s[3] == '.' && s[4] == ' ' && s[5] == '3'
    requires lang.cc.alnum('c')
    requires ProtectedAt(lang, s, 0) == NoMatch && ProtectedAt(lang, s, 3) == NoMatch && ProtectedAt(lang, s, 5) == NoMatch
    ensures Tokens(lang, s, 0, false) == [C] + ([LATER_F] + ([LATE_STOP] + [LATE_THREE]))
  {
    CfRest(lang, s);
    LetterInFront(lang, s, 1, [LATE_STOP] + [LATE_THREE], LATER_F);
    CharInFront(lang, s, 0, false, [LATER_F] + ([LATE_STOP] + [LATE_THREE]), C);
  }

  lemma SpelledNext(cc: CharClasses, ts: seq<Token>, k: nat, w: string, j: nat)
    requires j < |w| && !cc.space(w[j]) && k < |ts| && ts[k].kind in {Plain, Stop} && ts[k].text == [w[j]]
    requires SepBefore(ts, k + 1) == ""
    ensures SpelledTo(cc, ts, k, w, j) == SpelledTo(cc, ts, k + 1, w, j + 1)
  {
  }

  lemma TightSep(ts: seq<Token>, k: nat)
    requires 0 < k < |ts| && !BreaksAfter(ts[k - 1]) && ts[k].kind != Display && (!ts[k].gap || ts[k].kind == Stop)
    ensures SepBefore(ts, k) == ""
  {
    assert Concat([]) == "";
  }

  lemma SpelledStop(cc: CharClasses, ts: seq<Token>, k: nat, w: string, j: nat)
    requires cc.Valid() && j + 1 == |w| && w[j] == '.' && k < |ts| && ts[k].kind == Stop && ts[k].text == "."
    ensures SpelledTo(cc, ts, k, w, j) == k + 1
  {
    assert !cc.space('.');
    assert SpelledTo(cc, ts, k + 1, w, j + 1) == k + 1;
  }

  lemma FigIsSpelled(cc: CharClasses, ts: seq<Token>, w: string)
    requires cc.Valid() && |ts| >= 4 && w == "Fig." && ts[0] == F && ts[1] == I && ts[2] == G && ts[3] == STOP
    ensures SpelledTo(cc, ts, 0, w, 0) == 4
  {
    TightSep(ts, 1);
    TightSep(ts, 2);
    TightSep(ts, 3);
    SpelledNext(cc, ts, 0, w, 0);
    SpelledNext(cc, ts, 1, w, 1);
    SpelledNext(cc, ts, 2, w, 2);
    SpelledStop(cc, ts, 3, w, 3);
  }

  lemma CfIsSpelled(cc: CharClasses, ts: seq<Token>, w: string)
    requires cc.Valid() && |ts| >= 3 && w == "cf." && ts[0] == C && ts[1] == LATER_F && ts[2] == LATE_STOP
    ensures SpelledTo(cc, ts, 0, w, 0) == 3
  {
    TightSep(ts, 1);
    TightSep(ts, 2);
    SpelledNext(cc, ts, 0, w, 0);
    SpelledNext(cc, ts, 1, w, 1);
    SpelledStop(cc, ts, 2, w, 2);
  }

  /** A word before a digit is no word; after the line end that its full stop brings it is one. */
  lemma DigitAfterWord(lang: Language, s: string)
    requires Orderly(lang) && Named(lang) && "Fig." in lang.protected && lang.cc.alnum('3') && !lang.cc.alpha('3')
    requires s == "Fig." + "3"
    ensures Reflow(lang, Reflow(lang, s)) != Reflow(lang, s)
  {
    FigIsRead(lang, s);
    MarkupFreeText(lang, s);
    FigChanges(lang, s, [F] + ([I] + ([G] + ([STOP] + [THREE]))));
  }

  lemma FigIsRead(lang: Language, s: string)
    requires Orderly(lang) && "Fig." in lang.protected && lang.cc.alnum('3') && !lang.cc.alpha('3')
    requires s == "Fig." + "3"
    ensures Tokens(lang, s, 0, false) == [F] + ([I] + ([G] + ([STOP] + [THREE])))
  {
    assert s[..4] == "Fig.";
    FigIsRejected(lang, s);
    NoWordAtSign(lang, s, 4);
    var w := "Fig.";
    LettersOf(lang, w);
    assert w[0] == 'F' && w[1] == 'i' && w[2] == 'g';
    FigTokens(lang, s);
  }

  lemma LettersOf(lang: Language, w: string)
    requires Orderly(lang) && w in lang.protected
    ensures forall j :: 0 <= j < |w| && '!' <= w[j] <= '~' && w[j] != '.' ==> lang.cc.alpha(w[j]) && lang.cc.alnum(w[j])
  {
    assert IsWord(lang.cc, w);
  }

  lemma FigChanges(lang: Language, s: string, ts: seq<Token>)
    requires Orderly(lang) && Named(lang) && "Fig." in lang.protected && MarkupFree(lang, s) && ts == Tokens(lang, s, 0, false)
    requires ts == [F] + ([I] + ([G] + ([STOP] + [THREE])))
    ensures Reflow(lang, Reflow(lang, s)) != Reflow(lang, s)
  {
    FigIsSpelled(lang.cc, ts, "Fig.");
    FirstWordChanges(lang, s, ts, "Fig.", 4);
  }

  /** White space before the full stop of a word goes, and what is left is the word. */
  lemma SpaceBeforeStop(lang: Language, s: string)
    requires Orderly(lang) && Named(lang) && "cf." in lang.protected && !lang.cc.alpha('3') && s == "cf" + " . 3"
    ensures Reflow(lang, Reflow(lang, s)) != Reflow(lang, s)
  {
    CfIsRead(lang, s);
    MarkupFreeText(lang, s);
    CfChanges(lang, s, [C] + ([LATER_F] + ([LATE_STOP] + [LATE_THREE])));
  }

  lemma CfIsRead(lang: Language, s: string)
    requires Orderly(lang) && "cf." in lang.protected && !lang.cc.alpha('3') && s == "cf" + " . 3"
    ensures Tokens(lang, s, 0, false) == [C] + ([LATER_F] + ([LATE_STOP] + [LATE_THREE]))
  {
    var w := "cf.";
    LettersOf(lang, w);
    assert w[0] == 'c' && w[1] == 'f';
    CfIsRejected(lang, s);
    assert !lang.cc.alnum('.');
    NoWordAtSign(lang, s, 3);
    NoWordAtSign(lang, s, 5);
    CfTokens(lang, s);
  }

  lemma CfChanges(lang: Language, s: string, ts: seq<Token>)
    requires Orderly(lang) && Named(lang) && "cf." in lang.protected && MarkupFree(lang, s) && ts == Tokens(lang, s, 0, false)
    requires ts == [C] + ([LATER_F] + ([LATE_STOP] + [LATE_THREE]))
    ensures Reflow(lang, Reflow(lang, s)) != Reflow(lang, s)
  {
    CfIsSpelled(lang.cc, ts, "cf.");
    FirstWordChanges(lang, s, ts, "cf.", 3);
  }

  // ---------------------------------------------------------------- markup that the trim cuts

  const FORMULA: string := "$$x$$"

  /** A control character before a formula. */
  function BeforeFormula(c: char): string {
    "\\" + [c] + FORMULA
  }

  lemma FormulaStays(lang: Language, d: string)
    requires lang.Valid() && d == FORMULA
    ensures TrimLines(lang.cc, d) == Straight(lang.cc, d) == d && StartsVisible(lang.cc, d) && EndsVisible(lang.cc, d)
  {
    assert forall j :: 0 <= j < 5 ==> '!' <= d[j] <= '~';
    VisibleIsLine(lang.cc, d);
    TrimOfVisible(lang.cc, d);
  }

  lemma ControlIsRead(lang: Language, t: string, c: char)
    requires lang.Valid() && Sane(lang.cc) && Named(lang) && lang.cc.space(c) && t == BeforeFormula(c)
    ensures LexemeAt(lang, t, 0) == Lexeme(Inline, "\\" + [c], 2)
  {
    var cc := lang.cc;
    assert t[0] == '\\' && t[1] == c && t[2] == '$' && !cc.alnum(c);
    ReadsTwo(cc, Start, t, 0, 2);
    ReadsNothing(cc, Ready(""), t, 2);
    assert "" !in lang.block + lang.standalone;
    MarkupEndsAt(lang, t, 0, 2);
    assert t[0..2] == "\\" + [c];
  }

  lemma FormulaIsRead(lang: Language, t: string, c: char)
    requires lang.Valid() && t == BeforeFormula(c)
    ensures LexemeAt(lang, t, 2) == Lexeme(Display, FORMULA, 7)
  {
    assert |t| == 7 && t[2] == '$' && t[3] == '$' && t[4] == 'x' && t[5] == '$' && t[6] == '$';
    assert MathBodyEnd(t, 5, 2) == 7;
    assert MathBodyEnd(t, 4, 2) == 7;
    assert t[2..7] == FORMULA;
    FormulaStays(lang, FORMULA);
  }

  lemma ControlTokens(lang: Language, t: string, c: char, a: Token, b: Token)
    requires lang.Valid() && Sane(lang.cc) && Named(lang) && lang.cc.space(c) && t == BeforeFormula(c)
    requires a == Token(false, Inline, "\\" + [c]) && b == Token(false, Display, FORMULA)
    ensures Tokens(lang, t, 0, false) == [a] + [b]
  {
    assert |t| == 7 && t[0] == '\\' && t[2] == '$';
    ControlIsRead(lang, t, c);
    FormulaIsRead(lang, t, c);
    NextLexeme(lang, t, 2, false, LexemeAt(lang, t, 2));
    NextLexeme(lang, t, 0, false, LexemeAt(lang, t, 0));
    assert Tokens(lang, t, 7, false) == [];
  }

  lemma ControlPrints(lang: Language, t: string, c: char)
    requires lang.Valid() && Sane(lang.cc) && Named(lang) && lang.cc.space(c) && t == BeforeFormula(c)
    ensures Reflow(lang, t) == TrimLines(lang.cc, "\\" + [c] + "\n" + FORMULA + "\n")
  {
    var a, b := Token(false, Inline, "\\" + [c]), Token(false, Display, FORMULA);
    ControlTokens(lang, t, c, a, b);
    Stable.TextOfPieces([a] + [b]);
    TextInFrontOfOne(a, b);
    TextAlone(b);
    ConcatOne("\n");
    ReflowPrints(lang, t);
    assert t[|t| - 1] == '$';
    WithoutBreak(TrimLines(lang.cc, "\\" + [c] + "\n" + FORMULA + "\n"));
  }

  lemma FormulaLine(lang: Language)
    requires lang.Valid()
    ensures Straight(lang.cc, FORMULA + "\n") == FORMULA + "\n"
  {
    FormulaStays(lang, FORMULA);
    StraightBeforeSep(lang.cc, FORMULA, "\n");
  }

  lemma BackslashLine(cc: CharClasses, line: string)
    requires cc.Valid() && (line == "\\" || line == "\\ ")
    ensures IsLine(cc, line) && RStrip(cc, line) == "\\"
  {
    LineHasNoBreak(cc, line);
    assert line[..1] == "\\";
  }

  lemma FirstLineOf(cc: CharClasses, u: string, line: string, rest: string)
    requires cc.Valid() && (line == "\\" || line == "\\ ") && u == line + "\n" + rest
    ensures Straight(cc, u) == "\\" + "\n" + Straight(cc, rest) && StartsVisible(cc, u)
  {
    BackslashLine(cc, line);
    StraightParts(cc, u, line, "\n", rest);
  }

  /** The trim of a first line that holds a backslash. */
  lemma TrimAfterBackslash(cc: CharClasses, u: string, line: string, rest: string, r: string)
    requires cc.Valid() && (line == "\\" || line == "\\ ") && u == line + "\n" + rest && Straight(cc, rest) == rest
    requires "\\" + "\n" + rest == r + "\n" && EndsVisible(cc, r)
    ensures TrimLines(cc, u) == r
  {
    FirstLineOf(cc, u, line, rest);
    TrimIsStraight(cc, u);
    RStripSpaces(cc, r, "\n");
    EndsVisibleStays(cc, r);
  }

  lemma SpaceStrings(u: string, r: string)
    requires u == "\\" + [' '] + "\n" + FORMULA + "\n" && r == BeforeFormula('\n')
    ensures u == "\\ " + "\n" + (FORMULA + "\n") && "\\" + "\n" + (FORMULA + "\n") == r + "\n"
    ensures r != "" && r[|r| - 1] == '$'
  {
  }

  lemma BreakStrings(u: string, rest: string, r: string)
    requires u == "\\" + ['\n'] + "\n" + FORMULA + "\n" && rest == "\n" + (FORMULA + "\n")
    requires r == "\\" + "\n" + "\n" + FORMULA
    ensures u == "\\" + "\n" + rest && "\\" + "\n" + rest == r + "\n" && |r| == 8 && r[7] == '$'
  {
  }

  /** Formatted once, the control space is gone: the backslash stands before the line end ... */
  lemma SpaceIsCut(lang: Language, t: string)
    requires lang.Valid() && Sane(lang.cc) && Named(lang) && t == BeforeFormula(' ')
    ensures Reflow(lang, t) == BeforeFormula('\n')
  {
    var u, r := "\\" + [' '] + "\n" + FORMULA + "\n", BeforeFormula('\n');
    ControlPrints(lang, t, ' ');
    FormulaLine(lang);
    SpaceStrings(u, r);
    TrimAfterBackslash(lang.cc, u, "\\ ", FORMULA + "\n", r);
  }

  /** ... and takes that for its own character, so that another line end is put after it. */
  lemma BreakIsDoubled(lang: Language, t: string)
    requires lang.Valid() && Sane(lang.cc) && Named(lang) && t == BeforeFormula('\n')
    ensures Reflow(lang, t) != t
  {
    var u, rest := "\\" + ['\n'] + "\n" + FORMULA + "\n", "\n" + (FORMULA + "\n");
    var r := "\\" + "\n" + "\n" + FORMULA;
    ControlPrints(lang, t, '\n');
    FormulaLine(lang);
    StraightBreak(lang.cc, FORMULA + "\n");
    BreakStrings(u, rest, r);
    assert |t| == 7;
    TrimAfterBackslash(lang.cc, u, "\\", rest, r);
  }

  /** A control space before a formula on lines of its own. */
  lemma ControlSpaceBeforeBreak(lang: Language, s: string)
    requires lang.Valid() && Sane(lang.cc) && Named(lang) && s == "\\ $$x$$"
    ensures Reflow(lang, Reflow(lang, s)) != Reflow(lang, s)
  {
    assert s == BeforeFormula(' ');
    SpaceIsCut(lang, s);
    BreakIsDoubled(lang, BeforeFormula('\n'));
  }

  // ---------------------------------------------------------------- a comment that the trim cuts

  /** A comment, a separator, and two numbers with a comma. */
  function Commented(c: char): string {
    "%" + [c] + "1,2"
  }

  const PERCENT: Token := Token(false, Comment, "%")
  const ONE: Token := Token(true, Plain, "1")
  const COMMA: Token := Token(false, Stop, ",")
  const TWO: Token := Token(false, Plain, "2")

  lemma CommentEnds(s: string, c: char)
    requires s == Commented(c) && c != '\r' && c != '\n'
    ensures ClassEnd(s, 1, NotLineEnd) == |s|
  {
    assert |s| == 5 && s[1] == c && s[2] == '1' && s[3] == ',' && s[4] == '2';
    NotLineEndRun(s, 1, 5);
  }

  /** With another boundary than a line end the comment is read as one token ... */
  lemma CommentIsOne(lang: Language, s: string, c: char, t: Token)
    requires lang.Valid() && s == Commented(c) && c != '\r' && c != '\n' && t == Token(false, Comment, s)
    ensures Tokens(lang, s, 0, false) == [t]
  {
    assert s[|s| - 1] == '2' && s[0] == '%';
    CommentEnds(s, c);
    assert s[0..|s|] == s;
    EndsVisibleStays(lang.cc, s);
    NextLexeme(lang, s, 0, false, LexemeAt(lang, s, 0));
    assert Tokens(lang, s, |s|, false) == [];
  }

  lemma OneIsWhole(cc: CharClasses, t: Token)
    requires StartsVisible(cc, t.text) && EndsVisible(cc, t.text)
    ensures Whole(cc, [t])
  {
  }

  lemma CommentPrints(lang: Language, s: string, c: char)
    requires lang.Valid() && s == Commented(c) && c != '\r' && c != '\n'
    ensures Reflow(lang, s) == Straight(lang.cc, s)
  {
    var t := Token(false, Comment, s);
    assert s[|s| - 1] == '2' && s[0] == '%';
    CommentIsOne(lang, s, c, t);
    OneIsWhole(lang.cc, t);
    ReflowPrints(lang, s);
    TrimmedPrint(lang.cc, [t]);
    TextAlone(t);
  }

  lemma CutComment(cc: CharClasses, s: string, c: char)
    requires cc.Valid() && s == Commented(c) && cc.lineBreak(c) && c != '\r'
    ensures Straight(cc, s) == Commented('\n')
  {
    LineHasNoBreak(cc, "%");
    StraightParts(cc, s, "%", [c], "1,2");
    EndsVisibleStays(cc, "%");
    VisibleIsLine(cc, "1,2");
  }

  /** ... and the trim cuts it in two. */
  lemma CommentIsCut(lang: Language, s: string, c: char)
    requires lang.Valid() && s == Commented(c) && c != '\r' && c != '\n' && lang.cc.lineBreak(c)
    ensures Reflow(lang, s) == Commented('\n')
  {
    CommentPrints(lang, s, c);
    CutComment(lang.cc, s, c);
  }

  lemma LastNumberRead(lang: Language, q: string)
    requires Orderly(lang) && !lang.cc.alpha('2') && |q| == 5 && q[3] == ',' && q[4] == '2'
    ensures Tokens(lang, q, 3, false) == [COMMA] + [TWO]
  {
    assert !lang.cc.alnum(',');
    NoWordAtSign(lang, q, 3);
    NoWordAtSign(lang, q, 4);
    assert Tokens(lang, q, 5, false) == [];
    CharInFront(lang, q, 4, false, [], TWO);
    CharInFront(lang, q, 3, false, [TWO], COMMA);
  }

  lemma NumbersRead(lang: Language, q: string)
    requires Orderly(lang) && !lang.cc.alpha('1') && !lang.cc.alpha('2') && q == Commented('\n')
    ensures Tokens(lang, q, 1, false) == [ONE] + ([COMMA] + [TWO])
  {
    assert |q| == 5 && q[1] == '\n' && q[2] == '1' && q[3] == ',' && q[4] == '2';
    LastNumberRead(lang, q);
    NoWordAtSign(lang, q, 2);
    CharInFront(lang, q, 2, true, [COMMA] + [TWO], ONE);
    NextSpace(lang, q, 1, false);
  }

  lemma PercentRead(lang: Language, q: string)
    requires lang.Valid() && q == Commented('\n')
    ensures Tokens(lang, q, 0, false) == [PERCENT] + Tokens(lang, q, 1, false)
  {
    assert q[0] == '%' && q[1] == '\n' && q[0..1] == "%";
    LineHasNoBreak(lang.cc, "%");
    CommentAgain(lang, q, 0, 1);
    NextLexeme(lang, q, 0, false, LexemeAt(lang, q, 0));
  }

  lemma NumbersText()
    ensures Stable.Text([PERCENT] + ([ONE] + ([COMMA] + [TWO]))) == "%" + "\n" + ("1" + "" + ("," + "\n" + "2"))
  {
    ConcatOne("\n");
    assert Concat([]) == "";
    TextInFrontOfOne(COMMA, TWO);
    TextAlone(TWO);
    TextInFront(ONE, [COMMA] + [TWO]);
    TextInFront(PERCENT, [ONE] + ([COMMA] + [TWO]));
  }

  lemma NumbersTokens(lang: Language, q: string)
    requires Orderly(lang) && !lang.cc.alpha('1') && !lang.cc.alpha('2') && q == Commented('\n')
    ensures Tokens(lang, q, 0, false) == [PERCENT] + ([ONE] + ([COMMA] + [TWO]))
  {
    PercentRead(lang, q);
    NumbersRead(lang, q);
  }

  lemma NumbersWhole(cc: CharClasses, ts: seq<Token>)
    requires cc.Valid() && ts == [PERCENT] + ([ONE] + ([COMMA] + [TWO]))
    ensures Whole(cc, ts)
  {
    assert forall k :: 0 <= k < |ts| ==> WholeAt(cc, ts[k], LastOnLine(ts, k));
  }

  lemma NumbersStay(cc: CharClasses, u: string)
    requires cc.Valid() && u == "%" + "\n" + ("1" + "" + ("," + "\n" + "2"))
    ensures |Straight(cc, u)| == 6
  {
    assert |u| == 6 && u[0] == '%' && u[1] == '\n' && u[2] == '1' && u[3] == ',' && u[4] == '\n' && u[5] == '2';
    StraightStays(cc, u);
  }

  lemma NumbersPrint(cc: CharClasses, ts: seq<Token>)
    requires cc.Valid() && ts == [PERCENT] + ([ONE] + ([COMMA] + [TWO]))
    ensures |TrimLines(cc, Concat(Pieces(ts)))| == 6
  {
    NumbersWhole(cc, ts);
    TrimmedPrint(cc, ts);
    NumbersText();
    NumbersStay(cc, Stable.Text(ts));
  }

  /** The second line, no comment any more, is broken at its comma. */
  lemma NumbersBreak(lang: Language, q: string)
    requires Orderly(lang) && !lang.cc.alpha('1') && !lang.cc.alpha('2') && q == Commented('\n')
    ensures Reflow(lang, q) != q
  {
    NumbersTokens(lang, q);
    NumbersPrint(lang.cc, Tokens(lang, q, 0, false));
    ReflowPrints(lang, q);
    assert |q| == 5;
  }

  /** A comment that holds a form feed, or another line boundary that does not end it. */
  lemma BoundaryInComment(lang: Language, s: string, c: char)
    requires Orderly(lang) && !lang.cc.alpha('1') && !lang.cc.alpha('2')
    requires s == Commented(c) && lang.cc.lineBreak(c) && c != '\r' && c != '\n'
    ensures Reflow(lang, Reflow(lang, s)) != Reflow(lang, s)
  {
    CommentIsCut(lang, s, c);
    NumbersBreak(lang, Commented('\n'));
  }

  // ---------------------------------------------------------------- with the program's own lists

  /** The program's lists and classes are as the four lemmas ask, beside `EnglishIsOrderly`. */
  lemma EnglishCharacters()
    ensures "Fig." in English().protected && "cf." in English().protected && English().cc.lineBreak('\U{0C}')
    ensures English().cc.alnum('3') && forall c :: c in "123" ==> !English().cc.alpha(c)
  {
  }
}

/** Protected words, commas and full stops are read again where they were printed, except that a word takes up a
    comma that was apart from it. */
module LatexProtected {
  import opened PyText
  import opened LatexScanners
  import opened LatexReflow
  import opened LatexContent
  import opened LatexLines
  import opened LatexMachines
  import opened LatexMarkup
  import opened LatexReread
  import opened LatexSecondPass
  import opened LatexOrigins
  import opened LatexPrinted
  import opened LatexWords
  import Stable = LatexStable

  // ---------------------------------------------------------------- words and single characters in the text

  function Last(t: string): char
    requires t != ""
  {
    t[|t| - 1]
  }

  lemma CharToken(lang: Language, s: string, ts: seq<Token>, k: nat, i: nat)
    requires OriginAt(lang, s, ts, k, i) && ts[k].kind in {Plain, Stop}
    ensures ts[k].text == [s[i]] && LexemeAt(lang, s, i).end == i + 1 && s[i] !in "\\$%"
    ensures ts[k].kind == Stop <==> s[i] == ',' || s[i] == '.'
  {
  }

  /** A word taken from the text: its rendering, the comma it may have, and what stands around it. */
  ghost predicate WordTaken(lang: Language, s: string, i: nat, e: nat, text: string, w: string, o: string) {
    && i <= e <= |s| && w in lang.protected && Renders(lang.cc, o, w, 0)
    && (text == o + "," || (text == o && (e < |s| ==> s[e] != ',')))
    && (e < |s| ==> !WordPart(lang.cc, s[e])) && (i > 0 ==> !WordPart(lang.cc, s[i - 1]))
  }

  lemma WordFrom(lang: Language, s: string, i: nat, w: string, m: Match) returns (o: string)
    requires lang.Valid() && i <= |s| && w in lang.protected && m == WordAt(lang.cc, s, i, w) && m.Match?
    requires i > 0 ==> !WordPart(lang.cc, s[i - 1])
    ensures WordTaken(lang, s, i, m.end, m.output, w, o)
  {
    MatchRenders(lang.cc, s, i, w, 0);
    o := MatchWord(lang.cc, s, i, w, 0).output;
  }

  lemma ProtectedLexeme(lang: Language, s: string, i: nat)
    requires lang.Valid() && i < |s| && LexemeAt(lang, s, i).kind == Protected
    ensures var x, m := LexemeAt(lang, s, i), FirstWord(lang, s, i, 0);
            m == Match(x.end, x.text) && (i > 0 ==> !WordPart(lang.cc, s[i - 1])) && s[i] !in "\\$%"
  {
  }

  lemma ProtectedToken(lang: Language, s: string, ts: seq<Token>, k: nat, i: nat) returns (w: string, o: string)
    requires OriginAt(lang, s, ts, k, i) && ts[k].kind == Protected
    ensures WordTaken(lang, s, i, LexemeAt(lang, s, i).end, ts[k].text, w, o)
  {
    ProtectedLexeme(lang, s, i);
    w := FoundWord(lang, s, i, 0);
    o := WordFrom(lang, s, i, w, FirstWord(lang, s, i, 0));
  }

  lemma RenderedEnd(lang: Language, o: string, w: string)
    requires Orderly(lang) && w in lang.protected && Renders(lang.cc, o, w, 0)
    ensures o != "" && Last(o) == '.'
  {
    assert IsWord(lang.cc, w);
    assert RendersAt(lang.cc, o[|o| - 1], w[0 + (|o| - 1)]);
    assert !lang.cc.space('.');
  }

  /** A protected token ends with its full stop or its comma. */
  lemma ProtectedEnds(lang: Language, s: string, ts: seq<Token>, k: nat, i: nat)
    requires Orderly(lang) && OriginAt(lang, s, ts, k, i) && ts[k].kind == Protected
    ensures ts[k].text != "" && (Last(ts[k].text) == '.' || Last(ts[k].text) == ',')
  {
    var w, o := ProtectedToken(lang, s, ts, k, i);
    RenderedEnd(lang, o, w);
    if ts[k].text == o + "," {
      SameEnd(o, ",");
    }
  }

  lemma CommentText(lang: Language, s: string, i: nat)
    requires lang.Valid() && i < |s| && LexemeAt(lang, s, i).kind == Comment
    ensures EndsVisible(lang.cc, LexemeAt(lang, s, i).text)
  {
    var e := ClassEnd(s, i + 1, NotLineEnd);
    LastOfSlice(s, i, e);
    RStripStart(lang.cc, s[i..e]);
    RStripTail(lang.cc, s[i..e]);
  }

  lemma DisplayEnds(lang: Language, s: string, i: nat, e: nat, st: State, text: string, alone: bool)
    requires lang.Valid() && MarkupAt(lang, s, i, e, st, Display, text, alone) && !lang.cc.space(s[i])
    ensures EndsVisible(lang.cc, text)
  {
    LastOfSlice(s, i, e);
    DisplayTextIsStraight(lang.cc, s[i..e]);
  }

  lemma TokenEnds(lang: Language, s: string, ts: seq<Token>, k: nat, i: nat)
    requires Orderly(lang) && Named(lang) && OriginAt(lang, s, ts, k, i) && ts[k].kind != Inline
    ensures EndsVisible(lang.cc, ts[k].text)
  {
    match ts[k].kind {
      case Protected =>
        ProtectedEnds(lang, s, ts, k, i);
        return;
      case Comment =>
        CommentText(lang, s, i);
        return;
      case Display =>
        var e, st, alone := MarkupOrigin(lang, s, ts, k, i);
        DisplayEnds(lang, s, i, e, st, ts[k].text, alone);
        return;
      case _ =>
        CharToken(lang, s, ts, k, i);
        return;
    }
  }

  /** Every token but an inline one ends visibly. */
  lemma TokensEndWhole(lang: Language, s: string, ts: seq<Token>)
    requires Orderly(lang) && Named(lang) && ts == Tokens(lang, s, 0, false)
    ensures EndsWhole(lang.cc, ts)
  {
    forall k | 0 <= k < |ts| ensures ts[k].kind == Inline || EndsVisible(lang.cc, ts[k].text) {
      var i := Origin(lang, s, ts, k);
      if ts[k].kind != Inline {
        TokenEnds(lang, s, ts, k, i);
      }
    }
  }

  /** A text whose markup the trim does not cut makes a solid pass. */
  lemma SolidTextPasses(lang: Language, s: string, ts: seq<Token>)
    requires Orderly(lang) && Named(lang) && ts == Tokens(lang, s, 0, false) && Solid(lang.cc, ts)
    ensures SolidPass(lang, s, ts, Reflow(lang, s), Straightened(lang.cc, ts))
  {
    TokensEndWhole(lang, s, ts);
    forall k | 0 <= k < |ts| ensures WholeAt(lang.cc, ts[k], LastOnLine(ts, k)) {
      var i := Origin(lang, s, ts, k);
      OriginStarts(lang, s, ts, k, i);
      assert SolidAt(lang.cc, ts, k);
    }
    FirstPass(lang, s, ts);
    FirstPassPrints(lang, s, ts);
  }

  // ---------------------------------------------------------------- the character before a token

  /** A word may start at the token. */
  predicate BoundaryAt(cc: CharClasses, ts: seq<Token>, k: nat)
    requires k < |ts|
  {
    k == 0 || SepBefore(ts, k) != "" || ts[k - 1].text == "" || !WordPart(cc, Last(ts[k - 1].text))
  }

  lemma TightKind(ts: seq<Token>, k: nat)
    requires 0 < k < |ts| && SepBefore(ts, k) == ""
    ensures ts[k - 1].kind in {Plain, Inline, Protected}
  {
    ConcatOne("\n");
  }

  lemma LastOfInline(lang: Language, s: string, ts: seq<Token>, k: nat, i: nat)
    requires Orderly(lang) && Named(lang) && OriginAt(lang, s, ts, k, i) && ts[k].kind == Inline
    ensures ts[k].text != "" && Last(ts[k].text) == s[LexemeAt(lang, s, i).end - 1]
  {
    InlineText(lang, s, ts, k, i);
    LastOfSlice(s, i, LexemeAt(lang, s, i).end);
  }

  lemma MarksAreNoWordPart(cc: CharClasses)
    requires Sane(cc)
    ensures !WordPart(cc, ',') && !WordPart(cc, '.')
  {
    assert !cc.alnum(',') && !cc.alnum('.');
  }

  lemma LastBefore(lang: Language, s: string, ts: seq<Token>, k: nat, i: nat)
    requires Orderly(lang) && Named(lang) && OriginAt(lang, s, ts, k, i) && ts[k].kind in {Plain, Inline, Protected}
    ensures var e := LexemeAt(lang, s, i).end;
            ts[k].text != "" && (Last(ts[k].text) == s[e - 1] || !WordPart(lang.cc, Last(ts[k].text)))
  {
    if ts[k].kind == Plain {
      CharToken(lang, s, ts, k, i);
      return;
    }
    if ts[k].kind == Inline {
      LastOfInline(lang, s, ts, k, i);
      return;
    }
    ProtectedEnds(lang, s, ts, k, i);
    MarksAreNoWordPart(lang.cc);
  }

  /** A token that is apart from word characters in the text is so in the print. */
  lemma BoundaryKept(lang: Language, s: string, ts: seq<Token>, k: nat, i: nat, j: nat)
    requires Orderly(lang) && Named(lang) && 0 < k && OriginAt(lang, s, ts, k - 1, j) && OriginAt(lang, s, ts, k, i)
    requires i == ClassEnd(s, LexemeAt(lang, s, j).end, lang.cc.space)
    requires ts[k].kind != Stop && (i > 0 ==> !WordPart(lang.cc, s[i - 1]))
    ensures BoundaryAt(lang.cc, ts, k)
  {
    if SepBefore(ts, k) == "" {
      TightBoundary(lang, s, ts, k - 1, i, j);
    }
  }

  lemma TightBoundary(lang: Language, s: string, ts: seq<Token>, k: nat, i: nat, j: nat)
    requires Orderly(lang) && Named(lang) && OriginAt(lang, s, ts, k, j) && OriginAt(lang, s, ts, k + 1, i)
    requires i == ClassEnd(s, LexemeAt(lang, s, j).end, lang.cc.space) && SepBefore(ts, k + 1) == ""
    requires ts[k + 1].kind != Stop && (i > 0 ==> !WordPart(lang.cc, s[i - 1]))
    ensures ts[k].text != "" && !WordPart(lang.cc, Last(ts[k].text))
  {
    TightKind(ts, k + 1);
    NotTight(lang, s, ts, k + 1, i, j);
    LastBefore(lang, s, ts, k, j);
    assert i > 0;
  }

  lemma NotTight(lang: Language, s: string, ts: seq<Token>, k: nat, i: nat, j: nat)
    requires 0 < k && OriginAt(lang, s, ts, k - 1, j) && OriginAt(lang, s, ts, k, i)
    requires i == ClassEnd(s, LexemeAt(lang, s, j).end, lang.cc.space)
    requires ts[k].kind != Stop && SepBefore(ts, k) == ""
    ensures i == LexemeAt(lang, s, j).end
  {
    NextOrigin(lang, s, ts, k - 1, j);
    if ts[k].gap {
      TightNext(ts, k);
    }
  }

  lemma ProtectedAtBoundary(lang: Language, s: string, ts: seq<Token>, k: nat)
    requires Orderly(lang) && Named(lang) && ts == Tokens(lang, s, 0, false) && k < |ts| && ts[k].kind == Protected
    ensures BoundaryAt(lang.cc, ts, k)
  {
    if k > 0 {
      var j := Origin(lang, s, ts, k - 1);
      NextOrigin(lang, s, ts, k - 1, j);
      var i := ClassEnd(s, LexemeAt(lang, s, j).end, lang.cc.space);
      ProtectedLexeme(lang, s, i);
      BoundaryKept(lang, s, ts, k, i, j);
    }
  }

  lemma SameLast(lang: Language, s: string, ts: seq<Token>, us: seq<Token>, k: nat)
    requires lang.Valid() && Sane(lang.cc) && Named(lang) && ts == Tokens(lang, s, 0, false) && k < |ts|
    requires us == Straightened(lang.cc, ts) && Solid(lang.cc, ts) && EndsWhole(lang.cc, ts)
    ensures ts[k].text != "" && us[k].text != "" && Last(us[k].text) == Last(ts[k].text)
  {
    assert SolidAt(lang.cc, ts, k);
    if EndsVisible(lang.cc, ts[k].text) {
      StraightEnds(lang.cc, ts[k].text);
    } else {
      var i := Origin(lang, s, ts, k);
      InlineIsRooted(lang, s, ts, k, i);
    }
  }

  lemma LastOfSum(a: string, b: string, t: string)
    requires t == a + b && b != ""
    ensures t != "" && Last(t) == Last(b)
  {
  }

  lemma LastOfText(us: seq<Token>, k: nat)
    requires k < |us| && us[k].text != ""
    ensures Stable.Text(us[..k + 1]) != "" && Last(Stable.Text(us[..k + 1])) == Last(us[k].text)
  {
    TextUpTo(us, k);
    LastOfSum(Before(us, k), us[k].text, Stable.Text(us[..k + 1]));
  }

  lemma CharBefore(q: string, p: nat, a: string, sep: string)
    requires p <= |q| && q[..p] == a + sep && a != "" && (sep == "" || sep == " " || sep == "\n")
    ensures p > 0 && (if sep == "" then q[p - 1] == Last(a) else q[p - 1] == sep[0])
  {
    assert q[p - 1] == q[..p][p - 1] == (a + sep)[p - 1];
  }

  lemma CharBeforePrint(lang: Language, s: string, ts: seq<Token>, q: string, us: seq<Token>, k: nat)
    requires SolidPass(lang, s, ts, q, us) && 0 < k < |ts|
    ensures var p, sep := PlaceOf(us, k), SepBefore(ts, k);
            0 < p <= |q| && ts[k - 1].text != "" && q[p - 1] == if sep == "" then Last(ts[k - 1].text) else sep[0]
  {
    TextIsPrefix(q, us);
    BeforeInPrint(q, us, k);
    SameLast(lang, s, ts, us, k - 1);
    LastOfText(us, k - 1);
    SameSeparator(lang.cc, ts, k);
    CharBefore(q, PlaceOf(us, k), Stable.Text(us[..k]), SepBefore(us, k));
  }

  lemma BoundaryRule(cc: CharClasses, ts: seq<Token>, k: nat, sep: string, c: char)
    requires Sane(cc) && 0 < k < |ts| && ts[k - 1].text != "" && sep == SepBefore(ts, k)
    requires c == if sep == "" then Last(ts[k - 1].text) else sep[0]
    ensures BoundaryAt(cc, ts, k) <==> !WordPart(cc, c)
  {
    assert !cc.alnum(' ') && !cc.alnum('\n');
  }

  lemma BoundaryInPrint(lang: Language, s: string, ts: seq<Token>, q: string, us: seq<Token>, k: nat, p: nat)
    requires SolidPass(lang, s, ts, q, us) && k < |ts| && p == PlaceOf(us, k)
    ensures p <= |q| && (BoundaryAt(lang.cc, ts, k) <==> (p > 0 ==> !WordPart(lang.cc, q[p - 1])))
  {
    if k == 0 {
      BeforeFirst(us);
    } else {
      CharBeforePrint(lang, s, ts, q, us, k);
      BoundaryRule(lang.cc, ts, k, SepBefore(ts, k), q[p - 1]);
    }
  }

  // ---------------------------------------------------------------- read again

  lemma NoWordMatches(lang: Language, q: string, p: nat)
    requires lang.Valid() && p <= |q| && forall w :: w in lang.protected ==> WordAt(lang.cc, q, p, w) == NoMatch
    ensures ProtectedAt(lang, q, p) == NoMatch
  {
    if FirstWord(lang, q, p, 0).Match? {
      var w := FoundWord(lang, q, p, 0);
    }
  }

  /** No word starts with a comma or a full stop. */
  lemma NoWordAtMark(lang: Language, q: string, p: nat)
    requires Orderly(lang) && p < |q| && (q[p] == ',' || q[p] == '.')
    ensures LexemeAt(lang, q, p) == Lexeme(Stop, [q[p]], p + 1)
  {
    forall w | w in lang.protected ensures WordAt(lang.cc, q, p, w) == NoMatch {
      assert IsWord(lang.cc, w);
      assert !lang.cc.alnum(',') && !lang.cc.alnum('.');
    }
    NoWordMatches(lang, q, p);
  }

  lemma OneCharPrinted(lang: Language, s: string, ts: seq<Token>, us: seq<Token>, k: nat, i: nat)
    requires lang.Valid() && OriginAt(lang, s, ts, k, i) && ts[k].kind in {Plain, Stop} && us == Straightened(lang.cc, ts)
    ensures us[k].text == ts[k].text == [s[i]]
  {
    CharToken(lang, s, ts, k, i);
    LineHasNoBreak(lang.cc, [s[i]]);
    StraightOfLine(lang.cc, [s[i]]);
  }

  /** Every comma and full stop is read again where it was printed. */
  lemma StopReadAgain(lang: Language, s: string, ts: seq<Token>, q: string, us: seq<Token>, k: nat)
    requires SolidPass(lang, s, ts, q, us) && Orderly(lang) && k < |ts| && ts[k].kind == Stop
    ensures PlaceOf(us, k) < |q| && ReadAgainAt(lang, q, us, k)
  {
    var i := Origin(lang, s, ts, k);
    CharToken(lang, s, ts, k, i);
    OneCharPrinted(lang, s, ts, us, k, i);
    var p, e, n := IsPrintedAt(lang, q, us, k);
    NoWordAtMark(lang, q, p);
    AgainAt(lang, q, us, k, p, e, n, LexemeAt(lang, q, p));
  }

  lemma VisibleIsLine(cc: CharClasses, t: string)
    requires cc.Valid() && forall j :: 0 <= j < |t| ==> t[j] == ' ' || !cc.space(t[j])
    ensures Straight(cc, t) == t
  {
    LineHasNoBreak(cc, t);
    StraightOfLine(cc, t);
  }

  lemma RenderedIsLine(lang: Language, o: string, w: string, text: string)
    requires Orderly(lang) && Renders(lang.cc, o, w, 0) && (text == o || text == o + ",")
    ensures Straight(lang.cc, text) == text
  {
    forall j | 0 <= j < |text| ensures text[j] == ' ' || !lang.cc.space(text[j]) {
      if j < |o| {
        assert RendersAt(lang.cc, o[j], w[0 + j]);
      }
    }
    VisibleIsLine(lang.cc, text);
  }

  lemma RenderedStart(lang: Language, o: string, w: string)
    requires Orderly(lang) && w in lang.protected && Renders(lang.cc, o, w, 0)
    ensures o != "" && o[0] !in "\\$%" && !lang.cc.space(o[0])
  {
    assert IsWord(lang.cc, w);
    assert RendersAt(lang.cc, o[0], w[0 + 0]);
    assert lang.cc.alpha(o[0]) by { assert !lang.cc.space(w[0]); }
  }

  lemma TextParts(q: string, p: nat, e: nat, o: string, text: string)
    requires p <= e <= |q| && q[p..e] == text && (text == o + "," || text == o)
    ensures HasAt(q, p, o)
    ensures if text == o then e == p + |o| else e == p + |o| + 1 && q[p + |o|] == ','
  {
    assert q[p..p + |o|] == q[p..e][..|o|];
    if text != o {
      assert q[p + |o|] == q[p..e][|o|];
    }
  }

  lemma WordAtText(lang: Language, q: string, p: nat, e: nat, w: string, o: string, text: string)
    requires Orderly(lang) && w in lang.protected && Renders(lang.cc, o, w, 0) && p <= e <= |q| && q[p..e] == text
    requires text == o + "," || (text == o && (e < |q| ==> q[e] != ','))
    requires e < |q| ==> !WordPart(lang.cc, q[e])
    ensures WordAt(lang.cc, q, p, w) == Match(e, text)
  {
    TextParts(q, p, e, o, text);
    assert IsWord(lang.cc, w);
    RenderedMatches(lang.cc, q, p, o, w, 0);
    WordAtEnd(lang.cc, q, p, e, w, o, text);
  }

  lemma WordAtEnd(cc: CharClasses, q: string, p: nat, e: nat, w: string, o: string, text: string)
    requires p <= e <= |q| && MatchWord(cc, q, p, w, 0) == Match(p + |o|, o) && p + |o| <= |q|
    requires if text == o then e == p + |o| else text == o + "," && e == p + |o| + 1 && q[p + |o|] == ','
    requires text == o ==> e < |q| ==> q[e] != ','
    requires e < |q| ==> !WordPart(cc, q[e])
    ensures WordAt(cc, q, p, w) == Match(e, text)
  {
  }

  /** A word that stands in a text between other than word characters is read as a protected token. */
  lemma WordIsRead(lang: Language, q: string, p: nat, e: nat, w: string, o: string, text: string)
    requires Orderly(lang) && w in lang.protected && Renders(lang.cc, o, w, 0) && p < e <= |q| && q[p..e] == text
    requires text == o + "," || (text == o && (e < |q| ==> q[e] != ','))
    requires (e < |q| ==> !WordPart(lang.cc, q[e])) && (p > 0 ==> !WordPart(lang.cc, q[p - 1]))
    ensures LexemeAt(lang, q, p) == Lexeme(Protected, text, e)
  {
    WordAtText(lang, q, p, e, w, o, text);
    assert lang.protected[0..] == lang.protected;
    FirstIsOnly(lang, q, p, 0, w);
    RenderedStart(lang, o, w);
    assert q[p] == q[p..e][0] == o[0];
  }

  /** A word without a comma, before a comma that white space kept apart. */
  predicate TakesComma(ts: seq<Token>, k: nat)
    requires k < |ts|
  {
    ts[k].kind == Protected && ts[k].text != "" && Last(ts[k].text) != ',' && k + 1 < |ts| && ts[k + 1].text == ","
  }

  lemma CommaToken(lang: Language, s: string, ts: seq<Token>, k: nat, i: nat)
    requires Orderly(lang) && OriginAt(lang, s, ts, k, i) && s[i] == ','
    ensures ts[k].text == "," && ts[k].kind == Stop
  {
    NoWordAtMark(lang, s, i);
  }

  lemma AfterWord(cc: CharClasses, s: string, from: nat, q: string, e: nat)
    requires Sane(cc) && Follows(cc, s, from, q, e) && (from < |s| ==> !WordPart(cc, s[from]))
    ensures e < |q| ==> !WordPart(cc, q[e])
  {
    MarksAreNoWordPart(cc);
    if e < |q| && cc.space(q[e]) {
      assert !cc.alnum(q[e]);
    }
  }

  lemma NoSepBeforeVisible(cc: CharClasses, q: string, e: nat, n: nat, sep: string)
    requires cc.Valid() && e <= n <= |q| && q[e..n] == sep && (sep == "" || sep == " " || sep == "\n")
    ensures n == e || cc.space(q[e])
  {
    if n > e {
      assert q[e] == q[e..n][0];
    }
  }

  lemma CommaNext(lang: Language, s: string, ts: seq<Token>, q: string, us: seq<Token>, k: nat, i: nat, n: nat)
    requires Pass(lang, s, ts, q, us) && Orderly(lang) && k + 1 < |ts| && OriginAt(lang, s, ts, k, i)
    requires n == PlaceOf(us, k + 1) < |q| && q[n] == ','
    ensures ts[k + 1].text == ","
  {
    NextOrigin(lang, s, ts, k, i);
    var j := ClassEnd(s, LexemeAt(lang, s, i).end, lang.cc.space);
    NextInPrint(lang, s, ts, q, us, k + 1, j, n, ts[k + 1].gap);
    CommaToken(lang, s, ts, k + 1, j);
  }

  /** A comma right after a protected token in the print is the next token. */
  lemma CommaFollows(lang: Language, s: string, ts: seq<Token>, q: string, us: seq<Token>, k: nat,
                     i: nat, p: nat, e: nat, n: nat)
    requires Pass(lang, s, ts, q, us) && Orderly(lang) && OriginAt(lang, s, ts, k, i) && PrintedAt(q, us, k, p, e, n)
    requires e < |q| && q[e] == ','
    ensures k + 1 < |ts| && ts[k + 1].text == ","
  {
    if k + 1 == |us| {
      PrintEnds(lang.cc, q, us, k, p, e, n);
      return;
    }
    NoSepBeforeVisible(lang.cc, q, e, n, SepBefore(us, k + 1));
    CommaNext(lang, s, ts, q, us, k, i, n);
  }

  /** Every protected token that takes up no comma is read again where it was printed. */
  lemma ProtectedReadAgain(lang: Language, s: string, ts: seq<Token>, q: string, us: seq<Token>, k: nat)
    requires SolidPass(lang, s, ts, q, us) && Orderly(lang) && k < |ts| && ts[k].kind == Protected && !TakesComma(ts, k)
    ensures PlaceOf(us, k) < |q| && ReadAgainAt(lang, q, us, k)
  {
    var i := Origin(lang, s, ts, k);
    var w, o := ProtectedToken(lang, s, ts, k, i);
    RenderedIsLine(lang, o, w, ts[k].text);
    var p, e, n := IsPrintedAt(lang, q, us, k);
    FollowsInPrint(lang, s, ts, q, us, k, i, p, e, n);
    AfterWord(lang.cc, s, LexemeAt(lang, s, i).end, q, e);
    RenderedEnd(lang, o, w);
    if ts[k].text == o && e < |q| && q[e] == ',' {
      CommaFollows(lang, s, ts, q, us, k, i, p, e, n);
    }
    ProtectedAtBoundary(lang, s, ts, k);
    BoundaryInPrint(lang, s, ts, q, us, k, p);
    WordIsRead(lang, q, p, e, w, o, us[k].text);
    AgainAt(lang, q, us, k, p, e, n, LexemeAt(lang, q, p));
  }
}

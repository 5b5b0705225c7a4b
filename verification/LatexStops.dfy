/** Full stops and commas of the text in the output: each of them outside markup and protected words ends its line. */
module LatexStops {
  import opened PyText
  import opened LatexScanners
  import opened LatexReflow
  import opened LatexContent
  import opened LatexLines
  import opened LatexOrigins
  import opened LatexReading
  import opened LatexComments
  import opened LatexIdempotence
  import opened LatexEnglish
  import opened LatexWords

  /** Position `p` belongs to the `k`-th token, which starts at `i`. */
  ghost predicate BelongsTo(lang: Language, s: string, ts: seq<Token>, p: nat, k: nat, i: nat) {
    OriginAt(lang, s, ts, k, i) && i <= p < LexemeAt(lang, s, i).end
  }

  lemma {:induction false} SpacesBetween(lang: Language, s: string, i: nat, p: nat)
    requires i <= p < |s| && !lang.cc.space(s[p])
    ensures ClassEnd(s, i, lang.cc.space) <= p
    decreases |s| - i
  {
    if lang.cc.space(s[i]) {
      SpacesBetween(lang, s, i + 1, p);
    }
  }

  lemma {:induction false} FindToken(lang: Language, s: string, ts: seq<Token>, p: nat, j: nat, from: nat) returns (k: nat, i: nat)
    requires OriginAt(lang, s, ts, j, from) && from <= p < |s| && !lang.cc.space(s[p])
    ensures BelongsTo(lang, s, ts, p, k, i)
    decreases |ts| - j
  {
    var e := LexemeAt(lang, s, from).end;
    if p < e {
      return j, from;
    }
    NextOrigin(lang, s, ts, j, from);
    SpacesBetween(lang, s, e, p);
    k, i := FindToken(lang, s, ts, p, j + 1, ClassEnd(s, e, lang.cc.space));
  }

  /** Every visible character belongs to a token. */
  lemma CoveringToken(lang: Language, s: string, p: nat) returns (k: nat, i: nat)
    requires lang.Valid() && p < |s| && !lang.cc.space(s[p])
    ensures BelongsTo(lang, s, Tokens(lang, s, 0, false), p, k, i)
  {
    var ts := Tokens(lang, s, 0, false);
    TokensFrom(lang, s, 0, false);
    SpacesBetween(lang, s, 0, p);
    FirstOrigin(lang, s, ts);
    k, i := FindToken(lang, s, ts, p, 0, ClassEnd(s, 0, lang.cc.space));
  }

  /** No word of the list has the character, in whatever case. */
  ghost predicate InNoWord(lang: Language, c: char) {
    forall w, j: nat :: w in lang.protected && j < |w| ==> lang.cc.lower(w[j]) != lang.cc.lower(c)
  }

  /** A character that is no white space, no comma and in no word is in no match. */
  lemma {:induction false} NotInMatch(cc: CharClasses, s: string, i: nat, w: string, k: nat, p: nat)
    requires i <= p < |s| && k <= |w| && MatchWord(cc, s, i, w, k).Match? && !cc.space(s[p])
    requires forall j :: k <= j < |w| ==> cc.lower(w[j]) != cc.lower(s[p])
    ensures MatchWord(cc, s, i, w, k).end <= p
    decreases |w| - k
  {
    if k < |w| {
      var j := Next(cc, s, i, w, k);
      ClassEndIs(s, i + 1, cc.space);
      NotInMatch(cc, s, j, w, k + 1, p);
    }
  }

  /** A full stop right before a tie is not part of a protected word. */
  lemma NoWordBeforeTie(lang: Language, s: string, i: nat, p: nat)
    requires lang.Valid() && InNoWord(lang, '~') && i <= p && p + 1 < |s| && s[p + 1] == '~' && ProtectedAt(lang, s, i).Match?
    ensures ProtectedAt(lang, s, i).end <= p
  {
    var w := ProtectedWordIs(lang, s, i);
    NotInMatch(lang.cc, s, i, w, 0, p + 1);
  }

  /** A comma or a full stop that is taken as a mark is followed in the output by a line end or by nothing. */
  lemma StopInOutput(lang: Language, s: string, k: nat, i: nat) returns (before: string, after: string)
    requires lang.Valid() && OriginAt(lang, s, Tokens(lang, s, 0, false), k, i)
    requires Tokens(lang, s, 0, false)[k].kind == Stop
    ensures s[i] == ',' || s[i] == '.'
    ensures Reflow(lang, s) == before + [s[i]] + after && (after == "" || after[0] == '\n')
  {
    StopIsMark(lang, s, i);
    var t := Tokens(lang, s, 0, false)[k].text;
    assert t == [s[i]];
    before, after := TokenInOutput(lang, s, k);
    OneCharacterStays(lang.cc, s[i]);
  }

  lemma OneCharacterStays(cc: CharClasses, c: char)
    requires cc.Valid() && !cc.space(c)
    ensures Straight(cc, [c]) == [c]
  {
    assert [c][1..] == [] && LineLength(cc, [c]) == 1;
    StraightOfLine(cc, [c]);
  }

  /** A full stop before a tie belongs to markup or a comment, or a line ends after it in the output. */
  lemma StopBeforeTieBreaks(lang: Language, s: string, p: nat) returns (k: nat, i: nat, before: string, after: string)
    requires lang.Valid() && InNoWord(lang, '~') && p + 1 < |s| && s[p] == '.' && s[p + 1] == '~'
    ensures BelongsTo(lang, s, Tokens(lang, s, 0, false), p, k, i)
    ensures s[i] == '%' || s[i] == '\\' || s[i] == '$' ||
            (i == p && Reflow(lang, s) == before + "." + after && (after == "" || after[0] == '\n'))
  {
    k, i := CoveringToken(lang, s, p);
    before, after := "", "";
    if s[i] == '%' || s[i] == '\\' || s[i] == '$' {
      return;
    }
    if ProtectedAt(lang, s, i).Match? {
      NoWordBeforeTie(lang, s, i, p);
    }
    CharacterIsTaken(lang, s, i);
    before, after := StopInOutput(lang, s, k, i);
  }

  /** The program's words have no tie. */
  lemma EnglishHasNoTies()
    ensures InNoWord(English(), '~')
  {
    var lang := English();
    forall w, j: nat | w in lang.protected && j < |w| ensures lang.cc.lower(w[j]) != lang.cc.lower('~') {
      EnglishWord(w);
      NoTie(w[j]);
    }
  }

  lemma NoTie(c: char)
    requires AsciiAlpha(c) || c == '.' || UnicodeSpace(c)
    ensures English().cc.lower(c) != English().cc.lower('~')
  {
    LowerIs(c);
    LowerIs('~');
    assert [Lowered(c)][0] != [Lowered('~')][0];
  }

  /** The output ends with a line feed exactly if the text does. */
  lemma FinalLineFeedKept(lang: Language, s: string)
    requires lang.Valid()
    ensures var out := Reflow(lang, s);
            out != "" && out[|out| - 1] == '\n' <==> s != "" && s[|s| - 1] == '\n'
  {
    var cc := lang.cc;
    RStripTail(cc, LStrip(cc, JoinStripped(cc, SplitLines(cc, Concat(Pieces(Tokens(lang, s, 0, false)))))));
  }

  /** With the program's lists: which commands are displays. */
  lemma EnglishCommand(s: string, i: nat) returns (name: string)
    requires i < |s| && s[i] == '\\' && (i + 1 < |s| ==> s[i + 1] != '[' && s[i + 1] != '(')
    ensures English().Valid() && IsName(English().cc, s, i, name)
    ensures var x := LexemeAt(English(), s, i);
            x.kind == Display <==>
              || name in ["part", "chapter", "section", "subsection", "subsubsection", "paragraph", "subparagraph",
                          "label", "begin", "end", "item"]
              || (name in ["emph", "textbf", "textit"] && IsAlone(English().cc, s, i, x.end))
  {
    EnglishIsValid();
    name := BackslashIsCommand(English(), s, i);
  }

  /** And which words are kept whole. */
  lemma EnglishProtects(s: string, i: nat) returns (w: string)
    requires i <= |s| && ProtectedAt(English(), s, i).Match?
    ensures w in ["e.g.", "i.e.", "etc.", "cf.", "vs.", "Fig.", "Eq.", "Sec.", "Tab.", "Dr.", "Mr.", "Ms.", "Prof.", "et al."]
    ensures MatchWord(English().cc, s, i, w, 0).Match?
  {
    w := ProtectedWordIs(English(), s, i);
  }

  lemma EnglishHas(w: string)
    ensures w in English().protected <==>
              w in ["e.g.", "i.e.", "etc.", "cf.", "vs.", "Fig.", "Eq.", "Sec.", "Tab.", "Dr.", "Mr.", "Ms.", "Prof.", "et al."]
  {
  }
}

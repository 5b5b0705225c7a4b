/** Commands, formulas and comments are read again where they were printed. */
module LatexReread {
  import opened PyText
  import opened LatexScanners
  import opened LatexReflow
  import opened LatexContent
  import opened LatexLines
  import opened LatexMachines
  import opened LatexMarkup

  // ---------------------------------------------------------------- what follows

  /** After `e` in `s` and after `e'` in `q` the same visible character comes next; it comes at once only if it
      does in `s` too or is a comma or full stop. */
  ghost predicate Follows(cc: CharClasses, s: string, e: nat, q: string, e': nat) {
    e <= |s| && e' <= |q| &&
    var j, j' := ClassEnd(s, e, cc.space), ClassEnd(q, e', cc.space);
    && (j == |s| <==> j' == |q|)
    && (j < |s| && j' < |q| ==> s[j] == q[j'])
    && (e' < |q| && !cc.space(q[e']) ==> q[e'] == ',' || q[e'] == '.' || (e < |s| && q[e'] == s[e]))
  }

  predicate Finished(q: State) {
    q.Done? || q.Name? || q.Ready?
  }

  lemma SameState(cc: CharClasses, t: string)
    requires Sane(cc)
    ensures Reads(cc, Start, Straight(cc, t)) == Reads(cc, Start, t)
  {
    StepSettles(cc);
    RunStraight(Step(cc), cc, Start, t);
  }

  /** A control space or control line break stays two characters long. */
  lemma StraightPair(cc: CharClasses, t: string)
    requires cc.Valid() && |t| == 2 && !cc.space(t[0])
    ensures |Straight(cc, t)| == 2
  {
    if !IsLine(cc, t) {
      var line, br, rest := FirstLine(cc, t);
      StraightParts(cc, t, line, br, rest);
      assert t[|line|] == br[0];
      assert line == t[..1] && rest == [];
      assert RStrip(cc, line) == line;
    }
  }

  lemma LastOfSlice(t: string, i: nat, e: nat)
    requires i < e <= |t|
    ensures t[i..e] != [] && t[i..e][|t[i..e]| - 1] == t[e - 1] && t[i..e][0] == t[i] && |t[i..e]| == e - i
  {
  }

  lemma LastAgain(cc: CharClasses, s: string, i: nat, e: nat, q: string, p: nat, e': nat)
    requires cc.Valid() && i < e <= |s| && p < e' <= |q| && q[p..e'] == Straight(cc, s[i..e]) && !cc.space(s[i])
    ensures !cc.space(s[e - 1]) ==> !cc.space(q[e' - 1])
    ensures e == i + 2 && cc.space(s[e - 1]) ==> e' == p + 2
  {
    LastOfSlice(s, i, e);
    LastOfSlice(q, p, e');
    if !cc.space(s[e - 1]) {
      StraightEnds(cc, s[i..e]);
    } else if e == i + 2 {
      StraightPair(cc, s[i..e]);
    }
  }

  /** A finished command or formula ends again where its text was printed. */
  lemma EndsAgain(cc: CharClasses, s: string, i: nat, e: nat, q: string, p: nat, e': nat)
    requires Sane(cc) && Ends(cc, s, i, e) && Finished(Reads(cc, Start, s[i..e])) && !cc.space(s[i])
    requires Follows(cc, s, e, q, e') && p < e' && q[p..e'] == Straight(cc, s[i..e])
    ensures Ends(cc, q, p, e')
  {
    SameState(cc, s[i..e]);
    LastAgain(cc, s, i, e, q, p, e');
    SpacesUpTo(cc, s, e);
    SpacesUpTo(cc, q, e');
  }

  // ---------------------------------------------------------------- what is read

  lemma NameGrowsByLetters(cc: CharClasses, q: State, c: char)
    requires Sane(cc) && NextState(cc, q, c).Name?
    ensures !cc.space(c)
  {
  }

  lemma ReadsLast(cc: CharClasses, q: State, s: string, i: nat, e: nat)
    requires i < e <= |s|
    ensures Reads(cc, q, s[i..e]) == NextState(cc, Reads(cc, q, s[i..e - 1]), s[e - 1])
  {
    assert s[i..e][..|s[i..e]| - 1] == s[i..e - 1];
  }

  lemma NameEndsVisible(cc: CharClasses, s: string, i: nat, e: nat)
    requires Sane(cc) && i < e <= |s| && Reads(cc, Start, s[i..e]).Name?
    ensures !cc.space(s[e - 1])
  {
    ReadsLast(cc, Start, s, i, e);
    NameGrowsByLetters(cc, Reads(cc, Start, s[i..e - 1]), s[e - 1]);
  }

  lemma PairHasNoName(cc: CharClasses, s: string, i: nat, e: nat)
    requires e == i + 2 <= |s| && Reads(cc, Start, s[i..e]).Ready?
    ensures Reads(cc, Start, s[i..e]).name == ""
  {
    ReadsTwo(cc, Start, s, i, e);
    ReadsNothing(cc, NextState(cc, NextState(cc, Start, s[i]), s[i + 1]), s, e);
  }

  /** A command in the lists is finished by a visible character. */
  lemma ListedEndsVisible(lang: Language, s: string, i: nat, e: nat)
    requires Sane(lang.cc) && Named(lang) && Ends(lang.cc, s, i, e)
    requires var q := Reads(lang.cc, Start, s[i..e]); Finished(q) && OwnLines(lang, q, true)
    ensures !lang.cc.space(s[e - 1])
  {
    var q := Reads(lang.cc, Start, s[i..e]);
    assert "" !in lang.block + lang.standalone;
    if q.Name? {
      NameEndsVisible(lang.cc, s, i, e);
    } else if q.Ready? && e == i + 2 {
      PairHasNoName(lang.cc, s, i, e);
    }
  }

  lemma TrimOfVisible(cc: CharClasses, u: string)
    requires cc.Valid() && StartsVisible(cc, u) && EndsVisible(cc, u)
    ensures TrimLines(cc, u) == Straight(cc, u) && TrimLines(cc, Straight(cc, u)) == Straight(cc, u)
  {
    TrimIsStraight(cc, u);
    StraightEnds(cc, u);
    StraightStarts(cc, u);
    EndsVisibleStays(cc, Straight(cc, u));
    StraightIsStraight(cc, u);
    StraightStays(cc, Straight(cc, u));
    TrimIsStraight(cc, Straight(cc, u));
  }

  /** The kind as the lists say it. */
  function KindRead(lang: Language, q: State, alone: bool): Kind {
    if OwnLines(lang, q, alone) then Display else Inline
  }

  lemma PrintedDisplay(cc: CharClasses, u: string)
    requires cc.Valid() && StartsVisible(cc, u) && EndsVisible(cc, u)
    ensures Straight(cc, TrimLines(cc, u)) == Straight(cc, u)
  {
    TrimOfVisible(cc, u);
    StraightIsStraight(cc, u);
    StraightStays(cc, Straight(cc, u));
  }

  lemma DisplayText(lang: Language, s: string, i: nat, e: nat)
    requires lang.Valid() && Sane(lang.cc) && Named(lang) && Ends(lang.cc, s, i, e) && !lang.cc.space(s[i])
    requires var q := Reads(lang.cc, Start, s[i..e]); Finished(q) && OwnLines(lang, q, true)
    ensures StartsVisible(lang.cc, s[i..e]) && EndsVisible(lang.cc, s[i..e])
  {
    ListedEndsVisible(lang, s, i, e);
    LastOfSlice(s, i, e);
  }

  /** A finished command or formula is read again with the text it was printed with. */
  lemma MarkupAgain(lang: Language, s: string, i: nat, e: nat, q: string, p: nat, e': nat, st: State)
    requires lang.Valid() && Sane(lang.cc) && Named(lang) && Ends(lang.cc, s, i, e) && !lang.cc.space(s[i])
    requires st == Reads(lang.cc, Start, s[i..e]) && Finished(st)
    requires Follows(lang.cc, s, e, q, e') && p < e' && q[p..e'] == Straight(lang.cc, s[i..e])
    requires q[p] == s[i] && (s[i] == '\\' || s[i] == '$')
    ensures LexemeAt(lang, q, p) == Lexeme(KindRead(lang, st, AloneOnLine(lang.cc, q, p, e')), q[p..e'], e')
  {
    EndsAgain(lang.cc, s, i, e, q, p, e');
    SameState(lang.cc, s[i..e]);
    MarkupEndsAt(lang, q, p, e');
    if OwnLines(lang, st, true) {
      DisplayText(lang, s, i, e);
      TrimOfVisible(lang.cc, s[i..e]);
    }
    AloneMatters(lang, st);
  }

  lemma AloneMatters(lang: Language, q: State)
    ensures forall alone :: OwnLines(lang, q, alone) ==> OwnLines(lang, q, true)
  {
  }

  // ---------------------------------------------------------------- what is never closed

  predicate Open(q: State) {
    q.Math? || q.Group? || q.Dollar? || q.Backslash?
  }

  /** What white space leaves open was open before, with the same name or the same kind of math. */
  lemma OpenBeforeSpace(lang: Language, q: State)
    requires lang.Valid() && OwnLines(lang, NextState(lang.cc, q, '\n'), true) && Open(NextState(lang.cc, q, '\n'))
    requires Sane(lang.cc)
    ensures Open(q) && forall alone :: OwnLines(lang, q, alone) == OwnLines(lang, NextState(lang.cc, q, '\n'), alone)
  {
  }

  lemma OpenAfterSpace(lang: Language, q: State)
    requires lang.Valid() && OwnLines(lang, q, true) && Open(q) && Sane(lang.cc)
    ensures var r := NextState(lang.cc, q, '\n');
            Open(r) && forall alone :: OwnLines(lang, q, alone) == OwnLines(lang, r, alone)
  {
  }

  /** The state that asks for lines of its own and is never closed stays so when the white space at its end goes. */
  lemma StrippedState(lang: Language, t: string, w: string)
    requires lang.Valid() && Sane(lang.cc) && forall c :: c in w ==> lang.cc.space(c)
    requires var q := Reads(lang.cc, Start, t + w); Open(q) && OwnLines(lang, q, true)
    ensures var q, r := Reads(lang.cc, Start, t + w), Reads(lang.cc, Start, t);
            Open(r) && forall alone :: OwnLines(lang, q, alone) == OwnLines(lang, r, alone)
  {
    if w == "" {
      assert t + w == t;
    } else {
      StepSettles(lang.cc);
      RunConcat(Step(lang.cc), Start, t, w);
      RunSpaces(Step(lang.cc), lang.cc, Reads(lang.cc, Start, t), w);
      OpenBeforeSpace(lang, Reads(lang.cc, Start, t));
    }
  }

  lemma StripParts(cc: CharClasses, t: string) returns (w: string)
    ensures t == RStrip(cc, t) + w && forall c :: c in w ==> cc.space(c)
  {
    RStripTail(cc, t);
    w := t[|RStrip(cc, t)|..];
  }

  /** Such a display, read again at the end of the print. */
  lemma OpenDisplayState(lang: Language, u: string, rest: string)
    requires lang.Valid() && Sane(lang.cc) && Open(Reads(lang.cc, Start, u)) && OwnLines(lang, Reads(lang.cc, Start, u), true)
    requires rest == RStrip(lang.cc, Straight(lang.cc, u)) || rest == RStrip(lang.cc, Straight(lang.cc, u)) + "\n"
    ensures var q := Reads(lang.cc, Start, rest);
            Open(q) && forall alone :: OwnLines(lang, q, alone) == OwnLines(lang, Reads(lang.cc, Start, u), alone)
  {
    var t := Straight(lang.cc, u);
    var r := RStrip(lang.cc, t);
    SameState(lang.cc, u);
    var w := StripParts(lang.cc, t);
    StrippedState(lang, r, w);
    if rest != r {
      RunConcat(Step(lang.cc), Start, r, "\n");
      RunOne(Step(lang.cc), Reads(lang.cc, Start, r), '\n');
      OpenAfterSpace(lang, Reads(lang.cc, Start, r));
    }
  }

  lemma TrimAgain(cc: CharClasses, u: string, rest: string)
    requires cc.Valid() && StartsVisible(cc, u) && (rest == TrimLines(cc, u) || rest == TrimLines(cc, u) + "\n")
    ensures TrimLines(cc, rest) == TrimLines(cc, u) == RStrip(cc, Straight(cc, u))
  {
    var t := Straight(cc, u);
    var r := RStrip(cc, t);
    TrimIsStraight(cc, u);
    StraightStarts(cc, u);
    RStripStart(cc, t);
    RStripTail(cc, t);
    StraightIsStraight(cc, u);
    PrefixIsStraight(cc, t, |r|);
    assert t[..|r|] == r;
    StraightStays(cc, r);
    if rest != r {
      StraightConcat(cc, r, "\n");
      StraightBreak(cc, "");
      assert "\n" + "" == "\n";
    }
    assert r == r + "";
    TrimIsStraight(cc, rest);
    EndsVisibleStays(cc, r);
    if rest != r {
      RStripSpaces(cc, r, "\n");
    }
  }

  lemma OpenDisplayAgain(lang: Language, s: string, i: nat, q: string, p: nat)
    requires lang.Valid() && Sane(lang.cc) && Named(lang) && i < |s| && !lang.cc.space(s[i])
    requires Open(Reads(lang.cc, Start, s[i..])) && OwnLines(lang, Reads(lang.cc, Start, s[i..]), true)
    requires p < |q| && q[p] == s[i] && (s[i] == '\\' || s[i] == '$')
    requires q[p..] == TrimLines(lang.cc, s[i..]) || q[p..] == TrimLines(lang.cc, s[i..]) + "\n"
    requires OwnLines(lang, Reads(lang.cc, Start, s[i..]), AloneOnLine(lang.cc, q, p, |q|))
    ensures LexemeAt(lang, q, p) == Lexeme(Display, TrimLines(lang.cc, s[i..]), |q|)
  {
    var u, rest := s[i..], q[p..];
    TrimAgain(lang.cc, u, rest);
    OpenDisplayState(lang, u, rest);
    OpenToEnd(lang, q, p, rest, OwnLines(lang, Reads(lang.cc, Start, rest), AloneOnLine(lang.cc, q, p, |q|)));
  }

  lemma OpenToEnd(lang: Language, q: string, p: nat, rest: string, display: bool)
    requires lang.Valid() && Sane(lang.cc) && Named(lang) && p < |q| && (q[p] == '\\' || q[p] == '$')
    requires rest == q[p..] && Open(Reads(lang.cc, Start, rest))
    requires display == OwnLines(lang, Reads(lang.cc, Start, rest), AloneOnLine(lang.cc, q, p, |q|))
    ensures LexemeAt(lang, q, p)
         == if display then Lexeme(Display, TrimLines(lang.cc, rest), |q|) else Lexeme(Inline, rest, |q|)
  {
    assert q[p..|q|] == rest;
    MarkupEndsAt(lang, q, p, |q|);
  }

  lemma OpenInlineAgain(lang: Language, s: string, i: nat, q: string, p: nat)
    requires lang.Valid() && Sane(lang.cc) && Named(lang) && i < |s|
    requires Open(Reads(lang.cc, Start, s[i..])) && p < |q| && q[p] == s[i] && (s[i] == '\\' || s[i] == '$')
    requires q[p..] == Straight(lang.cc, s[i..]) && EndsVisible(lang.cc, s[i..]) && !lang.cc.space(s[i])
    ensures LexemeAt(lang, q, p)
         == Lexeme(KindRead(lang, Reads(lang.cc, Start, s[i..]), AloneOnLine(lang.cc, q, p, |q|)), q[p..], |q|)
  {
    SameState(lang.cc, s[i..]);
    assert q[p..|q|] == q[p..];
    MarkupEndsAt(lang, q, p, |q|);
    TrimOfVisible(lang.cc, s[i..]);
  }

  // ---------------------------------------------------------------- comments

  lemma {:induction false} NotLineEndRun(s: string, i: nat, e: nat)
    requires i <= e <= |s| && (forall p :: i <= p < e ==> NotLineEnd(s[p])) && (e < |s| ==> !NotLineEnd(s[e]))
    ensures ClassEnd(s, i, NotLineEnd) == e
    decreases e - i
  {
    if i < e {
      NotLineEndRun(s, i + 1, e);
    }
  }

  /** A comment of one line is read again if its line ends there. */
  lemma CommentAgain(lang: Language, q: string, p: nat, e: nat)
    requires lang.Valid() && p < e <= |q| && q[p] == '%' && IsLine(lang.cc, q[p..e]) && EndsVisible(lang.cc, q[p..e])
    requires e < |q| ==> q[e] == '\n'
    ensures LexemeAt(lang, q, p) == Lexeme(Comment, q[p..e], e)
  {
    LineHasNoBreak(lang.cc, q[p..e]);
    forall k | p + 1 <= k < e ensures NotLineEnd(q[k]) {
      assert q[k] == q[p..e][k - p];
    }
    NotLineEndRun(q, p + 1, e);
    EndsVisibleStays(lang.cc, q[p..e]);
  }
}

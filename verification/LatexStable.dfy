/** Prose is stable: a text without markup, in which no protected word is spelled even across white space, is not
    changed by a second pass of the reflow. */
module LatexStable {
  import opened PyText
  import opened LatexScanners
  import opened LatexReflow
  import opened LatexContent

  // ---------------------------------------------------------------- which texts are prose

  /** `x` stands in `v` from `k` on, without regard to case. */
  ghost predicate SpelledAt(cc: CharClasses, v: string, k: nat, x: string) {
    k + |x| <= |v| && forall j :: 0 <= j < |x| ==> cc.lower(v[k + j]) == cc.lower(x[j])
  }

  /** No protected word is spelled in the visible characters. */
  ghost predicate WordFree(lang: Language, v: string) {
    forall w, k: nat :: w in lang.protected ==> !SpelledAt(lang.cc, v, k, NonSpace(lang.cc, w))
  }

  predicate IsMarkup(c: char) {
    c == '\\' || c == '$' || c == '%'
  }

  ghost predicate Prose(lang: Language, s: string) {
    WordFree(lang, NonSpace(lang.cc, s)) && forall c :: c in NonSpace(lang.cc, s) ==> !IsMarkup(c)
  }

  lemma {:induction false} VisibleIsKept(cc: CharClasses, s: string, p: nat)
    requires p < |s| && !cc.space(s[p])
    ensures s[p] in NonSpace(cc, s)
  {
    if p < |s| - 1 {
      VisibleIsKept(cc, s[..|s| - 1], p);
    }
  }

  /** Case does not turn white space into anything else. */
  ghost predicate CaseKeepsSpace(cc: CharClasses) {
    forall c, d :: cc.lower(c) == cc.lower(d) ==> (cc.space(c) <==> cc.space(d))
  }

  lemma SpelledOneMore(cc: CharClasses, c: char, v: string, d: char, x: string)
    requires SpelledAt(cc, v, 0, x) && cc.lower(c) == cc.lower(d)
    ensures SpelledAt(cc, [c] + v, 0, [d] + x)
  {
    forall j | 0 <= j < |x| + 1 ensures cc.lower(([c] + v)[j]) == cc.lower(([d] + x)[j]) {
      if j > 0 {
        assert cc.lower(v[0 + (j - 1)]) == cc.lower(x[j - 1]);
      }
    }
  }

  lemma NonSpaceHead(cc: CharClasses, c: char, s: string)
    ensures NonSpace(cc, [c] + s) == if cc.space(c) then NonSpace(cc, s) else [c] + NonSpace(cc, s)
  {
    NonSpaceConcat(cc, [c], s);
    NonSpaceOne(cc, c);
  }

  /** What a match outputs spells the word. */
  lemma {:induction false} MatchSpells(cc: CharClasses, s: string, i: nat, w: string, k: nat)
    requires cc.Valid() && CaseKeepsSpace(cc)
    requires i <= |s| && k <= |w| && MatchWord(cc, s, i, w, k).Match?
    ensures SpelledAt(cc, NonSpace(cc, MatchWord(cc, s, i, w, k).output), 0, NonSpace(cc, w[k..]))
    decreases |w| - k
  {
    if k == |w| {
      assert w[k..] == [];
      return;
    }
    var j := if cc.space(w[k]) then ClassEnd(s, i + 1, cc.space) else AfterStop(cc, s, i + 1, w, k);
    var c, rest := if cc.space(w[k]) then ' ' else s[i], MatchWord(cc, s, j, w, k + 1).output;
    MatchSpells(cc, s, j, w, k + 1);
    assert w[k..] == [w[k]] + w[k + 1..];
    NonSpaceHead(cc, w[k], w[k + 1..]);
    NonSpaceHead(cc, c, rest);
    if !cc.space(w[k]) {
      SpelledOneMore(cc, c, NonSpace(cc, rest), w[k], NonSpace(cc, w[k + 1..]));
    }
  }

  lemma VisibleParts(cc: CharClasses, s: string, i: nat, e: nat)
    requires i <= e <= |s|
    ensures NonSpace(cc, s) == NonSpace(cc, s[..i]) + NonSpace(cc, s[i..e]) + NonSpace(cc, s[e..])
  {
    NonSpaceSplit(cc, s, e);
    NonSpaceSplit(cc, s[..e], i);
    assert s[..e][..i] == s[..i] && s[..e][i..] == s[i..e];
  }

  lemma MatchIsSpelled(cc: CharClasses, s: string, i: nat, w: string)
    requires cc.Valid() && CaseKeepsSpace(cc) && i <= |s| && MatchWord(cc, s, i, w, 0).Match?
    ensures SpelledAt(cc, NonSpace(cc, s), |NonSpace(cc, s[..i])|, NonSpace(cc, w))
  {
    var m := MatchWord(cc, s, i, w, 0);
    WordKeeps(cc, s, i, w, 0);
    MatchSpells(cc, s, i, w, 0);
    assert w[0..] == w;
    VisibleParts(cc, s, i, m.end);
    SpelledInside(cc, NonSpace(cc, s[..i]), NonSpace(cc, m.output), NonSpace(cc, s[m.end..]), NonSpace(cc, w));
  }

  /** In prose no protected word is found anywhere. */
  lemma NoWordInProse(lang: Language, s: string, i: nat, w: string)
    requires lang.Valid() && CaseKeepsSpace(lang.cc) && WordFree(lang, NonSpace(lang.cc, s))
    requires i <= |s| && w in lang.protected
    ensures WordAt(lang.cc, s, i, w) == NoMatch
  {
    if MatchWord(lang.cc, s, i, w, 0).Match? {
      MatchIsSpelled(lang.cc, s, i, w);
    }
  }

  lemma SpelledInside(cc: CharClasses, a: string, v: string, b: string, x: string)
    requires SpelledAt(cc, v, 0, x)
    ensures SpelledAt(cc, a + v + b, |a|, x)
  {
    forall j | 0 <= j < |x| ensures cc.lower((a + v + b)[|a| + j]) == cc.lower(x[j]) {
      assert (a + v + b)[|a| + j] == v[0 + j];
    }
  }

  lemma {:induction false} ProseIsUnprotected(lang: Language, s: string, i: nat, n: nat)
    requires lang.Valid() && CaseKeepsSpace(lang.cc) && WordFree(lang, NonSpace(lang.cc, s))
    requires i <= |s| && n <= |lang.protected|
    ensures FirstWord(lang, s, i, n) == NoMatch
    decreases |lang.protected| - n
  {
    if n < |lang.protected| {
      NoWordInProse(lang, s, i, lang.protected[n]);
      ProseIsUnprotected(lang, s, i, n + 1);
    }
  }

  // ---------------------------------------------------------------- prose, character by character

  function KindOf(c: char): Kind {
    if c == ',' || c == '.' then Stop else Plain
  }

  /** White space is pending at the end. */
  function Pending(cc: CharClasses, s: string): bool {
    s != [] && cc.space(s[|s| - 1])
  }

  /** The tokens of prose. */
  function Chars(cc: CharClasses, s: string): seq<Token> {
    if s == [] then []
    else
      var front, c := s[..|s| - 1], s[|s| - 1];
      if cc.space(c) then Chars(cc, front) else Chars(cc, front) + [Token(Pending(cc, front), KindOf(c), [c])]
  }

  lemma CharsNext(cc: CharClasses, s: string, c: char)
    ensures Chars(cc, s + [c]) ==
              if cc.space(c) then Chars(cc, s) else Chars(cc, s) + [Token(Pending(cc, s), KindOf(c), [c])]
  {
    assert (s + [c])[..|s|] == s;
  }

  lemma LexemeOfProse(lang: Language, s: string, i: nat)
    requires lang.Valid() && CaseKeepsSpace(lang.cc) && Prose(lang, s) && i < |s| && !lang.cc.space(s[i])
    ensures LexemeAt(lang, s, i) == Lexeme(KindOf(s[i]), [s[i]], i + 1)
  {
    VisibleIsKept(lang.cc, s, i);
    ProseIsUnprotected(lang, s, i, 0);
  }

  lemma NextOfProse(lang: Language, s: string, i: nat, gap: bool)
    requires lang.Valid() && CaseKeepsSpace(lang.cc) && Prose(lang, s) && i < |s|
    ensures Tokens(lang, s, i, gap) ==
              if lang.cc.space(s[i]) then Tokens(lang, s, i + 1, true)
              else [Token(gap, KindOf(s[i]), [s[i]])] + Tokens(lang, s, i + 1, false)
  {
    if !lang.cc.space(s[i]) {
      LexemeOfProse(lang, s, i);
    }
  }

  ghost predicate ReadFrom(lang: Language, s: string, i: nat)
    requires lang.Valid() && i <= |s|
  {
    Chars(lang.cc, s[..i]) + Tokens(lang, s, i, Pending(lang.cc, s[..i])) == Chars(lang.cc, s)
  }

  lemma ReadAtEnd(lang: Language, s: string)
    requires lang.Valid()
    ensures ReadFrom(lang, s, |s|)
  {
    assert s[..|s|] == s;
  }

  lemma ShiftToken(cc: CharClasses, s: string, i: nat, rest: seq<Token>)
    requires i < |s| && !cc.space(s[i])
    ensures Chars(cc, s[..i]) + ([Token(Pending(cc, s[..i]), KindOf(s[i]), [s[i]])] + rest) == Chars(cc, s[..i + 1]) + rest
    ensures !Pending(cc, s[..i + 1])
  {
    assert s[..i + 1] == s[..i] + [s[i]];
    CharsNext(cc, s[..i], s[i]);
  }

  lemma ShiftSpace(cc: CharClasses, s: string, i: nat)
    requires i < |s| && cc.space(s[i])
    ensures Chars(cc, s[..i]) == Chars(cc, s[..i + 1]) && Pending(cc, s[..i + 1])
  {
    assert s[..i + 1] == s[..i] + [s[i]];
    CharsNext(cc, s[..i], s[i]);
  }

  lemma ReadOneEarlier(lang: Language, s: string, i: nat)
    requires lang.Valid() && CaseKeepsSpace(lang.cc) && Prose(lang, s) && i < |s| && ReadFrom(lang, s, i + 1)
    ensures ReadFrom(lang, s, i)
  {
    NextOfProse(lang, s, i, Pending(lang.cc, s[..i]));
    if lang.cc.space(s[i]) {
      ShiftSpace(lang.cc, s, i);
    } else {
      ShiftToken(lang.cc, s, i, Tokens(lang, s, i + 1, false));
    }
  }

  /** In prose the tokens are the visible characters one by one. */
  lemma {:induction false} TokensOfProse(lang: Language, s: string, i: nat)
    requires lang.Valid() && CaseKeepsSpace(lang.cc) && Prose(lang, s) && i <= |s|
    ensures ReadFrom(lang, s, i)
    decreases |s| - i
  {
    if i == |s| {
      ReadAtEnd(lang, s);
    } else {
      TokensOfProse(lang, s, i + 1);
      ReadOneEarlier(lang, s, i);
    }
  }

  // ---------------------------------------------------------------- the text laid out

  /** The tokens of the laid-out text: each knows of white space before it if a separator was put there. */
  function Regapped(ts: seq<Token>): (r: seq<Token>)
    ensures |r| == |ts|
  {
    seq(|ts|, k requires 0 <= k < |ts| => ts[k].(gap := k > 0 && Between(ts[k - 1], ts[k]) != []))
  }

  /** Single visible characters. */
  ghost predicate Single(cc: CharClasses, t: Token) {
    |t.text| == 1 && !cc.space(t.text[0]) && t.kind == KindOf(t.text[0])
  }

  ghost predicate Singles(cc: CharClasses, ts: seq<Token>) {
    forall k :: 0 <= k < |ts| ==> Single(cc, ts[k])
  }

  lemma {:induction false} CharsAreSingles(cc: CharClasses, s: string)
    ensures Singles(cc, Chars(cc, s))
  {
    if s != [] {
      CharsAreSingles(cc, s[..|s| - 1]);
    }
  }

  lemma RegappedNext(ts: seq<Token>)
    requires ts != []
    ensures var n := |ts| - 1;
            Regapped(ts) == Regapped(ts[..n]) + [ts[n].(gap := n > 0 && Between(ts[n - 1], ts[n]) != [])]
  {
  }

  lemma SameSeparator(cc: CharClasses, ts: seq<Token>, n: nat)
    requires Singles(cc, ts) && 0 < n < |ts|
    ensures Between(Regapped(ts)[n - 1], Regapped(ts)[n]) == Between(ts[n - 1], ts[n])
  {
    assert Single(cc, ts[n]);
  }

  lemma LaidNext(ts: seq<Token>)
    requires ts != []
    ensures var n := |ts| - 1;
            Laid(ts) == Laid(ts[..n]) + (if n > 0 then Between(ts[n - 1], ts[n]) else []) + [ts[n].text]
  {
  }

  /** Tokens that know only of the separators are laid out alike. */
  lemma {:induction false} RegappedIsLaidAlike(cc: CharClasses, ts: seq<Token>)
    requires Singles(cc, ts)
    ensures Laid(Regapped(ts)) == Laid(ts)
  {
    if ts == [] {
      return;
    }
    var n := |ts| - 1;
    RegappedIsLaidAlike(cc, ts[..n]);
    RegappedNext(ts);
    assert Regapped(ts)[..n] == Regapped(ts[..n]);
    LaidNext(Regapped(ts));
    LaidNext(ts);
    if n > 0 {
      SameSeparator(cc, ts, n);
    }
  }

  lemma CharsAfterSeparator(cc: CharClasses, s: string, sep: seq<string>)
    requires cc.Valid() && (sep == [] || sep == [" "] || sep == ["\n"])
    ensures Chars(cc, s + Concat(sep)) == Chars(cc, s)
    ensures Pending(cc, s + Concat(sep)) == (Pending(cc, s) || sep != [])
  {
    if sep == [] {
      assert s + Concat(sep) == s;
    } else {
      ConcatOne(sep[0]);
      CharsNext(cc, s, sep[0][0]);
      assert s + Concat(sep) == s + [sep[0][0]];
    }
  }

  /** The text of the tokens with the separators between them. */
  function Text(ts: seq<Token>): string {
    Concat(Laid(ts))
  }

  lemma TextNext(ts: seq<Token>)
    requires ts != []
    ensures var n := |ts| - 1;
            Text(ts) == Text(ts[..n]) + Concat(if n > 0 then Between(ts[n - 1], ts[n]) else []) + ts[n].text
  {
    var n := |ts| - 1;
    var sep := if n > 0 then Between(ts[n - 1], ts[n]) else [];
    ConcatAppend(Laid(ts[..n]) + sep, [ts[n].text]);
    ConcatAppend(Laid(ts[..n]), sep);
    ConcatOne(ts[n].text);
  }

  lemma {:induction false} TextEndsVisible(cc: CharClasses, ts: seq<Token>)
    requires Singles(cc, ts)
    ensures !Pending(cc, Text(ts)) && (Text(ts) == [] <==> ts == [])
  {
    if ts == [] {
      assert Laid(ts) == [] && Concat([]) == [];
    } else {
      TextNext(ts);
      assert Single(cc, ts[|ts| - 1]);
    }
  }

  /** Reading a text followed by a separator and a visible character. */
  lemma ReadOneMore(cc: CharClasses, text: string, sep: seq<string>, c: char)
    requires cc.Valid() && (sep == [] || sep == [" "] || sep == ["\n"]) && !cc.space(c) && !Pending(cc, text)
    ensures Chars(cc, text + Concat(sep) + [c]) == Chars(cc, text) + [Token(sep != [], KindOf(c), [c])]
  {
    CharsAfterSeparator(cc, text, sep);
    CharsNext(cc, text + Concat(sep), c);
  }

  ghost predicate IsReadAgain(cc: CharClasses, ts: seq<Token>) {
    Chars(cc, Text(ts)) == Regapped(ts)
  }

  lemma ReadAgainNext(cc: CharClasses, ts: seq<Token>, front: string, sep: seq<string>, t: Token)
    requires cc.Valid() && Single(cc, t) && !Pending(cc, front) && Chars(cc, front) == Regapped(ts)
    requires sep == if ts != [] then Between(ts[|ts| - 1], t) else []
    ensures Chars(cc, front + Concat(sep) + t.text) == Regapped(ts) + [t.(gap := sep != [])]
  {
    assert t.text == [t.text[0]];
    ReadOneMore(cc, front, sep, t.text[0]);
  }

  lemma ReadAgainStep(cc: CharClasses, ts: seq<Token>)
    requires cc.Valid() && Singles(cc, ts) && ts != [] && IsReadAgain(cc, ts[..|ts| - 1])
    ensures IsReadAgain(cc, ts)
  {
    var n := |ts| - 1;
    var sep := if n > 0 then Between(ts[n - 1], ts[n]) else [];
    TextEndsVisible(cc, ts[..n]);
    assert Single(cc, ts[n]);
    ReadAgainNext(cc, ts[..n], Text(ts[..n]), sep, ts[n]);
    TextNext(ts);
    RegappedNext(ts);
  }

  /** Read again, the laid-out text gives the same characters with the separators as gaps. */
  lemma {:induction false} TextReadAgain(cc: CharClasses, ts: seq<Token>)
    requires cc.Valid() && Singles(cc, ts)
    ensures IsReadAgain(cc, ts)
  {
    if ts == [] {
      TextEndsVisible(cc, ts);
    } else {
      TextReadAgain(cc, ts[..|ts| - 1]);
      ReadAgainStep(cc, ts);
    }
  }

  // ---------------------------------------------------------------- trimming the laid-out text

  /** White space comes as single spaces and line feeds, each right after a visible character. */
  ghost predicate Neat(cc: CharClasses, t: string) {
    forall p :: 0 <= p < |t| && cc.space(t[p]) ==> p > 0 && !cc.space(t[p - 1]) && (t[p] == ' ' || t[p] == '\n')
  }

  lemma NeatNext(cc: CharClasses, t: string, sep: string, c: char)
    requires Neat(cc, t) && !Pending(cc, t) && !cc.space(c)
    requires sep == "" || (t != "" && (sep == " " || sep == "\n"))
    ensures Neat(cc, t + sep + [c]) && Neat(cc, t + sep)
  {
    var u := t + sep + [c];
    assert forall p :: 0 <= p < |t| ==> u[p] == t[p];
    assert sep != "" ==> u[|t|] == sep[0] && u[|t| - 1] == t[|t| - 1];
  }

  lemma {:induction false} TextIsNeat(cc: CharClasses, ts: seq<Token>)
    requires cc.Valid() && Singles(cc, ts)
    ensures Neat(cc, Text(ts))
  {
    TextEndsVisible(cc, ts);
    if ts != [] {
      var n := |ts| - 1;
      var sep := if n > 0 then Between(ts[n - 1], ts[n]) else [];
      TextIsNeat(cc, ts[..n]);
      TextEndsVisible(cc, ts[..n]);
      TextNext(ts);
      assert Single(cc, ts[n]) && ts[n].text == [ts[n].text[0]];
      if sep != [] {
        ConcatOne(sep[0]);
      }
      NeatNext(cc, Text(ts[..n]), Concat(sep), ts[n].text[0]);
    }
  }

  function WithoutLastLineFeed(t: string): string {
    if EndsWithLineFeed(t) then t[..|t| - 1] else t
  }

  /** The first line of a neat text, and what is left. */
  lemma NeatLine(cc: CharClasses, t: string)
    requires cc.Valid() && Neat(cc, t) && LineLength(cc, t) < |t|
    ensures var n := LineLength(cc, t);
            && n > 0 && t[n] == '\n' && RStrip(cc, t[..n]) == t[..n] && BreakLength(t, n) == 1
            && Neat(cc, t[n + 1..])
  {
    var n := LineLength(cc, t);
    LineLengthStops(cc, t);
    var rest := t[n + 1..];
    forall p | 0 <= p < |rest| && cc.space(rest[p])
      ensures p > 0 && !cc.space(rest[p - 1]) && (rest[p] == ' ' || rest[p] == '\n')
    {
      assert rest[p] == t[n + 1 + p];
    }
  }

  ghost predicate LinesStay(cc: CharClasses, t: string) {
    JoinStripped(cc, SplitLines(cc, t)) == WithoutLastLineFeed(t)
  }

  lemma JoinNext(cc: CharClasses, line: string, rest: string)
    requires RStrip(cc, line) == line && LinesStay(cc, rest)
    ensures JoinStripped(cc, [line] + SplitLines(cc, rest))
         == if rest == [] then line else line + "\n" + WithoutLastLineFeed(rest)
  {
    assert ([line] + SplitLines(cc, rest))[1..] == SplitLines(cc, rest);
  }

  lemma LastLineFeedOfRest(t: string, n: nat)
    requires n < |t| && t[n] == '\n'
    ensures WithoutLastLineFeed(t) == if n + 1 == |t| then t[..n] else t[..n] + "\n" + WithoutLastLineFeed(t[n + 1..])
  {
    if n + 1 < |t| {
      assert t[n + 1..][|t| - n - 2] == t[|t| - 1];
      assert t == t[..n] + "\n" + t[n + 1..];
    }
  }

  lemma OneMoreNeatLine(cc: CharClasses, t: string, n: nat)
    requires cc.Valid() && n == LineLength(cc, t) < |t| && t[n] == '\n' && BreakLength(t, n) == 1
    requires RStrip(cc, t[..n]) == t[..n] && LinesStay(cc, t[n + 1..])
    ensures LinesStay(cc, t)
  {
    SplitFirst(cc, t);
    JoinNext(cc, t[..n], t[n + 1..]);
    LastLineFeedOfRest(t, n);
  }

  /** Stripping and joining the lines of a neat text takes off its last line feed only. */
  lemma {:induction false} NeatLinesStay(cc: CharClasses, t: string)
    requires cc.Valid() && Neat(cc, t) && (Pending(cc, t) ==> EndsWithLineFeed(t))
    ensures LinesStay(cc, t)
    decreases |t|
  {
    var n := LineLength(cc, t);
    if n == |t| {
      LineHasNoLineFeed(cc, t);
      return;
    }
    NeatLine(cc, t);
    var rest := t[n + 1..];
    assert rest != [] ==> rest[|rest| - 1] == t[|t| - 1];
    NeatLinesStay(cc, rest);
    OneMoreNeatLine(cc, t, n);
  }

  lemma {:induction false} LineHasNoLineFeed(cc: CharClasses, t: string)
    requires cc.Valid() && LineLength(cc, t) == |t|
    ensures !EndsWithLineFeed(t)
  {
    if |t| > 1 {
      LineHasNoLineFeed(cc, t[1..]);
    }
  }

  lemma NeatTextStays(cc: CharClasses, t: string)
    requires cc.Valid() && Neat(cc, t) && !Pending(cc, t)
    ensures TrimLines(cc, t) == t
  {
    NeatLinesStay(cc, t);
    assert !EndsWithLineFeed(t);
  }

  lemma TrimmedText(cc: CharClasses, ts: seq<Token>, u: string)
    requires cc.Valid() && Singles(cc, ts) && (u == Text(ts) || (ts != [] && u == Text(ts) + "\n"))
    ensures TrimLines(cc, u) == Text(ts)
  {
    var q := Text(ts);
    TextIsNeat(cc, ts);
    TextEndsVisible(cc, ts);
    if u != q {
      NeatNext(cc, q, "\n", '.');
      assert u[..|q|] == q;
    }
    NeatLinesStay(cc, u);
    assert !EndsWithLineFeed(q);
    assert q != [] ==> !cc.space(q[0]);
  }

  // ---------------------------------------------------------------- the second pass

  lemma TextOfPieces(ts: seq<Token>)
    ensures Concat(Pieces(ts)) == Text(ts) + if ts != [] && BreaksAfter(ts[|ts| - 1]) then "\n" else ""
  {
    if ts != [] && BreaksAfter(ts[|ts| - 1]) {
      ConcatAppend(Laid(ts), ["\n"]);
      ConcatOne("\n");
    } else {
      assert Pieces(ts) == Laid(ts);
    }
  }

  lemma ReflowOfChars(lang: Language, s: string, ts: seq<Token>)
    requires lang.Valid() && Singles(lang.cc, ts) && Tokens(lang, s, 0, false) == ts
    ensures Reflow(lang, s) == Text(ts) + if EndsWithLineFeed(s) then "\n" else ""
  {
    TextOfPieces(ts);
    assert Text(ts) + "" == Text(ts);
    TrimmedText(lang.cc, ts, Concat(Pieces(ts)));
  }

  lemma TokensAreChars(lang: Language, s: string)
    requires lang.Valid() && CaseKeepsSpace(lang.cc) && Prose(lang, s)
    ensures Tokens(lang, s, 0, false) == Chars(lang.cc, s)
  {
    TokensOfProse(lang, s, 0);
    assert s[..0] == [] && Chars(lang.cc, []) == [];
  }

  lemma ReadAgain(lang: Language, r: string, ts: seq<Token>, last: string)
    requires lang.Valid() && CaseKeepsSpace(lang.cc) && Prose(lang, r) && Singles(lang.cc, ts)
    requires r == Text(ts) + last && (last == "" || last == "\n")
    ensures Tokens(lang, r, 0, false) == Regapped(ts)
  {
    TextReadAgain(lang.cc, ts);
    TokensAreChars(lang, r);
    if last == "" {
      assert r == Text(ts);
    } else {
      CharsNext(lang.cc, Text(ts), '\n');
      assert r == Text(ts) + ['\n'];
    }
  }

  lemma RegappedAreSingles(cc: CharClasses, ts: seq<Token>)
    requires Singles(cc, ts)
    ensures Singles(cc, Regapped(ts))
  {
    forall k | 0 <= k < |ts| ensures Single(cc, Regapped(ts)[k]) {
      assert Single(cc, ts[k]);
    }
  }

  /** What a pass over prose leaves, read again, is laid out alike. */
  lemma SecondPass(lang: Language, r: string, ts: seq<Token>, last: string)
    requires lang.Valid() && CaseKeepsSpace(lang.cc) && Prose(lang, r) && Singles(lang.cc, ts)
    requires r == Text(ts) + last && (last == "" || last == "\n")
    ensures Reflow(lang, r) == r
  {
    ReadAgain(lang, r, ts, last);
    RegappedAreSingles(lang.cc, ts);
    RegappedIsLaidAlike(lang.cc, ts);
    ReflowOfChars(lang, r, Regapped(ts));
    TextEndsVisible(lang.cc, ts);
    assert EndsWithLineFeed(r) <==> last == "\n";
  }

  /** For every text of prose, a second pass changes nothing. */
  lemma ReflowIsStableOnProse(lang: Language, s: string)
    requires lang.Valid() && CaseKeepsSpace(lang.cc) && Prose(lang, s)
    ensures Reflow(lang, Reflow(lang, s)) == Reflow(lang, s)
  {
    var ts := Chars(lang.cc, s);
    TokensAreChars(lang, s);
    CharsAreSingles(lang.cc, s);
    ReflowOfChars(lang, s, ts);
    ReflowKeepsContent(lang, s);
    SecondPass(lang, Reflow(lang, s), ts, if EndsWithLineFeed(s) then "\n" else "");
  }
}

/** Which words a second pass finds that the first did not: single characters that spell a protected word once the
    white space before a full stop is gone and a line ends after it. */
module LatexJoins {
  import opened PyText
  import opened LatexScanners
  import opened LatexReflow
  import opened LatexContent
  import opened LatexLines
  import opened LatexMachines
  import opened LatexMarkup
  import opened LatexReread
  import opened LatexSecondPass
  import opened LatexOrigins
  import opened LatexPrinted
  import opened LatexWords
  import opened LatexProtected
  import Stable = LatexStable

  // ---------------------------------------------------------------- words spelled by single characters

  predicate CharAs(cc: CharClasses, t: Token, c: char) {
    t.kind in {Plain, Stop} && |t.text| == 1 && cc.lower(t.text[0]) == cc.lower(c)
  }

  /** Between these two characters of a word no white space is skipped. */
  predicate Tight(cc: CharClasses, w: string, j: nat) {
    j + 1 < |w| && !cc.space(w[j + 1]) && w[j] != '.'
  }

  /** If the tokens from the `k`-th on spell `w` from its `j`-th character on, the number of the token after them,
      and 0 if they do not. Separators may stand for a space of the word and after its full stops. */
  function SpelledTo(cc: CharClasses, ts: seq<Token>, k: nat, w: string, j: nat): nat
    requires j <= |w|
    decreases |w| - j
  {
    if j == |w| then k
    else if cc.space(w[j]) then
      if 0 < k < |ts| && SepBefore(ts, k) != "" then SpelledTo(cc, ts, k, w, j + 1) else 0
    else if k < |ts| && CharAs(cc, ts[k], w[j]) && (Tight(cc, w, j) ==> SepBefore(ts, k + 1) == "") then
      SpelledTo(cc, ts, k + 1, w, j + 1)
    else 0
  }

  // ---------------------------------------------------------------- reading them in the print

  function EndOf(us: seq<Token>, k: nat): nat
    requires k <= |us|
  {
    |Stable.Text(us[..k])|
  }

  lemma EndAndPlace(us: seq<Token>, k: nat)
    requires k < |us|
    ensures EndOf(us, k + 1) == PlaceOf(us, k) + |us[k].text|
    ensures PlaceOf(us, k + 1) == EndOf(us, k + 1) + |SepBefore(us, k + 1)|
  {
    TextUpTo(us, k);
  }

  /** Where the reading of the word stands. */
  function ReadingAt(cc: CharClasses, us: seq<Token>, k: nat, w: string, j: nat): nat
    requires k <= |us| && j <= |w|
  {
    if j < |w| && !cc.space(w[j]) then PlaceOf(us, k) else EndOf(us, k)
  }

  lemma NoVisibleAtEnd(lang: Language, q: string, w: string, j: nat, i: nat)
    requires Orderly(lang) && j < |w| && !lang.cc.space(w[j]) && i <= |q| && (i < |q| ==> lang.cc.space(q[i]))
    ensures MatchWord(lang.cc, q, i, w, j) == NoMatch
  {
  }

  lemma OnlyBreakAtEnd(q: string, us: seq<Token>, i: nat)
    requires (q == Stable.Text(us) || q == Stable.Text(us) + "\n") && |Stable.Text(us)| <= i <= |q|
    ensures i < |q| ==> q[i] == '\n' && i + 1 == |q|
  {
  }

  lemma NothingAtEnd(lang: Language, q: string, us: seq<Token>, w: string, j: nat, i: nat)
    requires Orderly(lang) && PrintOf(lang.cc, q, us) && IsWord(lang.cc, w) && j < |w| && |Stable.Text(us)| <= i <= |q|
    ensures MatchWord(lang.cc, q, i, w, j) == NoMatch
  {
    OnlyBreakAtEnd(q, us, i);
    if lang.cc.space(w[j]) {
      NoSpaceAfterStop(lang.cc, w, j);
      NoVisibleAtEnd(lang, q, w, j + 1, |q|);
    } else {
      NoVisibleAtEnd(lang, q, w, j, i);
    }
  }

  lemma NotSpelledAtEnd(cc: CharClasses, ts: seq<Token>, w: string, j: nat)
    requires j < |w|
    ensures SpelledTo(cc, ts, |ts|, w, j) == 0
  {
  }

  /** The reading of the word and its spelling agree from here on. */
  ghost predicate Agree(lang: Language, ts: seq<Token>, q: string, us: seq<Token>, k: nat, w: string, j: nat, i: nat)
    requires j <= |w| && |us| == |ts| && i <= |q|
  {
    var m, l := MatchWord(lang.cc, q, i, w, j), SpelledTo(lang.cc, ts, k, w, j);
    (Clean(lang.cc, q, m) <==> l > 0) && (l > 0 ==> l <= |us| && m.end == EndOf(us, l))
  }

  lemma AgreeAtEnd(lang: Language, ts: seq<Token>, q: string, us: seq<Token>, w: string, j: nat, i: nat)
    requires Orderly(lang) && PrintOf(lang.cc, q, us) && IsWord(lang.cc, w) && j < |w| && |Stable.Text(us)| <= i <= |q|
    requires |us| == |ts|
    ensures Agree(lang, ts, q, us, |ts|, w, j, i)
  {
    NothingAtEnd(lang, q, us, w, j, i);
    NotSpelledAtEnd(lang.cc, ts, w, j);
  }

  lemma StopBreaks(us: seq<Token>, k: nat)
    requires k < |us| && us[k].kind == Stop
    ensures LastOnLine(us, k)
  {
    ConcatOne("\n");
  }

  /** What the tokens before the `k`-th have spelled of the word. */
  ghost predicate Inside(cc: CharClasses, ts: seq<Token>, k: nat, w: string, j: nat) {
    j <= |w| && k <= |ts| &&
    if j == 0 then k < |ts| && ts[k].kind == Plain
    else
      && k > 0 && (!cc.space(w[j - 1]) ==> CharAs(cc, ts[k - 1], w[j - 1]))
      && (j < |w| && !cc.space(w[j]) && !Inner(cc, w, j) ==> SepBefore(ts, k) == "")
  }

  lemma FullStopToken(lang: Language, s: string, ts: seq<Token>, k: nat)
    requires Orderly(lang) && ts == Tokens(lang, s, 0, false) && k < |ts| && CharAs(lang.cc, ts[k], '.')
    ensures ts[k].kind == Stop && ts[k].text == "."
  {
    var i := Origin(lang, s, ts, k);
    CharToken(lang, s, ts, k, i);
  }

  lemma PrintedEnd(q: string, us: seq<Token>, k: nat, p: nat, e: nat, n: nat)
    requires PrintedAt(q, us, k, p, e, n)
    ensures e == EndOf(us, k + 1)
  {
    EndAndPlace(us, k);
  }

  /** After a full stop or comma the print goes on with a line end. */
  lemma BreakAfterStop(lang: Language, q: string, us: seq<Token>, k: nat, i: nat)
    requires lang.Valid() && PrintOf(lang.cc, q, us) && k < |us| && us[k].kind == Stop && i == EndOf(us, k + 1)
    ensures i <= |q| && (i < |q| ==> q[i] == '\n')
  {
    StopBreaks(us, k);
    var p, e, n := IsPrintedAt(lang, q, us, k);
    PrintedEnd(q, us, k, p, e, n);
    NothingAfter(lang.cc, q, us, k, p, e, n);
  }

  lemma WordEndAgrees(lang: Language, s: string, ts: seq<Token>, q: string, us: seq<Token>, k: nat, w: string, i: nat)
    requires SolidPass(lang, s, ts, q, us) && Orderly(lang) && IsWord(lang.cc, w)
    requires Inside(lang.cc, ts, k, w, |w|) && i == EndOf(us, k)
    ensures i <= |q| && Agree(lang, ts, q, us, k, w, |w|, i)
  {
    assert !lang.cc.space('.') && !lang.cc.alnum('\n');
    FullStopToken(lang, s, ts, k - 1);
    BreakAfterStop(lang, q, us, k - 1, i);
  }

  lemma SpaceAgrees(lang: Language, ts: seq<Token>, q: string, us: seq<Token>, k: nat, w: string, j: nat, i: nat, n: nat, sep: string)
    requires lang.Valid() && |us| == |ts| && 0 < k < |ts| && j < |w| && lang.cc.space(w[j]) && i <= n < |q|
    requires sep == SepBefore(ts, k) && q[i..n] == sep && !lang.cc.space(q[n]) && Agree(lang, ts, q, us, k, w, j + 1, n)
    ensures Agree(lang, ts, q, us, k, w, j, i)
  {
    if sep == "" {
      assert i == n;
    } else {
      assert q[i] == q[i..n][0] && n == i + 1;
    }
  }

  lemma CharAgrees(lang: Language, ts: seq<Token>, q: string, us: seq<Token>, k: nat, w: string, j: nat, i: nat, n: nat)
    requires lang.Valid() && |us| == |ts| && k < |ts| && j < |w| && !lang.cc.space(w[j]) && i < |q|
    requires CharAs(lang.cc, ts[k], w[j]) && q[i] == ts[k].text[0] && (Tight(lang.cc, w, j) ==> SepBefore(ts, k + 1) == "")
    requires n == AfterStop(lang.cc, q, i + 1, w, j) && Agree(lang, ts, q, us, k + 1, w, j + 1, n)
    ensures Agree(lang, ts, q, us, k, w, j, i)
  {
  }

  lemma NeitherReads(lang: Language, ts: seq<Token>, q: string, us: seq<Token>, k: nat, w: string, j: nat, i: nat)
    requires |us| == |ts| && j <= |w| && i <= |q|
    requires SpelledTo(lang.cc, ts, k, w, j) == 0 && !Clean(lang.cc, q, MatchWord(lang.cc, q, i, w, j))
    ensures Agree(lang, ts, q, us, k, w, j, i)
  {
  }

  lemma GapStopsWord(lang: Language, q: string, i: nat, w: string, j: nat)
    requires Orderly(lang) && Tight(lang.cc, w, j) && !lang.cc.space(w[j]) && i + 1 < |q| && lang.cc.space(q[i + 1])
    ensures MatchWord(lang.cc, q, i, w, j) == NoMatch
  {
    assert MatchWord(lang.cc, q, i + 1, w, j + 1) == NoMatch;
  }

  /** Two letters of the word are apart in the print. */
  lemma GapAgrees(lang: Language, ts: seq<Token>, q: string, us: seq<Token>, k: nat, w: string, j: nat, i: nat)
    requires Orderly(lang) && |us| == |ts| && k < |ts| && Tight(lang.cc, w, j) && !lang.cc.space(w[j]) && i < |q|
    requires SepBefore(ts, k + 1) != "" && i + 1 < |q| && lang.cc.space(q[i + 1])
    ensures Agree(lang, ts, q, us, k, w, j, i)
  {
    GapStopsWord(lang, q, i, w, j);
    NeitherReads(lang, ts, q, us, k, w, j, i);
  }

  lemma OtherCharAgrees(lang: Language, ts: seq<Token>, q: string, us: seq<Token>, k: nat, w: string, j: nat, i: nat)
    requires |us| == |ts| && k < |ts| && j < |w| && !lang.cc.space(w[j]) && i < |q|
    requires !CharAs(lang.cc, ts[k], w[j]) && lang.cc.lower(q[i]) != lang.cc.lower(w[j])
    ensures Agree(lang, ts, q, us, k, w, j, i)
  {
  }

  lemma MarkupIsNoLetter(lang: Language, w: string, j: nat, c: char)
    requires Orderly(lang) && IsWord(lang.cc, w) && j < |w| && !lang.cc.space(w[j]) && c in "\\$%"
    ensures lang.cc.lower(c) != lang.cc.lower(w[j])
  {
    assert !lang.cc.alnum(c) && c != '.';
  }

  lemma LetterBefore(lang: Language, ts: seq<Token>, k: nat, w: string, j: nat)
    requires Orderly(lang) && IsWord(lang.cc, w) && k < |ts| && Inside(lang.cc, ts, k, w, j) && 0 < j < |w|
    requires !lang.cc.space(w[j]) && !Inner(lang.cc, w, j)
    ensures !BoundaryAt(lang.cc, ts, k)
  {
    assert lang.cc.alpha(w[j - 1]) && lang.cc.alnum(ts[k - 1].text[0]);
  }

  /** A protected token stands where no word goes on inside its letters. */
  lemma ProtectedIsInner(lang: Language, s: string, ts: seq<Token>, k: nat, w: string, j: nat)
    requires Orderly(lang) && Named(lang) && ts == Tokens(lang, s, 0, false) && IsWord(lang.cc, w) && k < |ts|
    requires Inside(lang.cc, ts, k, w, j) && j < |w| && !lang.cc.space(w[j]) && ts[k].kind == Protected
    ensures Inner(lang.cc, w, j)
  {
    if !Inner(lang.cc, w, j) {
      LetterBefore(lang, ts, k, w, j);
      ProtectedAtBoundary(lang, s, ts, k);
    }
  }

  lemma ProtectedText(lang: Language, s: string, ts: seq<Token>, us: seq<Token>, k: nat) returns (v: string, o: string)
    requires Orderly(lang) && ts == Tokens(lang, s, 0, false) && us == Straightened(lang.cc, ts)
    requires k < |ts| && ts[k].kind == Protected
    ensures v in lang.protected && Renders(lang.cc, o, v, 0) && us[k].text == ts[k].text
    ensures ts[k].text == o || ts[k].text == o + ","
  {
    var i := Origin(lang, s, ts, k);
    v, o := ProtectedToken(lang, s, ts, k, i);
    RenderedIsLine(lang, o, v, ts[k].text);
  }

  lemma ProtectedAgrees(lang: Language, s: string, ts: seq<Token>, q: string, us: seq<Token>, k: nat, w: string, j: nat, i: nat)
    requires SolidPass(lang, s, ts, q, us) && Orderly(lang) && w in lang.protected && k < |ts|
    requires Inside(lang.cc, ts, k, w, j) && j < |w| && !lang.cc.space(w[j]) && ts[k].kind == Protected
    requires i == PlaceOf(us, k)
    ensures i <= |q| && Agree(lang, ts, q, us, k, w, j, i)
  {
    assert IsWord(lang.cc, w);
    ProtectedIsInner(lang, s, ts, k, w, j);
    var v, o := ProtectedText(lang, s, ts, us, k);
    var p, e, n := IsPrintedAt(lang, q, us, k);
    TextParts(q, p, e, o, us[k].text);
    NotReadOn(lang, q, i, w, j, v, o);
    NeitherReads(lang, ts, q, us, k, w, j, i);
  }

  lemma NotReadOn(lang: Language, q: string, i: nat, w: string, j: nat, v: string, o: string)
    requires Orderly(lang) && w in lang.protected && v in lang.protected && Inner(lang.cc, w, j)
    requires Renders(lang.cc, o, v, 0) && HasAt(q, i, o)
    ensures !Clean(lang.cc, q, MatchWord(lang.cc, q, i, w, j))
  {
    assert IsWord(lang.cc, v) && IsWord(lang.cc, w);
    var far: nat :| Apart(lang.cc, w, j, v, far);
    NotEntered(lang.cc, q, i, w, j, v, o, 0, far, j);
  }

  lemma MarkupAgrees(lang: Language, s: string, ts: seq<Token>, q: string, us: seq<Token>, k: nat, w: string, j: nat, i: nat)
    requires SolidPass(lang, s, ts, q, us) && Orderly(lang) && IsWord(lang.cc, w) && k < |ts| && j < |w|
    requires !lang.cc.space(w[j]) && ts[k].kind in {Inline, Display, Comment} && i == PlaceOf(us, k)
    ensures i <= |q| && Agree(lang, ts, q, us, k, w, j, i)
  {
    var o := Origin(lang, s, ts, k);
    var p, e, n := IsPrintedAt(lang, q, us, k);
    OriginStarts(lang, s, ts, k, o);
    StraightStarts(lang.cc, ts[k].text);
    MarkupStart(lang, s, o);
    MarkupIsNoLetter(lang, w, j, q[i]);
    OtherCharAgrees(lang, ts, q, us, k, w, j, i);
  }

  lemma MarkupStart(lang: Language, s: string, i: nat)
    requires lang.Valid() && i < |s| && LexemeAt(lang, s, i).kind in {Inline, Display, Comment}
    ensures s[i] in "\\$%"
  {
  }

  lemma CharPrinted(lang: Language, s: string, ts: seq<Token>, q: string, us: seq<Token>, k: nat, i: nat)
    requires SolidPass(lang, s, ts, q, us) && k < |ts| && ts[k].kind in {Plain, Stop} && i == PlaceOf(us, k)
    ensures i < |q| && ts[k].text == [q[i]] && EndOf(us, k + 1) == i + 1
  {
    var o := Origin(lang, s, ts, k);
    OneCharPrinted(lang, s, ts, us, k, o);
    var p, e, n := IsPrintedAt(lang, q, us, k);
    EndAndPlace(us, k);
  }

  /** The separator after a token in the print. */
  lemma SepInPrint(lang: Language, q: string, us: seq<Token>, k: nat, i: nat, n: nat)
    requires lang.Valid() && PrintOf(lang.cc, q, us) && 0 < k < |us| && i == EndOf(us, k) && n == PlaceOf(us, k)
    ensures i <= n < |q| && q[i..n] == SepBefore(us, k) && !lang.cc.space(q[n])
    ensures SepBefore(us, k) != "" ==> lang.cc.space(q[i]) && n == i + 1
    ensures ClassEnd(q, i, lang.cc.space) == n
  {
    EndAndPlace(us, k - 1);
    var p, e, m := IsPrintedAt(lang, q, us, k - 1);
    PrintedNext(lang.cc, q, us, k, n);
    SepIsSpaces(lang.cc, q, i, n, SepBefore(us, k));
    NoSepBeforeVisible(lang.cc, q, i, n, SepBefore(us, k));
  }

  // ---------------------------------------------------------------- the whole word

  lemma InsideNext(cc: CharClasses, ts: seq<Token>, k: nat, w: string, j: nat)
    requires k < |ts| && j < |w| && !cc.space(w[j]) && CharAs(cc, ts[k], w[j]) && (Tight(cc, w, j) ==> SepBefore(ts, k + 1) == "")
    ensures Inside(cc, ts, k + 1, w, j + 1)
  {
  }

  lemma InsideAfterSpace(cc: CharClasses, ts: seq<Token>, k: nat, w: string, j: nat)
    requires IsWord(cc, w) && Inside(cc, ts, k, w, j) && j < |w| && cc.space(w[j]) && k < |ts|
    ensures Inside(cc, ts, k, w, j + 1)
  {
  }

  lemma AfterStopIs(cc: CharClasses, q: string, i: nat, w: string, j: nat, n: nat, sep: string)
    requires i < |q| && j + 1 < |w| && n == ClassEnd(q, i + 1, cc.space) && (Tight(cc, w, j) ==> sep == "") && n == i + 1 + |sep|
    ensures AfterStop(cc, q, i + 1, w, j) == if cc.space(w[j + 1]) then i + 1 else n
  {
  }

  /** Where the reading goes on after a character. */
  lemma NextReading(lang: Language, q: string, us: seq<Token>, k: nat, w: string, j: nat, i: nat, n: nat)
    requires Orderly(lang) && PrintOf(lang.cc, q, us) && 0 < k < |us| && n == PlaceOf(us, k)
    requires j + 1 < |w| && i + 1 == EndOf(us, k) && (Tight(lang.cc, w, j) ==> SepBefore(us, k) == "")
    ensures i < |q| && AfterStop(lang.cc, q, i + 1, w, j) == ReadingAt(lang.cc, us, k, w, j + 1)
  {
    SepInPrint(lang, q, us, k, i + 1, n);
    AfterStopIs(lang.cc, q, i, w, j, n, q[i + 1..n]);
  }

  lemma LastCharAgrees(lang: Language, ts: seq<Token>, q: string, us: seq<Token>, k: nat, w: string, j: nat, i: nat)
    requires Orderly(lang) && PrintOf(lang.cc, q, us) && |us| == |ts| && IsWord(lang.cc, w)
    requires k + 1 == |ts| && j + 1 < |w| && !lang.cc.space(w[j]) && i + 1 == EndOf(us, k + 1) && i < |q|
    requires CharAs(lang.cc, ts[k], w[j]) && q[i] == ts[k].text[0]
    ensures Agree(lang, ts, q, us, k, w, j, i)
  {
    assert us[..|us|] == us;
    AgreeAtEnd(lang, ts, q, us, w, j + 1, AfterStop(lang.cc, q, i + 1, w, j));
    NothingAtEnd(lang, q, us, w, j + 1, AfterStop(lang.cc, q, i + 1, w, j));
    NotSpelledAtEnd(lang.cc, ts, w, j + 1);
    NeitherReads(lang, ts, q, us, k, w, j, i);
  }

  /** Reading and spelling agree at a single character, if they do after it. */
  lemma OneCharAgrees(lang: Language, s: string, ts: seq<Token>, q: string, us: seq<Token>, k: nat, w: string, j: nat, i: nat)
    requires SolidPass(lang, s, ts, q, us) && Orderly(lang) && IsWord(lang.cc, w) && k < |ts| && j < |w|
    requires !lang.cc.space(w[j]) && ts[k].kind in {Plain, Stop} && i == PlaceOf(us, k) && ReadingAt(lang.cc, us, k + 1, w, j + 1) <= |q|
    requires CharAs(lang.cc, ts[k], w[j]) && (Tight(lang.cc, w, j) ==> SepBefore(ts, k + 1) == "")
    requires Agree(lang, ts, q, us, k + 1, w, j + 1, ReadingAt(lang.cc, us, k + 1, w, j + 1))
    ensures i < |q| && Agree(lang, ts, q, us, k, w, j, i)
  {
    CharPrinted(lang, s, ts, q, us, k, i);
    SameSeparator(lang.cc, ts, k + 1);
    if k + 1 == |us| && j + 1 < |w| {
      LastCharAgrees(lang, ts, q, us, k, w, j, i);
      return;
    }
    if j + 1 < |w| {
      NextReading(lang, q, us, k + 1, w, j, i, PlaceOf(us, k + 1));
    }
    CharAgrees(lang, ts, q, us, k, w, j, i, AfterStop(lang.cc, q, i + 1, w, j));
  }

  /** ... and where two letters of the word are apart. */
  lemma ApartAgrees(lang: Language, s: string, ts: seq<Token>, q: string, us: seq<Token>, k: nat, w: string, j: nat, i: nat)
    requires SolidPass(lang, s, ts, q, us) && Orderly(lang) && IsWord(lang.cc, w) && k < |ts| && j < |w|
    requires !lang.cc.space(w[j]) && ts[k].kind in {Plain, Stop} && i == PlaceOf(us, k)
    requires Tight(lang.cc, w, j) && SepBefore(ts, k + 1) != ""
    ensures i < |q| && Agree(lang, ts, q, us, k, w, j, i)
  {
    CharPrinted(lang, s, ts, q, us, k, i);
    SameSeparator(lang.cc, ts, k + 1);
    SepInPrint(lang, q, us, k + 1, i + 1, PlaceOf(us, k + 1));
    GapAgrees(lang, ts, q, us, k, w, j, i);
  }

  lemma DifferentAgrees(lang: Language, s: string, ts: seq<Token>, q: string, us: seq<Token>, k: nat, w: string, j: nat, i: nat)
    requires SolidPass(lang, s, ts, q, us) && Orderly(lang) && k < |ts| && j < |w|
    requires !lang.cc.space(w[j]) && ts[k].kind in {Plain, Stop} && i == PlaceOf(us, k) && !CharAs(lang.cc, ts[k], w[j])
    ensures i < |q| && Agree(lang, ts, q, us, k, w, j, i)
  {
    CharPrinted(lang, s, ts, q, us, k, i);
    OtherCharAgrees(lang, ts, q, us, k, w, j, i);
  }

  lemma SpaceStepAgrees(lang: Language, ts: seq<Token>, q: string, us: seq<Token>, k: nat, w: string, j: nat, i: nat)
    requires lang.Valid() && PrintOf(lang.cc, q, us) && us == Straightened(lang.cc, ts) && 0 < k < |ts| && j < |w|
    requires lang.cc.space(w[j]) && i == EndOf(us, k) && PlaceOf(us, k) <= |q|
    requires Agree(lang, ts, q, us, k, w, j + 1, PlaceOf(us, k))
    ensures i <= |q| && Agree(lang, ts, q, us, k, w, j, i)
  {
    SameSeparator(lang.cc, ts, k);
    SepInPrint(lang, q, us, k, i, PlaceOf(us, k));
    SpaceAgrees(lang, ts, q, us, k, w, j, i, PlaceOf(us, k), SepBefore(ts, k));
  }

  lemma ReadingInside(cc: CharClasses, q: string, us: seq<Token>, k: nat, w: string, j: nat)
    requires PrintOf(cc, q, us) && k <= |us| && j <= |w|
    ensures ReadingAt(cc, us, k, w, j) <= |q| && PlaceOf(us, k) <= |q|
    ensures k == |us| ==> |Stable.Text(us)| <= ReadingAt(cc, us, k, w, j)
  {
    BeforeIsPrefix(us, k);
    TextIsPrefix(q, us);
    assert us[..|us|] == us;
  }

  lemma NoLetterFirst(cc: CharClasses, ts: seq<Token>, k: nat, w: string, j: nat)
    requires Sane(cc) && IsWord(cc, w) && Inside(cc, ts, k, w, j) && j < |w| && cc.space(w[j])
    ensures 0 < k && 0 < j && j + 1 < |w| && !cc.space(w[j + 1])
  {
    NoSpaceAfterStop(cc, w, j);
  }

  /** For every token and every word: the word is read in the print from there exactly if the tokens spell it. */
  lemma {:induction false} SpelledIsRead(lang: Language, s: string, ts: seq<Token>, q: string, us: seq<Token>, k: nat, w: string, j: nat)
    requires SolidPass(lang, s, ts, q, us) && Orderly(lang) && w in lang.protected && Inside(lang.cc, ts, k, w, j)
    ensures var i := ReadingAt(lang.cc, us, k, w, j); i <= |q| && Agree(lang, ts, q, us, k, w, j, i)
    decreases |w| - j, 1
  {
    assert IsWord(lang.cc, w);
    var i := ReadingAt(lang.cc, us, k, w, j);
    ReadingInside(lang.cc, q, us, k, w, j);
    if j == |w| {
      WordEndAgrees(lang, s, ts, q, us, k, w, i);
      return;
    }
    if k == |ts| {
      AgreeAtEnd(lang, ts, q, us, w, j, i);
      return;
    }
    if lang.cc.space(w[j]) {
      SpaceIsRead(lang, s, ts, q, us, k, w, j, i);
    } else {
      TokenIsRead(lang, s, ts, q, us, k, w, j, i);
    }
  }

  lemma {:induction false} SpaceIsRead(lang: Language, s: string, ts: seq<Token>, q: string, us: seq<Token>, k: nat, w: string, j: nat, i: nat)
    requires SolidPass(lang, s, ts, q, us) && Orderly(lang) && w in lang.protected && Inside(lang.cc, ts, k, w, j)
    requires k < |ts| && j < |w| && lang.cc.space(w[j]) && i == EndOf(us, k)
    ensures i <= |q| && Agree(lang, ts, q, us, k, w, j, i)
    decreases |w| - j, 0
  {
    assert IsWord(lang.cc, w);
    NoLetterFirst(lang.cc, ts, k, w, j);
    InsideAfterSpace(lang.cc, ts, k, w, j);
    SpelledIsRead(lang, s, ts, q, us, k, w, j + 1);
    SpaceStepAgrees(lang, ts, q, us, k, w, j, i);
  }

  lemma {:induction false} TokenIsRead(lang: Language, s: string, ts: seq<Token>, q: string, us: seq<Token>, k: nat, w: string, j: nat, i: nat)
    requires SolidPass(lang, s, ts, q, us) && Orderly(lang) && w in lang.protected && Inside(lang.cc, ts, k, w, j)
    requires k < |ts| && j < |w| && !lang.cc.space(w[j]) && i == PlaceOf(us, k)
    ensures i <= |q| && Agree(lang, ts, q, us, k, w, j, i)
    decreases |w| - j, 0
  {
    assert IsWord(lang.cc, w);
    if ts[k].kind == Protected {
      ProtectedAgrees(lang, s, ts, q, us, k, w, j, i);
      return;
    }
    if ts[k].kind in {Inline, Display, Comment} {
      MarkupAgrees(lang, s, ts, q, us, k, w, j, i);
      return;
    }
    if !CharAs(lang.cc, ts[k], w[j]) {
      DifferentAgrees(lang, s, ts, q, us, k, w, j, i);
      return;
    }
    if Tight(lang.cc, w, j) && SepBefore(ts, k + 1) != "" {
      ApartAgrees(lang, s, ts, q, us, k, w, j, i);
      return;
    }
    InsideNext(lang.cc, ts, k, w, j);
    SpelledIsRead(lang, s, ts, q, us, k + 1, w, j + 1);
    OneCharAgrees(lang, s, ts, q, us, k, w, j, i);
  }

  // ---------------------------------------------------------------- a word that is joined, and one that is not

  /** The print of the single character that the `k`-th token is starts a word. */
  ghost predicate JoinsAt(lang: Language, ts: seq<Token>, k: nat)
    requires k < |ts|
  {
    ts[k].kind == Plain && BoundaryAt(lang.cc, ts, k) && exists w :: w in lang.protected && SpelledTo(lang.cc, ts, k, w, 0) > 0
  }

  lemma UncleanIsNoWord(cc: CharClasses, q: string, p: nat, w: string)
    requires Sane(cc) && p <= |q| && !Clean(cc, q, MatchWord(cc, q, p, w, 0))
    ensures WordAt(cc, q, p, w) == NoMatch
  {
    assert !cc.alnum(',');
  }

  lemma StartsReading(lang: Language, ts: seq<Token>, us: seq<Token>, k: nat, w: string)
    requires Orderly(lang) && w in lang.protected && k < |ts| && ts[k].kind == Plain && |us| == |ts|
    ensures Inside(lang.cc, ts, k, w, 0) && ReadingAt(lang.cc, us, k, w, 0) == PlaceOf(us, k)
  {
    assert IsWord(lang.cc, w);
  }

  lemma NoWordFrom(lang: Language, s: string, ts: seq<Token>, q: string, us: seq<Token>, k: nat, w: string, p: nat)
    requires SolidPass(lang, s, ts, q, us) && Orderly(lang) && w in lang.protected && k < |ts| && ts[k].kind == Plain
    requires SpelledTo(lang.cc, ts, k, w, 0) == 0 && p == PlaceOf(us, k)
    ensures p <= |q| && WordAt(lang.cc, q, p, w) == NoMatch
  {
    StartsReading(lang, ts, us, k, w);
    SpelledIsRead(lang, s, ts, q, us, k, w, 0);
    UncleanIsNoWord(lang.cc, q, p, w);
  }

  lemma PlainIsRead(lang: Language, q: string, p: nat)
    requires lang.Valid() && p < |q| && q[p] !in "\\$%" && q[p] != ',' && q[p] != '.' && ProtectedAt(lang, q, p) == NoMatch
    ensures LexemeAt(lang, q, p) == Lexeme(Plain, [q[p]], p + 1)
  {
  }

  /** Every other character is read again where it was printed. */
  lemma PlainReadAgain(lang: Language, s: string, ts: seq<Token>, q: string, us: seq<Token>, k: nat)
    requires SolidPass(lang, s, ts, q, us) && Orderly(lang) && k < |ts| && ts[k].kind == Plain && !JoinsAt(lang, ts, k)
    ensures PlaceOf(us, k) < |q| && ReadAgainAt(lang, q, us, k)
  {
    var o := Origin(lang, s, ts, k);
    CharToken(lang, s, ts, k, o);
    OneCharPrinted(lang, s, ts, us, k, o);
    var p, e, n := IsPrintedAt(lang, q, us, k);
    NoWordAtPlain(lang, s, ts, q, us, k, p);
    PlainIsRead(lang, q, p);
    AgainAt(lang, q, us, k, p, e, n, LexemeAt(lang, q, p));
  }

  lemma NoWordAtPlain(lang: Language, s: string, ts: seq<Token>, q: string, us: seq<Token>, k: nat, p: nat)
    requires SolidPass(lang, s, ts, q, us) && Orderly(lang) && k < |ts| && ts[k].kind == Plain && !JoinsAt(lang, ts, k)
    requires p == PlaceOf(us, k)
    ensures p <= |q| && ProtectedAt(lang, q, p) == NoMatch
  {
    BoundaryInPrint(lang, s, ts, q, us, k, p);
    if BoundaryAt(lang.cc, ts, k) {
      forall w | w in lang.protected ensures WordAt(lang.cc, q, p, w) == NoMatch {
        NoWordFrom(lang, s, ts, q, us, k, w, p);
      }
      NoWordMatches(lang, q, p);
    }
  }

  lemma {:induction false} SpelledEnds(cc: CharClasses, ts: seq<Token>, k: nat, w: string, j: nat)
    requires j < |w| && w[|w| - 1] == '.' && !cc.space('.') && SpelledTo(cc, ts, k, w, j) > 0
    ensures var l := SpelledTo(cc, ts, k, w, j); k < l <= |ts| && CharAs(cc, ts[l - 1], '.')
    decreases |w| - j
  {
    if j + 1 < |w| {
      SpelledEnds(cc, ts, if cc.space(w[j]) then k else k + 1, w, j + 1);
    }
  }

  lemma CleanIsWord(cc: CharClasses, q: string, p: nat, w: string)
    requires Sane(cc) && p <= |q| && MatchWord(cc, q, p, w, 0).Match?
    requires var e := MatchWord(cc, q, p, w, 0).end; e < |q| ==> q[e] == '\n'
    ensures WordAt(cc, q, p, w) == MatchWord(cc, q, p, w, 0)
  {
    assert !cc.alnum('\n');
  }

  lemma WordRead(lang: Language, q: string, p: nat, w: string, m: Match)
    requires Orderly(lang) && w in lang.protected && p < |q| && q[p] !in "\\$%" && (p > 0 ==> !WordPart(lang.cc, q[p - 1]))
    requires m == WordAt(lang.cc, q, p, w) && m.Match?
    ensures LexemeAt(lang, q, p) == Lexeme(Protected, m.output, m.end)
  {
    assert lang.protected[0..] == lang.protected;
    FirstIsOnly(lang, q, p, 0, w);
  }

  /** A spelled word is read as one, up to the full stop of its last token. */
  lemma JoinIsRead(lang: Language, s: string, ts: seq<Token>, q: string, us: seq<Token>, k: nat, w: string, p: nat, l: nat)
    requires SolidPass(lang, s, ts, q, us) && Orderly(lang) && w in lang.protected && k < |ts| && ts[k].kind == Plain
    requires BoundaryAt(lang.cc, ts, k) && p == PlaceOf(us, k) && l == SpelledTo(lang.cc, ts, k, w, 0) > 0
    ensures k < l <= |us| && p < EndOf(us, l) <= |q| && us[l - 1].kind == Stop
    ensures var m := MatchWord(lang.cc, q, p, w, 0);
            m.Match? && m.end == EndOf(us, l) && LexemeAt(lang, q, p) == Lexeme(Protected, m.output, m.end)
  {
    var c, i, n := IsPrintedAt(lang, q, us, k);
    var o := Origin(lang, s, ts, k);
    CharToken(lang, s, ts, k, o);
    OneCharPrinted(lang, s, ts, us, k, o);
    StartsReading(lang, ts, us, k, w);
    SpelledIsRead(lang, s, ts, q, us, k, w, 0);
    JoinEnds(lang, s, ts, q, us, k, w, l);
    BoundaryInPrint(lang, s, ts, q, us, k, p);
    CleanIsWord(lang.cc, q, p, w);
    WordRead(lang, q, p, w, MatchWord(lang.cc, q, p, w, 0));
  }

  lemma JoinEnds(lang: Language, s: string, ts: seq<Token>, q: string, us: seq<Token>, k: nat, w: string, l: nat)
    requires SolidPass(lang, s, ts, q, us) && Orderly(lang) && w in lang.protected && k < |ts|
    requires l == SpelledTo(lang.cc, ts, k, w, 0) > 0
    ensures k < l <= |us| && us[l - 1].kind == Stop && EndOf(us, l) <= |q| && (EndOf(us, l) < |q| ==> q[EndOf(us, l)] == '\n')
  {
    LastIsStop(lang, s, ts, k, w, l);
    BreakAfterStop(lang, q, us, l - 1, EndOf(us, l));
  }

  lemma LastIsStop(lang: Language, s: string, ts: seq<Token>, k: nat, w: string, l: nat)
    requires Orderly(lang) && ts == Tokens(lang, s, 0, false) && w in lang.protected && k < |ts|
    requires l == SpelledTo(lang.cc, ts, k, w, 0) > 0
    ensures k < l <= |ts| && ts[l - 1].kind == Stop
  {
    assert IsWord(lang.cc, w) && !lang.cc.space('.');
    SpelledEnds(lang.cc, ts, k, w, 0);
    FullStopToken(lang, s, ts, l - 1);
  }

  // ---------------------------------------------------------------- what a joined word prints

  predicate InnerStopFrom(w: string, j: nat) {
    exists x: nat :: j <= x < |w| - 1 && w[x] == '.'
  }

  lemma SpelledChar(cc: CharClasses, ts: seq<Token>, k: nat, w: string, j: nat)
    requires j < |w| && !cc.space(w[j]) && SpelledTo(cc, ts, k, w, j) > 0
    ensures k < |ts| && CharAs(cc, ts[k], w[j]) && (Tight(cc, w, j) ==> SepBefore(ts, k + 1) == "")
    ensures SpelledTo(cc, ts, k + 1, w, j + 1) == SpelledTo(cc, ts, k, w, j) && Inside(cc, ts, k + 1, w, j + 1)
    ensures j + 1 < |w| ==> k + 1 < |ts|
  {
  }

  /** One step of the reading of a spelled word over a character. */
  lemma CharStep(lang: Language, s: string, ts: seq<Token>, q: string, us: seq<Token>, k: nat, w: string, j: nat, i: nat)
    returns (r: nat)
    requires SolidPass(lang, s, ts, q, us) && Orderly(lang) && w in lang.protected && j < |w| && !lang.cc.space(w[j])
    requires k < |ts| && SpelledTo(lang.cc, ts, k, w, j) > 0 && i == PlaceOf(us, k)
    ensures i < r <= |q| && r == ReadingAt(lang.cc, us, k + 1, w, j + 1) && EndOf(us, k + 1) == i + 1
    ensures MatchWord(lang.cc, q, i, w, j) == Prefixed(q[i], MatchWord(lang.cc, q, r, w, j + 1)) || MatchWord(lang.cc, q, i, w, j) == NoMatch
    ensures w[j] != '.' || j + 1 == |w| ==> r == i + 1
  {
    SpelledChar(lang.cc, ts, k, w, j);
    CharPrinted(lang, s, ts, q, us, k, i);
    ReadingInside(lang.cc, q, us, k + 1, w, j + 1);
    r := ReadingAt(lang.cc, us, k + 1, w, j + 1);
    SameSeparator(lang.cc, ts, k + 1);
    if j + 1 < |w| {
      NextReading(lang, q, us, k + 1, w, j, i, PlaceOf(us, k + 1));
    }
    PlaceAfter(us, k + 1);
  }

  lemma PlaceAfter(us: seq<Token>, k: nat)
    requires k <= |us|
    ensures PlaceOf(us, k) == EndOf(us, k) + |SepBefore(us, k)|
  {
  }

  lemma LetterIsPlain(lang: Language, s: string, ts: seq<Token>, k: nat, c: char)
    requires Orderly(lang) && ts == Tokens(lang, s, 0, false) && k < |ts| && lang.cc.alpha(c) && CharAs(lang.cc, ts[k], c)
    ensures ts[k].kind == Plain
  {
    var i := Origin(lang, s, ts, k);
    CharToken(lang, s, ts, k, i);
    assert !lang.cc.alnum(',') && !lang.cc.alnum('.');
  }

  lemma SpelledOverSpace(cc: CharClasses, ts: seq<Token>, k: nat, w: string, j: nat)
    requires j < |w| && cc.space(w[j]) && SpelledTo(cc, ts, k, w, j) > 0
    ensures 0 < k < |ts| && SepBefore(ts, k) != "" && SpelledTo(cc, ts, k, w, j + 1) == SpelledTo(cc, ts, k, w, j)
  {
  }

  lemma PlainGap(ts: seq<Token>, k: nat)
    requires 0 < k < |ts| && ts[k - 1].kind == Plain && ts[k].kind == Plain && SepBefore(ts, k) != ""
    ensures SepBefore(ts, k) == " "
  {
    ConcatOne(" ");
  }

  lemma LettersAround(cc: CharClasses, ts: seq<Token>, k: nat, w: string, j: nat)
    requires Sane(cc) && IsWord(cc, w) && Inside(cc, ts, k, w, j) && j < |w| && cc.space(w[j]) && SpelledTo(cc, ts, k, w, j) > 0
    ensures 0 < k < |ts| && 0 < j < |w| - 1 && cc.alpha(w[j - 1]) && cc.alpha(w[j + 1]) && !cc.space(w[j + 1])
    ensures CharAs(cc, ts[k - 1], w[j - 1]) && CharAs(cc, ts[k], w[j + 1])
  {
    SpelledOverSpace(cc, ts, k, w, j);
    SpelledChar(cc, ts, k, w, j + 1);
  }

  lemma LettersApart(lang: Language, s: string, ts: seq<Token>, k: nat, c: char, d: char)
    requires Orderly(lang) && ts == Tokens(lang, s, 0, false) && 0 < k < |ts| && SepBefore(ts, k) != ""
    requires lang.cc.alpha(c) && lang.cc.alpha(d) && CharAs(lang.cc, ts[k - 1], c) && CharAs(lang.cc, ts[k], d)
    ensures SepBefore(ts, k) == " "
  {
    LetterIsPlain(lang, s, ts, k - 1, c);
    LetterIsPlain(lang, s, ts, k, d);
    PlainGap(ts, k);
  }

  lemma SpelledSpace(lang: Language, s: string, ts: seq<Token>, k: nat, w: string, j: nat)
    requires Orderly(lang) && ts == Tokens(lang, s, 0, false) && IsWord(lang.cc, w) && Inside(lang.cc, ts, k, w, j) && j < |w|
    requires lang.cc.space(w[j]) && SpelledTo(lang.cc, ts, k, w, j) > 0
    ensures 0 < k < |ts| && SepBefore(ts, k) == " " && j + 1 < |w| && !lang.cc.space(w[j + 1])
  {
    LettersAround(lang.cc, ts, k, w, j);
    SpelledOverSpace(lang.cc, ts, k, w, j);
    LettersApart(lang, s, ts, k, w[j - 1], w[j + 1]);
  }

  /** One step over a space. */
  lemma SpaceStep(lang: Language, s: string, ts: seq<Token>, q: string, us: seq<Token>, k: nat, w: string, j: nat, i: nat)
    requires SolidPass(lang, s, ts, q, us) && Orderly(lang) && w in lang.protected && Inside(lang.cc, ts, k, w, j) && j < |w|
    requires lang.cc.space(w[j]) && SpelledTo(lang.cc, ts, k, w, j) > 0 && i == EndOf(us, k)
    ensures i + 1 <= |q| && q[i] == ' ' && k < |us| && j + 1 < |w| && i + 1 == ReadingAt(lang.cc, us, k, w, j + 1)
    ensures MatchWord(lang.cc, q, i, w, j) == Prefixed(' ', MatchWord(lang.cc, q, i + 1, w, j + 1))
  {
    assert IsWord(lang.cc, w);
    SpelledSpace(lang, s, ts, k, w, j);
    SameSeparator(lang.cc, ts, k);
    SepInPrint(lang, q, us, k, i, PlaceOf(us, k));
    assert q[i] == q[i..PlaceOf(us, k)][0];
  }

  lemma OutputGoesOn(cc: CharClasses, q: string, i: nat, r: nat, c: char, w: string, j: nat)
    requires j < |w| && i <= |q| && r <= |q| && MatchWord(cc, q, i, w, j).Match?
    requires MatchWord(cc, q, i, w, j) == Prefixed(c, MatchWord(cc, q, r, w, j + 1))
    ensures var m, o := MatchWord(cc, q, i, w, j), MatchWord(cc, q, r, w, j + 1);
            o.Match? && o.end == m.end && m.output == [c] + o.output && m.output[1..] == o.output
  {
  }

  lemma SliceHead(q: string, i: nat, e: nat)
    requires i < e <= |q|
    ensures q[i..e] == [q[i]] + q[i + 1..e]
  {
  }

  /** What is output for a character that nothing is skipped after. */
  lemma OutputStands(cc: CharClasses, q: string, i: nat, w: string, j: nat)
    requires j < |w| && i + 1 <= |q| && MatchWord(cc, q, i, w, j).Match?
    requires MatchWord(cc, q, i, w, j) == Prefixed(q[i], MatchWord(cc, q, i + 1, w, j + 1))
    requires var m := MatchWord(cc, q, i + 1, w, j + 1); m.Match? && m.output == q[i + 1..m.end]
    ensures var m := MatchWord(cc, q, i, w, j); m.output == q[i..m.end]
  {
    SliceHead(q, i, MatchWord(cc, q, i, w, j).end);
  }

  /** A word with no full stop inside it prints as it stood. */
  lemma {:induction false} JoinPrints(lang: Language, s: string, ts: seq<Token>, q: string, us: seq<Token>, k: nat, w: string, j: nat, i: nat)
    requires SolidPass(lang, s, ts, q, us) && Orderly(lang) && w in lang.protected && Inside(lang.cc, ts, k, w, j)
    requires SpelledTo(lang.cc, ts, k, w, j) > 0 && !InnerStopFrom(w, j) && i == ReadingAt(lang.cc, us, k, w, j) <= |q|
    requires MatchWord(lang.cc, q, i, w, j).Match?
    ensures var m := MatchWord(lang.cc, q, i, w, j); m.output == q[i..m.end]
    decreases |w| - j, 1
  {
    if j == |w| {
      EndPrints(lang.cc, q, i, w, j);
      return;
    }
    if lang.cc.space(w[j]) {
      SpacePrints(lang, s, ts, q, us, k, w, j, i);
      return;
    }
    CharPrints(lang, s, ts, q, us, k, w, j, i);
  }

  lemma EndPrints(cc: CharClasses, q: string, i: nat, w: string, j: nat)
    requires j == |w| && i <= |q|
    ensures var m := MatchWord(cc, q, i, w, j); m.Match? && m.output == q[i..m.end]
  {
    assert q[i..i] == "";
  }

  lemma {:induction false} SpacePrints(lang: Language, s: string, ts: seq<Token>, q: string, us: seq<Token>, k: nat, w: string, j: nat, i: nat)
    requires SolidPass(lang, s, ts, q, us) && Orderly(lang) && w in lang.protected && Inside(lang.cc, ts, k, w, j)
    requires SpelledTo(lang.cc, ts, k, w, j) > 0 && !InnerStopFrom(w, j) && i == EndOf(us, k) <= |q|
    requires j < |w| && lang.cc.space(w[j]) && MatchWord(lang.cc, q, i, w, j).Match?
    ensures var m := MatchWord(lang.cc, q, i, w, j); m.output == q[i..m.end]
    decreases |w| - j, 0
  {
    SpaceStep(lang, s, ts, q, us, k, w, j, i);
    OverSpace(lang.cc, ts, k, w, j);
    OutputGoesOn(lang.cc, q, i, i + 1, ' ', w, j);
    JoinPrints(lang, s, ts, q, us, k, w, j + 1, i + 1);
    OutputStands(lang.cc, q, i, w, j);
  }

  lemma {:induction false} CharPrints(lang: Language, s: string, ts: seq<Token>, q: string, us: seq<Token>, k: nat, w: string, j: nat, i: nat)
    requires SolidPass(lang, s, ts, q, us) && Orderly(lang) && w in lang.protected && j < |w| && !lang.cc.space(w[j])
    requires k < |ts| && SpelledTo(lang.cc, ts, k, w, j) > 0 && !InnerStopFrom(w, j) && i == PlaceOf(us, k) <= |q|
    requires MatchWord(lang.cc, q, i, w, j).Match?
    ensures var m := MatchWord(lang.cc, q, i, w, j); m.output == q[i..m.end]
    decreases |w| - j, 0
  {
    SpelledChar(lang.cc, ts, k, w, j);
    var r := CharStep(lang, s, ts, q, us, k, w, j, i);
    assert j + 1 < |w| ==> w[j] != '.';
    OutputGoesOn(lang.cc, q, i, i + 1, q[i], w, j);
    JoinPrints(lang, s, ts, q, us, k + 1, w, j + 1, i + 1);
    OutputStands(lang.cc, q, i, w, j);
  }

  lemma OverSpace(cc: CharClasses, ts: seq<Token>, k: nat, w: string, j: nat)
    requires Inside(cc, ts, k, w, j) && j < |w| && cc.space(w[j]) && SpelledTo(cc, ts, k, w, j) > 0
    ensures Inside(cc, ts, k, w, j + 1) && SpelledTo(cc, ts, k, w, j + 1) > 0
  {
  }

  lemma RestHasStop(w: string, j: nat)
    requires InnerStopFrom(w, j) && j < |w| && w[j] != '.'
    ensures InnerStopFrom(w, j + 1)
  {
    var x: nat :| j <= x < |w| - 1 && w[x] == '.';
    assert j + 1 <= x < |w| - 1;
  }

  /** After a full stop inside the word the print has a line end, and the word drops it. */
  lemma DropsBreak(lang: Language, s: string, ts: seq<Token>, q: string, us: seq<Token>, k: nat, w: string, j: nat, i: nat, o: string)
    requires SolidPass(lang, s, ts, q, us) && Orderly(lang) && w in lang.protected && k < |us| && j + 1 < |w| && w[j] == '.'
    requires EndOf(us, k + 1) == i + 1 && CharAs(lang.cc, ts[k], w[j]) && Renders(lang.cc, o, w, j)
    ensures i <= |q| && !HasAt(q, i, o)
  {
    FullStopToken(lang, s, ts, k);
    BreakAfterStop(lang, q, us, k, i + 1);
    assert IsWord(lang.cc, w);
    NoSpaceAfterStop(lang.cc, w, j);
    RenderedHead(lang.cc, o, w, j);
    RenderedHead(lang.cc, o[1..], w, j + 1);
    RenderedVisible(lang.cc, o[1], w[j + 1]);
    if HasAt(q, i, o) {
      HasTail(q, i, o);
      HasTail(q, i + 1, o[1..]);
    }
  }

  /** A word with a full stop inside it does not print as it stood. */
  lemma {:induction false} JoinDrops(lang: Language, s: string, ts: seq<Token>, q: string, us: seq<Token>, k: nat, w: string, j: nat, i: nat)
    requires SolidPass(lang, s, ts, q, us) && Orderly(lang) && w in lang.protected && Inside(lang.cc, ts, k, w, j)
    requires SpelledTo(lang.cc, ts, k, w, j) > 0 && InnerStopFrom(w, j) && i == ReadingAt(lang.cc, us, k, w, j) <= |q|
    requires MatchWord(lang.cc, q, i, w, j).Match?
    ensures !HasAt(q, i, MatchWord(lang.cc, q, i, w, j).output)
    decreases |w| - j, 1
  {
    if lang.cc.space(w[j]) {
      SpaceDrops(lang, s, ts, q, us, k, w, j, i);
    } else {
      CharDrops(lang, s, ts, q, us, k, w, j, i);
    }
  }

  lemma {:induction false} SpaceDrops(lang: Language, s: string, ts: seq<Token>, q: string, us: seq<Token>, k: nat, w: string, j: nat, i: nat)
    requires SolidPass(lang, s, ts, q, us) && Orderly(lang) && w in lang.protected && Inside(lang.cc, ts, k, w, j)
    requires SpelledTo(lang.cc, ts, k, w, j) > 0 && InnerStopFrom(w, j) && i == EndOf(us, k) <= |q|
    requires j < |w| && lang.cc.space(w[j]) && MatchWord(lang.cc, q, i, w, j).Match?
    ensures !HasAt(q, i, MatchWord(lang.cc, q, i, w, j).output)
    decreases |w| - j, 0
  {
    SpaceStep(lang, s, ts, q, us, k, w, j, i);
    OverSpace(lang.cc, ts, k, w, j);
    assert !lang.cc.space('.');
    RestHasStop(w, j);
    OutputGoesOn(lang.cc, q, i, i + 1, ' ', w, j);
    JoinDrops(lang, s, ts, q, us, k, w, j + 1, i + 1);
    NotTail(q, i, MatchWord(lang.cc, q, i, w, j).output);
  }

  lemma {:induction false} CharDrops(lang: Language, s: string, ts: seq<Token>, q: string, us: seq<Token>, k: nat, w: string, j: nat, i: nat)
    requires SolidPass(lang, s, ts, q, us) && Orderly(lang) && w in lang.protected && j < |w| && !lang.cc.space(w[j])
    requires k < |ts| && SpelledTo(lang.cc, ts, k, w, j) > 0 && InnerStopFrom(w, j) && i == PlaceOf(us, k) <= |q|
    requires MatchWord(lang.cc, q, i, w, j).Match?
    ensures !HasAt(q, i, MatchWord(lang.cc, q, i, w, j).output)
    decreases |w| - j, 0
  {
    SpelledChar(lang.cc, ts, k, w, j);
    var r := CharStep(lang, s, ts, q, us, k, w, j, i);
    if w[j] == '.' {
      MatchRenders(lang.cc, q, i, w, j);
      DropsBreak(lang, s, ts, q, us, k, w, j, i, MatchWord(lang.cc, q, i, w, j).output);
      return;
    }
    RestHasStop(w, j);
    OutputGoesOn(lang.cc, q, i, r, q[i], w, j);
    JoinDrops(lang, s, ts, q, us, k + 1, w, j + 1, r);
    NotTail(q, i, MatchWord(lang.cc, q, i, w, j).output);
  }

  lemma NotTail(q: string, i: nat, o: string)
    requires o != "" && i < |q| && !HasAt(q, i + 1, o[1..])
    ensures !HasAt(q, i, o)
  {
    if HasAt(q, i, o) {
      HasTail(q, i, o);
    }
  }
}

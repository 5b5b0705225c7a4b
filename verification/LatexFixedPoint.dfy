/** When a formatted text is formatted again: it stays as it is if no word is joined on the second reading, or if
    the first word that is joined takes in the rest of the text. For texts without markup that is exactly when. */
module LatexFixedPoint {
  import opened PyText
  import opened LatexScanners
  import opened LatexReflow
  import opened LatexContent
  import opened LatexLines
  import opened LatexMachines
  import opened LatexMarkup
  import opened LatexReread
  import opened LatexSecondPass
  import opened LatexOrigins
  import opened LatexPrinted
  import opened LatexWords
  import opened LatexProtected
  import opened LatexJoins
  import Stable = LatexStable

  // ---------------------------------------------------------------- what the second reading joins

  /** On the second reading the token becomes a longer protected word: single characters that spell one, or a word
      before a comma that white space kept apart. */
  ghost predicate Joined(lang: Language, ts: seq<Token>, k: nat)
    requires k < |ts|
  {
    JoinsAt(lang, ts, k) || TakesComma(ts, k)
  }

  ghost predicate NoneJoined(lang: Language, ts: seq<Token>, k: nat)
    requires k <= |ts|
  {
    forall j :: 0 <= j < k ==> !Joined(lang, ts, j)
  }

  ghost predicate FirstJoined(lang: Language, ts: seq<Token>, k: nat) {
    k < |ts| && Joined(lang, ts, k) && NoneJoined(lang, ts, k)
  }

  /** The word takes in the rest of the text, and prints as it stood. */
  ghost predicate TakesRest(lang: Language, ts: seq<Token>, k: nat)
    requires k < |ts|
  {
    if TakesComma(ts, k) then k + 2 == |ts|
    else exists w :: w in lang.protected && SpelledTo(lang.cc, ts, k, w, 0) == |ts| && !InnerStopFrom(w, 0)
  }

  ghost predicate Settled(lang: Language, ts: seq<Token>) {
    forall k :: FirstJoined(lang, ts, k) ==> TakesRest(lang, ts, k)
  }

  lemma OneMoreNotJoined(lang: Language, ts: seq<Token>, n: nat)
    requires n < |ts| && NoneJoined(lang, ts, n) && !Joined(lang, ts, n)
    ensures NoneJoined(lang, ts, n + 1)
  {
  }

  lemma {:induction false} FindFirst(lang: Language, ts: seq<Token>, n: nat) returns (k: nat)
    requires n <= |ts| && NoneJoined(lang, ts, n)
    ensures k <= |ts| && NoneJoined(lang, ts, k) && (k < |ts| ==> FirstJoined(lang, ts, k))
    decreases |ts| - n
  {
    if n == |ts| || Joined(lang, ts, n) {
      return n;
    }
    OneMoreNotJoined(lang, ts, n);
    k := FindFirst(lang, ts, n + 1);
  }

  /** A token that is not joined is read again where it was printed. */
  lemma NotJoinedReadAgain(lang: Language, s: string, ts: seq<Token>, q: string, us: seq<Token>, k: nat)
    requires SolidPass(lang, s, ts, q, us) && Orderly(lang) && k < |ts| && !Joined(lang, ts, k)
    ensures PlaceOf(us, k) < |q| && ReadAgainAt(lang, q, us, k)
  {
    match ts[k].kind {
      case Stop =>
        StopReadAgain(lang, s, ts, q, us, k);
        return;
      case Plain =>
        PlainReadAgain(lang, s, ts, q, us, k);
        return;
      case Protected =>
        ProtectedReadAgain(lang, s, ts, q, us, k);
        return;
      case Comment =>
        CommentReadAgain(lang, s, ts, q, us, k);
        return;
      case _ =>
        MarkupReadAgain(lang, s, ts, q, us, k);
        return;
    }
  }

  lemma AllAgainBefore(lang: Language, s: string, ts: seq<Token>, q: string, us: seq<Token>, k: nat)
    requires SolidPass(lang, s, ts, q, us) && Orderly(lang) && k <= |ts| && NoneJoined(lang, ts, k)
    ensures AllAgain(lang, q, us, k)
  {
    forall j: nat | j < k ensures Again(lang, q, us, j) {
      NotJoinedReadAgain(lang, s, ts, q, us, j);
    }
  }

  // ---------------------------------------------------------------- the joined word

  lemma SpelledPrints(lang: Language, s: string, ts: seq<Token>, q: string, us: seq<Token>, k: nat, w: string, p: nat)
    requires SolidPass(lang, s, ts, q, us) && Orderly(lang) && k < |ts| && ts[k].kind == Plain && w in lang.protected
    requires SpelledTo(lang.cc, ts, k, w, 0) > 0 && p == PlaceOf(us, k) <= |q| && MatchWord(lang.cc, q, p, w, 0).Match?
    ensures var m := MatchWord(lang.cc, q, p, w, 0);
            if InnerStopFrom(w, 0) then !HasAt(q, p, m.output) else m.output == q[p..m.end]
  {
    StartsReading(lang, ts, us, k, w);
    if InnerStopFrom(w, 0) {
      JoinDrops(lang, s, ts, q, us, k, w, 0, p);
    } else {
      JoinPrints(lang, s, ts, q, us, k, w, 0, p);
    }
  }

  /** The token at `p` is read as a protected word with text `out` up to `e`. */
  ghost predicate ReadsWord(lang: Language, q: string, p: nat, e: nat, out: string) {
    lang.Valid() && p < e <= |q| && LexemeAt(lang, q, p) == Lexeme(Protected, out, e)
  }

  lemma SpelledReads(lang: Language, s: string, ts: seq<Token>, q: string, us: seq<Token>, k: nat, w: string, p: nat, l: nat)
    requires SolidPass(lang, s, ts, q, us) && Orderly(lang) && k < |ts| && ts[k].kind == Plain && BoundaryAt(lang.cc, ts, k)
    requires w in lang.protected && p == PlaceOf(us, k) && l == SpelledTo(lang.cc, ts, k, w, 0) > 0
    ensures 0 < l <= |us| && us[l - 1].kind == Stop && p < EndOf(us, l) <= |q|
    ensures var m := MatchWord(lang.cc, q, p, w, 0); m.Match? && m.end == EndOf(us, l) && ReadsWord(lang, q, p, m.end, m.output)
  {
    JoinIsRead(lang, s, ts, q, us, k, w, p, l);
  }

  lemma SpelledJoins(lang: Language, s: string, ts: seq<Token>, q: string, us: seq<Token>, k: nat, w: string, p: nat, l: nat)
    returns (e: nat, out: string)
    requires SolidPass(lang, s, ts, q, us) && Orderly(lang) && k < |ts| && ts[k].kind == Plain && BoundaryAt(lang.cc, ts, k)
    requires w in lang.protected && p == PlaceOf(us, k) && l == SpelledTo(lang.cc, ts, k, w, 0) > 0
    ensures 0 < l <= |us| && us[l - 1].kind == Stop && e == EndOf(us, l) && ReadsWord(lang, q, p, e, out)
    ensures if InnerStopFrom(w, 0) then !HasAt(q, p, out) else out == q[p..e]
  {
    SpelledReads(lang, s, ts, q, us, k, w, p, l);
    SpelledPrints(lang, s, ts, q, us, k, w, p);
    var m := MatchWord(lang.cc, q, p, w, 0);
    e, out := m.end, m.output;
  }

  // ---------------------------------------------------------------- a word before a comma

  lemma CommaSep(ts: seq<Token>, k: nat)
    requires 0 < k < |ts| && ts[k - 1].kind == Protected && ts[k].kind == Stop
    ensures SepBefore(ts, k) == ""
  {
    assert Concat([]) == "";
  }

  lemma CommaKind(lang: Language, s: string, ts: seq<Token>, k: nat)
    requires Orderly(lang) && ts == Tokens(lang, s, 0, false) && k < |ts| && ts[k].text == ","
    ensures ts[k].kind == Stop
  {
    var i := Origin(lang, s, ts, k);
    OriginStarts(lang, s, ts, k, i);
    CommaToken(lang, s, ts, k, i);
  }

  lemma TightPlace(lang: Language, q: string, us: seq<Token>, k: nat, p: nat, e: nat)
    requires lang.Valid() && PrintOf(lang.cc, q, us) && k + 1 < |us| && SepBefore(us, k + 1) == ""
    requires p == PlaceOf(us, k) && e == PlaceOf(us, k + 1)
    ensures p < e <= |q| && q[p..e] == us[k].text
  {
    var c, d, n := IsPrintedAt(lang, q, us, k);
    NoSeparator(SepBefore(us, k + 1), d, n);
  }

  lemma NoSeparator(sep: string, e: nat, n: nat)
    requires sep == "" && n == e + |sep|
    ensures e == n
  {
  }

  lemma MarkPrinted(lang: Language, s: string, ts: seq<Token>, q: string, us: seq<Token>, k: nat, e: nat)
    requires SolidPass(lang, s, ts, q, us) && k < |ts| && us[k].kind == Stop && e == PlaceOf(us, k)
    ensures e < |q| && ts[k].text == us[k].text == [q[e]] && (e + 1 < |q| ==> q[e + 1] == '\n')
  {
    var i := Origin(lang, s, ts, k);
    OneCharPrinted(lang, s, ts, us, k, i);
    StopBreaks(us, k);
    var c, d, n := IsPrintedAt(lang, q, us, k);
    NothingAfter(lang.cc, q, us, k, c, d, n);
  }

  /** The word and the comma stand together in the print. */
  lemma CommaPlace(lang: Language, s: string, ts: seq<Token>, q: string, us: seq<Token>, k: nat, p: nat, e: nat)
    requires SolidPass(lang, s, ts, q, us) && k + 1 < |ts| && us[k].kind == Protected && us[k + 1].kind == Stop
    requires ts[k + 1].text == "," && p == PlaceOf(us, k) && e == PlaceOf(us, k + 1)
    ensures p < e < |q| && q[p..e] == us[k].text && q[e] == ',' && (e + 1 < |q| ==> q[e + 1] == '\n')
  {
    CommaSep(us, k + 1);
    TightPlace(lang, q, us, k, p, e);
    MarkPrinted(lang, s, ts, q, us, k + 1, e);
  }

  lemma SliceLast(q: string, p: nat, e: nat, text: string)
    requires p <= e < |q| && q[p..e] == text && q[e] == ','
    ensures q[p..e + 1] == text + ","
  {
  }

  lemma WordAndComma(lang: Language, q: string, p: nat, e: nat, w: string, o: string)
    requires Orderly(lang) && w in lang.protected && Renders(lang.cc, o, w, 0) && p < e < |q| && q[p..e] == o && q[e] == ','
    requires (e + 1 < |q| ==> q[e + 1] == '\n') && (p > 0 ==> !WordPart(lang.cc, q[p - 1]))
    ensures LexemeAt(lang, q, p) == Lexeme(Protected, o + ",", e + 1) && q[p..e + 1] == o + ","
  {
    SliceLast(q, p, e, o);
    assert !lang.cc.alnum('\n');
    WordIsRead(lang, q, p, e + 1, w, o, o + ",");
  }

  lemma BoundaryBefore(lang: Language, s: string, ts: seq<Token>, q: string, us: seq<Token>, k: nat, p: nat)
    requires SolidPass(lang, s, ts, q, us) && Orderly(lang) && k < |ts| && ts[k].kind == Protected && p == PlaceOf(us, k)
    ensures p <= |q| && (p > 0 ==> !WordPart(lang.cc, q[p - 1]))
  {
    ProtectedAtBoundary(lang, s, ts, k);
    BoundaryInPrint(lang, s, ts, q, us, k, p);
  }

  lemma BareWord(lang: Language, s: string, ts: seq<Token>, us: seq<Token>, k: nat) returns (w: string, o: string)
    requires Orderly(lang) && ts == Tokens(lang, s, 0, false) && us == Straightened(lang.cc, ts) && k < |ts|
    requires TakesComma(ts, k)
    ensures w in lang.protected && Renders(lang.cc, o, w, 0) && us[k].text == ts[k].text == o
  {
    w, o := ProtectedText(lang, s, ts, us, k);
    if ts[k].text == o + "," {
      SameEnd(o, ",");
    }
  }

  /** The word is read with its comma. */
  lemma CommaRead(lang: Language, s: string, ts: seq<Token>, q: string, us: seq<Token>, k: nat, p: nat, e: nat, w: string, o: string)
    requires SolidPass(lang, s, ts, q, us) && Orderly(lang) && k + 1 < |ts| && ts[k].kind == Protected && us[k + 1].kind == Stop
    requires ts[k + 1].text == "," && us[k].text == o && w in lang.protected && Renders(lang.cc, o, w, 0)
    requires p == PlaceOf(us, k) && e == PlaceOf(us, k + 1)
    ensures p < e < |q| && LexemeAt(lang, q, p) == Lexeme(Protected, o + ",", e + 1) && q[p..e + 1] == o + ","
  {
    CommaPlace(lang, s, ts, q, us, k, p, e);
    BoundaryBefore(lang, s, ts, q, us, k, p);
    WordAndComma(lang, q, p, e, w, o);
  }

  lemma CommaEnd(us: seq<Token>, k: nat)
    requires k < |us| && us[k].text == ","
    ensures EndOf(us, k + 1) == PlaceOf(us, k) + 1
  {
    EndAndPlace(us, k);
  }

  lemma CommaJoins(lang: Language, s: string, ts: seq<Token>, q: string, us: seq<Token>, k: nat, p: nat, e: nat) returns (out: string)
    requires SolidPass(lang, s, ts, q, us) && Orderly(lang) && k < |ts| && TakesComma(ts, k)
    requires p == PlaceOf(us, k) && e == PlaceOf(us, k + 1)
    ensures ReadsWord(lang, q, p, e + 1, out) && out == q[p..e + 1] && us[k + 1].kind == Stop && us[k + 1].text == ","
  {
    var w, o := BareWord(lang, s, ts, us, k);
    CommaKind(lang, s, ts, k + 1);
    StraightComma(lang.cc);
    CommaRead(lang, s, ts, q, us, k, p, e, w, o);
    out := o + ",";
  }

  lemma StraightComma(cc: CharClasses)
    requires cc.Valid()
    ensures Straight(cc, ",") == ","
  {
    LineHasNoBreak(cc, ",");
  }

  // ---------------------------------------------------------------- what is made of the rest

  /** A line ends at `e` and something visible comes later. */
  ghost predicate GoesOn(cc: CharClasses, q: string, e: nat) {
    e < |q| && q[e] == '\n' && exists m :: e < m < |q| && !cc.space(q[m])
  }

  lemma MoreAfter(lang: Language, q: string, us: seq<Token>, k: nat, e: nat)
    requires lang.Valid() && PrintOf(lang.cc, q, us) && k + 1 < |us| && us[k].kind == Stop && e == EndOf(us, k + 1)
    ensures GoesOn(lang.cc, q, e)
  {
    StopBreaks(us, k);
    SepInPrint(lang, q, us, k + 1, e, PlaceOf(us, k + 1));
    BreakAfterStop(lang, q, us, k, e);
  }

  lemma EndIsAll(us: seq<Token>)
    ensures EndOf(us, |us|) == |Stable.Text(us)|
  {
    assert us[..|us|] == us;
  }

  lemma WordToken(lang: Language, q: string, p: nat, e: nat, gap: bool, out: string)
    requires ReadsWord(lang, q, p, e, out) && !lang.cc.space(q[p])
    ensures Tokens(lang, q, p, gap) == [Token(gap, Protected, out)] + Tokens(lang, q, e, false)
  {
    ReadToken(lang, q, p, gap, LexemeAt(lang, q, p));
  }

  /** What a joined word and the rest of the print are read as. */
  lemma JoinMakes(lang: Language, q: string, us: seq<Token>, k: nat, p: nat, e: nat, out: string, vs: seq<Token>)
    requires lang.Valid() && PrintOf(lang.cc, q, us) && k < |us| && us[k].kind in {Plain, Protected} && p == PlaceOf(us, k)
    requires ReadsWord(lang, q, p, e, out) && vs == [Token(SepBefore(us, k) != "", Protected, out)] + Tokens(lang, q, e, false)
    ensures Makes(lang, q, us, Before(us, k) + Stable.Text(vs))(k)
  {
    PrintedNext(lang.cc, q, us, k, p);
    WordToken(lang, q, p, e, SepBefore(us, k) != "", out);
    MakesWith(lang, q, us, k, vs, Before(us, k) + Stable.Text(vs));
  }

  lemma WholeFrom(q: string, a: string, b: string, p: nat, e: nat)
    requires b <= q && e == |b| && p <= e && p <= |q| && q[..p] == a
    ensures a + q[p..e] == b
  {
  }

  /** A word that takes in the rest of the text makes the same text. */
  lemma RestMakes(lang: Language, q: string, us: seq<Token>, k: nat, p: nat, e: nat, out: string)
    requires lang.Valid() && PrintOf(lang.cc, q, us) && k < |us| && us[k].kind in {Plain, Protected} && p == PlaceOf(us, k)
    requires ReadsWord(lang, q, p, e, out) && e == |Stable.Text(us)| && out == q[p..e]
    ensures Makes(lang, q, us, Stable.Text(us))(k)
  {
    var t := Token(SepBefore(us, k) != "", Protected, out);
    NothingLeft(lang, q, us, e);
    assert [t] + [] == [t];
    JoinMakes(lang, q, us, k, p, e, out, [t]);
    TextAlone(t);
    RestOfText(q, us, k, p, e);
  }

  lemma RestOfText(q: string, us: seq<Token>, k: nat, p: nat, e: nat)
    requires (q == Stable.Text(us) || q == Stable.Text(us) + "\n") && k < |us| && p == PlaceOf(us, k)
    requires p <= e == |Stable.Text(us)|
    ensures e <= |q| && Before(us, k) + q[p..e] == Stable.Text(us)
  {
    TextIsPrefix(q, us);
    IsPlaced(q, us, k);
    WholeFrom(q, Before(us, k), Stable.Text(us), p, e);
  }

  lemma NothingLeft(lang: Language, q: string, us: seq<Token>, e: nat)
    requires lang.Valid() && PrintOf(lang.cc, q, us) && e == |Stable.Text(us)|
    ensures e <= |q| && Tokens(lang, q, e, false) == []
  {
    TextIsPrefix(q, us);
    OnlyBreakAtEnd(q, us, e);
    if e < |q| {
      assert Tokens(lang, q, e, false) == Tokens(lang, q, |q|, true);
    }
  }

  lemma CommaTakesRest(lang: Language, s: string, ts: seq<Token>, q: string, us: seq<Token>, k: nat)
    requires SolidPass(lang, s, ts, q, us) && Orderly(lang) && k < |ts| && TakesComma(ts, k) && k + 2 == |ts|
    ensures Makes(lang, q, us, Stable.Text(us))(k)
  {
    var p, e := PlaceOf(us, k), PlaceOf(us, k + 1);
    var out := CommaJoins(lang, s, ts, q, us, k, p, e);
    CommaEnd(us, k + 1);
    EndIsAll(us);
    RestMakes(lang, q, us, k, p, e + 1, out);
  }

  lemma SpelledTakesRest(lang: Language, s: string, ts: seq<Token>, q: string, us: seq<Token>, k: nat, w: string)
    requires SolidPass(lang, s, ts, q, us) && Orderly(lang) && k < |ts| && ts[k].kind == Plain && BoundaryAt(lang.cc, ts, k)
    requires w in lang.protected && SpelledTo(lang.cc, ts, k, w, 0) == |ts| && !InnerStopFrom(w, 0)
    ensures Makes(lang, q, us, Stable.Text(us))(k)
  {
    var p := PlaceOf(us, k);
    var e, out := SpelledJoins(lang, s, ts, q, us, k, w, p, |ts|);
    EndIsAll(us);
    RestMakes(lang, q, us, k, p, e, out);
  }

  lemma JoinTakesRest(lang: Language, s: string, ts: seq<Token>, q: string, us: seq<Token>, k: nat)
    requires SolidPass(lang, s, ts, q, us) && Orderly(lang) && k < |ts| && Joined(lang, ts, k) && TakesRest(lang, ts, k)
    ensures Makes(lang, q, us, Stable.Text(us))(k)
  {
    if TakesComma(ts, k) {
      CommaTakesRest(lang, s, ts, q, us, k);
    } else {
      var w :| w in lang.protected && SpelledTo(lang.cc, ts, k, w, 0) == |ts| && !InnerStopFrom(w, 0);
      SpelledTakesRest(lang, s, ts, q, us, k, w);
    }
  }

  lemma LastMakes(lang: Language, q: string, us: seq<Token>)
    requires lang.Valid() && PrintOf(lang.cc, q, us) && us != [] && AllAgain(lang, q, us, |us|)
    ensures Makes(lang, q, us, Stable.Text(us))(|us| - 1)
  {
    assert Again(lang, q, us, |us| - 1);
    LastReadAgain(lang, q, us);
  }

  lemma FewerAgain(lang: Language, q: string, us: seq<Token>)
    requires lang.Valid() && us != [] && AllAgain(lang, q, us, |us|)
    ensures AllAgain(lang, q, us, |us| - 1)
  {
  }

  lemma EmptyStays(lang: Language, q: string, us: seq<Token>)
    requires lang.Valid() && PrintOf(lang.cc, q, us) && us == []
    ensures Reflow(lang, q) == q
  {
    SameAtEnd(lang, q, us);
    PrintStays(lang, q, us);
  }

  lemma MadeStays(lang: Language, q: string, us: seq<Token>, k: nat)
    requires lang.Valid() && PrintOf(lang.cc, q, us) && k < |us| && AllAgain(lang, q, us, k)
    requires Makes(lang, q, us, Stable.Text(us))(k)
    ensures Reflow(lang, q) == q
  {
    MakesAll(lang, q, us, k, Stable.Text(us));
    PrintStays(lang, q, us);
  }

  lemma PassStays(lang: Language, s: string, ts: seq<Token>, q: string, us: seq<Token>, k: nat)
    requires SolidPass(lang, s, ts, q, us) && Orderly(lang) && k <= |ts| && NoneJoined(lang, ts, k)
    requires k < |ts| ==> Joined(lang, ts, k) && TakesRest(lang, ts, k)
    ensures Reflow(lang, q) == q
  {
    AllAgainBefore(lang, s, ts, q, us, k);
    if k < |ts| {
      JoinTakesRest(lang, s, ts, q, us, k);
      MadeStays(lang, q, us, k);
    } else if ts == [] {
      EmptyStays(lang, q, us);
    } else {
      LastMakes(lang, q, us);
      FewerAgain(lang, q, us);
      MadeStays(lang, q, us, |us| - 1);
    }
  }

  /** For every text whose markup the trim does not cut: a second pass changes nothing if no word is joined, or if
      the first that is takes in the rest. Commands, formulas, comments and protected words may all occur. */
  lemma ReflowIsStable(lang: Language, s: string)
    requires Orderly(lang) && Named(lang)
    requires var ts := Tokens(lang, s, 0, false); Solid(lang.cc, ts) && Settled(lang, ts)
    ensures Reflow(lang, Reflow(lang, s)) == Reflow(lang, s)
  {
    var ts := Tokens(lang, s, 0, false);
    SolidTextPasses(lang, s, ts);
    var k := FindFirst(lang, ts, 0);
    PassStays(lang, s, ts, Reflow(lang, s), Straightened(lang.cc, ts), k);
  }

  // ---------------------------------------------------------------- texts without markup

  ghost predicate MarkupFree(lang: Language, s: string) {
    forall c :: c in NonSpace(lang.cc, s) ==> !Stable.IsMarkup(c)
  }

  lemma ReflowIsMarkupFree(lang: Language, s: string)
    requires lang.Valid() && MarkupFree(lang, s)
    ensures MarkupFree(lang, Reflow(lang, s))
  {
    ReflowKeepsContent(lang, s);
  }

  lemma MarkupFreeLexeme(lang: Language, s: string, i: nat)
    requires lang.Valid() && MarkupFree(lang, s) && i < |s| && !lang.cc.space(s[i])
    ensures LexemeAt(lang, s, i).kind in {Plain, Stop, Protected}
  {
    Stable.VisibleIsKept(lang.cc, s, i);
  }

  lemma MarkupFreeToken(lang: Language, s: string, ts: seq<Token>, k: nat)
    requires lang.Valid() && MarkupFree(lang, s) && ts == Tokens(lang, s, 0, false) && k < |ts|
    ensures ts[k].kind in {Plain, Stop, Protected}
  {
    var i := Origin(lang, s, ts, k);
    MarkupFreeLexeme(lang, s, i);
  }

  lemma MarkupFreeIsSolid(lang: Language, s: string, ts: seq<Token>)
    requires lang.Valid() && MarkupFree(lang, s) && ts == Tokens(lang, s, 0, false)
    ensures Solid(lang.cc, ts)
  {
    forall k | 0 <= k < |ts| ensures SolidAt(lang.cc, ts, k) {
      MarkupFreeToken(lang, s, ts, k);
    }
  }

  lemma TokenStays(lang: Language, s: string, ts: seq<Token>, k: nat)
    requires Orderly(lang) && MarkupFree(lang, s) && ts == Tokens(lang, s, 0, false) && k < |ts|
    ensures Straightened(lang.cc, ts)[k] == ts[k]
  {
    var i := Origin(lang, s, ts, k);
    MarkupFreeToken(lang, s, ts, k);
    if ts[k].kind == Protected {
      var w, o := ProtectedText(lang, s, ts, Straightened(lang.cc, ts), k);
    } else {
      OneCharPrinted(lang, s, ts, Straightened(lang.cc, ts), k, i);
    }
  }

  /** Without markup a pass prints the tokens as they are. */
  lemma MarkupFreePrints(lang: Language, s: string, ts: seq<Token>)
    requires Orderly(lang) && Named(lang) && MarkupFree(lang, s) && ts == Tokens(lang, s, 0, false)
    ensures Reflow(lang, s) == Stable.Text(ts) + FinalBreak(s)
  {
    MarkupFreeIsSolid(lang, s, ts);
    SolidTextPasses(lang, s, ts);
    FirstPass(lang, s, ts);
    forall k | 0 <= k < |ts| ensures Straightened(lang.cc, ts)[k] == ts[k] {
      TokenStays(lang, s, ts, k);
    }
    assert Straightened(lang.cc, ts) == ts;
  }

  lemma MadeWhole(lang: Language, q: string, us: seq<Token>, k: nat, whole: string)
    requires lang.Valid() && PrintOf(lang.cc, q, us) && k < |us| && AllAgain(lang, q, us, k) && Makes(lang, q, us, whole)(k)
    ensures Stable.Text(Tokens(lang, q, 0, false)) == whole
  {
    MakesAll(lang, q, us, k, whole);
    BeforeFirst(us);
  }

  /** What a text without markup becomes when its `k`-th token is the first to be joined. */
  lemma SecondText(lang: Language, s: string, ts: seq<Token>, q: string, us: seq<Token>, k: nat, p: nat, e: nat, out: string,
                   vs: seq<Token>)
    requires SolidPass(lang, s, ts, q, us) && Orderly(lang) && MarkupFree(lang, q) && k < |us| && NoneJoined(lang, ts, k)
    requires us[k].kind in {Plain, Protected} && p == PlaceOf(us, k) && ReadsWord(lang, q, p, e, out)
    requires vs == [Token(SepBefore(us, k) != "", Protected, out)] + Tokens(lang, q, e, false)
    ensures Reflow(lang, q) == Before(us, k) + Stable.Text(vs) + FinalBreak(q)
  {
    AllAgainBefore(lang, s, ts, q, us, k);
    JoinMakes(lang, q, us, k, p, e, out, vs);
    MadeWhole(lang, q, us, k, Before(us, k) + Stable.Text(vs));
    MarkupFreePrints(lang, q, Tokens(lang, q, 0, false));
  }

  lemma MiddlePart(q: string, a: string, b: string, c: string)
    requires q == a + b + c
    ensures HasAt(q, |a|, b)
  {
  }

  lemma FrontPart(q: string, p: nat, a: string, b: string)
    requires HasAt(q, p, a + b)
    ensures HasAt(q, p, a) && HasAt(q, p + |a|, b)
  {
    assert q[p..p + |a|] == q[p..p + |a + b|][..|a|];
    assert q[p + |a|..p + |a| + |b|] == q[p..p + |a + b|][|a|..];
  }

  lemma TextStarts(cc: CharClasses, ts: seq<Token>)
    requires ts != [] && StartsVisible(cc, ts[0].text)
    ensures StartsVisible(cc, Stable.Text(ts))
  {
    BeforeIsPrefix(ts, 1);
    TextUpTo(ts, 0);
    BeforeFirst(ts);
    FirstCharacter(Before(ts, 0), ts[0].text, SepBefore(ts, 1), Stable.Text(ts));
  }

  lemma FirstOfRest(cc: CharClasses, sep: string, tail: string)
    requires cc.Valid() && (sep == "" || sep == " ") && StartsVisible(cc, tail)
    ensures sep + tail != "" && (sep + tail)[0] != '\n'
  {
  }

  lemma AfterWordSep(t: Token, u: Token)
    requires t.kind == Protected && u.kind != Display
    ensures var sep := Concat(Between(t, u)); sep == "" || sep == " "
  {
    ConcatOne(" ");
    assert Concat([]) == "";
  }

  /** The text that goes on after a protected word does so on the same line. */
  lemma SameLine(cc: CharClasses, q: string, p: nat, e: nat, t: Token, rest: seq<Token>)
    requires cc.Valid() && t.kind == Protected && rest != [] && rest[0].kind != Display && StartsVisible(cc, rest[0].text)
    requires HasAt(q, p, Stable.Text([t] + rest)) && e == p + |t.text|
    ensures e < |q| && q[e] != '\n'
  {
    var sep, tail := Concat(Between(t, rest[0])), Stable.Text(rest);
    TextInFront(t, rest);
    TextStarts(cc, rest);
    AfterWordSep(t, rest[0]);
    FirstOfRest(cc, sep, tail);
    RightAssociate(t.text, sep, tail);
    CharAfter(q, p, e, t.text, sep + tail);
  }

  lemma CharAfter(q: string, p: nat, e: nat, a: string, b: string)
    requires HasAt(q, p, a + b) && e == p + |a| && b != ""
    ensures e < |q| && q[e] == b[0]
  {
    FrontPart(q, p, a, b);
    HasTail(q, e, b);
  }

  lemma RightAssociate(a: string, b: string, c: string)
    ensures a + b + c == a + (b + c)
  {
  }

  lemma RestBegins(lang: Language, q: string, e: nat)
    requires lang.Valid() && MarkupFree(lang, q) && GoesOn(lang.cc, q, e)
    ensures var rest := Tokens(lang, q, e, false);
            rest != [] && rest[0].kind != Display && StartsVisible(lang.cc, rest[0].text)
  {
    TokensFrom(lang, q, e, false);
    var j := ClassEnd(q, e, lang.cc.space);
    SpacesUpTo(lang.cc, q, e);
    var m :| e < m < |q| && !lang.cc.space(q[m]);
    assert j < |q|;
    MarkupFreeLexeme(lang, q, j);
    LexemeKeeps(lang, q, j);
  }

  /** A word that drops a line end changes the text. */
  lemma DropChanges(lang: Language, s: string, ts: seq<Token>, q: string, us: seq<Token>, k: nat, p: nat, e: nat, out: string)
    requires SolidPass(lang, s, ts, q, us) && Orderly(lang) && MarkupFree(lang, q) && k < |us| && NoneJoined(lang, ts, k)
    requires us[k].kind in {Plain, Protected} && p == PlaceOf(us, k) && ReadsWord(lang, q, p, e, out)
    requires !HasAt(q, p, out)
    ensures Reflow(lang, q) != q
  {
    var t := Token(SepBefore(us, k) != "", Protected, out);
    var rest := Tokens(lang, q, e, false);
    SecondText(lang, s, ts, q, us, k, p, e, out, [t] + rest);
    TextHead(t, rest);
    if Reflow(lang, q) == q {
      MiddlePart(q, Before(us, k), Stable.Text([t] + rest), FinalBreak(q));
      PrefixHasAt(q, p, out, Stable.Text([t] + rest));
    }
  }

  lemma PrefixHasAt(q: string, p: nat, a: string, b: string)
    requires HasAt(q, p, b) && a <= b
    ensures HasAt(q, p, a)
  {
    assert q[p..p + |a|] == q[p..p + |b|][..|a|];
  }

  lemma TextHead(t: Token, rest: seq<Token>)
    ensures t.text <= Stable.Text([t] + rest)
  {
    if rest == [] {
      assert [t] + rest == [t];
      TextAlone(t);
    } else {
      TextInFront(t, rest);
    }
  }

  /** A word that is not the last thing in the text is no longer followed by a line end. */
  lemma LineChanges(lang: Language, s: string, ts: seq<Token>, q: string, us: seq<Token>, k: nat, p: nat, e: nat, out: string)
    requires SolidPass(lang, s, ts, q, us) && Orderly(lang) && MarkupFree(lang, q) && k < |us| && NoneJoined(lang, ts, k)
    requires us[k].kind in {Plain, Protected} && p == PlaceOf(us, k) && ReadsWord(lang, q, p, e, out)
    requires out == q[p..e] && GoesOn(lang.cc, q, e)
    ensures Reflow(lang, q) != q
  {
    var t := Token(SepBefore(us, k) != "", Protected, out);
    var rest := Tokens(lang, q, e, false);
    SecondText(lang, s, ts, q, us, k, p, e, out, [t] + rest);
    if Reflow(lang, q) == q {
      MiddlePart(q, Before(us, k), Stable.Text([t] + rest), FinalBreak(q));
      RestBegins(lang, q, e);
      SameLine(lang.cc, q, p, e, t, rest);
    }
  }

  lemma CommaGoesOn(lang: Language, q: string, us: seq<Token>, k: nat, e: nat)
    requires lang.Valid() && PrintOf(lang.cc, q, us) && k + 1 < |us| && us[k].kind == Stop && us[k].text == ","
    requires e == PlaceOf(us, k)
    ensures GoesOn(lang.cc, q, e + 1)
  {
    CommaEnd(us, k);
    MoreAfter(lang, q, us, k, e + 1);
  }

  lemma CommaReadsOn(lang: Language, s: string, ts: seq<Token>, q: string, us: seq<Token>, k: nat, p: nat, c: nat) returns (out: string)
    requires SolidPass(lang, s, ts, q, us) && Orderly(lang) && k + 2 < |us| && TakesComma(ts, k)
    requires p == PlaceOf(us, k) && c == PlaceOf(us, k + 1)
    ensures ReadsWord(lang, q, p, c + 1, out) && out == q[p..c + 1] && GoesOn(lang.cc, q, c + 1)
  {
    out := CommaJoins(lang, s, ts, q, us, k, p, c);
    CommaGoesOn(lang, q, us, k + 1, c);
  }

  lemma CommaChanges(lang: Language, s: string, ts: seq<Token>, q: string, us: seq<Token>, k: nat, p: nat, c: nat)
    requires SolidPass(lang, s, ts, q, us) && Orderly(lang) && MarkupFree(lang, q) && k + 2 < |us| && NoneJoined(lang, ts, k)
    requires TakesComma(ts, k) && p == PlaceOf(us, k) && c == PlaceOf(us, k + 1)
    ensures Reflow(lang, q) != q
  {
    var out := CommaReadsOn(lang, s, ts, q, us, k, p, c);
    LineChanges(lang, s, ts, q, us, k, p, c + 1, out);
  }

  lemma SpelledReadsOn(lang: Language, s: string, ts: seq<Token>, q: string, us: seq<Token>, k: nat, w: string, p: nat, l: nat)
    returns (e: nat, out: string)
    requires SolidPass(lang, s, ts, q, us) && Orderly(lang) && k < |us| && ts[k].kind == Plain && BoundaryAt(lang.cc, ts, k)
    requires w in lang.protected && l == SpelledTo(lang.cc, ts, k, w, 0) > 0 && l < |us| && p == PlaceOf(us, k)
    requires !InnerStopFrom(w, 0)
    ensures ReadsWord(lang, q, p, e, out) && out == q[p..e] && GoesOn(lang.cc, q, e)
  {
    e, out := SpelledJoins(lang, s, ts, q, us, k, w, p, l);
    MoreAfter(lang, q, us, l - 1, e);
  }

  lemma SpelledChanges(lang: Language, s: string, ts: seq<Token>, q: string, us: seq<Token>, k: nat, w: string, l: nat)
    requires SolidPass(lang, s, ts, q, us) && Orderly(lang) && MarkupFree(lang, q) && k < |us| && NoneJoined(lang, ts, k)
    requires ts[k].kind == Plain && BoundaryAt(lang.cc, ts, k) && w in lang.protected
    requires l == SpelledTo(lang.cc, ts, k, w, 0) > 0 && (l < |us| || InnerStopFrom(w, 0))
    ensures Reflow(lang, q) != q
  {
    var p := PlaceOf(us, k);
    if InnerStopFrom(w, 0) {
      var e, out := SpelledJoins(lang, s, ts, q, us, k, w, p, l);
      DropChanges(lang, s, ts, q, us, k, p, e, out);
    } else {
      var e, out := SpelledReadsOn(lang, s, ts, q, us, k, w, p, l);
      LineChanges(lang, s, ts, q, us, k, p, e, out);
    }
  }

  lemma JoinChanges(lang: Language, s: string, ts: seq<Token>, q: string, us: seq<Token>, k: nat)
    requires SolidPass(lang, s, ts, q, us) && Orderly(lang) && MarkupFree(lang, q) && FirstJoined(lang, ts, k)
    requires !TakesRest(lang, ts, k)
    ensures Reflow(lang, q) != q
  {
    if TakesComma(ts, k) {
      CommaChanges(lang, s, ts, q, us, k, PlaceOf(us, k), PlaceOf(us, k + 1));
    } else {
      var w :| w in lang.protected && SpelledTo(lang.cc, ts, k, w, 0) > 0;
      SpelledEndsBefore(lang, s, ts, k, w);
      SpelledChanges(lang, s, ts, q, us, k, w, SpelledTo(lang.cc, ts, k, w, 0));
    }
  }

  lemma SpelledEndsBefore(lang: Language, s: string, ts: seq<Token>, k: nat, w: string)
    requires Orderly(lang) && ts == Tokens(lang, s, 0, false) && w in lang.protected && k < |ts|
    requires SpelledTo(lang.cc, ts, k, w, 0) > 0
    ensures SpelledTo(lang.cc, ts, k, w, 0) <= |ts|
  {
    LastIsStop(lang, s, ts, k, w, SpelledTo(lang.cc, ts, k, w, 0));
  }

  /** For texts without markup the condition is exact: a second pass changes nothing if and only if no word is
      joined on the second reading, or the first that is takes in the rest of the text. */
  lemma MarkupFreeIsStableIff(lang: Language, s: string)
    requires Orderly(lang) && Named(lang) && MarkupFree(lang, s)
    ensures Reflow(lang, Reflow(lang, s)) == Reflow(lang, s) <==> Settled(lang, Tokens(lang, s, 0, false))
  {
    var ts, q := Tokens(lang, s, 0, false), Reflow(lang, s);
    MarkupFreeIsSolid(lang, s, ts);
    if Settled(lang, ts) {
      ReflowIsStable(lang, s);
    } else {
      var k :| FirstJoined(lang, ts, k) && !TakesRest(lang, ts, k);
      SolidTextPasses(lang, s, ts);
      ReflowIsMarkupFree(lang, s);
      JoinChanges(lang, s, ts, q, Straightened(lang.cc, ts), k);
    }
  }
}

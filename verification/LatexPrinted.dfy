/** Commands, formulas and comments that the trim does not cut are read again at their place in the print. */
module LatexPrinted {
  import opened PyText
  import opened LatexScanners
  import opened LatexReflow
  import opened LatexContent
  import opened LatexLines
  import opened LatexMachines
  import opened LatexMarkup
  import opened LatexReread
  import opened LatexSecondPass
  import opened LatexOrigins
  import Stable = LatexStable

  // ---------------------------------------------------------------- what the trim does not cut

  /** An inline token ends visibly, or in white space that no line end follows; a comment has one line. */
  predicate SolidAt(cc: CharClasses, ts: seq<Token>, k: nat)
    requires k < |ts|
  {
    var t := ts[k].text;
    && (ts[k].kind == Inline ==> EndsVisible(cc, t) || (t != "" && !cc.lineBreak(t[|t| - 1]) && !LastOnLine(ts, k)))
    && (ts[k].kind == Comment ==> IsLine(cc, t))
  }

  ghost predicate Solid(cc: CharClasses, ts: seq<Token>) {
    forall k :: 0 <= k < |ts| ==> SolidAt(cc, ts, k)
  }

  // ---------------------------------------------------------------- alone on a line

  lemma {:induction false} LineStartBefore(s: string, i: nat, m: nat)
    requires m < i <= |s| && forall p :: m <= p < i ==> s[p] != '\n'
    ensures LineStart(s, i) <= m
    decreases i
  {
    if m + 1 < i {
      LineStartBefore(s, i - 1, m);
    }
  }

  lemma NotAloneBefore(cc: CharClasses, q: string, p: nat, e: nat, m: nat)
    requires m < p <= e <= |q| && !cc.space(q[m]) && forall x :: m <= x < p ==> q[x] != '\n'
    ensures !AloneOnLine(cc, q, p, e)
  {
    LineStartBefore(q, p, m);
    var b := LineStart(q, p);
    assert q[b..p][m - b] == q[m];
  }

  lemma NotAloneAfter(cc: CharClasses, q: string, p: nat, e: nat, m: nat)
    requires p <= e <= m < |q| && !cc.space(q[m]) && forall x :: e <= x <= m ==> q[x] != '\n' && q[x] != '\r'
    ensures !AloneOnLine(cc, q, p, e)
  {
    var lf, cr := Find(q, '\n', e), Find(q, '\r', e);
    var lineEnd := if lf < cr then lf else cr;
    assert lineEnd > m;
    assert q[e..lineEnd][m - e] == q[m];
  }

  lemma AloneBetweenBreaks(cc: CharClasses, q: string, p: nat, e: nat)
    requires p <= e <= |q| && (p == 0 || q[p - 1] == '\n') && (e == |q| || q[e] == '\n')
    ensures AloneOnLine(cc, q, p, e)
  {
    assert LineStart(q, p) == p && q[p..p] == [];
    var lf, cr := Find(q, '\n', e), Find(q, '\r', e);
    assert lf == e;
    assert q[e..e] == [];
  }

  // ---------------------------------------------------------------- the ends of printed tokens

  /** Not far from its end, on the last line, the text has a visible character. */
  predicate Rooted(cc: CharClasses, a: string) {
    a != "" && (!cc.space(a[|a| - 1]) || (a[|a| - 1] != '\n' && |a| >= 2 && !cc.space(a[|a| - 2])))
  }

  lemma RootedEnd(cc: CharClasses, a: string, b: string)
    requires Rooted(cc, b)
    ensures Rooted(cc, a + b)
  {
  }

  lemma RootedBefore(cc: CharClasses, a: string, sep: string, q: string, p: nat) returns (m: nat)
    requires cc.Valid() && Rooted(cc, a) && (sep == "" || sep == " ") && p <= |q| && q[..p] == a + sep
    ensures m < p && !cc.space(q[m]) && forall x :: m <= x < p ==> q[x] != '\n'
  {
    var t := a + sep;
    m := if !cc.space(a[|a| - 1]) then |a| - 1 else |a| - 2;
    assert q[m] == q[..p][m] == t[m] == a[m];
    forall x | m <= x < p ensures q[x] != '\n' {
      assert q[x] == q[..p][x] == t[x];
    }
  }

  /** An inline token that ends in white space is a control space. */
  lemma ControlSpace(lang: Language, s: string, i: nat, e: nat)
    requires Sane(lang.cc) && Ends(lang.cc, s, i, e) && e < |s| && lang.cc.space(s[e - 1])
    ensures e == i + 2
  {
    if Reads(lang.cc, Start, s[i..e]).Name? {
      NameEndsVisible(lang.cc, s, i, e);
    }
  }

  lemma {:induction false} NeverStartAgain(cc: CharClasses, q: State, t: string)
    requires q != Start || t != ""
    ensures Reads(cc, q, t) != Start
  {
  }

  lemma FinishedOrOpen(cc: CharClasses, s: string, i: nat, e: nat)
    requires Ends(cc, s, i, e)
    ensures var q := Reads(cc, Start, s[i..e]); Finished(q) || (Open(q) && e == |s|)
  {
    NeverStartAgain(cc, Start, s[i..e]);
  }

  lemma MarkupKind(lang: Language, s: string, i: nat)
    requires lang.Valid() && i < |s| && LexemeAt(lang, s, i).kind in {Inline, Display}
    ensures s[i] == '\\' || s[i] == '$'
  {
  }

  lemma InlineText(lang: Language, s: string, ts: seq<Token>, k: nat, i: nat)
    requires OriginAt(lang, s, ts, k, i) && ts[k].kind == Inline && Sane(lang.cc) && Named(lang)
    ensures ts[k].text == s[i..LexemeAt(lang, s, i).end] && Ends(lang.cc, s, i, LexemeAt(lang, s, i).end)
  {
    MarkupKind(lang, s, i);
    MarkupIsRead(lang, s, i);
  }

  lemma InlineIsRooted(lang: Language, s: string, ts: seq<Token>, k: nat, i: nat)
    requires OriginAt(lang, s, ts, k, i) && ts[k].kind == Inline && Sane(lang.cc) && Named(lang)
    requires SolidAt(lang.cc, ts, k) && !EndsVisible(lang.cc, ts[k].text)
    ensures |ts[k].text| == 2 && Straight(lang.cc, ts[k].text) == ts[k].text && Rooted(lang.cc, ts[k].text)
  {
    var e := LexemeAt(lang, s, i).end;
    InlineText(lang, s, ts, k, i);
    NextOrigin(lang, s, ts, k, i);
    PairIsRooted(lang, s, i, e, ts[k].text);
  }

  lemma PairIsRooted(lang: Language, s: string, i: nat, e: nat, t: string)
    requires Sane(lang.cc) && Ends(lang.cc, s, i, e) && e < |s| && !lang.cc.space(s[i]) && t == s[i..e]
    requires !EndsVisible(lang.cc, t) && t != "" && !lang.cc.lineBreak(t[|t| - 1])
    ensures |t| == 2 && Straight(lang.cc, t) == t && Rooted(lang.cc, t)
  {
    LastOfSlice(s, i, e);
    ControlSpace(lang, s, i, e);
    PairIsLine(lang.cc, t);
  }

  lemma PairIsLine(cc: CharClasses, t: string)
    requires cc.Valid() && |t| == 2 && !cc.space(t[0]) && !cc.lineBreak(t[1])
    ensures Straight(cc, t) == t
  {
    LineHasNoBreak(cc, t);
  }

  lemma PrintIsRooted(lang: Language, s: string, ts: seq<Token>, k: nat, us: seq<Token>)
    requires lang.Valid() && Sane(lang.cc) && Named(lang) && ts == Tokens(lang, s, 0, false) && k < |ts|
    requires us == Straightened(lang.cc, ts) && SolidAt(lang.cc, ts, k)
    requires ts[k].kind == Inline || EndsVisible(lang.cc, ts[k].text)
    ensures Rooted(lang.cc, us[k].text)
  {
    if EndsVisible(lang.cc, ts[k].text) {
      StraightEnds(lang.cc, ts[k].text);
    } else {
      var i := Origin(lang, s, ts, k);
      InlineIsRooted(lang, s, ts, k, i);
    }
  }

  // ---------------------------------------------------------------- the kind read again

  /** All tokens but inline ones end visibly. */
  ghost predicate EndsWhole(cc: CharClasses, ts: seq<Token>) {
    forall k :: 0 <= k < |ts| ==> ts[k].kind == Inline || EndsVisible(cc, ts[k].text)
  }

  /** A pass over a text whose markup the trim does not cut. */
  ghost predicate SolidPass(lang: Language, s: string, ts: seq<Token>, q: string, us: seq<Token>) {
    Pass(lang, s, ts, q, us) && Sane(lang.cc) && Named(lang) && Solid(lang.cc, ts) && EndsWhole(lang.cc, ts)
  }

  lemma TextIsRooted(lang: Language, s: string, ts: seq<Token>, us: seq<Token>, k: nat)
    requires lang.Valid() && Sane(lang.cc) && Named(lang) && ts == Tokens(lang, s, 0, false) && k < |ts|
    requires us == Straightened(lang.cc, ts) && Solid(lang.cc, ts) && EndsWhole(lang.cc, ts)
    ensures Rooted(lang.cc, Stable.Text(us[..k + 1]))
  {
    assert SolidAt(lang.cc, ts, k);
    PrintIsRooted(lang, s, ts, k, us);
    TextUpTo(us, k);
    RootedEnd(lang.cc, Before(us, k), us[k].text);
  }

  lemma BeforeInPrint(q: string, us: seq<Token>, k: nat)
    requires k < |us| && Stable.Text(us) <= q
    ensures PlaceOf(us, k) <= |q| && q[..PlaceOf(us, k)] == Stable.Text(us[..k]) + SepBefore(us, k)
  {
    IsPlaced(q, us, k);
  }

  /** A token that no line end comes before is not alone on its line ... */
  lemma LineBefore(lang: Language, s: string, ts: seq<Token>, q: string, us: seq<Token>, k: nat, e: nat)
    requires SolidPass(lang, s, ts, q, us)
    requires 0 < k < |us| && PlaceOf(us, k) <= e <= |q| && !LastOnLine(us, k - 1)
    ensures !AloneOnLine(lang.cc, q, PlaceOf(us, k), e)
  {
    TextIsRooted(lang, s, ts, us, k - 1);
    TextIsPrefix(q, us);
    BeforeInPrint(q, us, k);
    var m := RootedBefore(lang.cc, Stable.Text(us[..k]), SepBefore(us, k), q, PlaceOf(us, k));
    NotAloneBefore(lang.cc, q, PlaceOf(us, k), e, m);
  }

  lemma NotAloneAfterSep(cc: CharClasses, q: string, p: nat, e: nat, n: nat, sep: string)
    requires cc.Valid() && p <= e <= n < |q| && q[e..n] == sep && (sep == "" || sep == " ") && !cc.space(q[n])
    ensures !AloneOnLine(cc, q, p, e)
  {
    forall x | e <= x <= n ensures q[x] != '\n' && q[x] != '\r' {
      if x < n {
        assert q[x] == q[e..n][x - e];
      }
    }
    NotAloneAfter(cc, q, p, e, n);
  }

  /** ... nor one that no line end follows. */
  lemma LineAfter(lang: Language, q: string, us: seq<Token>, k: nat, p: nat, e: nat, n: nat)
    requires lang.Valid() && PrintOf(lang.cc, q, us) && PrintedAt(q, us, k, p, e, n) && !LastOnLine(us, k)
    ensures !AloneOnLine(lang.cc, q, p, e)
  {
    PrintedNext(lang.cc, q, us, k + 1, n);
    NotAloneAfterSep(lang.cc, q, p, e, n, SepBefore(us, k + 1));
  }

  lemma BreakInPrint(q: string, us: seq<Token>, k: nat)
    requires k < |us| && Stable.Text(us) <= q && SepBefore(us, k) == "\n"
    ensures 0 < PlaceOf(us, k) <= |q| && q[PlaceOf(us, k) - 1] == '\n'
  {
    var p := PlaceOf(us, k);
    BeforeInPrint(q, us, k);
    assert q[p - 1] == q[..p][p - 1];
  }

  lemma NothingBefore(q: string, us: seq<Token>, k: nat, p: nat)
    requires Stable.Text(us) <= q && k < |us| && p == PlaceOf(us, k) && (k == 0 || SepBefore(us, k) == "\n")
    ensures p == 0 || (p <= |q| && q[p - 1] == '\n')
  {
    if k == 0 {
      BeforeFirst(us);
    } else {
      BreakInPrint(q, us, k);
    }
  }

  lemma OneBefore(q: string, e: nat, n: nat, sep: string)
    requires sep == "\n" && n == e + |sep| && n <= |q| && q[n - 1] == '\n'
    ensures e < |q| && q[e] == '\n'
  {
  }

  lemma BreakAfter(q: string, us: seq<Token>, k: nat, e: nat, n: nat)
    requires Stable.Text(us) <= q && k < |us| && n == PlaceOf(us, k) == e + |SepBefore(us, k)| && SepBefore(us, k) == "\n"
    ensures e < |q| && q[e] == '\n'
  {
    BreakInPrint(q, us, k);
    OneBefore(q, e, n, SepBefore(us, k));
  }

  lemma NothingAfter(cc: CharClasses, q: string, us: seq<Token>, k: nat, p: nat, e: nat, n: nat)
    requires PrintOf(cc, q, us) && PrintedAt(q, us, k, p, e, n) && LastOnLine(us, k)
    ensures e == |q| || (e < |q| && q[e] == '\n')
  {
    if k + 1 == |us| {
      PrintEnds(cc, q, us, k, p, e, n);
    } else {
      TextIsPrefix(q, us);
      BreakAfter(q, us, k + 1, e, n);
    }
  }

  /** A display is alone on its line in the print. */
  lemma DisplayIsAlone(cc: CharClasses, q: string, us: seq<Token>, k: nat, p: nat, e: nat, n: nat)
    requires PrintOf(cc, q, us) && PrintedAt(q, us, k, p, e, n) && us[k].kind == Display
    ensures AloneOnLine(cc, q, p, e) && AloneOnLine(cc, q, p, |q|)
  {
    DisplayHasLines(us, k);
    TextIsPrefix(q, us);
    NothingBefore(q, us, k, p);
    NothingAfter(cc, q, us, k, p, e, n);
    AloneBetweenBreaks(cc, q, p, e);
    AloneBetweenBreaks(cc, q, p, |q|);
  }

  lemma DisplayHasLines(us: seq<Token>, k: nat)
    requires k < |us| && us[k].kind == Display
    ensures LastOnLine(us, k) && (k == 0 || SepBefore(us, k) == "\n")
  {
    ConcatOne("\n");
  }

  lemma AloneHasLines(lang: Language, s: string, ts: seq<Token>, q: string, us: seq<Token>, k: nat,
                      p: nat, e: nat, n: nat, e': nat)
    requires SolidPass(lang, s, ts, q, us)
    requires PrintedAt(q, us, k, p, e, n) && (e' == e || (k + 1 == |us| && e' == |q|)) && AloneOnLine(lang.cc, q, p, e')
    ensures (k == 0 || LastOnLine(us, k - 1)) && LastOnLine(us, k)
  {
    if 0 < k && !LastOnLine(us, k - 1) {
      LineBefore(lang, s, ts, q, us, k, e');
    }
    if !LastOnLine(us, k) {
      LineAfter(lang, q, us, k, p, e, n);
    }
  }

  /** The kind read again is the one printed, up to a command that has come to stand alone. */
  lemma KindAgain(lang: Language, s: string, ts: seq<Token>, q: string, us: seq<Token>, k: nat,
                  p: nat, e: nat, n: nat, e': nat, st: State, alone: bool)
    requires SolidPass(lang, s, ts, q, us)
    requires PrintedAt(q, us, k, p, e, n) && (e' == e || (k + 1 == |us| && e' == |q|))
    requires us[k].kind == KindRead(lang, st, alone)
    ensures SameKindAt(us, k, KindRead(lang, st, AloneOnLine(lang.cc, q, p, e')))
  {
    var alone' := AloneOnLine(lang.cc, q, p, e');
    if us[k].kind == Display {
      DisplayIsAlone(lang.cc, q, us, k, p, e, n);
    }
    if alone' {
      AloneHasLines(lang, s, ts, q, us, k, p, e, n, e');
    }
    KindRule(lang, us, k, st, alone, alone');
  }

  lemma KindRule(lang: Language, us: seq<Token>, k: nat, st: State, alone: bool, alone': bool)
    requires k < |us| && us[k].kind == KindRead(lang, st, alone) && (us[k].kind == Display ==> alone')
    requires alone' ==> (k == 0 || LastOnLine(us, k - 1)) && LastOnLine(us, k)
    ensures SameKindAt(us, k, KindRead(lang, st, alone'))
  {
  }

  // ---------------------------------------------------------------- read again

  /** What `ReadAgainAt` asks for, at a known place. */
  lemma AgainAt(lang: Language, q: string, us: seq<Token>, k: nat, p: nat, e: nat, n: nat, x: Lexeme)
    requires lang.Valid() && PrintedAt(q, us, k, p, e, n) && x == LexemeAt(lang, q, p) && x.text == us[k].text
    requires x.end == e || (k + 1 == |us| && x.end == |q|)
    requires SameKindAt(us, k, x.kind)
    ensures PlaceOf(us, k) < |q| && ReadAgainAt(lang, q, us, k)
  {
    assert |q[p..e]| == e - p;
  }

  lemma FinishedAgain(lang: Language, s: string, ts: seq<Token>, q: string, us: seq<Token>, k: nat, i: nat, st: State, alone: bool)
    requires SolidPass(lang, s, ts, q, us)
    requires OriginAt(lang, s, ts, k, i) && (s[i] == '\\' || s[i] == '$')
    requires var e := LexemeAt(lang, s, i).end; st == Reads(lang.cc, Start, s[i..e]) && Finished(st) && Ends(lang.cc, s, i, e)
    requires us[k].text == Straight(lang.cc, s[i..LexemeAt(lang, s, i).end])
    requires us[k].kind == KindRead(lang, st, alone)
    ensures PlaceOf(us, k) < |q| && ReadAgainAt(lang, q, us, k)
  {
    var p, e, n := IsPrintedAt(lang, q, us, k);
    FollowsInPrint(lang, s, ts, q, us, k, i, p, e, n);
    OriginStarts(lang, s, ts, k, i);
    StraightStarts(lang.cc, ts[k].text);
    MarkupAgain(lang, s, i, LexemeAt(lang, s, i).end, q, p, e, st);
    KindAgain(lang, s, ts, q, us, k, p, e, n, e, st, alone);
    AgainAt(lang, q, us, k, p, e, n, LexemeAt(lang, q, p));
  }

  // ---------------------------------------------------------------- read again, by kind

  lemma DisplayTextIsStraight(cc: CharClasses, u: string)
    requires cc.Valid() && StartsVisible(cc, u)
    ensures Straight(cc, TrimLines(cc, u)) == TrimLines(cc, u) && EndsVisible(cc, TrimLines(cc, u))
  {
    var t := Straight(cc, u);
    TrimIsStraight(cc, u);
    StraightStarts(cc, u);
    RStripStart(cc, t);
    RStripTail(cc, t);
    StraightIsStraight(cc, u);
    PrefixIsStraight(cc, t, |RStrip(cc, t)|);
    StraightStays(cc, RStrip(cc, t));
  }

  lemma RestOfPrint(cc: CharClasses, q: string, us: seq<Token>, k: nat, p: nat, e: nat, n: nat)
    requires PrintOf(cc, q, us) && PrintedAt(q, us, k, p, e, n) && k + 1 == |us|
    ensures q[p..] == us[k].text || q[p..] == us[k].text + "\n"
  {
    PrintEnds(cc, q, us, k, p, e, n);
    LastSlice(q, p, e, us[k].text);
  }

  lemma LastSlice(q: string, p: nat, e: nat, t: string)
    requires p <= e <= |q| && q[p..e] == t && (e == |q| || (e + 1 == |q| && q[e] == '\n'))
    ensures q[p..] == t || q[p..] == t + "\n"
  {
    if e == |q| {
      assert q[p..] == q[p..e];
    } else {
      assert q[p..] == q[p..e] + "\n";
    }
  }

  lemma OpenDisplayReadAgain(lang: Language, s: string, ts: seq<Token>, q: string, us: seq<Token>, k: nat, i: nat, st: State)
    requires SolidPass(lang, s, ts, q, us) && k + 1 == |us| && us[k].kind == Display
    requires OriginAt(lang, s, ts, k, i) && (s[i] == '\\' || s[i] == '$') && ts[k].text == TrimLines(lang.cc, s[i..])
    requires st == Reads(lang.cc, Start, s[i..]) && Open(st) && OwnLines(lang, st, true)
    ensures PlaceOf(us, k) < |q| && ReadAgainAt(lang, q, us, k)
  {
    var p, e, n := IsPrintedAt(lang, q, us, k);
    OriginStarts(lang, s, ts, k, i);
    DisplayTextIsStraight(lang.cc, s[i..]);
    RestOfPrint(lang.cc, q, us, k, p, e, n);
    DisplayIsAlone(lang.cc, q, us, k, p, e, n);
    OpenDisplayAgain(lang, s, i, q, p);
    AgainAt(lang, q, us, k, p, e, n, LexemeAt(lang, q, p));
  }

  lemma NoFinalBreak(lang: Language, s: string, ts: seq<Token>, q: string, us: seq<Token>, k: nat, p: nat, e: nat, n: nat)
    requires Pass(lang, s, ts, q, us) && PrintedAt(q, us, k, p, e, n) && k + 1 == |us| && EndsVisible(lang.cc, s)
    ensures q[p..] == us[k].text && e == |q|
  {
    PrintEnds(lang.cc, q, us, k, p, e, n);
    BeforeEnd(us);
    assert FinalBreak(s) == "";
    WithoutBreak(Stable.Text(us));
    assert q[p..] == q[p..e];
  }

  lemma OpenInlineReadAgain(lang: Language, s: string, ts: seq<Token>, q: string, us: seq<Token>, k: nat, i: nat, st: State, alone: bool)
    requires SolidPass(lang, s, ts, q, us)
    requires k + 1 == |us| && OriginAt(lang, s, ts, k, i) && (s[i] == '\\' || s[i] == '$') && ts[k].text == s[i..]
    requires st == Reads(lang.cc, Start, s[i..]) && Open(st) && us[k].kind == KindRead(lang, st, alone)
    ensures PlaceOf(us, k) < |q| && ReadAgainAt(lang, q, us, k)
  {
    var p, e, n := IsPrintedAt(lang, q, us, k);
    OpenInlineIsRead(lang, s, ts, q, us, k, i, st, p, e, n);
    KindAgain(lang, s, ts, q, us, k, p, e, n, |q|, st, alone);
    AgainAt(lang, q, us, k, p, e, n, LexemeAt(lang, q, p));
  }

  lemma OpenInlineIsRead(lang: Language, s: string, ts: seq<Token>, q: string, us: seq<Token>, k: nat, i: nat, st: State,
                         p: nat, e: nat, n: nat)
    requires SolidPass(lang, s, ts, q, us) && k + 1 == |us| && OriginAt(lang, s, ts, k, i) && (s[i] == '\\' || s[i] == '$')
    requires ts[k].text == s[i..] && st == Reads(lang.cc, Start, s[i..]) && Open(st)
    requires PrintedAt(q, us, k, p, e, n) && q[p] == us[k].text[0]
    ensures e == |q| && LexemeAt(lang, q, p) == Lexeme(KindRead(lang, st, AloneOnLine(lang.cc, q, p, |q|)), us[k].text, |q|)
  {
    OriginStarts(lang, s, ts, k, i);
    assert WholeAt(lang.cc, ts[k], LastOnLine(ts, k));
    assert s[i..][|s[i..]| - 1] == s[|s| - 1];
    NoFinalBreak(lang, s, ts, q, us, k, p, e, n);
    StraightStarts(lang.cc, s[i..]);
    OpenInlineAgain(lang, s, i, q, p);
  }

  /** Facts about a command or formula, without its place. */
  ghost predicate MarkupAt(lang: Language, s: string, i: nat, e: nat, st: State, kind: Kind, text: string, alone: bool) {
    && i < e <= |s| && Ends(lang.cc, s, i, e) && st == Reads(lang.cc, Start, s[i..e])
    && kind == KindRead(lang, st, alone)
    && text == if kind == Display then TrimLines(lang.cc, s[i..e]) else s[i..e]
  }

  lemma MarkupOrigin(lang: Language, s: string, ts: seq<Token>, k: nat, i: nat) returns (e: nat, st: State, alone: bool)
    requires OriginAt(lang, s, ts, k, i) && ts[k].kind in {Inline, Display} && Sane(lang.cc) && Named(lang)
    ensures e == LexemeAt(lang, s, i).end && (s[i] == '\\' || s[i] == '$')
    ensures MarkupAt(lang, s, i, e, st, ts[k].kind, ts[k].text, alone)
  {
    MarkupKind(lang, s, i);
    MarkupIsRead(lang, s, i);
    e := LexemeAt(lang, s, i).end;
    st := Reads(lang.cc, Start, s[i..e]);
    alone := AloneOnLine(lang.cc, s, i, e);
  }

  lemma MarkupTextOf(lang: Language, s: string, i: nat, e: nat, st: State, kind: Kind, text: string, alone: bool)
    requires lang.Valid() && Sane(lang.cc) && Named(lang) && MarkupAt(lang, s, i, e, st, kind, text, alone) && Finished(st)
    requires !lang.cc.space(s[i])
    ensures Straight(lang.cc, text) == Straight(lang.cc, s[i..e])
  {
    if kind == Display {
      AloneMatters(lang, st);
      DisplayText(lang, s, i, e);
      PrintedDisplay(lang.cc, s[i..e]);
    }
  }

  /** Every command and formula is read again where it was printed. */
  lemma MarkupReadAgain(lang: Language, s: string, ts: seq<Token>, q: string, us: seq<Token>, k: nat)
    requires SolidPass(lang, s, ts, q, us)
    requires k < |ts| && ts[k].kind in {Inline, Display}
    ensures PlaceOf(us, k) < |q| && ReadAgainAt(lang, q, us, k)
  {
    var i := Origin(lang, s, ts, k);
    var e, st, alone := MarkupOrigin(lang, s, ts, k, i);
    FinishedOrOpen(lang.cc, s, i, e);
    if Finished(st) {
      FinishedMarkup(lang, s, ts, q, us, k, i, e, st, alone);
    } else {
      OriginIsLast(lang, s, ts, k, i);
      OpenText(lang, s, i, st, ts[k].kind, ts[k].text, alone);
      OpenMarkup(lang, s, ts, q, us, k, i, st, alone);
    }
  }

  lemma FinishedMarkup(lang: Language, s: string, ts: seq<Token>, q: string, us: seq<Token>, k: nat, i: nat, e: nat, st: State, alone: bool)
    requires SolidPass(lang, s, ts, q, us) && OriginAt(lang, s, ts, k, i) && (s[i] == '\\' || s[i] == '$')
    requires e == LexemeAt(lang, s, i).end && MarkupAt(lang, s, i, e, st, ts[k].kind, ts[k].text, alone) && Finished(st)
    ensures PlaceOf(us, k) < |q| && ReadAgainAt(lang, q, us, k)
  {
    MarkupTextOf(lang, s, i, e, st, ts[k].kind, ts[k].text, alone);
    FinishedAgain(lang, s, ts, q, us, k, i, st, alone);
  }

  lemma OriginIsLast(lang: Language, s: string, ts: seq<Token>, k: nat, i: nat)
    requires OriginAt(lang, s, ts, k, i) && LexemeAt(lang, s, i).end == |s|
    ensures k + 1 == |ts|
  {
    NextOrigin(lang, s, ts, k, i);
  }

  lemma OpenText(lang: Language, s: string, i: nat, st: State, kind: Kind, text: string, alone: bool)
    requires MarkupAt(lang, s, i, |s|, st, kind, text, alone)
    ensures text == (if kind == Display then TrimLines(lang.cc, s[i..]) else s[i..]) && st == Reads(lang.cc, Start, s[i..])
  {
    assert s[i..|s|] == s[i..];
  }

  lemma OpenMarkup(lang: Language, s: string, ts: seq<Token>, q: string, us: seq<Token>, k: nat, i: nat, st: State, alone: bool)
    requires SolidPass(lang, s, ts, q, us) && OriginAt(lang, s, ts, k, i) && (s[i] == '\\' || s[i] == '$')
    requires k + 1 == |us| && st == Reads(lang.cc, Start, s[i..]) && Open(st) && us[k].kind == KindRead(lang, st, alone)
    requires ts[k].text == if us[k].kind == Display then TrimLines(lang.cc, s[i..]) else s[i..]
    ensures PlaceOf(us, k) < |q| && ReadAgainAt(lang, q, us, k)
  {
    if us[k].kind == Display {
      AloneMatters(lang, st);
      OpenDisplayReadAgain(lang, s, ts, q, us, k, i, st);
    } else {
      OpenInlineReadAgain(lang, s, ts, q, us, k, i, st, alone);
    }
  }

  lemma CommentBreaks(us: seq<Token>, k: nat)
    requires k < |us| && us[k].kind == Comment
    ensures LastOnLine(us, k)
  {
    ConcatOne("\n");
  }

  lemma CommentStarts(lang: Language, s: string, i: nat)
    requires lang.Valid() && i < |s| && LexemeAt(lang, s, i).kind == Comment
    ensures s[i] == '%'
  {
  }

  /** Every comment of one line is read again where it was printed. */
  lemma CommentReadAgain(lang: Language, s: string, ts: seq<Token>, q: string, us: seq<Token>, k: nat)
    requires SolidPass(lang, s, ts, q, us)
    requires k < |ts| && ts[k].kind == Comment
    ensures PlaceOf(us, k) < |q| && ReadAgainAt(lang, q, us, k)
  {
    var i := Origin(lang, s, ts, k);
    CommentStarts(lang, s, i);
    OriginStarts(lang, s, ts, k, i);
    assert SolidAt(lang.cc, ts, k);
    StraightOfLine(lang.cc, ts[k].text);
    var p, e, n := IsPrintedAt(lang, q, us, k);
    CommentBreaks(us, k);
    NothingAfter(lang.cc, q, us, k, p, e, n);
    CommentAgain(lang, q, p, e);
    AgainAt(lang, q, us, k, p, e, n, LexemeAt(lang, q, p));
  }
}

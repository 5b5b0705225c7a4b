/** What one pass of the reflow prints, and when a second pass prints it again: the text is straight line by line,
    and it stays if every token is read again where it was printed. */
module LatexSecondPass {
  import opened PyText
  import opened LatexScanners
  import opened LatexReflow
  import opened LatexContent
  import opened LatexLines
  import opened LatexStable

  // ---------------------------------------------------------------- where the tokens are printed

  /** The separator printed before a token. */
  function SepBefore(ts: seq<Token>, k: nat): (sep: string)
    ensures sep == "" || sep == " " || sep == "\n"
  {
    if 0 < k < |ts| then
      ConcatOne(" ");
      ConcatOne("\n");
      Concat(Between(ts[k - 1], ts[k]))
    else ""
  }

  /** The text before a token. */
  function Before(ts: seq<Token>, k: nat): string
    requires k <= |ts|
  {
    Text(ts[..k]) + SepBefore(ts, k)
  }

  function PlaceOf(ts: seq<Token>, k: nat): nat
    requires k <= |ts|
  {
    |Before(ts, k)|
  }

  lemma TextUpTo(ts: seq<Token>, k: nat)
    requires k < |ts|
    ensures Text(ts[..k + 1]) == Before(ts, k) + ts[k].text
    ensures Before(ts, k + 1) == Before(ts, k) + ts[k].text + SepBefore(ts, k + 1)
  {
    TextNext(ts[..k + 1]);
    assert ts[..k + 1][..k] == ts[..k];
    if k == 0 {
      assert Concat([]) == "";
    }
  }

  lemma BeforeFirst(ts: seq<Token>)
    ensures Before(ts, 0) == ""
  {
    assert ts[..0] == [] && Laid([]) == [] && Concat([]) == "";
  }

  lemma BeforeEnd(ts: seq<Token>)
    ensures Before(ts, |ts|) == Text(ts)
  {
    assert ts[..|ts|] == ts;
  }

  lemma FrontOfPrefix(a: string, b: string, c: string, t: string)
    requires a + b + c <= t
    ensures a <= t
  {
  }

  lemma {:induction false} BeforeIsPrefix(ts: seq<Token>, k: nat)
    requires k <= |ts|
    ensures Before(ts, k) <= Text(ts)
    decreases |ts| - k
  {
    if k == |ts| {
      BeforeEnd(ts);
    } else {
      BeforeIsPrefix(ts, k + 1);
      TextUpTo(ts, k);
      FrontOfPrefix(Before(ts, k), ts[k].text, SepBefore(ts, k + 1), Text(ts));
    }
  }

  // ---------------------------------------------------------------- the first pass

  /** A break or nothing comes after the token. */
  predicate LastOnLine(ts: seq<Token>, k: nat) {
    k + 1 == |ts| || SepBefore(ts, k + 1) == "\n"
  }

  ghost predicate WholeAt(cc: CharClasses, t: Token, last: bool) {
    StartsVisible(cc, t.text) && (last ==> EndsVisible(cc, t.text))
  }

  /** Every token starts visibly, and ends visibly where a line ends after it. */
  ghost predicate Whole(cc: CharClasses, ts: seq<Token>) {
    forall k :: 0 <= k < |ts| ==> WholeAt(cc, ts[k], LastOnLine(ts, k))
  }

  /** The tokens as they are printed. */
  function Straightened(cc: CharClasses, ts: seq<Token>): (r: seq<Token>)
    ensures |r| == |ts|
  {
    seq(|ts|, k requires 0 <= k < |ts| => ts[k].(text := Straight(cc, ts[k].text)))
  }

  lemma BetweenKinds(a: Token, b: Token, a': Token, b': Token)
    requires a'.kind == a.kind && b'.kind == b.kind && b'.gap == b.gap
    ensures Between(a', b') == Between(a, b)
  {
  }

  lemma SameSeparator(cc: CharClasses, ts: seq<Token>, k: nat)
    ensures SepBefore(Straightened(cc, ts), k) == SepBefore(ts, k)
  {
    if 0 < k < |ts| {
      var us := Straightened(cc, ts);
      BetweenKinds(ts[k - 1], ts[k], us[k - 1], us[k]);
    }
  }

  lemma {:induction false} StraightBeforeSpace(cc: CharClasses, a: string)
    requires cc.Valid()
    ensures Straight(cc, a + " ") == Straight(cc, a) + " "
    decreases |a|
  {
    assert IsLine(cc, " ") by { assert " "[1..] == []; }
    if IsLine(cc, a) {
      LinesJoin(cc, a, " ");
    } else {
      var line, br, rest := FirstLine(cc, a);
      StraightBeforeSpace(cc, rest);
      FollowedLine(cc, a, " ", line, br, rest);
    }
  }

  lemma StraightBeforeSep(cc: CharClasses, a: string, sep: string)
    requires cc.Valid() && (sep == "" || sep == " " || (sep == "\n" && EndsVisible(cc, a)))
    ensures Straight(cc, a + sep) == Straight(cc, a) + sep
  {
    if sep == "" {
      assert a + sep == a;
    } else if sep == " " {
      StraightBeforeSpace(cc, a);
    } else {
      StraightConcat(cc, a, sep);
      StraightBreak(cc, "");
      assert "\n" + "" == "\n";
    }
  }

  lemma EndOfText(cc: CharClasses, ts: seq<Token>, k: nat)
    requires Whole(cc, ts) && k < |ts| && LastOnLine(ts, k)
    ensures EndsVisible(cc, Text(ts[..k + 1]))
  {
    TextUpTo(ts, k);
    SameEnd(Before(ts, k), ts[k].text);
  }

  ghost predicate PrintsStraight(cc: CharClasses, ts: seq<Token>, k: nat)
    requires k <= |ts|
  {
    Straight(cc, Text(ts[..k])) == Text(Straightened(cc, ts)[..k])
  }

  lemma SepStaysInPrint(cc: CharClasses, ts: seq<Token>, k: nat)
    requires cc.Valid() && Whole(cc, ts) && k < |ts|
    ensures Straight(cc, Before(ts, k)) == Straight(cc, Text(ts[..k])) + SepBefore(ts, k)
  {
    if k > 0 && SepBefore(ts, k) == "\n" {
      EndOfText(cc, ts, k - 1);
    }
    StraightBeforeSep(cc, Text(ts[..k]), SepBefore(ts, k));
  }

  lemma OneMorePrinted(cc: CharClasses, ts: seq<Token>, k: nat)
    requires cc.Valid() && Whole(cc, ts) && k < |ts| && PrintsStraight(cc, ts, k)
    ensures PrintsStraight(cc, ts, k + 1)
  {
    SepStaysInPrint(cc, ts, k);
    assert WholeAt(cc, ts[k], LastOnLine(ts, k));
    StraightConcat(cc, Before(ts, k), ts[k].text);
    TextUpTo(ts, k);
    TextUpTo(Straightened(cc, ts), k);
    SameSeparator(cc, ts, k);
  }

  lemma {:induction false} TextIsStraightened(cc: CharClasses, ts: seq<Token>, k: nat)
    requires cc.Valid() && Whole(cc, ts) && k <= |ts|
    ensures PrintsStraight(cc, ts, k)
  {
    if k == 0 {
      BeforeFirst(ts);
      BeforeFirst(Straightened(cc, ts));
    } else {
      TextIsStraightened(cc, ts, k - 1);
      OneMorePrinted(cc, ts, k - 1);
    }
  }

  lemma WholeTextEnds(cc: CharClasses, ts: seq<Token>)
    requires cc.Valid() && Whole(cc, ts) && ts != []
    ensures EndsVisible(cc, Text(ts))
  {
    EndOfText(cc, ts, |ts| - 1);
    assert ts[..|ts|] == ts;
  }

  lemma FirstCharacter(a: string, b: string, c: string, t: string)
    requires a == "" && b != "" && a + b + c <= t
    ensures t != "" && t[0] == b[0]
  {
    assert (a + b + c)[0] == b[0];
  }

  lemma WholeTextStarts(cc: CharClasses, ts: seq<Token>)
    requires Whole(cc, ts) && ts != []
    ensures StartsVisible(cc, Text(ts))
  {
    BeforeIsPrefix(ts, 1);
    TextUpTo(ts, 0);
    BeforeFirst(ts);
    assert StartsVisible(cc, ts[0].text);
    FirstCharacter(Before(ts, 0), ts[0].text, SepBefore(ts, 1), Text(ts));
  }

  /** The trim of a printed text takes off the break after the last token only, and straightens the rest. */
  lemma TrimmedPrint(cc: CharClasses, ts: seq<Token>)
    requires cc.Valid() && Whole(cc, ts)
    ensures TrimLines(cc, Concat(Pieces(ts))) == Straight(cc, Text(ts))
  {
    var t := Text(ts);
    TextOfPieces(ts);
    if ts == [] {
      BeforeFirst(ts);
      return;
    }
    WholeTextEnds(cc, ts);
    WholeTextStarts(cc, ts);
    StraightEnds(cc, t);
    var last := if BreaksAfter(ts[|ts| - 1]) then "\n" else "";
    StraightBeforeSep(cc, t, last);
    TrimIsStraight(cc, t + last);
    EndsVisibleStays(cc, Straight(cc, t));
    RStripSpaces(cc, Straight(cc, t), last);
  }

  function FinalBreak(s: string): string {
    if EndsWithLineFeed(s) then "\n" else ""
  }

  lemma ReflowPrints(lang: Language, s: string)
    requires lang.Valid()
    ensures Reflow(lang, s) == TrimLines(lang.cc, Concat(Pieces(Tokens(lang, s, 0, false)))) + FinalBreak(s)
  {
  }

  lemma PrintedText(cc: CharClasses, ts: seq<Token>)
    requires cc.Valid() && Whole(cc, ts)
    ensures Text(Straightened(cc, ts)) == Straight(cc, Text(ts))
  {
    TextIsStraightened(cc, ts, |ts|);
    assert ts[..|ts|] == ts;
    assert Straightened(cc, ts)[..|ts|] == Straightened(cc, ts);
  }

  /** What a pass prints is the text of its tokens, each straightened. */
  lemma FirstPass(lang: Language, s: string, ts: seq<Token>)
    requires lang.Valid() && ts == Tokens(lang, s, 0, false) && Whole(lang.cc, ts)
    ensures Reflow(lang, s) == Text(Straightened(lang.cc, ts)) + FinalBreak(s)
  {
    ReflowPrints(lang, s);
    TrimmedPrint(lang.cc, ts);
    PrintedText(lang.cc, ts);
  }

  // ---------------------------------------------------------------- the second pass

  /** `q` is the print of `ts`. */
  ghost predicate PrintOf(cc: CharClasses, q: string, ts: seq<Token>) {
    && Whole(cc, ts) && IsStraight(cc, Text(ts))
    && (q == Text(ts) || q == Text(ts) + "\n")
  }

  lemma StraightenedAt(cc: CharClasses, t: Token, last: bool)
    requires cc.Valid() && WholeAt(cc, t, last)
    ensures WholeAt(cc, t.(text := Straight(cc, t.text)), last)
  {
    StraightStarts(cc, t.text);
    if last {
      StraightEnds(cc, t.text);
    }
  }

  lemma StraightenedWholeAt(cc: CharClasses, ts: seq<Token>, k: nat)
    requires cc.Valid() && Whole(cc, ts) && k < |ts|
    ensures WholeAt(cc, Straightened(cc, ts)[k], LastOnLine(Straightened(cc, ts), k))
  {
    SameSeparator(cc, ts, k + 1);
    StraightenedAt(cc, ts[k], LastOnLine(ts, k));
  }

  lemma StraightenedIsWhole(cc: CharClasses, ts: seq<Token>)
    requires cc.Valid() && Whole(cc, ts)
    ensures Whole(cc, Straightened(cc, ts))
  {
    forall k | 0 <= k < |ts| ensures WholeAt(cc, Straightened(cc, ts)[k], LastOnLine(Straightened(cc, ts), k)) {
      StraightenedWholeAt(cc, ts, k);
    }
  }

  lemma FirstPassPrints(lang: Language, s: string, ts: seq<Token>)
    requires lang.Valid() && ts == Tokens(lang, s, 0, false) && Whole(lang.cc, ts)
    ensures PrintOf(lang.cc, Reflow(lang, s), Straightened(lang.cc, ts))
  {
    FirstPass(lang, s, ts);
    StraightenedIsWhole(lang.cc, ts);
    PrintedText(lang.cc, ts);
    StraightIsStraight(lang.cc, Text(ts));
    WithoutBreak(Text(Straightened(lang.cc, ts)));
  }

  lemma WithoutBreak(t: string)
    ensures t + "" == t
  {
  }

  lemma TextInFrontOfOne(t: Token, u: Token)
    ensures Text([t] + [u]) == t.text + Concat(Between(t, u)) + Text([u])
  {
    var all := [t] + [u];
    TextNext(all);
    assert all[..1] == [t];
    TextAlone(t);
    TextAlone(u);
  }

  lemma PrefixOfSum(t: Token, us: seq<Token>, n: nat)
    requires |us| == n + 1 && n > 0
    ensures var all := [t] + us;
            all[..n + 1] == [t] + us[..n] && all[n] == us[n - 1] && all[n + 1] == us[n] && us[..n][0] == us[0]
  {
  }

  lemma OneMoreInFront(t: Token, us: seq<Token>, n: nat, all: seq<Token>)
    requires |us| == n + 1 && n > 0 && all == [t] + us
    requires Text([t] + us[..n]) == t.text + Concat(Between(t, us[0])) + Text(us[..n])
    ensures Text(all) == t.text + Concat(Between(t, us[0])) + Text(us)
  {
    PrefixOfSum(t, us, n);
    TextNext(all);
    TextNext(us);
    Gather(t.text + Concat(Between(t, us[0])), Text(us[..n]), Concat(Between(us[n - 1], us[n])), us[n].text);
  }

  lemma {:induction false} TextInFront(t: Token, us: seq<Token>)
    requires us != []
    ensures Text([t] + us) == t.text + Concat(Between(t, us[0])) + Text(us)
    decreases |us|
  {
    var n := |us| - 1;
    if n == 0 {
      assert us == [us[0]];
      TextInFrontOfOne(t, us[0]);
    } else {
      TextInFront(t, us[..n]);
      OneMoreInFront(t, us, n, [t] + us);
    }
  }

  lemma Gather(a: string, b: string, c: string, d: string)
    ensures (a + b) + c + d == a + (b + c + d)
  {
  }

  lemma TextAlone(t: Token)
    ensures Text([t]) == t.text
  {
    TextNext([t]);
    BeforeFirst([t]);
    assert Concat([]) == "";
    assert [t][..0] == [];
  }

  /** The text starts with three parts. */
  predicate StartsInParts(q: string, a: string, b: string, c: string) {
    var p, e, n := |a|, |a| + |b|, |a| + |b| + |c|;
    n <= |q| && q[..p] == a && q[p..e] == b && q[e..n] == c
  }

  lemma ThreeParts(a: string, b: string, c: string, q: string)
    requires a + b + c <= q
    ensures StartsInParts(q, a, b, c)
  {
    var p, e, n := |a|, |a| + |b|, |a| + |b| + |c|;
    assert q[..n] == a + b + c;
    assert q[..p] == q[..n][..p] && q[p..e] == q[..n][p..e] && q[e..n] == q[..n][e..n];
  }

  lemma IsPlaced(q: string, ts: seq<Token>, k: nat)
    requires k < |ts| && Text(ts) <= q
    ensures StartsInParts(q, Before(ts, k), ts[k].text, SepBefore(ts, k + 1))
    ensures PlaceOf(ts, k + 1) == PlaceOf(ts, k) + |ts[k].text| + |SepBefore(ts, k + 1)| <= |q|
  {
    var a, b, c := Before(ts, k), ts[k].text, SepBefore(ts, k + 1);
    TextUpTo(ts, k);
    BeforeIsPrefix(ts, k + 1);
    PrefixOfPrefix(a + b + c, Text(ts), q);
    ThreeParts(a, b, c, q);
  }

  lemma PrefixOfPrefix(a: string, b: string, c: string)
    requires a <= b <= c
    ensures a <= c
  {
  }

  lemma SkipSeparator(lang: Language, q: string, e: nat, n: nat, sep: string)
    requires lang.Valid() && e <= n <= |q| && q[e..n] == sep && (sep == "" || sep == " " || sep == "\n")
    ensures Tokens(lang, q, e, false) == Tokens(lang, q, n, sep != "")
  {
    if sep != "" {
      assert q[e] == q[e..n][0] == sep[0];
    }
  }

  /** A token that takes the place of `ts[k]` needs the same separators around it. */
  ghost predicate SitsAt(ts: seq<Token>, k: nat, t: Token)
    requires k < |ts|
  {
    && t.gap == (SepBefore(ts, k) != "")
    && (t.kind == Stop <==> ts[k].kind == Stop)
    && (ts[k].kind == Display ==> t.kind == Display)
    && (t.kind == Display && ts[k].kind != Display ==> k == 0 || LastOnLine(ts, k - 1))
  }

  /** From the `k`-th token on the print is read again as tokens that complete the text to `whole`. */
  ghost predicate MakesFrom(lang: Language, q: string, ts: seq<Token>, k: nat, whole: string)
    requires lang.Valid() && k <= |ts| && PlaceOf(ts, k) <= |q|
  {
    var us := Tokens(lang, q, PlaceOf(ts, k), SepBefore(ts, k) != "");
    && Before(ts, k) + Text(us) == whole
    && (if k == |ts| then us == [] else us != [] && SitsAt(ts, k, us[0]))
  }

  lemma SameAtEnd(lang: Language, q: string, ts: seq<Token>)
    requires lang.Valid() && (q == Text(ts) || q == Text(ts) + "\n")
    ensures PlaceOf(ts, |ts|) <= |q| && MakesFrom(lang, q, ts, |ts|, Text(ts))
  {
    BeforeEnd(ts);
    BeforeFirst([]);
    BeforeEnd([]);
    if q != Text(ts) {
      assert q[|Text(ts)|] == '\n' && |q| == |Text(ts)| + 1;
      assert Tokens(lang, q, |Text(ts)|, false) == Tokens(lang, q, |q|, true);
    }
    WithoutBreak(Text(ts));
  }

  /** The `k`-th token is read again where it was printed; a command may turn out to stand alone on its line. */
  ghost predicate ReadAgainAt(lang: Language, q: string, ts: seq<Token>, k: nat)
    requires lang.Valid() && k < |ts| && PlaceOf(ts, k) < |q|
  {
    var p := PlaceOf(ts, k);
    var x := LexemeAt(lang, q, p);
    && x.text == ts[k].text
    && (x.end == p + |x.text| || (k + 1 == |ts| && x.end == |q|))
    && SameKindAt(ts, k, x.kind)
  }

  predicate SameKindAt(ts: seq<Token>, k: nat, kind: Kind)
    requires k < |ts|
  {
    || kind == ts[k].kind
    || (kind == Display && ts[k].kind == Inline && (k == 0 || LastOnLine(ts, k - 1)) && LastOnLine(ts, k))
  }

  lemma SeparatorAgain(ts: seq<Token>, k: nat, t: Token, u: Token)
    requires k + 1 < |ts| && SameKindAt(ts, k, t.kind) && SitsAt(ts, k + 1, u)
    ensures Concat(Between(t, u)) == SepBefore(ts, k + 1)
  {
    ConcatOne(" ");
    ConcatOne("\n");
    assert Concat([]) == "";
  }

  lemma ReadToken(lang: Language, q: string, p: nat, gap: bool, x: Lexeme)
    requires lang.Valid() && p < |q| && !lang.cc.space(q[p]) && x == LexemeAt(lang, q, p)
    ensures Tokens(lang, q, p, gap) == [Token(gap, x.kind, x.text)] + Tokens(lang, q, x.end, false)
  {
  }

  lemma VisibleAt(cc: CharClasses, q: string, a: string, b: string, c: string)
    requires StartsInParts(q, a, b, c) && StartsVisible(cc, b)
    ensures |a| < |q| && q[|a|] == b[0]
  {
    assert q[|a|] == q[|a|..|a| + |b|][0];
  }

  lemma SeparatorPlace(q: string, a: string, b: string, sep: string, e: nat, n: nat)
    requires StartsInParts(q, a, b, sep) && e == |a| + |b| && n == e + |sep|
    ensures n <= |q| && q[e..n] == sep
  {
  }

  lemma ReadLast(lang: Language, q: string, a: string, b: string, gap: bool, x: Lexeme)
    requires lang.Valid() && StartsInParts(q, a, b, "") && StartsVisible(lang.cc, b) && |a| < |q|
    requires x == LexemeAt(lang, q, |a|) && x.text == b
    requires x.end == |q| || (x.end == |a| + |b| && (q == a + b || q == a + b + "\n"))
    ensures Tokens(lang, q, |a|, gap) == [Token(gap, x.kind, b)]
  {
    VisibleAt(lang.cc, q, a, b, "");
    ReadToken(lang, q, |a|, gap, x);
    if x.end != |q| {
      assert q[|a + b|] == '\n' && |q| == |a + b| + 1;
      assert Tokens(lang, q, |a| + |b|, false) == Tokens(lang, q, |q|, true);
    }
    assert Tokens(lang, q, x.end, false) == [];
  }

  lemma LastReadAgain(lang: Language, q: string, ts: seq<Token>)
    requires lang.Valid() && PrintOf(lang.cc, q, ts) && ts != [] && PlaceOf(ts, |ts| - 1) < |q|
    requires ReadAgainAt(lang, q, ts, |ts| - 1)
    ensures MakesFrom(lang, q, ts, |ts| - 1, Text(ts))
  {
    var k := |ts| - 1;
    var a, b, gap := Before(ts, k), ts[k].text, SepBefore(ts, k) != "";
    var x := LexemeAt(lang, q, |a|);
    TextIsPrefix(q, ts);
    IsPlaced(q, ts, k);
    BeforeEnd(ts);
    TextUpTo(ts, k);
    WithoutBreak(a + b);
    assert WholeAt(lang.cc, ts[k], LastOnLine(ts, k));
    ReadLast(lang, q, a, b, gap, x);
    TextAlone(Token(gap, x.kind, b));
  }

  lemma TextIsPrefix(q: string, ts: seq<Token>)
    requires q == Text(ts) || q == Text(ts) + "\n"
    ensures Text(ts) <= q
  {
  }

  /** The step of `OneEarlier`, for a token `t` read from `a` on. */
  lemma PutInFront(lang: Language, q: string, ts: seq<Token>, k: nat, t: Token, e: nat, whole: string)
    requires lang.Valid() && k + 1 < |ts| && PlaceOf(ts, k + 1) <= |q| && MakesFrom(lang, q, ts, k + 1, whole)
    requires StartsInParts(q, Before(ts, k), ts[k].text, SepBefore(ts, k + 1))
    requires PlaceOf(ts, k + 1) == e + |SepBefore(ts, k + 1)| && e == PlaceOf(ts, k) + |ts[k].text|
    requires Tokens(lang, q, PlaceOf(ts, k), t.gap) == [t] + Tokens(lang, q, e, false)
    requires t.gap == (SepBefore(ts, k) != "") && t.text == ts[k].text && SameKindAt(ts, k, t.kind)
    ensures MakesFrom(lang, q, ts, k, whole)
  {
    var sep, n := SepBefore(ts, k + 1), PlaceOf(ts, k + 1);
    var us := Tokens(lang, q, n, sep != "");
    SeparatorPlace(q, Before(ts, k), ts[k].text, sep, e, n);
    SkipSeparator(lang, q, e, n, sep);
    TextInFront(t, us);
    SeparatorAgain(ts, k, t, us[0]);
    Associate4(Before(ts, k), ts[k].text, sep, Text(us));
    TextUpTo(ts, k);
    MakesWith(lang, q, ts, k, [t] + us, whole);
  }

  lemma OneEarlier(lang: Language, q: string, ts: seq<Token>, k: nat, whole: string)
    requires lang.Valid() && PrintOf(lang.cc, q, ts) && k + 1 < |ts| && PlaceOf(ts, k) < |q| && PlaceOf(ts, k + 1) <= |q|
    requires ReadAgainAt(lang, q, ts, k) && MakesFrom(lang, q, ts, k + 1, whole)
    ensures MakesFrom(lang, q, ts, k, whole)
  {
    var p, gap := PlaceOf(ts, k), SepBefore(ts, k) != "";
    var x := LexemeAt(lang, q, p);
    TextIsPrefix(q, ts);
    IsPlaced(q, ts, k);
    assert WholeAt(lang.cc, ts[k], LastOnLine(ts, k));
    VisibleAt(lang.cc, q, Before(ts, k), ts[k].text, SepBefore(ts, k + 1));
    ReadToken(lang, q, p, gap, x);
    PutInFront(lang, q, ts, k, Token(gap, x.kind, x.text), x.end, whole);
  }

  lemma MakesWith(lang: Language, q: string, ts: seq<Token>, k: nat, us: seq<Token>, whole: string)
    requires lang.Valid() && k < |ts| && PlaceOf(ts, k) <= |q|
    requires us == Tokens(lang, q, PlaceOf(ts, k), SepBefore(ts, k) != "") && Before(ts, k) + Text(us) == whole
    requires us != [] && SitsAt(ts, k, us[0])
    ensures MakesFrom(lang, q, ts, k, whole)
  {
  }

  ghost predicate Again(lang: Language, q: string, ts: seq<Token>, k: nat)
    requires lang.Valid()
  {
    k < |ts| && PlaceOf(ts, k) < |q| && ReadAgainAt(lang, q, ts, k)
  }

  ghost predicate AllAgain(lang: Language, q: string, ts: seq<Token>, k: nat)
    requires lang.Valid()
  {
    forall j: nat :: j < k ==> Again(lang, q, ts, j)
  }

  ghost function Makes(lang: Language, q: string, ts: seq<Token>, whole: string): nat -> bool
    requires lang.Valid()
  {
    (k: nat) => k < |ts| && PlaceOf(ts, k) <= |q| && MakesFrom(lang, q, ts, k, whole)
  }

  ghost predicate StepsDown(makes: nat -> bool, k: nat) {
    makes(k + 1) ==> makes(k)
  }

  lemma {:induction false} Downwards(makes: nat -> bool, j: nat, k: nat)
    requires j <= k && makes(k) && forall m: nat :: m < k ==> StepsDown(makes, m)
    ensures makes(j)
    decreases k - j
  {
    if j < k {
      Downwards(makes, j + 1, k);
      assert StepsDown(makes, j);
    }
  }

  lemma MakesStep(lang: Language, q: string, ts: seq<Token>, j: nat, whole: string)
    requires lang.Valid() && PrintOf(lang.cc, q, ts) && Again(lang, q, ts, j)
    requires Makes(lang, q, ts, whole)(j + 1)
    ensures Makes(lang, q, ts, whole)(j)
  {
    MakesEarlier(lang, q, ts, j, whole);
  }

  lemma MakesEarlier(lang: Language, q: string, ts: seq<Token>, j: nat, whole: string)
    requires lang.Valid() && PrintOf(lang.cc, q, ts) && Again(lang, q, ts, j)
    requires j + 1 < |ts| && PlaceOf(ts, j + 1) <= |q| && MakesFrom(lang, q, ts, j + 1, whole)
    ensures MakesFrom(lang, q, ts, j, whole)
  {
    OneEarlier(lang, q, ts, j, whole);
  }

  /** Where all tokens before the `k`-th are read again, the text read from earlier on makes the same whole. */
  lemma MakesAll(lang: Language, q: string, ts: seq<Token>, k: nat, whole: string)
    requires lang.Valid() && PrintOf(lang.cc, q, ts) && k < |ts| && AllAgain(lang, q, ts, k)
    requires Makes(lang, q, ts, whole)(k)
    ensures Makes(lang, q, ts, whole)(0)
  {
    var makes := Makes(lang, q, ts, whole);
    forall m: nat | m < k ensures StepsDown(makes, m) {
      if makes(m + 1) {
        assert Again(lang, q, ts, m);
        MakesStep(lang, q, ts, m, whole);
      }
    }
    Downwards(makes, 0, k);
  }

  lemma Associate4(a: string, b: string, c: string, d: string)
    ensures a + (b + c + d) == a + b + c + d
  {
  }

  /** A print all of whose tokens are read again is printed again. */
  lemma PrintStays(lang: Language, q: string, ts: seq<Token>)
    requires lang.Valid() && PrintOf(lang.cc, q, ts) && MakesFrom(lang, q, ts, 0, Text(ts))
    ensures Reflow(lang, q) == q
  {
    var us := Tokens(lang, q, 0, false);
    BeforeFirst(ts);
    assert Text(us) == Text(ts);
    ReflowPrints(lang, q);
    TextOfPieces(us);
    SamePrint(lang.cc, q, ts, us);
  }

  lemma SamePrint(cc: CharClasses, q: string, ts: seq<Token>, us: seq<Token>)
    requires cc.Valid() && PrintOf(cc, q, ts) && Text(us) == Text(ts) && (us == [] <==> ts == [])
    ensures TrimLines(cc, Concat(Pieces(us))) + FinalBreak(q) == q
  {
    var t := Text(ts);
    TextOfPieces(us);
    StraightStays(cc, t);
    WithoutBreak(t);
    if ts == [] {
      BeforeFirst(ts);
      return;
    }
    WholeTextEnds(cc, ts);
    WholeTextStarts(cc, ts);
    var last := if BreaksAfter(us[|us| - 1]) then "\n" else "";
    StraightBeforeSep(cc, t, last);
    TrimIsStraight(cc, t + last);
    EndsVisibleStays(cc, t);
    RStripSpaces(cc, t, last);
  }
}

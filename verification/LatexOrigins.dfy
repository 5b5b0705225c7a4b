/** Where the tokens of a text come from, and how what follows each of them in the text follows it in the print. */
module LatexOrigins {
  import opened PyText
  import opened LatexScanners
  import opened LatexReflow
  import opened LatexContent
  import opened LatexLines
  import opened LatexMachines
  import opened LatexMarkup
  import opened LatexReread
  import opened LatexSecondPass
  import Stable = LatexStable

  // ---------------------------------------------------------------- tokens in the text

  /** The `k`-th token is the lexeme at `p`. */
  ghost predicate OriginAt(lang: Language, s: string, ts: seq<Token>, k: nat, p: nat) {
    lang.Valid() && k < |ts| && p < |s| && !lang.cc.space(s[p]) &&
    var x := LexemeAt(lang, s, p);
    ts[k].kind == x.kind && ts[k].text == x.text && Tokens(lang, s, x.end, false) == ts[k + 1..]
  }

  lemma {:induction false} TokensFrom(lang: Language, s: string, i: nat, gap: bool)
    requires lang.Valid() && i <= |s|
    ensures var j := ClassEnd(s, i, lang.cc.space);
            && (j < |s| ==> !lang.cc.space(s[j]))
            && Tokens(lang, s, i, gap) ==
               if j == |s| then []
               else var x := LexemeAt(lang, s, j); [Token(gap || j > i, x.kind, x.text)] + Tokens(lang, s, x.end, false)
    decreases |s| - i
  {
    if i < |s| && lang.cc.space(s[i]) {
      TokensFrom(lang, s, i + 1, true);
    }
  }

  /** The token after one that ends at `e`. */
  lemma NextOrigin(lang: Language, s: string, ts: seq<Token>, k: nat, p: nat)
    requires OriginAt(lang, s, ts, k, p)
    ensures var e := LexemeAt(lang, s, p).end;
            var j := ClassEnd(s, e, lang.cc.space);
            if k + 1 == |ts| then j == |s|
            else j < |s| && OriginAt(lang, s, ts, k + 1, j) && ts[k + 1].gap == (j > e)
  {
    var e := LexemeAt(lang, s, p).end;
    var rest := ts[k + 1..];
    TokensFrom(lang, s, e, false);
    if rest != [] {
      assert rest[0] == ts[k + 1] && rest[1..] == ts[k + 2..];
    }
  }

  lemma FirstOrigin(lang: Language, s: string, ts: seq<Token>)
    requires lang.Valid() && ts == Tokens(lang, s, 0, false) && ts != []
    ensures var j := ClassEnd(s, 0, lang.cc.space); j < |s| && OriginAt(lang, s, ts, 0, j)
  {
    TokensFrom(lang, s, 0, false);
    assert ts[1..] == Tokens(lang, s, LexemeAt(lang, s, ClassEnd(s, 0, lang.cc.space)).end, false);
  }

  lemma {:induction false} Origin(lang: Language, s: string, ts: seq<Token>, k: nat) returns (p: nat)
    requires lang.Valid() && ts == Tokens(lang, s, 0, false) && k < |ts|
    ensures OriginAt(lang, s, ts, k, p)
  {
    if k == 0 {
      FirstOrigin(lang, s, ts);
      p := ClassEnd(s, 0, lang.cc.space);
    } else {
      var before := Origin(lang, s, ts, k - 1);
      NextOrigin(lang, s, ts, k - 1, before);
      p := ClassEnd(s, LexemeAt(lang, s, before).end, lang.cc.space);
    }
  }

  /** A token starts with the visible character it comes from. */
  lemma OriginStarts(lang: Language, s: string, ts: seq<Token>, k: nat, p: nat)
    requires OriginAt(lang, s, ts, k, p)
    ensures StartsVisible(lang.cc, ts[k].text) && ts[k].text[0] == s[p]
  {
    LexemeKeeps(lang, s, p);
  }

  lemma StopIsMark(lang: Language, s: string, p: nat)
    requires lang.Valid() && p < |s| && LexemeAt(lang, s, p).kind == Stop
    ensures s[p] == ',' || s[p] == '.'
  {
  }

  // ---------------------------------------------------------------- what follows a token in the print

  lemma SepIsSpaces(cc: CharClasses, q: string, e: nat, n: nat, sep: string)
    requires cc.Valid() && e <= n <= |q| && q[e..n] == sep && (sep == "" || sep == " " || sep == "\n")
    requires n < |q| ==> !cc.space(q[n])
    ensures ClassEnd(q, e, cc.space) == n
  {
    if sep != "" {
      assert q[e] == q[e..n][0];
    }
  }

  lemma FollowsInside(cc: CharClasses, s: string, e: nat, q: string, e': nat, n: nat, sep: string)
    requires cc.Valid() && e <= |s| && e' <= n < |q| && q[e'..n] == sep && (sep == "" || sep == " " || sep == "\n")
    requires var j := ClassEnd(s, e, cc.space);
             j < |s| && s[j] == q[n] && !cc.space(q[n]) && (sep == "" && j > e ==> q[n] == ',' || q[n] == '.')
    ensures Follows(cc, s, e, q, e')
  {
    SepIsSpaces(cc, q, e', n, sep);
  }

  lemma FollowsLast(cc: CharClasses, s: string, e: nat, q: string, e': nat)
    requires cc.Valid() && e <= |s| && ClassEnd(s, e, cc.space) == |s| && (e' == |q| || (e' + 1 == |q| && q[e'] == '\n'))
    ensures Follows(cc, s, e, q, e')
  {
  }

  /** The print of a text whose tokens are `ts`, printed as `us`. */
  ghost predicate Pass(lang: Language, s: string, ts: seq<Token>, q: string, us: seq<Token>) {
    && lang.Valid() && ts == Tokens(lang, s, 0, false) && us == Straightened(lang.cc, ts)
    && Whole(lang.cc, ts) && PrintOf(lang.cc, q, us) && q == Stable.Text(us) + FinalBreak(s)
  }

  /** What is known of a token's place in the print. */
  ghost predicate PrintedAt(q: string, us: seq<Token>, k: nat, p: nat, e: nat, n: nat) {
    && k < |us| && p < e <= n <= |q| && p == PlaceOf(us, k) && n == PlaceOf(us, k + 1)
    && e == p + |us[k].text| && n == e + |SepBefore(us, k + 1)|
    && q[p..e] == us[k].text && q[e..n] == SepBefore(us, k + 1)
  }

  lemma PrintedNext(cc: CharClasses, q: string, us: seq<Token>, k: nat, n: nat)
    requires PrintOf(cc, q, us) && k < |us| && n == PlaceOf(us, k)
    ensures n < |q| && q[n] == us[k].text[0] && !cc.space(q[n])
  {
    TextIsPrefix(q, us);
    IsPlaced(q, us, k);
    assert WholeAt(cc, us[k], LastOnLine(us, k));
    VisibleAt(cc, q, Before(us, k), us[k].text, SepBefore(us, k + 1));
  }

  lemma PartsAre(q: string, a: string, b: string, c: string, p: nat, e: nat, n: nat)
    requires StartsInParts(q, a, b, c) && p == |a| && e == p + |b| && n == e + |c|
    ensures n <= |q| && q[p..e] == b && q[e..n] == c
  {
  }

  lemma IsPrintedAt(lang: Language, q: string, us: seq<Token>, k: nat) returns (p: nat, e: nat, n: nat)
    requires PrintOf(lang.cc, q, us) && k < |us|
    ensures PrintedAt(q, us, k, p, e, n) && q[p] == us[k].text[0] && !lang.cc.space(q[p])
  {
    p, e, n := PlaceOf(us, k), PlaceOf(us, k) + |us[k].text|, PlaceOf(us, k + 1);
    TextIsPrefix(q, us);
    IsPlaced(q, us, k);
    PartsAre(q, Before(us, k), us[k].text, SepBefore(us, k + 1), p, e, n);
    PrintedNext(lang.cc, q, us, k, p);
    assert WholeAt(lang.cc, us[k], LastOnLine(us, k));
  }

  lemma PrintEnds(cc: CharClasses, q: string, us: seq<Token>, k: nat, p: nat, e: nat, n: nat)
    requires PrintOf(cc, q, us) && PrintedAt(q, us, k, p, e, n) && k + 1 == |us|
    ensures e == n && (e == |q| || (e + 1 == |q| && q[e] == '\n'))
  {
    BeforeEnd(us);
    if q != Stable.Text(us) {
      assert q[|Stable.Text(us)|] == '\n';
    }
  }

  lemma TightNext(ts: seq<Token>, k: nat)
    requires 0 < k < |ts| && SepBefore(ts, k) == "" && ts[k].gap
    ensures ts[k].kind == Stop
  {
    ConcatOne(" ");
    ConcatOne("\n");
  }

  lemma FollowsInPrint(lang: Language, s: string, ts: seq<Token>, q: string, us: seq<Token>, k: nat,
                       i: nat, p: nat, e: nat, n: nat)
    requires Pass(lang, s, ts, q, us) && OriginAt(lang, s, ts, k, i) && PrintedAt(q, us, k, p, e, n)
    ensures Follows(lang.cc, s, LexemeAt(lang, s, i).end, q, e)
  {
    NextOrigin(lang, s, ts, k, i);
    var from := LexemeAt(lang, s, i).end;
    if k + 1 == |us| {
      PrintEnds(lang.cc, q, us, k, p, e, n);
      FollowsLast(lang.cc, s, from, q, e);
      return;
    }
    var j := ClassEnd(s, from, lang.cc.space);
    NextInPrint(lang, s, ts, q, us, k + 1, j, n, j > from);
    FollowsInside(lang.cc, s, from, q, e, n, SepBefore(us, k + 1));
  }

  lemma NextInPrint(lang: Language, s: string, ts: seq<Token>, q: string, us: seq<Token>, k: nat, j: nat, n: nat, gap: bool)
    requires Pass(lang, s, ts, q, us) && 0 < k && OriginAt(lang, s, ts, k, j) && ts[k].gap == gap && n == PlaceOf(us, k)
    ensures n < |q| && q[n] == s[j] && !lang.cc.space(q[n])
    ensures SepBefore(us, k) == "" && gap ==> q[n] == ',' || q[n] == '.'
  {
    PrintedNext(lang.cc, q, us, k, n);
    OriginStarts(lang, s, ts, k, j);
    StraightStarts(lang.cc, ts[k].text);
    if SepBefore(us, k) == "" && gap {
      SameSeparator(lang.cc, ts, k);
      TightNext(ts, k);
      StopIsMark(lang, s, j);
    }
  }
}

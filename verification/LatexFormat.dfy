/** The reflow as the program runs it, and the layout it leaves. */
module LatexFormat {
  import opened PyText
  import opened LatexScanners
  import opened LatexReflow
  import opened LatexContent

  method FormatCommaPeriodLines(lang: Language, text: string) returns (out: string)
    requires lang.Valid()
    ensures out == Reflow(lang, text)
    ensures NonSpace(lang.cc, out) == NonSpace(lang.cc, text)
  {
    var result: seq<string>, pending, i := [], false, 0;
    ghost var ts: seq<Token>, gap := [], false;
    while i < |text|
      invariant 0 <= i <= |text|
      invariant ts + Tokens(lang, text, i, gap) == Tokens(lang, text, 0, false)
      invariant Proper(ts) && result == Pieces(ts) && PendingFits(ts, gap, pending)
    {
      if lang.cc.space(text[i]) {
        pending, gap := true, true;
        i := i + 1;
        continue;
      }
      var x := Lex(lang, text, i);
      LexemeKeeps(lang, text, i);
      VisibleIsNoSeparator(lang.cc, x.text);
      NextToken(lang, text, i, gap, ts);
      result, pending := Place(result, pending, x, gap, ts);
      ts, gap := ts + [Token(gap, x.kind, x.text)], false;
      i := x.end;
    }
    assert Tokens(lang, text, |text|, gap) == [] && ts + [] == ts;
    ReflowKeepsContent(lang, text);
    out := TrimLines(lang.cc, Concat(result)) + if EndsWithLineFeed(text) then "\n" else "";
  }

  lemma NextToken(lang: Language, s: string, i: nat, gap: bool, ts: seq<Token>)
    requires lang.Valid() && i < |s| && !lang.cc.space(s[i])
    ensures var x := LexemeAt(lang, s, i);
            ts + Tokens(lang, s, i, gap) == ts + [Token(gap, x.kind, x.text)] + Tokens(lang, s, x.end, false)
  {
  }

  // ---------------------------------------------------------------- the layout

  /** Where the text of the `k`-th token stands in the list. */
  function PlaceOf(ts: seq<Token>, k: nat): nat
    requires k < |ts|
  {
    |Laid(ts[..k])| + if k > 0 then |Between(ts[k - 1], ts[k])| else 0
  }

  lemma {:induction false} LaidPrefix(ts: seq<Token>, k: nat)
    requires k <= |ts|
    ensures Laid(ts[..k]) <= Laid(ts)
    decreases |ts| - k
  {
    if k == |ts| {
      assert ts[..k] == ts;
    } else {
      LaidPrefix(ts, k + 1);
      assert ts[..k + 1][..k] == ts[..k];
    }
  }

  lemma LaidUpTo(ts: seq<Token>, k: nat)
    requires k < |ts|
    ensures Laid(ts[..k + 1]) == Laid(ts[..k]) + (if k > 0 then Between(ts[k - 1], ts[k]) else []) + [ts[k].text]
  {
    assert ts[..k + 1][..k] == ts[..k];
  }

  lemma TokenIsPlaced(ts: seq<Token>, k: nat)
    requires k < |ts|
    ensures var p := PlaceOf(ts, k); p + 1 == |Laid(ts[..k + 1])| <= |Laid(ts)| && Pieces(ts)[p] == ts[k].text
  {
    LaidUpTo(ts, k);
    LaidPrefix(ts, k + 1);
  }

  lemma NextIsPlaced(ts: seq<Token>, k: nat)
    requires k + 1 < |ts|
    ensures var p, between := PlaceOf(ts, k), Between(ts[k], ts[k + 1]);
            && PlaceOf(ts, k + 1) == p + 1 + |between| < |Pieces(ts)|
            && (between != [] ==> Pieces(ts)[p + 1] == between[0])
  {
    TokenIsPlaced(ts, k);
    TokenIsPlaced(ts, k + 1);
    LaidUpTo(ts, k + 1);
    LaidPrefix(ts, k + 2);
    assert Laid(ts[..k + 2])[|Laid(ts[..k + 1])|..] == Between(ts[k], ts[k + 1]) + [ts[k + 1].text];
  }

  /** The piece after a token, and where the next token is. */
  ghost predicate FollowedBy(ts: seq<Token>, k: nat, breaks: bool, spaced: bool)
    requires k < |ts|
  {
    var pieces, p := Pieces(ts), PlaceOf(ts, k);
    && p < |pieces| && pieces[p] == ts[k].text
    && (breaks <==> p + 1 < |pieces| && pieces[p + 1] == "\n")
    && (spaced <==> p + 1 < |pieces| && pieces[p + 1] == " ")
    && (if k + 1 == |ts| then |pieces| else PlaceOf(ts, k + 1)) == if breaks || spaced then p + 2 else p + 1
  }

  predicate Breaks(ts: seq<Token>, k: nat)
    requires k < |ts|
  {
    || ts[k].kind == Stop || ts[k].kind == Comment || ts[k].kind == Display
    || (k + 1 < |ts| && ts[k + 1].kind == Display)
  }

  predicate Spaces(ts: seq<Token>, k: nat)
    requires k < |ts|
  {
    k + 1 < |ts| && !Breaks(ts, k) && ts[k + 1].gap && ts[k + 1].kind != Stop
  }

  /** What stands between two tokens tells whether a break was asked for. */
  lemma BetweenTells(ts: seq<Token>, k: nat)
    requires k + 1 < |ts|
    ensures var between := Between(ts[k], ts[k + 1]);
            between == if Breaks(ts, k) then ["\n"] else if Spaces(ts, k) then [" "] else []
  {
  }

  /** The facts about the two places, with the list and the places given. */
  lemma FollowedInside(ts: seq<Token>, k: nat, pieces: seq<string>, p: nat, q: nat, between: seq<string>)
    requires k + 1 < |ts| && pieces == Pieces(ts) && p == PlaceOf(ts, k) && q == PlaceOf(ts, k + 1)
    requires q == p + 1 + |between| < |pieces| && pieces[p] == ts[k].text && pieces[q] == ts[k + 1].text
    requires between != [] ==> pieces[p + 1] == between[0]
    requires between == if Breaks(ts, k) then ["\n"] else if Spaces(ts, k) then [" "] else []
    requires ts[k + 1].text != " " && ts[k + 1].text != "\n"
    ensures FollowedBy(ts, k, Breaks(ts, k), Spaces(ts, k))
  {
  }

  lemma LayoutInside(ts: seq<Token>, k: nat)
    requires Proper(ts) && k + 1 < |ts|
    ensures FollowedBy(ts, k, Breaks(ts, k), Spaces(ts, k))
  {
    TokenIsPlaced(ts, k);
    NextIsPlaced(ts, k);
    TokenIsPlaced(ts, k + 1);
    BetweenTells(ts, k);
    assert ts[k + 1] in ts;
    FollowedInside(ts, k, Pieces(ts), PlaceOf(ts, k), PlaceOf(ts, k + 1), Between(ts[k], ts[k + 1]));
  }

  lemma LayoutAtEnd(ts: seq<Token>)
    requires ts != []
    ensures FollowedBy(ts, |ts| - 1, Breaks(ts, |ts| - 1), false)
  {
    TokenIsPlaced(ts, |ts| - 1);
    assert ts[..|ts|] == ts;
  }

  /** A break follows a token exactly if the token is a comma, a full stop, a comment or a display, or a display
      comes next; else a space exactly if white space came before the next token and that is no comma or full stop. No
      separator leads the list, and two tokens are apart by at most one. */
  lemma Layout(ts: seq<Token>, k: nat)
    requires Proper(ts) && k < |ts|
    ensures FollowedBy(ts, k, Breaks(ts, k), Spaces(ts, k)) && PlaceOf(ts, 0) == 0
  {
    if k + 1 < |ts| {
      LayoutInside(ts, k);
    } else {
      LayoutAtEnd(ts);
    }
  }

  /** So it is at every step of the loop, on every text. */
  lemma LayoutOfText(lang: Language, text: string, k: nat)
    requires lang.Valid() && k < |Tokens(lang, text, 0, false)|
    ensures var ts := Tokens(lang, text, 0, false); FollowedBy(ts, k, Breaks(ts, k), Spaces(ts, k)) && PlaceOf(ts, 0) == 0
  {
    TokensAreProper(lang, text, 0, false);
    Layout(Tokens(lang, text, 0, false), k);
  }
}

/** Comments in the output: nothing follows one on its line, and one is cut exactly if it holds a line boundary. */
module LatexComments {
  import opened PyText
  import opened LatexScanners
  import opened LatexReflow
  import opened LatexContent
  import opened LatexLines
  import opened LatexSecondPass
  import opened LatexOrigins
  import opened LatexPrinted
  import opened LatexProtected
  import Stable = LatexStable

  lemma LastText(ts: seq<Token>, k: nat)
    requires k + 1 == |ts|
    ensures Stable.Text(ts) == Before(ts, k) + ts[k].text
  {
    TextUpTo(ts, k);
    assert ts[..k + 1] == ts;
  }

  lemma LastInOutput(ts: seq<Token>, k: nat)
    requires k + 1 == |ts| && (ts[k].kind == Comment || ts[k].kind == Stop)
    ensures Concat(Pieces(ts)) == Before(ts, k) + (ts[k].text + "\n")
  {
    LastText(ts, k);
    Stable.TextOfPieces(ts);
    JoinParts(Before(ts, k), ts[k].text, "\n");
  }

  lemma InnerInOutput(ts: seq<Token>, k: nat) returns (rest: string)
    requires k + 1 < |ts| && SepBefore(ts, k + 1) == "\n"
    ensures Concat(Pieces(ts)) == Before(ts, k) + (ts[k].text + ("\n" + rest))
  {
    Stable.TextOfPieces(ts);
    TextUpTo(ts, k);
    BeforeIsPrefix(ts, k + 1);
    var t, last := Stable.Text(ts), if BreaksAfter(ts[|ts| - 1]) then "\n" else "";
    rest := t[|Before(ts, k) + ts[k].text + "\n"|..] + last;
    TakeRest(Before(ts, k), ts[k].text, t, last);
  }

  /** The joined output around the text of a comment, a comma or a full stop. */
  lemma PartsOfOutput(ts: seq<Token>, k: nat) returns (rest: string)
    requires k < |ts| && (ts[k].kind == Comment || ts[k].kind == Stop)
    ensures Concat(Pieces(ts)) == Before(ts, k) + (ts[k].text + ("\n" + rest))
  {
    if k + 1 == |ts| {
      LastInOutput(ts, k);
      rest := "";
      assert "\n" + "" == "\n";
    } else {
      EndsItsLine(ts, k);
      rest := InnerInOutput(ts, k);
    }
  }

  lemma EndsItsLine(ts: seq<Token>, k: nat)
    requires k < |ts| && (ts[k].kind == Comment || ts[k].kind == Stop)
    ensures LastOnLine(ts, k)
  {
    ConcatOne("\n");
  }

  lemma JoinParts(a: string, b: string, c: string)
    ensures a + b + c == a + (b + c)
  {
  }

  lemma TakeRest(a: string, b: string, t: string, last: string)
    requires a + b + "\n" <= t
    ensures t + last == a + (b + ("\n" + (t[|a + b + "\n"|..] + last)))
  {
    assert t == a + b + "\n" + t[|a + b + "\n"|..];
  }

  lemma StraightAround(cc: CharClasses, a: string, b: string, rest: string)
    requires cc.Valid() && StartsVisible(cc, b) && EndsVisible(cc, b)
    ensures Straight(cc, a + (b + ("\n" + rest))) == Straight(cc, a) + Straight(cc, b) + ("\n" + Straight(cc, rest))
  {
    var c := "\n" + rest;
    assert StartsVisible(cc, b + c);
    StraightConcat(cc, a, b + c);
    StraightConcat(cc, b, c);
    StraightBreak(cc, rest);
    JoinParts(Straight(cc, a), Straight(cc, b), Straight(cc, c));
  }

  /** The trim keeps what stands before the last visible text. */
  lemma TrimAround(cc: CharClasses, a: string, b: string, rest: string) returns (after: string)
    requires cc.Valid() && StartsVisible(cc, b) && EndsVisible(cc, b) && StartsVisible(cc, a + (b + ("\n" + rest)))
    ensures TrimLines(cc, a + (b + ("\n" + rest))) == Straight(cc, a) + Straight(cc, b) + after
    ensures after == "" || after[0] == '\n'
  {
    var front, tail := Straight(cc, a) + Straight(cc, b), "\n" + Straight(cc, rest);
    StraightAround(cc, a, b, rest);
    TrimIsStraight(cc, a + (b + ("\n" + rest)));
    StraightEnds(cc, b);
    SameEnd(Straight(cc, a), Straight(cc, b));
    RStripConcat(cc, front, tail);
    after := RStrip(cc, tail);
    assert after != "" ==> after[0] == tail[0];
  }

  lemma OutputStarts(lang: Language, s: string, ts: seq<Token>, k: nat, rest: string)
    requires lang.Valid() && ts == Tokens(lang, s, 0, false) && k < |ts| && StartsVisible(lang.cc, ts[k].text)
    requires Concat(Pieces(ts)) == Before(ts, k) + (ts[k].text + ("\n" + rest))
    ensures StartsVisible(lang.cc, Concat(Pieces(ts)))
  {
    var i := Origin(lang, s, ts, 0);
    OriginStarts(lang, s, ts, 0, i);
    BeforeIsPrefix(ts, 1);
    TextUpTo(ts, 0);
    BeforeFirst(ts);
    FirstCharacter(Before(ts, 0), ts[0].text, SepBefore(ts, 1), Stable.Text(ts));
    Stable.TextOfPieces(ts);
  }

  lemma CommentIsVisible(lang: Language, s: string, ts: seq<Token>, k: nat)
    requires lang.Valid() && ts == Tokens(lang, s, 0, false) && k < |ts| && ts[k].kind == Comment
    ensures StartsVisible(lang.cc, ts[k].text) && EndsVisible(lang.cc, ts[k].text)
  {
    var i := Origin(lang, s, ts, k);
    OriginStarts(lang, s, ts, k, i);
    CommentText(lang, s, i);
  }

  /** The output around a token after which a line ends. */
  lemma TokenInOutput(lang: Language, s: string, k: nat) returns (before: string, after: string)
    requires lang.Valid() && k < |Tokens(lang, s, 0, false)|
    requires var t := Tokens(lang, s, 0, false)[k];
             (t.kind == Comment || t.kind == Stop) && StartsVisible(lang.cc, t.text) && EndsVisible(lang.cc, t.text)
    ensures Reflow(lang, s) == before + Straight(lang.cc, Tokens(lang, s, 0, false)[k].text) + after
    ensures after == "" || after[0] == '\n'
  {
    var ts := Tokens(lang, s, 0, false);
    var rest := PartsOfOutput(ts, k);
    OutputStarts(lang, s, ts, k, rest);
    var cut := TrimAround(lang.cc, Before(ts, k), ts[k].text, rest);
    ReflowPrints(lang, s);
    before, after := Straight(lang.cc, Before(ts, k)), cut + FinalBreak(s);
    Associate(before, Straight(lang.cc, ts[k].text), cut, FinalBreak(s));
    StartsWithBreak(cut, FinalBreak(s));
  }

  /** For every text and every comment in it: in the output a line end, or nothing, follows the comment, so the
      text after it does not become part of it. */
  lemma CommentInOutput(lang: Language, s: string, k: nat) returns (before: string, after: string)
    requires lang.Valid() && k < |Tokens(lang, s, 0, false)| && Tokens(lang, s, 0, false)[k].kind == Comment
    ensures Reflow(lang, s) == before + Straight(lang.cc, Tokens(lang, s, 0, false)[k].text) + after
    ensures after == "" || after[0] == '\n'
  {
    CommentIsVisible(lang, s, Tokens(lang, s, 0, false), k);
    before, after := TokenInOutput(lang, s, k);
  }

  lemma StartsWithBreak(a: string, b: string)
    requires (a == "" || a[0] == '\n') && (b == "" || b == "\n")
    ensures a + b == "" || (a + b)[0] == '\n'
  {
  }

  /** The comment itself is printed on one line exactly if it holds no line boundary; else what comes after its
      first boundary stands on a line of its own, outside the comment. */
  lemma CommentIsCutIff(cc: CharClasses, t: string)
    requires cc.Valid() && EndsVisible(cc, t)
    ensures '\n' in Straight(cc, t) <==> exists p :: 0 <= p < |t| && cc.lineBreak(t[p])
    ensures !(exists p :: 0 <= p < |t| && cc.lineBreak(t[p])) ==> Straight(cc, t) == t
  {
    LineHasNoBreak(cc, t);
    if !IsLine(cc, t) {
      var line, br, rest := FirstLine(cc, t);
      StraightParts(cc, t, line, br, rest);
      assert (RStrip(cc, line) + "\n" + Straight(cc, rest))[|RStrip(cc, line)|] == '\n';
    }
  }
}

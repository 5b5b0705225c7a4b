/** The final trim of the reflow, line by line: what it makes of a text put together from pieces. */
module LatexLines {
  import opened PyText

  predicate EndsVisible(cc: CharClasses, t: string) {
    t != [] && !cc.space(t[|t| - 1])
  }

  predicate StartsVisible(cc: CharClasses, t: string) {
    t != [] && !cc.space(t[0])
  }

  /** The text with every line but the last stripped at its right and every line end a line feed. */
  function Straight(cc: CharClasses, t: string): string
    decreases |t|
  {
    var n := LineLength(cc, t);
    if n == |t| then t else RStrip(cc, t[..n]) + "\n" + Straight(cc, t[n + BreakLength(t, n)..])
  }

  // ---------------------------------------------------------------- stripping

  lemma {:induction false} RStripConcat(cc: CharClasses, a: string, b: string)
    requires EndsVisible(cc, a) || RStrip(cc, b) != []
    ensures RStrip(cc, a + b) == a + RStrip(cc, b)
    decreases |b|
  {
    if b == [] {
      assert a + b == a;
    } else if cc.space(b[|b| - 1]) {
      assert (a + b)[..|a + b| - 1] == a + b[..|b| - 1];
      RStripConcat(cc, a, b[..|b| - 1]);
    }
  }

  lemma {:induction false} RStripTail(cc: CharClasses, t: string)
    ensures RStrip(cc, t) == [] || EndsVisible(cc, RStrip(cc, t))
    ensures forall p :: |RStrip(cc, t)| <= p < |t| ==> cc.space(t[p])
  {
    if t != [] && cc.space(t[|t| - 1]) {
      RStripTail(cc, t[..|t| - 1]);
    }
  }

  lemma {:induction false} RStripSpaces(cc: CharClasses, a: string, w: string)
    requires forall c :: c in w ==> cc.space(c)
    ensures RStrip(cc, a + w) == RStrip(cc, a)
    decreases |w|
  {
    if w == [] {
      assert a + w == a;
    } else {
      assert (a + w)[..|a + w| - 1] == a + w[..|w| - 1];
      assert w[|w| - 1] in w;
      RStripSpaces(cc, a, w[..|w| - 1]);
    }
  }

  // ---------------------------------------------------------------- lines

  lemma {:induction false} LineLengthConcat(cc: CharClasses, a: string, b: string)
    ensures LineLength(cc, a + b) == if LineLength(cc, a) < |a| then LineLength(cc, a) else |a| + LineLength(cc, b)
  {
    if a == [] {
      assert a + b == b;
    } else if !cc.lineBreak(a[0]) {
      assert (a + b)[1..] == a[1..] + b;
      LineLengthConcat(cc, a[1..], b);
    }
  }

  predicate IsLine(cc: CharClasses, line: string) {
    LineLength(cc, line) == |line|
  }

  /** `br` ends a line before `rest`. */
  predicate IsBreak(cc: CharClasses, br: string, rest: string) {
    br == "\r\n" || (|br| == 1 && cc.lineBreak(br[0]) && !(br == "\r" && rest != [] && rest[0] == '\n'))
  }

  lemma BreakFollows(cc: CharClasses, line: string, br: string, rest: string)
    requires cc.Valid() && IsLine(cc, line) && IsBreak(cc, br, rest)
    ensures var t := line + br + rest; LineLength(cc, t) == |line| < |t| && BreakLength(t, |line|) == |br|
  {
    var tail := br + rest;
    assert line + br + rest == line + tail;
    LineLengthConcat(cc, line, tail);
    assert tail[0] == br[0];
  }

  lemma StraightParts(cc: CharClasses, t: string, line: string, br: string, rest: string)
    requires cc.Valid() && IsLine(cc, line) && IsBreak(cc, br, rest) && t == line + br + rest
    ensures Straight(cc, t) == RStrip(cc, line) + "\n" + Straight(cc, rest)
  {
    BreakFollows(cc, line, br, rest);
    assert t[..|line|] == line && t[|line| + |br|..] == rest;
  }

  lemma {:induction false} PrefixIsLine(cc: CharClasses, t: string)
    ensures IsLine(cc, t[..LineLength(cc, t)])
  {
    var n := LineLength(cc, t);
    assert t == t[..n] + t[n..];
    LineLengthConcat(cc, t[..n], t[n..]);
  }

  lemma CutInThree(t: string, n: nat, m: nat)
    requires n <= m <= |t|
    ensures t == t[..n] + t[n..m] + t[m..]
  {
  }

  lemma FirstLine(cc: CharClasses, t: string) returns (line: string, br: string, rest: string)
    requires cc.Valid() && !IsLine(cc, t)
    ensures t == line + br + rest && IsLine(cc, line) && IsBreak(cc, br, rest) && |rest| < |t|
  {
    var n := LineLength(cc, t);
    var m := n + BreakLength(t, n);
    PrefixIsLine(cc, t);
    LineLengthStops(cc, t);
    CutInThree(t, n, m);
    line, br, rest := t[..n], t[n..m], t[m..];
  }

  lemma {:induction false} LinesJoin(cc: CharClasses, a: string, b: string)
    requires IsLine(cc, a) && IsLine(cc, b)
    ensures IsLine(cc, a + b)
  {
    LineLengthConcat(cc, a, b);
  }

  lemma StraightOfLine(cc: CharClasses, a: string)
    requires IsLine(cc, a)
    ensures Straight(cc, a) == a
  {
  }

  lemma Reassociate(a: string, line: string, br: string, rest: string)
    ensures a + (line + br + rest) == (a + line) + br + rest
  {
  }

  lemma JoinedLine(cc: CharClasses, a: string, b: string, line: string, br: string, rest: string)
    requires cc.Valid() && IsLine(cc, a) && IsLine(cc, line) && IsBreak(cc, br, rest) && b == line + br + rest
    requires RStrip(cc, a + line) == a + RStrip(cc, line)
    ensures Straight(cc, a + b) == a + Straight(cc, b)
  {
    StraightParts(cc, b, line, br, rest);
    LinesJoin(cc, a, line);
    Reassociate(a, line, br, rest);
    StraightParts(cc, a + b, a + line, br, rest);
    Reassociate(a, RStrip(cc, line), "\n", Straight(cc, rest));
  }

  lemma JoinStrips(cc: CharClasses, a: string, line: string)
    requires EndsVisible(cc, a) || StartsVisible(cc, line) || a == []
    ensures RStrip(cc, a + line) == a + RStrip(cc, line)
  {
    if a == [] {
      assert a + line == line && a + RStrip(cc, line) == RStrip(cc, line);
    } else {
      if StartsVisible(cc, line) {
        RStripStart(cc, line);
      }
      RStripConcat(cc, a, line);
    }
  }

  lemma StraightFirst(cc: CharClasses, a: string, b: string)
    requires cc.Valid() && IsLine(cc, a) && (EndsVisible(cc, a) || StartsVisible(cc, b) || a == [])
    ensures Straight(cc, a + b) == a + Straight(cc, b)
  {
    if IsLine(cc, b) {
      LinesJoin(cc, a, b);
      return;
    }
    var line, br, rest := FirstLine(cc, b);
    assert b[|line|] == br[0];
    JoinStrips(cc, a, line);
    JoinedLine(cc, a, b, line, br, rest);
  }

  lemma SameEnd(a: string, b: string)
    requires b != []
    ensures (a + b)[|a + b| - 1] == b[|b| - 1]
  {
  }

  lemma Associate(x: string, y: string, z: string, w: string)
    ensures (x + y + z) + w == x + y + (z + w)
  {
  }

  lemma FollowedLine(cc: CharClasses, a: string, b: string, line: string, br: string, rest: string)
    requires cc.Valid() && IsLine(cc, line) && IsBreak(cc, br, rest) && IsBreak(cc, br, rest + b) && a == line + br + rest
    requires Straight(cc, rest + b) == Straight(cc, rest) + Straight(cc, b)
    ensures Straight(cc, a + b) == Straight(cc, a) + Straight(cc, b)
  {
    StraightParts(cc, a, line, br, rest);
    Associate(line, br, rest, b);
    StraightParts(cc, a + b, line, br, rest + b);
    Associate(RStrip(cc, line), "\n", Straight(cc, rest), Straight(cc, b));
  }

  /** Two texts that meet inside a line, or at the visible end of the first, are straightened one by one. */
  lemma {:induction false} StraightConcat(cc: CharClasses, a: string, b: string)
    requires cc.Valid() && (EndsVisible(cc, a) || StartsVisible(cc, b) || a == [])
    ensures Straight(cc, a + b) == Straight(cc, a) + Straight(cc, b)
    decreases |a|
  {
    if IsLine(cc, a) {
      StraightFirst(cc, a, b);
      return;
    }
    var line, br, rest := FirstLine(cc, a);
    if rest == [] {
      SameEnd(line, br);
    } else {
      SameEnd(line + br, rest);
    }
    StraightConcat(cc, rest, b);
    FollowedLine(cc, a, b, line, br, rest);
  }

  lemma StraightBreak(cc: CharClasses, b: string)
    requires cc.Valid()
    ensures Straight(cc, "\n" + b) == "\n" + Straight(cc, b)
  {
    var t := "\n" + b;
    assert LineLength(cc, t) == 0 && BreakLength(t, 0) == 1;
    assert t[..0] == [] && t[1..] == b;
  }

  // ---------------------------------------------------------------- straight texts

  /** The only line ends are line feeds, and what stands before one is visible or a line feed. */
  ghost predicate IsStraight(cc: CharClasses, t: string) {
    forall p :: 0 <= p < |t| && cc.lineBreak(t[p]) ==>
      t[p] == '\n' && (p > 0 && t[p - 1] != '\n' ==> !cc.space(t[p - 1]))
  }

  lemma {:induction false} LineHasNoBreak(cc: CharClasses, t: string)
    ensures IsLine(cc, t) <==> forall p :: 0 <= p < |t| ==> !cc.lineBreak(t[p])
  {
    if t != [] && !cc.lineBreak(t[0]) {
      LineHasNoBreak(cc, t[1..]);
      assert forall p :: 0 < p < |t| ==> t[p] == t[1..][p - 1];
    }
  }

  lemma StraightJoins(cc: CharClasses, line: string, t: string)
    requires cc.Valid() && IsLine(cc, line) && IsStraight(cc, t)
    ensures IsStraight(cc, RStrip(cc, line) + "\n" + t)
  {
    var r := RStrip(cc, line);
    LineHasNoBreak(cc, line);
    RStripTail(cc, line);
    var u := r + "\n" + t;
    assert forall p :: 0 <= p < |r| ==> u[p] == line[p];
    forall p | 0 <= p < |u| && cc.lineBreak(u[p])
      ensures u[p] == '\n' && (p > 0 && u[p - 1] != '\n' ==> !cc.space(u[p - 1]))
    {
      if p > |r| {
        assert u[p] == t[p - |r| - 1];
      }
    }
  }

  lemma {:induction false} StraightIsStraight(cc: CharClasses, t: string)
    requires cc.Valid()
    ensures IsStraight(cc, Straight(cc, t))
    decreases |t|
  {
    if IsLine(cc, t) {
      LineHasNoBreak(cc, t);
    } else {
      var line, br, rest := FirstLine(cc, t);
      StraightIsStraight(cc, rest);
      StraightParts(cc, t, line, br, rest);
      StraightJoins(cc, line, Straight(cc, rest));
    }
  }

  lemma {:induction false} StraightStays(cc: CharClasses, t: string)
    requires cc.Valid() && IsStraight(cc, t)
    ensures Straight(cc, t) == t
    decreases |t|
  {
    if !IsLine(cc, t) {
      var line, br, rest := FirstLine(cc, t);
      assert t[|line|] == br[0] == '\n' && br == "\n";
      assert forall p :: 0 <= p < |rest| ==> rest[p] == t[|line| + 1 + p];
      StraightStays(cc, rest);
      StraightParts(cc, t, line, br, rest);
      assert line != [] ==> t[|line| - 1] == line[|line| - 1];
      LineHasNoBreak(cc, line);
    }
  }

  lemma PrefixIsStraight(cc: CharClasses, t: string, n: nat)
    requires n <= |t| && IsStraight(cc, t)
    ensures IsStraight(cc, t[..n])
  {
  }

  // ---------------------------------------------------------------- the trim of a text that starts visibly

  lemma {:induction false} StraightStarts(cc: CharClasses, t: string)
    requires cc.Valid() && StartsVisible(cc, t)
    ensures StartsVisible(cc, Straight(cc, t)) && Straight(cc, t)[0] == t[0]
  {
    if !IsLine(cc, t) {
      var line, br, rest := FirstLine(cc, t);
      StraightParts(cc, t, line, br, rest);
      assert t[|line|] == br[0];
      RStripStart(cc, line);
    }
  }

  lemma {:induction false} StraightEnds(cc: CharClasses, t: string)
    requires cc.Valid() && EndsVisible(cc, t)
    ensures EndsVisible(cc, Straight(cc, t)) && Straight(cc, t)[|Straight(cc, t)| - 1] == t[|t| - 1]
    decreases |t|
  {
    if !IsLine(cc, t) {
      var line, br, rest := FirstLine(cc, t);
      EndsInRest(cc, t, line, br, rest);
      StraightEnds(cc, rest);
      StraightParts(cc, t, line, br, rest);
      SameEnd(RStrip(cc, line) + "\n", Straight(cc, rest));
    }
  }

  lemma EndsInRest(cc: CharClasses, t: string, line: string, br: string, rest: string)
    requires cc.Valid() && t == line + br + rest && IsBreak(cc, br, rest) && EndsVisible(cc, t)
    ensures EndsVisible(cc, rest) && rest[|rest| - 1] == t[|t| - 1]
  {
    if rest == [] {
      SameEnd(line, br);
    } else {
      SameEnd(line + br, rest);
    }
  }

  lemma EndsVisibleStays(cc: CharClasses, t: string)
    requires EndsVisible(cc, t)
    ensures RStrip(cc, t) == t
  {
  }

  lemma {:induction false} JoinIsStraight(cc: CharClasses, t: string) returns (tail: string)
    requires cc.Valid()
    ensures Straight(cc, t) == JoinStripped(cc, SplitLines(cc, t)) + tail
    ensures forall c :: c in tail ==> cc.space(c)
    decreases |t|
  {
    if t == [] {
      return [];
    }
    if IsLine(cc, t) {
      RStripTail(cc, t);
      return t[|RStrip(cc, t)|..];
    }
    var line, br, rest := FirstLine(cc, t);
    StraightParts(cc, t, line, br, rest);
    BreakFollows(cc, line, br, rest);
    SplitFirst(cc, t);
    assert t[..|line|] == line && t[|line| + |br|..] == rest;
    if rest == [] {
      return "\n";
    }
    tail := JoinIsStraight(cc, rest);
    JoinNext(cc, line, rest);
    Associate(RStrip(cc, line), "\n", JoinStripped(cc, SplitLines(cc, rest)), tail);
  }

  lemma JoinNext(cc: CharClasses, line: string, rest: string)
    requires rest != []
    ensures JoinStripped(cc, [line] + SplitLines(cc, rest)) == RStrip(cc, line) + "\n" + JoinStripped(cc, SplitLines(cc, rest))
  {
    assert ([line] + SplitLines(cc, rest))[1..] == SplitLines(cc, rest);
  }

  /** The trim of a text that starts visibly is the straight text without the white space at its end. */
  lemma TrimIsStraight(cc: CharClasses, t: string)
    requires cc.Valid() && (t == [] || StartsVisible(cc, t))
    ensures TrimLines(cc, t) == RStrip(cc, Straight(cc, t))
  {
    var joined := JoinStripped(cc, SplitLines(cc, t));
    var tail := JoinIsStraight(cc, t);
    RStripSpaces(cc, joined, tail);
    if t != [] {
      StraightStarts(cc, t);
      JoinStarts(cc, t);
    }
  }

  lemma JoinStarts(cc: CharClasses, t: string)
    requires cc.Valid() && StartsVisible(cc, t)
    ensures StartsVisible(cc, JoinStripped(cc, SplitLines(cc, t)))
  {
    var n := LineLength(cc, t);
    assert n > 0 && SplitLines(cc, t)[0] == t[..n] by {
      assert t[..|t|] == t;
    }
    RStripStart(cc, t[..n]);
  }
}

/** Removal of C++ comments. The hand-written state machine is proved to compute, for every text, what a
    segmentation of the text into code, literals and comments prescribes (the comment rule of section 6.4.9 of
    ISO/IEC 9899:2011, except that no space is put in a comment's place). */
module CppComments {
  import opened PyText
  import opened Escapes

  predicate IsQuote(c: char) {
    c == '"' || c == '\''
  }

  predicate IsNewline(c: char) {
    c == '\r' || c == '\n'
  }

  // ---------------------------------------------------------------- segmentation

  /** End of a literal whose body starts at `i`: past its closing quote, or the end of the text. */
  function BodyEnd(s: string, i: nat, quote: char): (e: nat)
    requires i <= |s|
    ensures i <= e <= |s|
    decreases |s| - i
  {
    if i == |s| then i
    else if s[i] == '\\' then if i + 2 <= |s| then BodyEnd(s, i + 2, quote) else |s|
    else if s[i] == quote then i + 1
    else BodyEnd(s, i + 1, quote)
  }

  ghost function Quotes(s: string, quote: char): nat -> bool {
    (p: nat) => p < |s| && s[p] == quote
  }

  /** A literal ends past the first quote that is not escaped. */
  lemma {:induction false} LiteralEndsAtFirst(s: string, from: nat, i: nat, quote: char)
    requires from <= i <= |s| && IsQuote(quote) && !Escaped(s, from, i)
    ensures EndsAtFirst(s, from, i, BodyEnd(s, i, quote), 1, Quotes(s, quote))
    decreases |s| - i
  {
    if i < |s| && s[i] != quote {
      StepOver(s, from, i);
      if s[i] != '\\' {
        LiteralEndsAtFirst(s, from, i + 1, quote);
      } else if i + 2 <= |s| {
        LiteralEndsAtFirst(s, from, i + 2, quote);
      }
      LookBack(s, from, i, BodyEnd(s, i, quote), 1, Quotes(s, quote));
    }
  }

  /** The first line end at or after `i`. */
  function LineEnd(s: string, i: nat): (e: nat)
    requires i <= |s|
    ensures i <= e <= |s|
    decreases |s| - i
  {
    if i == |s| || IsNewline(s[i]) then i else LineEnd(s, i + 1)
  }

  /** Past the first closing marker at or after `i`. */
  function BlockEnd(s: string, i: nat): (e: nat)
    requires i <= |s|
    ensures i <= e <= |s|
    decreases |s| - i
  {
    if i == |s| then i
    else if PairAt(s, i, '*', '/') then i + 2
    else BlockEnd(s, i + 1)
  }

  lemma {:induction false} LineEndIsFirst(s: string, i: nat)
    requires i <= |s|
    ensures var e := LineEnd(s, i);
            (e < |s| ==> IsNewline(s[e])) && forall p :: i <= p < e ==> !IsNewline(s[p])
    decreases |s| - i
  {
    if i < |s| && !IsNewline(s[i]) {
      LineEndIsFirst(s, i + 1);
    }
  }

  lemma {:induction false} BlockEndIsFirst(s: string, i: nat)
    requires i <= |s|
    ensures var e := BlockEnd(s, i);
            && (e < |s| ==> i + 2 <= e && PairAt(s, e - 2, '*', '/'))
            && forall p :: i <= p && p + 2 < e ==> !PairAt(s, p, '*', '/')
    decreases |s| - i
  {
    if i < |s| && !PairAt(s, i, '*', '/') {
      BlockEndIsFirst(s, i + 1);
    }
  }

  datatype Kind = Code | Literal | LineComment | BlockComment

  /** What starts at a position outside literals and comments; code comes one character at a time. */
  function KindAt(s: string, i: nat): Kind
    requires i < |s|
  {
    if IsQuote(s[i]) then Literal
    else if PairAt(s, i, '/', '/') then LineComment
    else if PairAt(s, i, '/', '*') then BlockComment
    else Code
  }

  function NextAt(s: string, i: nat): (e: nat)
    requires i < |s|
    ensures i < e <= |s|
  {
    match KindAt(s, i)
    case Literal => BodyEnd(s, i + 1, s[i])
    case LineComment => LineEnd(s, i + 2)
    case BlockComment => BlockEnd(s, i + 2)
    case Code => i + 1
  }

  function Newlines(s: string): string {
    if s == [] then []
    else if IsNewline(s[|s| - 1]) then Newlines(s[..|s| - 1]) + [s[|s| - 1]]
    else Newlines(s[..|s| - 1])
  }

  /** Code and literals stay, a line comment goes, a block comment leaves its line ends. */
  function KeptAt(s: string, i: nat): string
    requires i < |s|
  {
    match KindAt(s, i)
    case Code => s[i..NextAt(s, i)]
    case Literal => s[i..NextAt(s, i)]
    case LineComment => []
    case BlockComment => Newlines(s[i..NextAt(s, i)])
  }

  /** What the segments of `s` from position `i` on keep. */
  function Stripped(s: string, i: nat := 0): string
    requires i <= |s|
    decreases |s| - i
  {
    if i == |s| then [] else KeptAt(s, i) + Stripped(s, NextAt(s, i))
  }

  // ---------------------------------------------------------------- the state machine

  datatype State = Normal | InString | InLineComment | InBlockComment

  // Where the machine is: in the segment that starts at `j`, when `done` is what the segments before it keep.

  ghost predicate InLiteral(s: string, j: nat, i: nat, quote: char, done: string, result: string) {
    && j < i <= |s| && KindAt(s, j) == Literal && quote == s[j]
    && NextAt(s, j) == BodyEnd(s, i, quote) && result == done + s[j..i]
  }

  ghost predicate InLine(s: string, j: nat, i: nat, done: string, result: string) {
    && j + 2 <= i <= |s| && KindAt(s, j) == LineComment
    && NextAt(s, j) == LineEnd(s, i) && result == done
  }

  ghost predicate InBlock(s: string, j: nat, i: nat, done: string, result: string) {
    && j + 2 <= i <= |s| && KindAt(s, j) == BlockComment
    && NextAt(s, j) == BlockEnd(s, i) && result == done + Newlines(s[j..i])
  }

  ghost predicate Inside(s: string, j: nat, i: nat, state: State, quote: char, done: string, result: string) {
    match state
    case Normal => j == i <= |s| && result == done
    case InString => InLiteral(s, j, i, quote, done, result)
    case InLineComment => InLine(s, j, i, done, result)
    case InBlockComment => InBlock(s, j, i, done, result)
  }

  /** `done` is what the segments before `j` keep of all that is to be kept. */
  ghost predicate Before(s: string, j: nat, done: string, all: string) {
    j <= |s| && done + Stripped(s, j) == all
  }

  lemma SegmentDone(s: string, j: nat, done: string, all: string)
    requires j < |s| && Before(s, j, done, all)
    ensures Before(s, NextAt(s, j), done + KeptAt(s, j), all)
  {
    Regroup(done, KeptAt(s, j), Stripped(s, NextAt(s, j)));
  }

  lemma CodeDone(s: string, j: nat, done: string, all: string)
    requires j < |s| && Before(s, j, done, all) && KindAt(s, j) == Code
    ensures Before(s, j + 1, done + [s[j]], all)
  {
    SegmentDone(s, j, done, all);
    assert KeptAt(s, j) == [s[j]];
  }

  lemma Regroup(a: string, b: string, c: string)
    ensures a + (b + c) == a + b + c
  {
  }

  method RemoveCppComments(source: string) returns (result: string)
    ensures result == Stripped(source)
  {
    result := [];
    var i: nat, state, quote := 0, Normal, '"';
    ghost var j: nat, done := 0, "";
    while i < |source|
      invariant Inside(source, j, i, state, quote, done, result) && Before(source, j, done, Stripped(source))
      decreases |source| - i
    {
      match state {
        case Normal => result, i, state, quote := StepNormal(source, result, i, quote, Stripped(source));
        case InString => result, i, state := StepString(source, result, i, quote, j, done, Stripped(source));
        case InLineComment => result, i, state := StepLine(source, result, i, quote, j, done, Stripped(source));
        case InBlockComment => result, i, state := StepBlock(source, result, i, quote, j, done, Stripped(source));
      }
      if state == Normal {
        j, done := i, result;
      }
    }
    if state != Normal {
      SegmentDone(source, j, done, Stripped(source));
    }
  }

  method StepNormal(s: string, result: string, i: nat, quote: char, ghost all: string)
    returns (result': string, i': nat, state: State, quote': char)
    requires i < |s| && Before(s, i, result, all)
    ensures i < i'
    ensures if state == Normal then Before(s, i', result', all) else Inside(s, i, i', state, quote', result, result')
  {
    if IsQuote(s[i]) {
      return result + [s[i]], i + 1, InString, s[i];
    } else if s[i] == '/' && i + 1 < |s| && s[i + 1] == '/' {
      return result, i + 2, InLineComment, quote;
    } else if s[i] == '/' && i + 1 < |s| && s[i + 1] == '*' {
      NewlinesAreKept(s[i..i + 2]);
      return result, i + 2, InBlockComment, quote;
    } else {
      CodeDone(s, i, result, all);
      return result + [s[i]], i + 1, Normal, quote;
    }
  }

  method StepString(s: string, result: string, i: nat, quote: char, ghost j: nat, ghost done: string, ghost all: string)
    returns (result': string, i': nat, state: State)
    requires i < |s| && InLiteral(s, j, i, quote, done, result) && Before(s, j, done, all)
    ensures i < i' && (state == Normal || state == InString)
    ensures if state == Normal then Before(s, i', result', all) else InLiteral(s, j, i', quote, done, result')
  {
    if s[i] == '\\' {
      if i + 1 < |s| {
        LiteralEscape(s, j, i, quote, done, result);
        return result + [s[i], s[i + 1]], i + 2, InString;
      }
      LiteralChar(s, j, i, quote, done, result);
      return result + [s[i]], i + 1, InString;
    }
    if s[i] == quote {
      LiteralCloses(s, j, i, quote, done, result, all);
      return result + [s[i]], i + 1, Normal;
    }
    LiteralChar(s, j, i, quote, done, result);
    return result + [s[i]], i + 1, InString;
  }

  lemma SliceGrows(s: string, j: nat, i: nat, done: string)
    requires j <= i < |s|
    ensures done + s[j..i] + [s[i]] == done + s[j..i + 1]
  {
  }

  lemma LiteralChar(s: string, j: nat, i: nat, quote: char, done: string, result: string)
    requires i < |s| && InLiteral(s, j, i, quote, done, result)
    requires if s[i] == '\\' then i + 1 == |s| else s[i] != quote
    ensures InLiteral(s, j, i + 1, quote, done, result + [s[i]])
  {
    SliceGrows(s, j, i, done);
  }

  lemma LiteralEscape(s: string, j: nat, i: nat, quote: char, done: string, result: string)
    requires i + 1 < |s| && InLiteral(s, j, i, quote, done, result) && s[i] == '\\'
    ensures InLiteral(s, j, i + 2, quote, done, result + [s[i], s[i + 1]])
  {
    SliceGrows(s, j, i, done);
    SliceGrows(s, j, i + 1, done);
    assert result + [s[i], s[i + 1]] == result + [s[i]] + [s[i + 1]];
  }

  lemma LiteralCloses(s: string, j: nat, i: nat, quote: char, done: string, result: string, all: string)
    requires i < |s| && InLiteral(s, j, i, quote, done, result) && Before(s, j, done, all)
    requires s[i] != '\\' && s[i] == quote
    ensures Before(s, i + 1, result + [s[i]], all)
  {
    SliceGrows(s, j, i, done);
    SegmentDone(s, j, done, all);
  }

  method StepLine(s: string, result: string, i: nat, quote: char, ghost j: nat, ghost done: string, ghost all: string)
    returns (result': string, i': nat, state: State)
    requires i < |s| && InLine(s, j, i, done, result) && Before(s, j, done, all)
    ensures i < i' && (state == Normal || state == InLineComment)
    ensures if state == Normal then Before(s, i', result', all) else InLine(s, j, i', done, result')
  {
    if s[i] == '\r' && i + 1 < |s| && s[i + 1] == '\n' {
      LineClosesPair(s, j, i, done, result, all);
      return result + ['\r', '\n'], i + 2, Normal;
    }
    if s[i] == '\r' || s[i] == '\n' {
      LineCloses(s, j, i, done, result, all);
      return result + [s[i]], i + 1, Normal;
    }
    return result, i + 1, InLineComment;
  }

  lemma LineCloses(s: string, j: nat, i: nat, done: string, result: string, all: string)
    requires i < |s| && InLine(s, j, i, done, result) && Before(s, j, done, all) && IsNewline(s[i])
    ensures Before(s, i + 1, result + [s[i]], all)
  {
    SegmentDone(s, j, done, all);
    assert done + [] == result;
    CodeDone(s, i, result, all);
  }

  lemma LineClosesPair(s: string, j: nat, i: nat, done: string, result: string, all: string)
    requires InLine(s, j, i, done, result) && Before(s, j, done, all) && PairAt(s, i, '\r', '\n')
    ensures Before(s, i + 2, result + ['\r', '\n'], all)
  {
    LineCloses(s, j, i, done, result, all);
    CodeDone(s, i + 1, result + [s[i]], all);
    assert result + ['\r', '\n'] == result + [s[i]] + [s[i + 1]];
  }

  method StepBlock(s: string, result: string, i: nat, quote: char, ghost j: nat, ghost done: string, ghost all: string)
    returns (result': string, i': nat, state: State)
    requires i < |s| && InBlock(s, j, i, done, result) && Before(s, j, done, all)
    ensures i < i' && (state == Normal || state == InBlockComment)
    ensures if state == Normal then Before(s, i', result', all) else InBlock(s, j, i', done, result')
  {
    if s[i] == '*' && i + 1 < |s| && s[i + 1] == '/' {
      BlockCloses(s, j, i, done, result, all);
      return result, i + 2, Normal;
    }
    if s[i] == '\r' && i + 1 < |s| && s[i + 1] == '\n' {
      BlockGrowsPair(s, j, i, done, result);
      return result + ['\r', '\n'], i + 2, InBlockComment;
    }
    BlockGrows(s, j, i, done, result);
    if s[i] == '\r' || s[i] == '\n' {
      return result + [s[i]], i + 1, InBlockComment;
    }
    return result, i + 1, InBlockComment;
  }

  lemma BlockCloses(s: string, j: nat, i: nat, done: string, result: string, all: string)
    requires i < |s| && InBlock(s, j, i, done, result) && Before(s, j, done, all) && PairAt(s, i, '*', '/')
    ensures Before(s, i + 2, result, all)
  {
    NewlinesGrow(s, j, i);
    NewlinesGrow(s, j, i + 1);
    SegmentDone(s, j, done, all);
  }

  lemma BlockGrows(s: string, j: nat, i: nat, done: string, result: string)
    requires i < |s| && InBlock(s, j, i, done, result) && !PairAt(s, i, '*', '/')
    ensures InBlock(s, j, i + 1, done, if IsNewline(s[i]) then result + [s[i]] else result)
  {
    NewlinesGrow(s, j, i);
    Regroup(done, Newlines(s[j..i]), [s[i]]);
  }

  lemma BlockGrowsPair(s: string, j: nat, i: nat, done: string, result: string)
    requires InBlock(s, j, i, done, result) && PairAt(s, i, '\r', '\n')
    ensures InBlock(s, j, i + 2, done, result + ['\r', '\n'])
  {
    BlockGrows(s, j, i, done, result);
    BlockGrows(s, j, i + 1, done, result + [s[i]]);
    assert result + ['\r', '\n'] == result + [s[i]] + [s[i + 1]];
  }

  lemma NewlinesGrow(s: string, j: nat, i: nat)
    requires j <= i < |s|
    ensures Newlines(s[j..i + 1]) == if IsNewline(s[i]) then Newlines(s[j..i]) + [s[i]] else Newlines(s[j..i])
  {
    assert s[j..i + 1][..i - j] == s[j..i];
  }

  lemma {:induction false} NewlinesConcat(a: string, b: string)
    ensures Newlines(a + b) == Newlines(a) + Newlines(b)
  {
    if b == [] {
      assert a + b == a;
    } else {
      assert (a + b)[..|a + b| - 1] == a + b[..|b| - 1];
      NewlinesConcat(a, b[..|b| - 1]);
    }
  }

  // ---------------------------------------------------------------- what is kept and what goes

  /** `a` can be read off `b` by skipping characters. */
  predicate Subsequence(a: string, b: string) {
    if a == [] then true
    else if b == [] then false
    else if a[0] == b[0] && Subsequence(a[1..], b[1..]) then true
    else Subsequence(a, b[1..])
  }

  lemma {:induction false} SubsequenceConcat(a: string, c: string, b: string, d: string)
    requires Subsequence(a, b) && Subsequence(c, d)
    ensures Subsequence(a + c, b + d)
    decreases |b|
  {
    if b == [] {
      assert a + c == c && b + d == d;
    } else if a != [] && a[0] == b[0] && Subsequence(a[1..], b[1..]) {
      SubsequenceConcat(a[1..], c, b[1..], d);
      assert (a + c)[1..] == a[1..] + c && (b + d)[1..] == b[1..] + d;
    } else {
      SubsequenceConcat(a, c, b[1..], d);
      assert (b + d)[1..] == b[1..] + d;
    }
  }

  lemma {:induction false} Itself(a: string)
    ensures Subsequence(a, a)
  {
    if a != [] {
      Itself(a[1..]);
    }
  }

  lemma {:induction false} NewlinesAreKept(s: string)
    ensures Newlines(Newlines(s)) == Newlines(s)
    ensures forall c :: c in Newlines(s) ==> IsNewline(c)
    ensures (forall c :: c in s ==> !IsNewline(c)) ==> Newlines(s) == []
  {
    if s != [] {
      var front, last := s[..|s| - 1], s[|s| - 1];
      NewlinesAreKept(front);
      assert last in s && forall c :: c in front ==> c in s;
      assert (Newlines(front) + [last])[..|Newlines(front)|] == Newlines(front);
    }
  }

  lemma {:induction false} NewlinesAreSubsequence(s: string)
    ensures Subsequence(Newlines(s), s)
  {
    if s != [] {
      var front, last := s[..|s| - 1], s[|s| - 1];
      NewlinesAreSubsequence(front);
      assert s == front + [last];
      Itself([last]);
      if IsNewline(last) {
        SubsequenceConcat(Newlines(front), [last], front, [last]);
      } else {
        SubsequenceConcat(Newlines(front), [], front, [last]);
        assert Newlines(front) + [] == Newlines(front);
      }
    }
  }

  lemma KeptOfSegment(s: string, i: nat)
    requires i < |s|
    ensures Newlines(KeptAt(s, i)) == Newlines(s[i..NextAt(s, i)])
    ensures Subsequence(KeptAt(s, i), s[i..NextAt(s, i)])
  {
    Itself(s[i..NextAt(s, i)]);
    NewlinesAreKept(s[i..NextAt(s, i)]);
    NewlinesAreSubsequence(s[i..NextAt(s, i)]);
    if KindAt(s, i) == LineComment {
      LineEndIsFirst(s, i + 2);
    }
  }

  /** Removal never drops or adds a line end: every line keeps its number. */
  lemma {:induction false} LineEndsStay(s: string, i: nat)
    requires i <= |s|
    ensures Newlines(Stripped(s, i)) == Newlines(s[i..])
    decreases |s| - i
  {
    if i < |s| {
      var e := NextAt(s, i);
      LineEndsStay(s, e);
      KeptOfSegment(s, i);
      SameNewlines(KeptAt(s, i), Stripped(s, e), s, i, e);
    }
  }

  lemma SameNewlines(a: string, c: string, s: string, i: nat, e: nat)
    requires i <= e <= |s| && Newlines(a) == Newlines(s[i..e]) && Newlines(c) == Newlines(s[e..])
    ensures Newlines(a + c) == Newlines(s[i..])
  {
    NewlinesConcat(a, c);
    NewlinesConcat(s[i..e], s[e..]);
    assert s[i..] == s[i..e] + s[e..];
  }

  /** Removal only drops characters. */
  lemma {:induction false} OutputIsSubsequence(s: string, i: nat)
    requires i <= |s|
    ensures Subsequence(Stripped(s, i), s[i..])
    decreases |s| - i
  {
    if i < |s| {
      var e := NextAt(s, i);
      OutputIsSubsequence(s, e);
      KeptOfSegment(s, i);
      SubsequenceConcat(KeptAt(s, i), Stripped(s, e), s[i..e], s[e..]);
      assert s[i..] == s[i..e] + s[e..];
    }
  }

  // ---------------------------------------------------------------- no comment survives

  /** From `i` on the text is code and literals only. */
  predicate Commentless(s: string, i: nat)
    requires i <= |s|
    decreases |s| - i
  {
    i == |s| || ((KindAt(s, i) == Code || KindAt(s, i) == Literal) && Commentless(s, NextAt(s, i)))
  }

  /** The string and character literals of the text from `i` on. */
  function Literals(s: string, i: nat): seq<string>
    requires i <= |s|
    decreases |s| - i
  {
    if i == |s| then []
    else if KindAt(s, i) == Literal then [s[i..NextAt(s, i)]] + Literals(s, NextAt(s, i))
    else Literals(s, NextAt(s, i))
  }

  lemma {:induction false} CommentlessStays(s: string, i: nat)
    requires i <= |s| && Commentless(s, i)
    ensures Stripped(s, i) == s[i..]
    decreases |s| - i
  {
    if i < |s| {
      CommentlessStays(s, NextAt(s, i));
      assert s[i..] == s[i..NextAt(s, i)] + s[NextAt(s, i)..];
    }
  }

  /** Text `t` from `k` on reads like `s` from `i` on. */
  ghost predicate SameFrom(s: string, i: nat, t: string, k: nat) {
    i <= |s| && k <= |t| && |s| - i == |t| - k && forall p :: i <= p < |s| ==> s[p] == t[p - i + k]
  }

  /** A literal is recognised alike in two texts that agree on it, provided it is closed or both texts end. */
  lemma {:induction false} SameBody(s: string, i: nat, t: string, k: nat, quote: char)
    requires i <= |s| && k <= |t|
    requires var e := BodyEnd(s, i, quote);
             && e - i + k <= |t| && (forall p :: i <= p < e ==> s[p] == t[p - i + k])
             && (e < |s| || e - i + k == |t|)
    ensures BodyEnd(t, k, quote) == BodyEnd(s, i, quote) - i + k
    decreases |s| - i
  {
    if i < |s| {
      if s[i] == '\\' && i + 2 <= |s| {
        SameBody(s, i + 2, t, k + 2, quote);
      } else if s[i] != '\\' && s[i] != quote {
        SameBody(s, i + 1, t, k + 1, quote);
      }
    }
  }

  lemma {:induction false} SameReading(s: string, i: nat, t: string, k: nat)
    requires SameFrom(s, i, t, k) && Commentless(s, i)
    ensures Commentless(t, k) && Literals(t, k) == Literals(s, i)
    decreases |s| - i
  {
    if i < |s| {
      assert s[i] == t[k] && (i + 1 < |s| ==> s[i + 1] == t[k + 1]);
      if KindAt(s, i) == Literal {
        SameBody(s, i + 1, t, k + 1, s[i]);
      }
      assert NextAt(t, k) == NextAt(s, i) - i + k;
      assert s[i..NextAt(s, i)] == t[k..NextAt(t, k)];
      SameReading(s, NextAt(s, i), t, NextAt(t, k));
    }
  }

  lemma {:induction false} NewlinesAreCode(nl: string, t: string, k: nat)
    requires k <= |nl| <= |t| && t[..|nl|] == nl && (forall c :: c in nl ==> IsNewline(c))
    requires Commentless(t, |nl|)
    ensures Commentless(t, k) && Literals(t, k) == Literals(t, |nl|)
    decreases |nl| - k
  {
    if k < |nl| {
      assert t[k] == nl[k] && nl[k] in nl;
      NewlinesAreCode(nl, t, k + 1);
    }
  }

  /** A slash that is code never meets a comment: the comment's own slash would have made it one. So what
      follows it in the output is what follows it in the text. */
  lemma AfterCodeSlash(s: string, i: nat)
    requires i < |s| && KindAt(s, i) == Code && s[i] == '/'
    ensures var out := Stripped(s, i + 1); out == [] || (out[0] != '/' && out[0] != '*')
  {
    if i + 1 < |s| {
      assert s[i + 1] != '/' && s[i + 1] != '*';
      assert KeptAt(s, i + 1) == s[i + 1..NextAt(s, i + 1)];
    }
  }

  // A segment in front of an output without comments.

  lemma CodeInFront(s: string, i: nat, out: string)
    requires i < |s| && KindAt(s, i) == Code && out == [s[i]] + Stripped(s, i + 1) && Commentless(out, 1)
    ensures Commentless(out, 0) && Literals(out, 0) == Literals(out, 1)
  {
    if s[i] == '/' {
      AfterCodeSlash(s, i);
    }
    assert out[0] == s[i] && KindAt(out, 0) == Code;
  }

  lemma LiteralInFront(s: string, i: nat, out: string, rest: string)
    requires i < |s| && KindAt(s, i) == Literal
    requires var e := NextAt(s, i); out == s[i..e] + rest && Commentless(out, e - i) && (e == |s| ==> rest == [])
    ensures var e := NextAt(s, i); Commentless(out, 0) && Literals(out, 0) == [s[i..e]] + Literals(out, e - i)
  {
    var e := NextAt(s, i);
    assert forall p :: i <= p < e ==> s[p] == out[p - i];
    SameBody(s, i + 1, out, 1, s[i]);
    assert out[..e - i] == s[i..e];
  }

  /** The output has no comment, and exactly the literals of the text, verbatim and in order. */
  lemma {:induction false} OutputIsCommentless(s: string, i: nat)
    requires i <= |s|
    ensures Commentless(Stripped(s, i), 0) && Literals(Stripped(s, i), 0) == Literals(s, i)
    decreases |s| - i
  {
    if i < |s| {
      var e, kind := NextAt(s, i), KindAt(s, i);
      var kept, out', out := KeptAt(s, i), Stripped(s, e), Stripped(s, i);
      OutputIsCommentless(s, e);
      SameReading(out', 0, out, |kept|);
      if kind == Code {
        CodeInFront(s, i, out);
      } else if kind == Literal {
        LiteralInFront(s, i, out, out');
      } else if kind == BlockComment {
        NewlinesAreKept(s[i..e]);
        NewlinesAreCode(kept, out, 0);
      }
    }
  }

  /** No comment survives, so a second removal changes nothing. */
  lemma RemovalIsIdempotent(s: string)
    ensures Commentless(Stripped(s), 0) && Stripped(Stripped(s)) == Stripped(s)
  {
    OutputIsCommentless(s, 0);
    CommentlessStays(Stripped(s), 0);
  }

  /** A text is left alone exactly when it has no comment. */
  lemma UnchangedIffCommentless(s: string)
    ensures Stripped(s) == s <==> Commentless(s, 0)
  {
    if Commentless(s, 0) {
      CommentlessStays(s, 0);
    }
    OutputIsCommentless(s, 0);
  }

  // ---------------------------------------------------------------- the segments in their characters

  /** What starts with either quote character is a literal: it stays, up to and with the first unescaped quote of the
      same kind. */
  lemma LiteralStays(s: string, i: nat) returns (e: nat)
    requires i < |s| && (s[i] == '"' || s[i] == '\'')
    ensures i < e <= |s| && Stripped(s, i) == s[i..e] + Stripped(s, e)
    ensures (i + 1 < e && s[e - 1] == s[i] && !Escaped(s, i + 1, e - 1)) || e == |s|
    ensures forall p :: i + 1 <= p < |s| && s[p] == s[i] && !Escaped(s, i + 1, p) ==> e <= p + 1
  {
    e := NextAt(s, i);
    LiteralEndsAt(s, i + 1, s[i]);
    forall p | i + 1 <= p < |s| && s[p] == s[i] && !Escaped(s, i + 1, p) ensures e <= p + 1 {
      LiteralEndsBy(s, i + 1, s[i], p);
    }
  }

  lemma LiteralEndsAt(s: string, i: nat, quote: char)
    requires i <= |s| && IsQuote(quote)
    ensures var e := BodyEnd(s, i, quote); (i < e && s[e - 1] == quote && !Escaped(s, i, e - 1)) || e == |s|
  {
    LiteralEndsAtFirst(s, i, i, quote);
  }

  lemma LiteralEndsBy(s: string, i: nat, quote: char, p: nat)
    requires i <= p < |s| && IsQuote(quote) && s[p] == quote && !Escaped(s, i, p)
    ensures BodyEnd(s, i, quote) <= p + 1
  {
    LiteralEndsAtFirst(s, i, i, quote);
    assert Quotes(s, quote)(p);
  }

  /** What starts with two slashes goes, up to the next carriage return or line feed. */
  lemma LineCommentGoes(s: string, i: nat) returns (e: nat)
    requires i + 1 < |s| && s[i] == '/' && s[i + 1] == '/'
    ensures i + 2 <= e <= |s| && Stripped(s, i) == Stripped(s, e)
    ensures e < |s| ==> s[e] == '\r' || s[e] == '\n'
    ensures forall p :: i + 2 <= p < e ==> s[p] != '\r' && s[p] != '\n'
  {
    e := NextAt(s, i);
    LineEndIsFirst(s, i + 2);
    assert [] + Stripped(s, e) == Stripped(s, e);
  }

  /** The line ends of a text are its carriage returns and line feeds, in their order. */
  lemma {:induction false} NewlinesAt(s: string, n: nat) returns (at: seq<nat>)
    requires n <= |s|
    ensures |at| == |Newlines(s[..n])| && (forall i, j :: 0 <= i < j < |at| ==> at[i] < at[j])
    ensures forall p: nat :: p in at <==> p < n && (s[p] == '\r' || s[p] == '\n')
    ensures forall k :: 0 <= k < |at| ==> at[k] < n && Newlines(s[..n])[k] == s[at[k]]
  {
    at := [];
    if n > 0 {
      at := NewlinesAt(s, n - 1);
      NewlinesGrow(s, 0, n - 1);
      assert s[0..n] == s[..n] && s[0..n - 1] == s[..n - 1];
      if s[n - 1] == '\r' || s[n - 1] == '\n' {
        at := at + [n - 1];
      }
    }
  }

  /** What starts with a slash and a star goes, up to and with the next star and slash, except for its line ends. */
  lemma BlockCommentLeavesLineEnds(s: string, i: nat) returns (e: nat)
    requires i + 1 < |s| && s[i] == '/' && s[i + 1] == '*'
    ensures i + 2 <= e <= |s| && Stripped(s, i) == Newlines(s[i..e]) + Stripped(s, e)
    ensures (i + 4 <= e && s[e - 2] == '*' && s[e - 1] == '/') || e == |s|
    ensures forall p :: i + 2 <= p && p + 1 < |s| && s[p] == '*' && s[p + 1] == '/' ==> e <= p + 2
  {
    e := NextAt(s, i);
    BlockEndIsFirst(s, i + 2);
    forall p | i + 2 <= p && p + 1 < |s| && s[p] == '*' && s[p + 1] == '/' ensures e <= p + 2 {
      BlockEndsBy(s, i + 2, p);
    }
  }

  lemma BlockEndsBy(s: string, i: nat, p: nat)
    requires i <= p && PairAt(s, p, '*', '/')
    ensures BlockEnd(s, i) <= p + 2
  {
    BlockEndIsFirst(s, i);
  }

  /** Every other character stays. */
  lemma CodeStays(s: string, i: nat)
    requires i < |s| && s[i] != '"' && s[i] != '\''
    requires i + 1 < |s| && s[i] == '/' ==> s[i + 1] != '/' && s[i + 1] != '*'
    ensures Stripped(s, i) == [s[i]] + Stripped(s, i + 1)
  {
    assert KeptAt(s, i) == [s[i]];
  }
}

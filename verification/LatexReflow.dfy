/** The LaTeX reflow: plain text breaks only after ',' and '.', commands and math are kept whole. The one-pass loop
    edits its output list in place; it is proved to be a tokenisation followed by a local rule for what stands
    between two neighbouring tokens. */
module LatexReflow {
  import opened PyText
  import opened LatexScanners

  /** Character classes and the three word lists of the program. */
  datatype Language = Language(cc: CharClasses, block: set<string>, standalone: set<string>, protected: seq<string>) {
    ghost predicate Valid() {
      && cc.Valid()
      && forall w :: w in protected ==> w != "" && !cc.space(w[0])
    }
  }

  const BLOCK: set<string> := {"part", "chapter", "section", "subsection", "subsubsection", "paragraph", "subparagraph",
                               "label", "begin", "end", "item"}
  const STANDALONE: set<string> := {"emph", "textbf", "textit"}
  const PROTECTED: seq<string> := ["e.g.", "i.e.", "etc.", "cf.", "vs.", "Fig.", "Eq.", "Sec.", "Tab.",
                                   "Dr.", "Mr.", "Ms.", "Prof.", "et al."]

  lemma SourceListsAreValid(cc: CharClasses)
    requires cc.Valid()
    ensures Language(cc, BLOCK, STANDALONE, PROTECTED).Valid()
  {
    assert forall w :: w in PROTECTED ==> w != "" && '!' <= w[0] <= '~';
  }

  // ---------------------------------------------------------------- protected words

  datatype Match = NoMatch | Match(end: nat, output: string)

  function Prefixed(c: char, m: Match): Match {
    if m.Match? then Match(m.end, [c] + m.output) else NoMatch
  }

  /** The word `w` from its `k`-th character on, read at `i`: case is ignored, a space stands for white space, and
      white space may follow an inner full stop. The output keeps the text's own characters. */
  function MatchWord(cc: CharClasses, s: string, i: nat, w: string, k: nat): (m: Match)
    requires i <= |s| && k <= |w|
    ensures m.Match? ==> i + (|w| - k) <= m.end <= |s|
    decreases |w| - k
  {
    if k == |w| then Match(i, "")
    else if cc.space(w[k]) then
      if i == |s| || !cc.space(s[i]) then NoMatch
      else Prefixed(' ', MatchWord(cc, s, ClassEnd(s, i + 1, cc.space), w, k + 1))
    else if i == |s| || cc.lower(s[i]) != cc.lower(w[k]) then NoMatch
    else Prefixed(s[i], MatchWord(cc, s, AfterStop(cc, s, i + 1, w, k), w, k + 1))
  }

  /** White space is skipped after a full stop inside a word. */
  function AfterStop(cc: CharClasses, s: string, i: nat, w: string, k: nat): (j: nat)
    requires i <= |s| && k < |w|
    ensures i <= j <= |s|
  {
    if k + 1 < |w| && !cc.space(w[k + 1]) && w[k] == '.' then ClassEnd(s, i, cc.space) else i
  }

  predicate WordPart(cc: CharClasses, c: char) {
    cc.alnum(c) || c == '_' || c == '~'
  }

  /** The word with a comma that directly follows it, unless a word character comes next. */
  function WordAt(cc: CharClasses, s: string, start: nat, w: string): (m: Match)
    requires start <= |s|
    ensures m.Match? ==> start + |w| <= m.end <= |s|
  {
    var m := MatchWord(cc, s, start, w, 0);
    if m.NoMatch? then NoMatch
    else
      var m' := if m.end < |s| && s[m.end] == ',' then Match(m.end + 1, m.output + ",") else m;
      if m'.end < |s| && WordPart(cc, s[m'.end]) then NoMatch else m'
  }

  /** The first word of the list from the `n`-th on that matches. */
  function FirstWord(lang: Language, s: string, start: nat, n: nat): (m: Match)
    requires start <= |s| && n <= |lang.protected|
    ensures m.Match? ==> start <= m.end <= |s|
    decreases |lang.protected| - n
  {
    if n == |lang.protected| then NoMatch
    else
      var m := WordAt(lang.cc, s, start, lang.protected[n]);
      if m.Match? then m else FirstWord(lang, s, start, n + 1)
  }

  function ProtectedAt(lang: Language, s: string, start: nat): (m: Match)
    requires start <= |s|
    ensures m.Match? ==> start <= m.end <= |s|
  {
    if start > 0 && WordPart(lang.cc, s[start - 1]) then NoMatch else FirstWord(lang, s, start, 0)
  }

  method MatchProtectedWord(lang: Language, s: string, start: nat) returns (m: Match)
    requires start <= |s|
    ensures m == ProtectedAt(lang, s, start)
  {
    if start > 0 && WordPart(lang.cc, s[start - 1]) {
      return NoMatch;
    }
    var n := 0;
    while n < |lang.protected|
      invariant 0 <= n <= |lang.protected|
      invariant FirstWord(lang, s, start, n) == FirstWord(lang, s, start, 0)
    {
      var i, output, matched := ScanWord(lang.cc, s, start, lang.protected[n]);
      if matched {
        var end := i;
        if end < |s| && s[end] == ',' {
          output := output + ",";
          end := end + 1;
        }
        if !(end < |s| && WordPart(lang.cc, s[end])) {
          return Match(end, output);
        }
      }
      n := n + 1;
    }
    m := NoMatch;
  }

  function Extended(prefix: string, m: Match): Match {
    if m.Match? then Match(m.end, prefix + m.output) else NoMatch
  }

  lemma ScanStep(cc: CharClasses, s: string, i: nat, w: string, k: nat, output: string, c: char, next: nat)
    requires i <= |s| && next <= |s| && k < |w|
    requires MatchWord(cc, s, i, w, k) == Prefixed(c, MatchWord(cc, s, next, w, k + 1))
    ensures Extended(output, MatchWord(cc, s, i, w, k)) == Extended(output + [c], MatchWord(cc, s, next, w, k + 1))
  {
    var m := MatchWord(cc, s, next, w, k + 1);
    if m.Match? {
      assert output + ([c] + m.output) == output + [c] + m.output;
    }
  }

  /** The inner loop over the characters of one word. */
  method ScanWord(cc: CharClasses, s: string, start: nat, w: string) returns (i: nat, output: string, matched: bool)
    requires start <= |s|
    ensures var m := MatchWord(cc, s, start, w, 0); matched == m.Match? && (matched ==> m == Match(i, output))
    ensures i <= |s|
  {
    i, output := start, "";
    var k := 0;
    while k < |w|
      invariant 0 <= k <= |w| && i <= |s|
      invariant Extended(output, MatchWord(cc, s, i, w, k)) == MatchWord(cc, s, start, w, 0)
    {
      if cc.space(w[k]) {
        if i >= |s| || !cc.space(s[i]) {
          return i, output, false;
        }
        ScanStep(cc, s, i, w, k, output, ' ', ClassEnd(s, i + 1, cc.space));
        i := SkipClass(s, i + 1, cc.space);
        output := output + " ";
      } else {
        if i >= |s| || cc.lower(s[i]) != cc.lower(w[k]) {
          return i, output, false;
        }
        ScanStep(cc, s, i, w, k, output, s[i], AfterStop(cc, s, i + 1, w, k));
        output := output + [s[i]];
        i := i + 1;
        if k + 1 < |w| && !cc.space(w[k + 1]) && w[k] == '.' {
          i := SkipClass(s, i, cc.space);
        }
      }
      k := k + 1;
    }
    matched := true;
  }

  // ---------------------------------------------------------------- tokens

  datatype Kind = Stop | Plain | Inline | Protected | Comment | Display

  /** A piece of text to be output and where the next one is looked for. */
  datatype Lexeme = Lexeme(kind: Kind, text: string, end: nat)

  /** The construct that starts at a visible character. */
  function LexemeAt(lang: Language, s: string, i: nat): (x: Lexeme)
    requires lang.Valid() && i < |s|
    ensures i < x.end <= |s|
  {
    if s[i] == '%' then
      var e := ClassEnd(s, i + 1, NotLineEnd);
      Lexeme(Comment, RStrip(lang.cc, s[i..e]), e)
    else if s[i] == '\\' then BackslashAt(lang, s, i)
    else if s[i] == '$' then
      var e := MathEnd(s, i);
      if PairAt(s, i, '$', '$') then Lexeme(Display, TrimLines(lang.cc, s[i..e]), e) else Lexeme(Inline, s[i..e], e)
    else WordOrChar(lang, s, i)
  }

  function BackslashAt(lang: Language, s: string, i: nat): (x: Lexeme)
    requires i < |s|
    ensures i < x.end <= |s|
  {
    if PairAt(s, i, '\\', '[') then
      var e := CommandMathEnd(s, i + 2, ']');
      Lexeme(Display, TrimLines(lang.cc, s[i..e]), e)
    else if PairAt(s, i, '\\', '(') then
      var e := CommandMathEnd(s, i + 2, ')');
      Lexeme(Inline, s[i..e], e)
    else
      var e, name := CommandEnd(lang.cc, s, i), CommandName(lang.cc, s, i);
      if name in lang.block || (name in lang.standalone && AloneOnLine(lang.cc, s, i, e))
      then Lexeme(Display, TrimLines(lang.cc, s[i..e]), e) else Lexeme(Inline, s[i..e], e)
  }

  function WordOrChar(lang: Language, s: string, i: nat): (x: Lexeme)
    requires lang.Valid() && i < |s|
    ensures i < x.end <= |s|
  {
    var m := ProtectedAt(lang, s, i);
    if m.Match? then ProtectedProgress(lang, s, i, 0); Lexeme(Protected, m.output, m.end)
    else if s[i] == ',' || s[i] == '.' then Lexeme(Stop, [s[i]], i + 1)
    else Lexeme(Plain, [s[i]], i + 1)
  }

  lemma {:induction false} ProtectedProgress(lang: Language, s: string, start: nat, n: nat)
    requires lang.Valid() && start <= |s| && n <= |lang.protected|
    ensures FirstWord(lang, s, start, n).Match? ==> start < FirstWord(lang, s, start, n).end
    decreases |lang.protected| - n
  {
    if n < |lang.protected| {
      assert lang.protected[n] in lang.protected;
      ProtectedProgress(lang, s, start, n + 1);
    }
  }

  /** `gap`: white space came before the token. */
  datatype Token = Token(gap: bool, kind: Kind, text: string)

  function Tokens(lang: Language, s: string, i: nat, gap: bool): seq<Token>
    requires lang.Valid() && i <= |s|
    decreases |s| - i
  {
    if i == |s| then []
    else if lang.cc.space(s[i]) then Tokens(lang, s, i + 1, true)
    else
      var x := LexemeAt(lang, s, i);
      [Token(gap, x.kind, x.text)] + Tokens(lang, s, x.end, false)
  }

  // ---------------------------------------------------------------- layout

  predicate BreaksAfter(t: Token) {
    t.kind == Stop || t.kind == Comment || t.kind == Display
  }

  /** What stands between two neighbouring tokens. */
  function Between(a: Token, b: Token): seq<string> {
    if BreaksAfter(a) || b.kind == Display then ["\n"]
    else if b.gap && b.kind != Stop then [" "]
    else []
  }

  function Laid(ts: seq<Token>): seq<string> {
    if ts == [] then []
    else
      var n := |ts| - 1;
      Laid(ts[..n]) + (if n > 0 then Between(ts[n - 1], ts[n]) else []) + [ts[n].text]
  }

  /** The output list: the tokens with what stands between them, and a break after the last if it asks for one. */
  function Pieces(ts: seq<Token>): seq<string> {
    Laid(ts) + if ts != [] && BreaksAfter(ts[|ts| - 1]) then ["\n"] else []
  }

  function Concat(pieces: seq<string>): string {
    if pieces == [] then [] else Concat(pieces[..|pieces| - 1]) + pieces[|pieces| - 1]
  }

  predicate EndsWithLineFeed(s: string) {
    s != [] && s[|s| - 1] == '\n'
  }

  function Reflow(lang: Language, s: string): string
    requires lang.Valid()
  {
    TrimLines(lang.cc, Concat(Pieces(Tokens(lang, s, 0, false)))) + if EndsWithLineFeed(s) then "\n" else ""
  }

  // ---------------------------------------------------------------- the output list, edited in place

  predicate IsSeparator(p: string) {
    p == " " || p == "\n"
  }

  ghost predicate Proper(ts: seq<Token>) {
    forall t :: t in ts ==> !IsSeparator(t.text)
  }

  /** The list after a space was asked for. */
  method AppendSpaceIfNeeded(result: seq<string>, pending: bool) returns (out: seq<string>)
    ensures out == if pending && result != [] && !IsSeparator(result[|result| - 1]) then result + [" "] else result
  {
    out := result;
    if pending && |result| > 0 && result[|result| - 1] != " " && result[|result| - 1] != "\n" {
      out := out + [" "];
    }
  }

  function DropSpaces(pieces: seq<string>): seq<string> {
    if pieces != [] && pieces[|pieces| - 1] == " " then DropSpaces(pieces[..|pieces| - 1]) else pieces
  }

  /** The list after a line break was asked for: trailing spaces go, and no break is doubled or put first. */
  method AppendNewline(result: seq<string>) returns (out: seq<string>)
    ensures var kept := DropSpaces(result);
            out == if kept != [] && kept[|kept| - 1] != "\n" then kept + ["\n"] else kept
  {
    out := result;
    while |out| > 0 && out[|out| - 1] == " "
      invariant DropSpaces(out) == DropSpaces(result)
      decreases |out|
    {
      out := out[..|out| - 1];
    }
    if |out| > 0 && out[|out| - 1] != "\n" {
      out := out + ["\n"];
    }
  }

  /** The flag for pending white space may stay set after a display token, where it does no harm. */
  ghost predicate PendingFits(ts: seq<Token>, gap: bool, pending: bool) {
    (gap ==> pending) && (pending && !gap ==> ts != [] && BreaksAfter(ts[|ts| - 1]))
  }

  lemma LastPiece(ts: seq<Token>)
    requires Proper(ts)
    ensures Pieces(ts) == [] <==> ts == []
    ensures ts != [] ==>
              var p := Pieces(ts)[|Pieces(ts)| - 1];
              p != " " && (p == "\n" <==> BreaksAfter(ts[|ts| - 1]))
  {
    if ts != [] {
      assert ts[|ts| - 1] in ts;
    }
  }

  /** How the list grows by a token. */
  lemma PiecesGrow(ts: seq<Token>, t: Token)
    requires Proper(ts)
    ensures var n := |ts|;
            Pieces(ts + [t]) ==
              (if n == 0 then []
               else if BreaksAfter(ts[n - 1]) then Pieces(ts)
               else Pieces(ts) + Between(ts[n - 1], t))
              + [t.text] + (if BreaksAfter(t) then ["\n"] else [])
  {
    var n := |ts|;
    assert (ts + [t])[..n] == ts;
    if n == 0 {
      assert Laid(ts + [t]) == [] + [] + [t.text];
    } else if BreaksAfter(ts[n - 1]) {
      assert Laid(ts + [t]) == Pieces(ts) + [t.text];
    } else {
      assert Pieces(ts) == Laid(ts);
    }
  }

  /** The list with the separator that the next token needs. */
  function Separated(ts: seq<Token>, t: Token): seq<string> {
    if ts == [] || BreaksAfter(ts[|ts| - 1]) then Pieces(ts) else Pieces(ts) + Between(ts[|ts| - 1], t)
  }

  lemma Grown(ts: seq<Token>, t: Token, front: seq<string>)
    requires Proper(ts) && front == Separated(ts, t)
    ensures Pieces(ts + [t]) == front + [t.text] + if BreaksAfter(t) then ["\n"] else []
  {
    PiecesGrow(ts, t);
  }

  lemma SpaceNeeded(ts: seq<Token>, t: Token, pending: bool, result: seq<string>, front: seq<string>)
    requires Proper(ts) && result == Pieces(ts) && PendingFits(ts, t.gap, pending) && t.kind != Display && t.kind != Stop
    requires front == if pending && result != [] && !IsSeparator(result[|result| - 1]) then result + [" "] else result
    ensures Pieces(ts + [t]) == front + [t.text] + if BreaksAfter(t) then ["\n"] else []
  {
    LastPiece(ts);
    Grown(ts, t, front);
  }

  lemma BreakNeeded(ts: seq<Token>, t: Token, result: seq<string>, front: seq<string>)
    requires Proper(ts) && result == Pieces(ts) && t.kind == Display
    requires var kept := DropSpaces(result); front == if kept != [] && kept[|kept| - 1] != "\n" then kept + ["\n"] else kept
    ensures Pieces(ts + [t]) == front + [t.text] + ["\n"]
  {
    LastPiece(ts);
    Grown(ts, t, front);
  }

  lemma NothingNeeded(ts: seq<Token>, t: Token, result: seq<string>)
    requires Proper(ts) && result == Pieces(ts) && t.kind == Stop
    ensures Pieces(ts + [t]) == result + [t.text] + ["\n"]
  {
    Grown(ts, t, result);
  }

  /** The end of each branch of the loop: separators and token are put on the list. */
  method Place(result: seq<string>, pending: bool, x: Lexeme, ghost gap: bool, ghost ts: seq<Token>)
    returns (out: seq<string>, pending': bool)
    requires Proper(ts) && result == Pieces(ts) && PendingFits(ts, gap, pending) && !IsSeparator(x.text)
    ensures var ts' := ts + [Token(gap, x.kind, x.text)];
            out == Pieces(ts') && PendingFits(ts', false, pending')
  {
    ghost var t := Token(gap, x.kind, x.text);
    match x.kind {
      case Display =>
        out := AppendNewline(result);
        BreakNeeded(ts, t, result, out);
        out := AppendNewline(out + [x.text]);
        return out, pending;
      case Comment =>
        out := AppendSpaceIfNeeded(result, pending);
        SpaceNeeded(ts, t, pending, result, out);
        out := AppendNewline(out + [x.text]);
        return out, false;
      case Stop =>
        NothingNeeded(ts, t, result);
        out := AppendNewline(result + [x.text]);
        return out, false;
      case _ =>
        out := AppendSpaceIfNeeded(result, pending);
        SpaceNeeded(ts, t, pending, result, out);
        return out + [x.text], false;
    }
  }

  /** The scanning part of each branch. */
  method Lex(lang: Language, s: string, i: nat) returns (x: Lexeme)
    requires lang.Valid() && i < |s|
    ensures x == LexemeAt(lang, s, i)
  {
    var ch := s[i];
    if ch == '%' {
      var e := ConsumeComment(s, i + 1);
      return Lexeme(Comment, RStrip(lang.cc, s[i..e]), e);
    }
    if PairAt(s, i, '\\', '[') {
      var e := ConsumeCommandMath(s, i, ']');
      return Lexeme(Display, TrimLines(lang.cc, s[i..e]), e);
    }
    if PairAt(s, i, '\\', '(') {
      var e := ConsumeCommandMath(s, i, ')');
      return Lexeme(Inline, s[i..e], e);
    }
    if ch == '\\' {
      var e, name := ConsumeCommand(lang.cc, s, i);
      if name in lang.block || (name in lang.standalone && AloneOnLine(lang.cc, s, i, e)) {
        return Lexeme(Display, TrimLines(lang.cc, s[i..e]), e);
      }
      return Lexeme(Inline, s[i..e], e);
    }
    if ch == '$' {
      var e := ConsumeMath(s, i);
      if PairAt(s, i, '$', '$') {
        return Lexeme(Display, TrimLines(lang.cc, s[i..e]), e);
      }
      return Lexeme(Inline, s[i..e], e);
    }
    var m := MatchProtectedWord(lang, s, i);
    if m.Match? {
      return Lexeme(Protected, m.output, m.end);
    }
    return Lexeme(if ch == ',' || ch == '.' then Stop else Plain, [ch], i + 1);
  }
}

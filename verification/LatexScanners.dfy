/** The scanners of the LaTeX reflow: each returns the end of a construct that starts at a given position. The
    loops are proved against recursive definitions; the explicit-stack group scanner against a grammar. */
module LatexScanners {
  import opened PyText
  import opened Escapes

  predicate IsOpener(c: char) {
    c == '{' || c == '['
  }

  function CloserOf(c: char): char {
    if c == '{' then '}' else ']'
  }

  // ---------------------------------------------------------------- groups

  /** End of a group body: past the first `closer` that is neither escaped nor inside a nested group; a closer of
      the other kind is an ordinary character. The end of the text when there is none. */
  function BodyEnd(s: string, i: nat, closer: char): (e: nat)
    requires i <= |s|
    ensures i <= e <= |s|
    decreases |s| - i
  {
    if i == |s| then i
    else if s[i] == '\\' then if i + 2 <= |s| then BodyEnd(s, i + 2, closer) else |s|
    else if IsOpener(s[i]) then
      var j := BodyEnd(s, i + 1, CloserOf(s[i]));
      BodyEnd(s, j, closer)
    else if s[i] == closer then i + 1
    else BodyEnd(s, i + 1, closer)
  }

  /** Closes the groups of `stack`, innermost (last) first. */
  function UnwindEnd(s: string, i: nat, stack: seq<char>): (e: nat)
    requires i <= |s|
    ensures i <= e <= |s|
    decreases |stack|
  {
    if stack == [] then i
    else UnwindEnd(s, BodyEnd(s, i, stack[|stack| - 1]), stack[..|stack| - 1])
  }

  method ConsumeGroup(s: string, start: nat) returns (e: nat)
    requires start < |s| && (s[start] == '{' || s[start] == '[')
    ensures e == BodyEnd(s, start + 1, if s[start] == '{' then '}' else ']') && start < e <= |s|
  {
    var stack, i := [CloserOf(s[start])], start + 1;
    ghost var goal := BodyEnd(s, start + 1, CloserOf(s[start]));
    assert stack[..0] == [];
    while i < |s|
      invariant start < i && stack != []
      invariant UnwindEnd(s, if i <= |s| then i else |s|, stack) == goal
    {
      var ch := s[i];
      if ch == '\\' {
        i := i + 2;
        if i > |s| {
          UnwindAtEnd(s, stack[..|stack| - 1]);
        }
      } else if IsOpener(ch) {
        assert (stack + [CloserOf(ch)])[..|stack|] == stack;
        stack := stack + [CloserOf(ch)];
        i := i + 1;
      } else if ch == stack[|stack| - 1] {
        stack := stack[..|stack| - 1];
        i := i + 1;
        if stack == [] {
          return i;
        }
      } else {
        i := i + 1;
      }
    }
    UnwindAtEnd(s, stack);
    return |s|;
  }

  lemma {:induction false} UnwindAtEnd(s: string, stack: seq<char>)
    ensures UnwindEnd(s, |s|, stack) == |s|
  {
    if stack != [] {
      UnwindAtEnd(s, stack[..|stack| - 1]);
    }
  }

  /** The grammar of group bodies: escaped characters, other characters and nested groups. */
  datatype Body = Empty | Escape(c: char, rest: Body) | Ordinary(c: char, rest: Body) | Nested(open: char, inner: Body, rest: Body)

  predicate WellFormed(b: Body, closer: char) {
    match b
    case Empty => true
    case Escape(_, rest) => WellFormed(rest, closer)
    case Ordinary(c, rest) => c != '\\' && c != '{' && c != '[' && c != closer && WellFormed(rest, closer)
    case Nested(open, inner, rest) =>
      || (open == '{' && WellFormed(inner, '}') && WellFormed(rest, closer))
      || (open == '[' && WellFormed(inner, ']') && WellFormed(rest, closer))
  }

  function Length(b: Body): nat {
    match b
    case Empty => 0
    case Escape(_, rest) => 2 + Length(rest)
    case Ordinary(_, rest) => 1 + Length(rest)
    case Nested(_, inner, rest) => 1 + Length(inner) + 1 + Length(rest)
  }

  /** The text at `i` is spelled by `b`. */
  predicate Spells(s: string, i: nat, b: Body)
    decreases b
  {
    match b
    case Empty => true
    case Escape(c, rest) => PairAt(s, i, '\\', c) && Spells(s, i + 2, rest)
    case Ordinary(c, rest) => i < |s| && s[i] == c && Spells(s, i + 1, rest)
    case Nested(open, inner, rest) =>
      var j := i + 1 + Length(inner);
      && i < |s| && s[i] == open && Spells(s, i + 1, inner)
      && j < |s| && s[j] == (if open == '{' then '}' else ']') && Spells(s, j + 1, rest)
  }

  predicate Closer(c: char) {
    c == '}' || c == ']'
  }

  /** The body starting at `i` is closed before the text ends. */
  predicate Closed(s: string, i: nat, closer: char)
    requires i <= |s|
    decreases |s| - i
  {
    if i == |s| then false
    else if s[i] == '\\' then i + 2 <= |s| && Closed(s, i + 2, closer)
    else if IsOpener(s[i]) then
      Closed(s, i + 1, CloserOf(s[i])) && Closed(s, BodyEnd(s, i + 1, CloserOf(s[i])), closer)
    else s[i] == closer || Closed(s, i + 1, closer)
  }

  /** At `i` the text reads a body of the grammar followed by its closer. */
  predicate ReadsGroup(s: string, i: nat, b: Body, closer: char) {
    var e := i + Length(b);
    WellFormed(b, closer) && Spells(s, i, b) && e < |s| && s[e] == closer
  }

  lemma ScanEscape(s: string, i: nat, closer: char)
    requires i + 2 <= |s| && s[i] == '\\'
    ensures BodyEnd(s, i, closer) == BodyEnd(s, i + 2, closer) && Closed(s, i, closer) == Closed(s, i + 2, closer)
  {
  }

  lemma ScanOrdinary(s: string, i: nat, closer: char)
    requires i < |s| && s[i] != '\\' && !IsOpener(s[i]) && s[i] != closer
    ensures BodyEnd(s, i, closer) == BodyEnd(s, i + 1, closer) && Closed(s, i, closer) == Closed(s, i + 1, closer)
  {
  }

  /** The scanner ends a body of the grammar exactly at its closer ... */
  lemma {:induction false} GrammarIsScanned(s: string, i: nat, b: Body, closer: char)
    requires Closer(closer) && ReadsGroup(s, i, b, closer)
    ensures Closed(s, i, closer) && BodyEnd(s, i, closer) == i + Length(b) + 1
    decreases b, 1
  {
    match b {
      case Empty => return;
      case Escape(c, rest) =>
        ScanEscape(s, i, closer);
        GrammarIsScanned(s, i + 2, rest, closer);
        return;
      case Ordinary(c, rest) =>
        ScanOrdinary(s, i, closer);
        GrammarIsScanned(s, i + 1, rest, closer);
        return;
      case Nested(_, _, _) =>
        NestedIsScanned(s, i, b, closer);
        return;
    }
  }

  lemma {:induction false} NestedIsScanned(s: string, i: nat, b: Body, closer: char)
    requires Closer(closer) && b.Nested? && ReadsGroup(s, i, b, closer)
    ensures Closed(s, i, closer) && BodyEnd(s, i, closer) == i + Length(b) + 1
    decreases b, 0
  {
    var j := i + 1 + Length(b.inner);
    GrammarIsScanned(s, i + 1, b.inner, CloserOf(b.open));
    GrammarIsScanned(s, j + 1, b.rest, closer);
  }

  /** ... and every closed body it accepts is one of the grammar: both recognise the same groups. */
  lemma {:induction false} ScannedIsGrammar(s: string, i: nat, closer: char) returns (b: Body)
    requires i <= |s| && Closed(s, i, closer)
    ensures ReadsGroup(s, i, b, closer) && BodyEnd(s, i, closer) == i + Length(b) + 1
    decreases |s| - i
  {
    if s[i] == '\\' {
      var rest := ScannedIsGrammar(s, i + 2, closer);
      return Escape(s[i + 1], rest);
    }
    if IsOpener(s[i]) {
      var inner := ScannedIsGrammar(s, i + 1, CloserOf(s[i]));
      var rest := ScannedIsGrammar(s, BodyEnd(s, i + 1, CloserOf(s[i])), closer);
      return Nested(s[i], inner, rest);
    }
    if s[i] == closer {
      return Empty;
    }
    var rest := ScannedIsGrammar(s, i + 1, closer);
    return Ordinary(s[i], rest);
  }

  /** A group that is never closed runs to the end of the text. */
  lemma {:induction false} UnclosedRunsToEnd(s: string, i: nat, closer: char)
    requires i <= |s| && !Closed(s, i, closer)
    ensures BodyEnd(s, i, closer) == |s|
    decreases |s| - i
  {
    if i < |s| {
      if s[i] == '\\' {
        if i + 2 <= |s| {
          UnclosedRunsToEnd(s, i + 2, closer);
        }
      } else if IsOpener(s[i]) {
        var j := BodyEnd(s, i + 1, CloserOf(s[i]));
        if !Closed(s, i + 1, CloserOf(s[i])) {
          UnclosedRunsToEnd(s, i + 1, CloserOf(s[i]));
        } else {
          UnclosedRunsToEnd(s, j, closer);
        }
      } else {
        UnclosedRunsToEnd(s, i + 1, closer);
      }
    }
  }

  // ---------------------------------------------------------------- commands, math and comments

  /** First position at or after `i` whose character is not in the class. */
  function ClassEnd(s: string, i: nat, class_: char -> bool): (e: nat)
    requires i <= |s|
    ensures i <= e <= |s|
    decreases |s| - i
  {
    if i < |s| && class_(s[i]) then ClassEnd(s, i + 1, class_) else i
  }

  method SkipClass(s: string, start: nat, class_: char -> bool) returns (i: nat)
    requires start <= |s|
    ensures i == ClassEnd(s, start, class_)
  {
    i := start;
    while i < |s| && class_(s[i])
      invariant start <= i <= |s| && ClassEnd(s, i, class_) == ClassEnd(s, start, class_)
    {
      i := i + 1;
    }
  }

  /** End of a command's name: letters and an optional star, or one other character. */
  function NameEnd(cc: CharClasses, s: string, start: nat): (e: nat)
    requires start < |s|
    ensures start < e <= |s|
  {
    var i := start + 1;
    if i == |s| then i
    else if cc.alpha(s[i]) then
      var j := ClassEnd(s, i, cc.alpha);
      if j < |s| && s[j] == '*' then j + 1 else j
    else i + 1
  }

  function CommandName(cc: CharClasses, s: string, start: nat): string
    requires start < |s|
  {
    var i := start + 1;
    if i == |s| then ""
    else if cc.alpha(s[i]) then s[i..ClassEnd(s, i, cc.alpha)]
    else [s[i]]
  }

  /** End of the arguments from `i` on; white space is passed only to reach a further argument. */
  function ArgumentsEnd(cc: CharClasses, s: string, i: nat): (e: nat)
    requires i <= |s|
    ensures i <= e <= |s|
    decreases |s| - i
  {
    var j := ClassEnd(s, i, cc.space);
    if j < |s| && IsOpener(s[j]) then ArgumentsEnd(cc, s, BodyEnd(s, j + 1, CloserOf(s[j]))) else i
  }

  function CommandEnd(cc: CharClasses, s: string, start: nat): (e: nat)
    requires start < |s|
    ensures start < e <= |s|
  {
    ArgumentsEnd(cc, s, NameEnd(cc, s, start))
  }

  method ConsumeCommand(cc: CharClasses, s: string, start: nat) returns (e: nat, name: string)
    requires start < |s|
    ensures e == CommandEnd(cc, s, start) && name == CommandName(cc, s, start)
  {
    var i := start + 1;
    name := "";
    if i < |s| && cc.alpha(s[i]) {
      var nameStart := i;
      i := SkipClass(s, i, cc.alpha);
      name := s[nameStart..i];
      if i < |s| && s[i] == '*' {
        i := i + 1;
      }
    } else if i < |s| {
      name := [s[i]];
      i := i + 1;
    }
    while i < |s|
      invariant start < i <= |s| && ArgumentsEnd(cc, s, i) == CommandEnd(cc, s, start)
    {
      var j := SkipClass(s, i, cc.space);
      if j < |s| && IsOpener(s[j]) {
        assert CloserOf(s[j]) == if s[j] == '{' then '}' else ']';
        i := ConsumeGroup(s, j);
      } else {
        break;
      }
    }
    e := i;
  }

  /** The delimiter of `n` dollar signs, 1 or 2, at `i`. */
  predicate DollarsAt(s: string, i: nat, n: nat) {
    if n == 2 then PairAt(s, i, '$', '$') else i < |s| && s[i] == '$'
  }

  ghost function Dollars(s: string, n: nat): nat -> bool {
    (p: nat) => DollarsAt(s, p, n)
  }

  function MathBodyEnd(s: string, i: nat, n: nat): (e: nat)
    requires i <= |s| && (n == 1 || n == 2)
    ensures i <= e <= |s|
    decreases |s| - i
  {
    if i == |s| then i
    else if s[i] == '\\' then if i + 2 <= |s| then MathBodyEnd(s, i + 2, n) else |s|
    else if DollarsAt(s, i, n) then i + n
    else MathBodyEnd(s, i + 1, n)
  }

  function MathEnd(s: string, start: nat): (e: nat)
    requires start < |s| && s[start] == '$'
    ensures start < e <= |s|
  {
    var n := if PairAt(s, start, '$', '$') then 2 else 1;
    MathBodyEnd(s, start + n, n)
  }

  method ConsumeMath(s: string, start: nat) returns (e: nat)
    requires start < |s| && s[start] == '$'
    ensures e == MathEnd(s, start)
    ensures var n := if PairAt(s, start, '$', '$') then 2 else 1;
            EndsAtFirst(s, start + n, start + n, e, n, Dollars(s, n))
  {
    var n := if PairAt(s, start, '$', '$') then 2 else 1;
    MathEndsAtFirst(s, start + n, start + n, n);
    var i := start + n;
    while i < |s|
      invariant start < i && MathBodyEnd(s, if i <= |s| then i else |s|, n) == MathEnd(s, start)
    {
      if s[i] == '\\' {
        i := i + 2;
      } else if DollarsAt(s, i, n) {
        return i + n;
      } else {
        i := i + 1;
      }
    }
    e := |s|;
  }

  /** Math ends past the first delimiter that is not escaped. */
  lemma {:induction false} MathEndsAtFirst(s: string, from: nat, i: nat, n: nat)
    requires from <= i <= |s| && (n == 1 || n == 2) && !Escaped(s, from, i)
    ensures EndsAtFirst(s, from, i, MathBodyEnd(s, i, n), n, Dollars(s, n))
    decreases |s| - i
  {
    if i < |s| && !DollarsAt(s, i, n) {
      StepOver(s, from, i);
      if s[i] != '\\' {
        MathEndsAtFirst(s, from, i + 1, n);
      } else if i + 2 <= |s| {
        MathEndsAtFirst(s, from, i + 2, n);
      }
      LookBack(s, from, i, MathBodyEnd(s, i, n), n, Dollars(s, n));
    }
  }

  ghost function Closings(s: string, c: char): nat -> bool {
    (p: nat) => PairAt(s, p, '\\', c)
  }

  /** End of command math whose closing command is a backslash and `c`; unlike in dollar math the closer is
      looked for before escapes are skipped. */
  function CommandMathEnd(s: string, i: nat, c: char): (e: nat)
    requires i <= |s|
    ensures i <= e <= |s|
    decreases |s| - i
  {
    if i == |s| then i
    else if PairAt(s, i, '\\', c) then i + 2
    else if s[i] == '\\' then if i + 2 <= |s| then CommandMathEnd(s, i + 2, c) else |s|
    else CommandMathEnd(s, i + 1, c)
  }

  /** Command math ends past the first closing command whose backslash is not itself escaped. */
  lemma {:induction false} CommandMathEndsAtFirst(s: string, from: nat, i: nat, c: char)
    requires from <= i <= |s| && !Escaped(s, from, i)
    ensures EndsAtFirst(s, from, i, CommandMathEnd(s, i, c), 2, Closings(s, c))
    decreases |s| - i
  {
    if i < |s| && !PairAt(s, i, '\\', c) {
      StepOver(s, from, i);
      if s[i] != '\\' {
        CommandMathEndsAtFirst(s, from, i + 1, c);
      } else if i + 2 <= |s| {
        CommandMathEndsAtFirst(s, from, i + 2, c);
      }
      LookBack(s, from, i, CommandMathEnd(s, i, c), 2, Closings(s, c));
    }
  }

  method ConsumeCommandMath(s: string, start: nat, c: char) returns (e: nat)
    requires start + 2 <= |s|
    ensures e == CommandMathEnd(s, start + 2, c)
    ensures EndsAtFirst(s, start + 2, start + 2, e, 2, Closings(s, c))
  {
    CommandMathEndsAtFirst(s, start + 2, start + 2, c);
    var i := start + 2;
    while i < |s|
      invariant start + 2 <= i && CommandMathEnd(s, if i <= |s| then i else |s|, c) == CommandMathEnd(s, start + 2, c)
    {
      if PairAt(s, i, '\\', c) {
        return i + 2;
      }
      if s[i] == '\\' {
        i := i + 2;
      } else {
        i := i + 1;
      }
    }
    e := |s|;
  }

  predicate NotLineEnd(c: char) {
    c != '\r' && c != '\n'
  }

  method ConsumeComment(s: string, start: nat) returns (e: nat)
    requires start <= |s|
    ensures e == ClassEnd(s, start, NotLineEnd)
  {
    e := SkipClass(s, start, NotLineEnd);
  }

  // ---------------------------------------------------------------- a command alone on its line

  predicate AllSpace(cc: CharClasses, s: string) {
    forall c :: c in s ==> cc.space(c)
  }

  /** Start of the line that holds position `i`: past the last line feed before it. */
  function LineStart(s: string, i: nat): (b: nat)
    requires i <= |s|
    ensures b <= i
  {
    if i == 0 then 0 else if s[i - 1] == '\n' then i else LineStart(s, i - 1)
  }

  predicate AloneOnLine(cc: CharClasses, s: string, start: nat, end: nat)
    requires start <= end <= |s|
  {
    var lf, cr := Find(s, '\n', end), Find(s, '\r', end);
    var lineEnd := if lf < cr then lf else cr;
    AllSpace(cc, s[LineStart(s, start)..start]) && AllSpace(cc, s[end..lineEnd])
  }
}

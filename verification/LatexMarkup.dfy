/** The scanners end a command or formula where the machine says it ends, so what is read of one depends only on
    its own characters and on what stands next to it. */
module LatexMarkup {
  import opened PyText
  import opened LatexScanners
  import opened LatexReflow
  import opened LatexMachines

  // ---------------------------------------------------------------- formulas

  /** A formula read from inside is closed at `e`, or not closed at all. */
  ghost predicate MathEnds(cc: CharClasses, mode: Mode, s: string, i: nat, e: nat) {
    i <= e <= |s| &&
    var q := Reads(cc, Opened(mode), s[i..e]);
    (q == Done(mode) && i < e && !cc.space(s[e - 1])) || (q.Math? && q.mode == mode && e == |s|)
  }

  lemma MathFromNext(cc: CharClasses, mode: Mode, s: string, i: nat, e: nat)
    requires i < |s| && MathStep(Opened(mode), s[i]) == Opened(mode) && MathEnds(cc, mode, s, i + 1, e)
    ensures MathEnds(cc, mode, s, i, e)
  {
    ReadsNext(cc, Opened(mode), s, i, e);
  }

  lemma MathFromEscape(cc: CharClasses, mode: Mode, s: string, i: nat, e: nat)
    requires i + 2 <= |s| && s[i] == '\\' && MathEnds(cc, mode, s, i + 2, e)
    requires MathStep(MathStep(Opened(mode), '\\'), s[i + 1]) == Opened(mode)
    ensures MathEnds(cc, mode, s, i, e)
  {
    ReadsTwo(cc, Opened(mode), s, i, e);
  }

  lemma MathLastBackslash(cc: CharClasses, mode: Mode, s: string, i: nat)
    requires i + 1 == |s| && s[i] == '\\'
    ensures MathEnds(cc, mode, s, i, |s|)
  {
    ReadsNext(cc, Opened(mode), s, i, |s|);
    ReadsNothing(cc, Math(mode, true, false), s, |s|);
  }

  lemma MathAtEnd(cc: CharClasses, mode: Mode, s: string)
    ensures MathEnds(cc, mode, s, |s|, |s|)
  {
    ReadsNothing(cc, Opened(mode), s, |s|);
  }

  function DollarMode(n: nat): Mode {
    if n == 2 then Double else Single
  }

  lemma MathCloses(cc: CharClasses, s: string, i: nat, n: nat)
    requires cc.Valid() && (n == 1 || n == 2) && DollarsAt(s, i, n)
    ensures MathEnds(cc, DollarMode(n), s, i, i + n)
  {
    var q := Opened(DollarMode(n));
    if n == 2 {
      ReadsTwo(cc, q, s, i, i + 2);
    } else {
      ReadsNext(cc, q, s, i, i + 1);
    }
    ReadsNothing(cc, Done(DollarMode(n)), s, i + n);
  }

  /** A single dollar inside double-dollar math. */
  lemma MathFromDollar(cc: CharClasses, s: string, i: nat, e: nat)
    requires i < |s| && s[i] == '$' && !PairAt(s, i, '$', '$') && MathEnds(cc, Double, s, i + 1, e)
    ensures MathEnds(cc, Double, s, i, e)
  {
    ReadsNext(cc, Opened(Double), s, i, e);
    if e > i + 1 {
      ReadsNext(cc, Math(Double, false, true), s, i + 1, e);
      ReadsNext(cc, Opened(Double), s, i + 1, e);
    } else {
      ReadsNothing(cc, Math(Double, false, true), s, e);
    }
  }

  lemma {:induction false} MathBodyReads(cc: CharClasses, s: string, i: nat, n: nat)
    requires cc.Valid() && i <= |s| && (n == 1 || n == 2)
    ensures MathEnds(cc, DollarMode(n), s, i, MathBodyEnd(s, i, n))
    decreases |s| - i
  {
    var mode := DollarMode(n);
    if i == |s| {
      MathAtEnd(cc, mode, s);
    } else if s[i] == '\\' {
      if i + 2 <= |s| {
        MathBodyReads(cc, s, i + 2, n);
        MathFromEscape(cc, mode, s, i, MathBodyEnd(s, i + 2, n));
      } else {
        MathLastBackslash(cc, mode, s, i);
      }
    } else if DollarsAt(s, i, n) {
      MathCloses(cc, s, i, n);
    } else {
      MathBodyReads(cc, s, i + 1, n);
      if s[i] == '$' {
        MathFromDollar(cc, s, i, MathBodyEnd(s, i + 1, n));
      } else {
        MathFromNext(cc, mode, s, i, MathBodyEnd(s, i + 1, n));
      }
    }
  }

  lemma CommandMathCloses(cc: CharClasses, mode: Mode, s: string, i: nat, c: char)
    requires cc.Valid() && PairAt(s, i, '\\', c) && ((mode == Bracket && c == ']') || (mode == Paren && c == ')'))
    ensures MathEnds(cc, mode, s, i, i + 2)
  {
    ReadsTwo(cc, Opened(mode), s, i, i + 2);
    ReadsNothing(cc, Done(mode), s, i + 2);
  }

  lemma {:induction false} CommandMathReads(cc: CharClasses, mode: Mode, s: string, i: nat, c: char)
    requires cc.Valid() && i <= |s| && ((mode == Bracket && c == ']') || (mode == Paren && c == ')'))
    ensures MathEnds(cc, mode, s, i, CommandMathEnd(s, i, c))
    decreases |s| - i
  {
    if i == |s| {
      MathAtEnd(cc, mode, s);
    } else if PairAt(s, i, '\\', c) {
      CommandMathCloses(cc, mode, s, i, c);
    } else if s[i] == '\\' {
      if i + 2 <= |s| {
        CommandMathReads(cc, mode, s, i + 2, c);
        MathFromEscape(cc, mode, s, i, CommandMathEnd(s, i + 2, c));
      } else {
        MathLastBackslash(cc, mode, s, i);
      }
    } else {
      CommandMathReads(cc, mode, s, i + 1, c);
      MathFromNext(cc, mode, s, i, CommandMathEnd(s, i + 1, c));
    }
  }

  // ---------------------------------------------------------------- groups and commands

  /** The innermost open group is closed at `e`, or some group never is. */
  ghost predicate GroupEnds(cc: CharClasses, name: string, stack: seq<char>, s: string, i: nat, e: nat) {
    i <= e <= |s| &&
    var q := Reads(cc, Group(name, stack, false), s[i..e]);
    (q == Popped(name, stack) && i < e && !cc.space(s[e - 1])) || (q.Group? && q.name == name && e == |s|)
  }

  lemma GroupFromNext(cc: CharClasses, name: string, stack: seq<char>, s: string, i: nat, e: nat)
    requires i < |s| && GroupStep(cc, Group(name, stack, false), s[i]) == Group(name, stack, false)
    requires GroupEnds(cc, name, stack, s, i + 1, e)
    ensures GroupEnds(cc, name, stack, s, i, e)
  {
    ReadsNext(cc, Group(name, stack, false), s, i, e);
  }

  lemma GroupEscape(cc: CharClasses, name: string, stack: seq<char>, s: string, i: nat, e: nat)
    requires cc.Valid() && i + 2 <= |s| && s[i] == '\\' && GroupEnds(cc, name, stack, s, i + 2, e)
    ensures GroupEnds(cc, name, stack, s, i, e)
  {
    ReadsTwo(cc, Group(name, stack, false), s, i, e);
  }

  lemma GroupLastBackslash(cc: CharClasses, name: string, stack: seq<char>, s: string, i: nat)
    requires cc.Valid() && i + 1 == |s| && s[i] == '\\'
    ensures GroupEnds(cc, name, stack, s, i, |s|)
  {
    ReadsNext(cc, Group(name, stack, false), s, i, |s|);
    ReadsNothing(cc, Group(name, stack, true), s, |s|);
  }

  lemma GroupCloses(cc: CharClasses, name: string, stack: seq<char>, s: string, i: nat)
    requires cc.Valid() && stack != [] && Closer(stack[|stack| - 1]) && i < |s| && s[i] == stack[|stack| - 1]
    ensures GroupEnds(cc, name, stack, s, i, i + 1)
  {
    ReadsNext(cc, Group(name, stack, false), s, i, i + 1);
    ReadsNothing(cc, Popped(name, stack), s, i + 1);
  }

  /** A nested group up to `j`, and what follows it. */
  lemma GroupNests(cc: CharClasses, name: string, stack: seq<char>, s: string, i: nat, j: nat, e: nat)
    requires cc.Valid() && stack != [] && i < j <= e <= |s| && IsOpener(s[i])
    requires GroupEnds(cc, name, stack + [CloserOf(s[i])], s, i + 1, j) && GroupEnds(cc, name, stack, s, j, e)
    ensures GroupEnds(cc, name, stack, s, i, e)
  {
    var inner := stack + [CloserOf(s[i])];
    var q := Group(name, stack, false);
    assert inner[..|inner| - 1] == stack;
    ReadsNext(cc, q, s, i, j);
    RunSlice(Step(cc), q, s, i, j, e);
    if Reads(cc, q, s[i..j]) != q {
      ReadsNothing(cc, Reads(cc, q, s[i..j]), s, j);
    }
  }

  lemma {:induction false} GroupReads(cc: CharClasses, name: string, stack: seq<char>, s: string, i: nat)
    requires cc.Valid() && i <= |s| && stack != [] && Closer(stack[|stack| - 1])
    ensures GroupEnds(cc, name, stack, s, i, BodyEnd(s, i, stack[|stack| - 1]))
    decreases |s| - i, 1
  {
    var closer := stack[|stack| - 1];
    if i == |s| {
      ReadsNothing(cc, Group(name, stack, false), s, |s|);
      return;
    }
    if s[i] == '\\' {
      if i + 2 > |s| {
        GroupLastBackslash(cc, name, stack, s, i);
        return;
      }
      GroupReads(cc, name, stack, s, i + 2);
      GroupEscape(cc, name, stack, s, i, BodyEnd(s, i + 2, closer));
      return;
    }
    if IsOpener(s[i]) {
      NestedReads(cc, name, stack, s, i);
      return;
    }
    if s[i] == closer {
      GroupCloses(cc, name, stack, s, i);
      return;
    }
    GroupReads(cc, name, stack, s, i + 1);
    GroupFromNext(cc, name, stack, s, i, BodyEnd(s, i + 1, closer));
  }

  lemma {:induction false} NestedReads(cc: CharClasses, name: string, stack: seq<char>, s: string, i: nat)
    requires cc.Valid() && i < |s| && IsOpener(s[i]) && stack != [] && Closer(stack[|stack| - 1])
    ensures GroupEnds(cc, name, stack, s, i, BodyEnd(s, i, stack[|stack| - 1]))
    decreases |s| - i, 0
  {
    var j := BodyEnd(s, i + 1, CloserOf(s[i]));
    GroupReads(cc, name, stack + [CloserOf(s[i])], s, i + 1);
    GroupReads(cc, name, stack, s, j);
    GroupNests(cc, name, stack, s, i, j, BodyEnd(s, j, stack[|stack| - 1]));
  }

  ghost predicate ArgumentsEndAt(cc: CharClasses, name: string, s: string, i: nat, e: nat) {
    i <= e <= |s| &&
    var q := Reads(cc, Ready(name), s[i..e]);
    || (q == Ready(name) && NoArgument(cc, s, e) && (e == i || !cc.space(s[e - 1])))
    || (q.Group? && q.name == name && e == |s|)
  }

  /** One argument up to `b`, with the white space before it. */
  lemma OneArgument(cc: CharClasses, name: string, s: string, i: nat, j: nat, b: nat)
    requires cc.Valid() && i <= j < b <= |s| && IsOpener(s[j]) && (forall p :: i <= p < j ==> cc.space(s[p]))
    requires GroupEnds(cc, name, [CloserOf(s[j])], s, j + 1, b)
    ensures var q := Reads(cc, Ready(name), s[i..b]);
            (q == Ready(name) && !cc.space(s[b - 1])) || (q.Group? && q.name == name && b == |s|)
  {
    ReadyOverSpaces(cc, name, s[i..j]);
    RunSlice(Step(cc), Ready(name), s, i, j, b);
    ReadsNext(cc, Ready(name), s, j, b);
  }

  lemma FurtherArguments(cc: CharClasses, name: string, s: string, i: nat, b: nat, e: nat)
    requires i < b <= |s| && ArgumentsEndAt(cc, name, s, b, e)
    requires var q := Reads(cc, Ready(name), s[i..b]);
             (q == Ready(name) && !cc.space(s[b - 1])) || (q.Group? && q.name == name && b == |s|)
    ensures ArgumentsEndAt(cc, name, s, i, e)
  {
    RunSlice(Step(cc), Ready(name), s, i, b, e);
    if b == |s| {
      ReadsNothing(cc, Reads(cc, Ready(name), s[i..b]), s, b);
    }
  }

  lemma NoArgumentHere(cc: CharClasses, name: string, s: string, i: nat)
    requires i <= |s| && NoArgument(cc, s, i)
    ensures ArgumentsEndAt(cc, name, s, i, i) && ArgumentsEnd(cc, s, i) == i
  {
    ReadsNothing(cc, Ready(name), s, i);
  }

  lemma NextArgument(cc: CharClasses, s: string, i: nat) returns (j: nat, b: nat)
    requires i <= |s| && !NoArgument(cc, s, i)
    ensures i <= j < b <= |s| && IsOpener(s[j]) && b == BodyEnd(s, j + 1, CloserOf(s[j]))
    ensures ArgumentsEnd(cc, s, i) == ArgumentsEnd(cc, s, b) && forall p :: i <= p < j ==> cc.space(s[p])
  {
    SpacesUpTo(cc, s, i);
    j := ClassEnd(s, i, cc.space);
    b := BodyEnd(s, j + 1, CloserOf(s[j]));
  }

  lemma {:induction false} ArgumentsRead(cc: CharClasses, name: string, s: string, i: nat)
    requires cc.Valid() && i <= |s|
    ensures ArgumentsEndAt(cc, name, s, i, ArgumentsEnd(cc, s, i))
    decreases |s| - i
  {
    if NoArgument(cc, s, i) {
      NoArgumentHere(cc, name, s, i);
      return;
    }
    var j, b := NextArgument(cc, s, i);
    GroupReads(cc, name, [CloserOf(s[j])], s, j + 1);
    OneArgument(cc, name, s, i, j, b);
    ArgumentsRead(cc, name, s, b);
    FurtherArguments(cc, name, s, i, b, ArgumentsEnd(cc, s, b));
  }

  lemma {:induction false} NameReads(cc: CharClasses, name: string, s: string, i: nat)
    requires i <= |s|
    ensures var j := ClassEnd(s, i, cc.alpha);
            Reads(cc, Name(name), s[i..j]) == Name(name + s[i..j]) && (j < |s| ==> !cc.alpha(s[j]))
    decreases |s| - i
  {
    var j := ClassEnd(s, i, cc.alpha);
    if i < |s| && cc.alpha(s[i]) {
      NameReads(cc, name + [s[i]], s, i + 1);
      ReadsNext(cc, Name(name), s, i, j);
      assert name + [s[i]] + s[i + 1..j] == name + s[i..j];
    } else {
      ReadsNothing(cc, Name(name), s, i);
      assert name + s[i..i] == name;
    }
  }

  /** State `q` was reached at `e` by a command of that name. */
  ghost predicate CommandEndsAt(cc: CharClasses, name: string, s: string, i: nat, e: nat) {
    i < e <= |s| && Ends(cc, s, i, e) &&
    match Reads(cc, Start, s[i..e])
    case Name(n) => n == name
    case Ready(n) => n == name
    case Group(n, _, _) => n == name
    case Backslash => name == ""
    case _ => false
  }

  lemma ReadyThenArguments(cc: CharClasses, name: string, s: string, i: nat, j: nat, e: nat)
    requires i < j <= |s| && Reads(cc, Start, s[i..j]) == Ready(name) && (!cc.space(s[j - 1]) || j == i + 2)
    requires ArgumentsEndAt(cc, name, s, j, e)
    ensures CommandEndsAt(cc, name, s, i, e)
  {
    RunSlice(Step(cc), Start, s, i, j, e);
  }

  lemma NameThenArguments(cc: CharClasses, name: string, s: string, i: nat, j: nat, e: nat)
    requires Sane(cc) && i < j <= |s| && Reads(cc, Start, s[i..j]) == Name(name)
    requires ArgumentsEndAt(cc, name, s, j, e) && (j < |s| ==> !cc.alpha(s[j]) && s[j] != '*')
    ensures CommandEndsAt(cc, name, s, i, e)
  {
    RunSlice(Step(cc), Start, s, i, j, e);
    if j < e {
      ReadsNext(cc, Name(name), s, j, e);
      ReadsNext(cc, Ready(name), s, j, e);
    } else {
      ReadsNothing(cc, Name(name), s, j);
      ReadsNothing(cc, Ready(name), s, j);
    }
  }

  lemma FirstLetter(cc: CharClasses, c: char)
    requires Sane(cc) && cc.alpha(c)
    ensures NextState(cc, NextState(cc, Start, '\\'), c) == Name([c])
  {
    assert !cc.alnum('[') && !cc.alnum('(');
  }

  lemma LettersRead(cc: CharClasses, s: string, i: nat)
    requires Sane(cc) && i + 1 < |s| && s[i] == '\\' && cc.alpha(s[i + 1])
    ensures var j := ClassEnd(s, i + 1, cc.alpha);
            Reads(cc, Start, s[i..j]) == Name(s[i + 1..j]) && (j < |s| ==> !cc.alpha(s[j])) && i + 1 < j
  {
    var j := ClassEnd(s, i + 1, cc.alpha);
    FirstLetter(cc, s[i + 1]);
    NameReads(cc, [s[i + 1]], s, i + 2);
    ReadsTwo(cc, Start, s, i, j);
    assert [s[i + 1]] + s[i + 2..j] == s[i + 1..j];
  }

  lemma StarredReads(cc: CharClasses, name: string, s: string, i: nat, j: nat)
    requires Sane(cc) && i < j < |s| && Reads(cc, Start, s[i..j]) == Name(name) && s[j] == '*'
    ensures Reads(cc, Start, s[i..j + 1]) == Ready(name)
  {
    RunSlice(Step(cc), Start, s, i, j, j + 1);
    ReadsNext(cc, Name(name), s, j, j + 1);
    ReadsNothing(cc, Ready(name), s, j + 1);
  }

  lemma StarredCommandReads(cc: CharClasses, name: string, s: string, i: nat, j: nat, e: nat)
    requires Sane(cc) && i < j < |s| && Reads(cc, Start, s[i..j]) == Name(name) && s[j] == '*'
    requires ArgumentsEndAt(cc, name, s, j + 1, e)
    ensures CommandEndsAt(cc, name, s, i, e)
  {
    StarredReads(cc, name, s, i, j);
    ReadyThenArguments(cc, name, s, i, j + 1, e);
  }

  lemma PlainCommandReads(cc: CharClasses, name: string, s: string, i: nat, j: nat)
    requires Sane(cc) && i < j <= |s| && Reads(cc, Start, s[i..j]) == Name(name)
    requires j < |s| ==> !cc.alpha(s[j]) && s[j] != '*'
    ensures CommandEndsAt(cc, name, s, i, ArgumentsEnd(cc, s, j))
  {
    ArgumentsRead(cc, name, s, j);
    NameThenArguments(cc, name, s, i, j, ArgumentsEnd(cc, s, j));
  }

  lemma EndOfNamed(cc: CharClasses, s: string, i: nat, j: nat)
    requires i + 1 < |s| && cc.alpha(s[i + 1]) && j == ClassEnd(s, i + 1, cc.alpha)
    ensures CommandName(cc, s, i) == s[i + 1..j]
    ensures CommandEnd(cc, s, i) == ArgumentsEnd(cc, s, if j < |s| && s[j] == '*' then j + 1 else j)
  {
  }

  lemma NamedCommandReads(cc: CharClasses, s: string, i: nat)
    requires Sane(cc) && i + 1 < |s| && s[i] == '\\' && cc.alpha(s[i + 1])
    ensures CommandEndsAt(cc, CommandName(cc, s, i), s, i, CommandEnd(cc, s, i))
  {
    var j := ClassEnd(s, i + 1, cc.alpha);
    LettersRead(cc, s, i);
    EndOfNamed(cc, s, i, j);
    if j < |s| && s[j] == '*' {
      ArgumentsRead(cc, s[i + 1..j], s, j + 1);
      StarredCommandReads(cc, s[i + 1..j], s, i, j, ArgumentsEnd(cc, s, j + 1));
    } else {
      PlainCommandReads(cc, s[i + 1..j], s, i, j);
    }
  }

  /** A command of one character has no name of letters. */
  lemma OtherCommandReads(cc: CharClasses, s: string, i: nat)
    requires Sane(cc) && i < |s| && s[i] == '\\'
    requires i + 1 < |s| ==> !cc.alpha(s[i + 1]) && s[i + 1] != '[' && s[i + 1] != '('
    ensures CommandEndsAt(cc, "", s, i, CommandEnd(cc, s, i))
  {
    if i + 1 == |s| {
      OneCharacter(cc, s, i);
      assert CommandEnd(cc, s, i) == |s|;
    } else {
      ReadsTwo(cc, Start, s, i, i + 2);
      ReadsNothing(cc, Ready(""), s, i + 2);
      ArgumentsRead(cc, "", s, i + 2);
      ReadyThenArguments(cc, "", s, i, i + 2, ArgumentsEnd(cc, s, i + 2));
    }
  }

  // ---------------------------------------------------------------- what is read of a command or formula

  /** The lists name commands by their letters. */
  ghost predicate Named(lang: Language) {
    forall n :: n in lang.block + lang.standalone ==> n != "" && lang.cc.alpha(n[0])
  }

  /** A command or formula in this state stands on lines of its own. */
  predicate OwnLines(lang: Language, q: State, alone: bool) {
    match q
    case Math(mode, _, _) => mode == Double || mode == Bracket
    case Done(mode) => mode == Double || mode == Bracket
    case Name(n) => n in lang.block || (n in lang.standalone && alone)
    case Ready(n) => n in lang.block || (n in lang.standalone && alone)
    case Group(n, _, _) => n in lang.block || (n in lang.standalone && alone)
    case _ => false
  }

  function MarkupRead(lang: Language, t: string, e: nat, alone: bool): Lexeme {
    if OwnLines(lang, Reads(lang.cc, Start, t), alone) then Lexeme(Display, TrimLines(lang.cc, t), e)
    else Lexeme(Inline, t, e)
  }

  ghost predicate ReadAs(lang: Language, s: string, i: nat, x: Lexeme) {
    && i < x.end <= |s| && Ends(lang.cc, s, i, x.end)
    && x == MarkupRead(lang, s[i..x.end], x.end, AloneOnLine(lang.cc, s, i, x.end))
  }

  lemma FormulaFrom(cc: CharClasses, mode: Mode, s: string, i: nat, j: nat, e: nat)
    requires i < j <= |s| && Reads(cc, Start, s[i..j]) == Opened(mode) && MathEnds(cc, mode, s, j, e)
    ensures Ends(cc, s, i, e)
    ensures var q := Reads(cc, Start, s[i..e]); (q.Math? || q.Done?) && q.mode == mode
  {
    RunSlice(Step(cc), Start, s, i, j, e);
  }

  lemma DoubleDollarRead(lang: Language, s: string, i: nat)
    requires lang.Valid() && PairAt(s, i, '$', '$')
    ensures ReadAs(lang, s, i, LexemeAt(lang, s, i))
  {
    ReadsTwo(lang.cc, Start, s, i, i + 2);
    ReadsNothing(lang.cc, Opened(Double), s, i + 2);
    MathBodyReads(lang.cc, s, i + 2, 2);
    FormulaFrom(lang.cc, Double, s, i, i + 2, MathEnd(s, i));
  }

  lemma SingleDollarRead(lang: Language, s: string, i: nat)
    requires lang.Valid() && i < |s| && s[i] == '$' && !PairAt(s, i, '$', '$')
    ensures ReadAs(lang, s, i, LexemeAt(lang, s, i))
  {
    var e := MathEnd(s, i);
    MathBodyReads(lang.cc, s, i + 1, 1);
    ReadsNext(lang.cc, Start, s, i, e);
    if e > i + 1 {
      ReadsNext(lang.cc, Dollar, s, i + 1, e);
      ReadsNext(lang.cc, Opened(Single), s, i + 1, e);
    } else {
      ReadsNothing(lang.cc, Dollar, s, e);
      ReadsNothing(lang.cc, Opened(Single), s, e);
    }
  }

  lemma CommandMathRead(lang: Language, s: string, i: nat, mode: Mode, c: char)
    requires lang.Valid() && ((mode == Bracket && c == ']') || (mode == Paren && c == ')'))
    requires PairAt(s, i, '\\', if mode == Bracket then '[' else '(')
    ensures ReadAs(lang, s, i, LexemeAt(lang, s, i))
  {
    ReadsTwo(lang.cc, Start, s, i, i + 2);
    ReadsNothing(lang.cc, Opened(mode), s, i + 2);
    CommandMathReads(lang.cc, mode, s, i + 2, c);
    FormulaFrom(lang.cc, mode, s, i, i + 2, CommandMathEnd(s, i + 2, c));
  }

  /** Names that are in the same lists. */
  predicate ListedAlike(lang: Language, m: string, n: string) {
    (m in lang.block <==> n in lang.block) && (m in lang.standalone <==> n in lang.standalone)
  }

  lemma CommandReadAs(lang: Language, s: string, i: nat, name: string)
    requires lang.Valid() && i < |s| && s[i] == '\\' && !PairAt(s, i, '\\', '[') && !PairAt(s, i, '\\', '(')
    requires CommandEndsAt(lang.cc, name, s, i, CommandEnd(lang.cc, s, i)) && ListedAlike(lang, name, CommandName(lang.cc, s, i))
    requires "" !in lang.block + lang.standalone
    ensures ReadAs(lang, s, i, LexemeAt(lang, s, i))
  {
  }

  lemma Unlisted(lang: Language, s: string, i: nat)
    requires Named(lang) && i < |s| && (i + 1 < |s| ==> !lang.cc.alpha(s[i + 1]))
    ensures ListedAlike(lang, "", CommandName(lang.cc, s, i)) && "" !in lang.block + lang.standalone
  {
    var n := CommandName(lang.cc, s, i);
    assert "" !in lang.block + lang.standalone && n !in lang.block + lang.standalone;
  }

  lemma CommandRead(lang: Language, s: string, i: nat)
    requires lang.Valid() && Sane(lang.cc) && Named(lang) && i < |s| && s[i] == '\\'
    requires !PairAt(s, i, '\\', '[') && !PairAt(s, i, '\\', '(')
    ensures ReadAs(lang, s, i, LexemeAt(lang, s, i))
  {
    if i + 1 < |s| && lang.cc.alpha(s[i + 1]) {
      NamedCommandReads(lang.cc, s, i);
      assert "" !in lang.block + lang.standalone;
      CommandReadAs(lang, s, i, CommandName(lang.cc, s, i));
    } else {
      OtherCommandReads(lang.cc, s, i);
      Unlisted(lang, s, i);
      CommandReadAs(lang, s, i, "");
    }
  }

  /** The scanners agree with the machine on every command and formula. */
  lemma MarkupIsRead(lang: Language, s: string, i: nat)
    requires lang.Valid() && Sane(lang.cc) && Named(lang) && i < |s| && (s[i] == '\\' || s[i] == '$')
    ensures ReadAs(lang, s, i, LexemeAt(lang, s, i))
  {
    if s[i] == '$' {
      if PairAt(s, i, '$', '$') {
        DoubleDollarRead(lang, s, i);
      } else {
        SingleDollarRead(lang, s, i);
      }
    } else if PairAt(s, i, '\\', '[') {
      CommandMathRead(lang, s, i, Bracket, ']');
    } else if PairAt(s, i, '\\', '(') {
      CommandMathRead(lang, s, i, Paren, ')');
    } else {
      CommandRead(lang, s, i);
    }
  }

  /** Where the machine says a command or formula ends, the scanners end it. */
  lemma MarkupEndsAt(lang: Language, s: string, i: nat, e: nat)
    requires lang.Valid() && Sane(lang.cc) && Named(lang) && i < |s| && (s[i] == '\\' || s[i] == '$')
    requires Ends(lang.cc, s, i, e)
    ensures LexemeAt(lang, s, i) == MarkupRead(lang, s[i..e], e, AloneOnLine(lang.cc, s, i, e))
  {
    MarkupIsRead(lang, s, i);
    EndsOnce(lang.cc, s, i, e, LexemeAt(lang, s, i).end);
  }
}

/** The scanners of math and of command arguments as machines that read a text character by character. A machine
    that takes all white space alike does not notice that lines were trimmed. */
module LatexMachines {
  import opened PyText
  import opened LatexScanners
  import opened LatexLines

  function Run<S>(step: (S, char) -> S, from: S, t: string): S {
    if t == [] then from else step(Run(step, from, t[..|t| - 1]), t[|t| - 1])
  }

  lemma {:induction false} RunConcat<S>(step: (S, char) -> S, from: S, a: string, b: string)
    ensures Run(step, from, a + b) == Run(step, Run(step, from, a), b)
    decreases |b|
  {
    if b == [] {
      assert a + b == a;
    } else {
      assert (a + b)[..|a + b| - 1] == a + b[..|b| - 1];
      RunConcat(step, from, a, b[..|b| - 1]);
    }
  }

  lemma RunOne<S>(step: (S, char) -> S, from: S, c: char)
    ensures Run(step, from, [c]) == step(from, c)
  {
    assert [c][..0] == [];
  }

  lemma RunSlice<S>(step: (S, char) -> S, from: S, s: string, i: nat, j: nat, e: nat)
    requires i <= j <= e <= |s|
    ensures Run(step, from, s[i..e]) == Run(step, Run(step, from, s[i..j]), s[j..e])
  {
    RunConcat(step, from, s[i..j], s[j..e]);
    assert s[i..e] == s[i..j] + s[j..e];
  }

  /** White space of any kind and length has the same effect. */
  ghost predicate Settles<S(!new)>(step: (S, char) -> S, cc: CharClasses) {
    && (forall q: S, c: char, d: char :: cc.space(c) && cc.space(d) ==> step(q, c) == step(q, d))
    && (forall q: S, c: char, d: char :: cc.space(c) && cc.space(d) ==> step(step(q, c), d) == step(q, c))
  }

  lemma {:induction false} RunSpaces<S(!new)>(step: (S, char) -> S, cc: CharClasses, from: S, w: string)
    requires Settles(step, cc) && cc.Valid() && w != [] && forall c :: c in w ==> cc.space(c)
    ensures Run(step, from, w) == step(from, '\n')
  {
    var c := w[|w| - 1];
    assert c in w;
    if |w| > 1 {
      RunSpaces(step, cc, from, w[..|w| - 1]);
    } else {
      assert w[..0] == [];
    }
  }

  lemma RunTail<S(!new)>(step: (S, char) -> S, cc: CharClasses, from: S, r: string, w: string)
    requires Settles(step, cc) && cc.Valid() && w != [] && forall c :: c in w ==> cc.space(c)
    ensures Run(step, from, r + w) == Run(step, from, r + "\n")
  {
    RunConcat(step, from, r, w);
    RunConcat(step, from, r, "\n");
    RunSpaces(step, cc, Run(step, from, r), w);
    RunOne(step, Run(step, from, r), '\n');
  }

  /** A line's end: the white space before it and the break itself. */
  lemma LineEnd(cc: CharClasses, line: string, br: string, rest: string) returns (w: string)
    requires cc.Valid() && IsBreak(cc, br, rest)
    ensures line + br == RStrip(cc, line) + w && w != [] && forall c :: c in w ==> cc.space(c)
  {
    var r := RStrip(cc, line);
    RStripTail(cc, line);
    w := line[|r|..] + br;
  }

  lemma RunOverLineEnd<S(!new)>(step: (S, char) -> S, cc: CharClasses, from: S, line: string, br: string, rest: string)
    requires Settles(step, cc) && cc.Valid() && IsBreak(cc, br, rest)
    ensures Run(step, from, line + br) == Run(step, from, RStrip(cc, line) + "\n")
  {
    var w := LineEnd(cc, line, br, rest);
    RunTail(step, cc, from, RStrip(cc, line), w);
  }

  /** Such a machine reads the straight text as it reads the text. */
  lemma {:induction false} RunStraight<S(!new)>(step: (S, char) -> S, cc: CharClasses, from: S, t: string)
    requires Settles(step, cc) && cc.Valid()
    ensures Run(step, from, Straight(cc, t)) == Run(step, from, t)
    decreases |t|
  {
    if !IsLine(cc, t) {
      var line, br, rest := FirstLine(cc, t);
      StraightParts(cc, t, line, br, rest);
      RunOverLineEnd(step, cc, from, line, br, rest);
      RunConcat(step, from, line + br, rest);
      RunConcat(step, from, RStrip(cc, line) + "\n", Straight(cc, rest));
      RunStraight(step, cc, Run(step, from, line + br), rest);
    }
  }

  // ---------------------------------------------------------------- commands and math as one machine

  /** Math between single dollars, double dollars, \[ \] and \( \). */
  datatype Mode = Single | Double | Bracket | Paren

  /** How far a command or math formula has been read. `Ready`: no argument is open, a further one may come. */
  datatype State = Start
                 | Dollar
                 | Math(mode: Mode, escaped: bool, dollar: bool)
                 | Done(mode: Mode)
                 | Backslash
                 | Name(name: string)
                 | Ready(name: string)
                 | Group(name: string, stack: seq<char>, escaped: bool)
                 | Over

  function Opened(mode: Mode): State {
    Math(mode, false, false)
  }

  function MathStep(q: State, ch: char): State
    requires q.Math?
  {
    if q.mode == Bracket || q.mode == Paren then
      if !q.escaped then Math(q.mode, ch == '\\', false)
      else if ch == (if q.mode == Bracket then ']' else ')') then Done(q.mode) else Opened(q.mode)
    else if q.escaped then Opened(q.mode)
    else if ch == '\\' then Math(q.mode, true, false)
    else if ch == '$' then if q.mode == Single || q.dollar then Done(q.mode) else Math(q.mode, false, true)
    else Opened(q.mode)
  }

  function GroupStep(cc: CharClasses, q: State, ch: char): State
    requires q.Group?
  {
    if q.escaped || cc.space(ch) then Group(q.name, q.stack, false)
    else if ch == '\\' then Group(q.name, q.stack, true)
    else if IsOpener(ch) then Group(q.name, q.stack + [CloserOf(ch)], false)
    else if q.stack != [] && ch == q.stack[|q.stack| - 1] then Popped(q.name, q.stack)
    else q
  }

  function Popped(name: string, stack: seq<char>): State {
    if |stack| <= 1 then Ready(name) else Group(name, stack[..|stack| - 1], false)
  }

  function NextState(cc: CharClasses, q: State, ch: char): State {
    match q
    case Start => if ch == '$' then Dollar else if ch == '\\' then Backslash else Over
    case Dollar => if ch == '$' then Opened(Double) else MathStep(Opened(Single), ch)
    case Math(_, _, _) => MathStep(q, ch)
    case Done(_) => if cc.space(ch) then q else Over
    case Backslash =>
      if ch == '[' then Opened(Bracket) else if ch == '(' then Opened(Paren)
      else if cc.alpha(ch) then Name([ch]) else Ready("")
    case Name(n) =>
      if cc.alpha(ch) then Name(n + [ch])
      else if ch == '*' || cc.space(ch) then Ready(n)
      else if IsOpener(ch) then Group(n, [CloserOf(ch)], false)
      else Over
    case Ready(n) => if cc.space(ch) then q else if IsOpener(ch) then Group(n, [CloserOf(ch)], false) else Over
    case Group(_, _, _) => GroupStep(cc, q, ch)
    case Over => Over
  }

  function Step(cc: CharClasses): (State, char) -> State {
    (q: State, ch: char) => NextState(cc, q, ch)
  }

  function Reads(cc: CharClasses, from: State, t: string): State {
    Run(Step(cc), from, t)
  }

  /** Letters and digits are neither white space nor one of the characters the scanners look for. */
  ghost predicate Sane(cc: CharClasses) {
    && cc.Valid()
    && (forall c :: cc.alpha(c) ==> cc.alnum(c))
    && (forall c :: cc.alnum(c) ==> !cc.space(c))
    && (forall c :: c in "\\$%{}[]()*,." ==> !cc.alnum(c))
  }

  lemma AlikeOnSpaces(cc: CharClasses, q: State, c: char, d: char)
    requires Sane(cc) && cc.space(c) && cc.space(d)
    ensures NextState(cc, q, c) == NextState(cc, q, d)
  {
    assert forall x :: x in "\\$[](){}*" ==> !cc.space(x);
  }

  lemma SettledBySpace(cc: CharClasses, q: State, c: char)
    requires Sane(cc) && cc.space(c)
    ensures NextState(cc, NextState(cc, q, c), c) == NextState(cc, q, c)
  {
    assert forall x :: x in "\\$[](){}*" ==> !cc.space(x);
  }

  lemma StepSettles(cc: CharClasses)
    requires Sane(cc)
    ensures Settles(Step(cc), cc)
  {
    forall q: State, c: char, d: char | cc.space(c) && cc.space(d)
      ensures Step(cc)(q, c) == Step(cc)(q, d) && Step(cc)(Step(cc)(q, c), d) == Step(cc)(q, c)
    {
      AlikeOnSpaces(cc, q, c, d);
      SettledBySpace(cc, q, c);
      AlikeOnSpaces(cc, NextState(cc, q, c), c, d);
    }
  }

  lemma ReadsNext(cc: CharClasses, q: State, s: string, i: nat, e: nat)
    requires i < e <= |s|
    ensures Reads(cc, q, s[i..e]) == Reads(cc, NextState(cc, q, s[i]), s[i + 1..e])
  {
    RunSlice(Step(cc), q, s, i, i + 1, e);
    assert s[i..i + 1] == [s[i]];
    RunOne(Step(cc), q, s[i]);
  }

  lemma ReadsTwo(cc: CharClasses, q: State, s: string, i: nat, e: nat)
    requires i + 2 <= e <= |s|
    ensures Reads(cc, q, s[i..e]) == Reads(cc, NextState(cc, NextState(cc, q, s[i]), s[i + 1]), s[i + 2..e])
  {
    ReadsNext(cc, q, s, i, e);
    ReadsNext(cc, NextState(cc, q, s[i]), s, i + 1, e);
  }

  lemma ReadsNothing(cc: CharClasses, q: State, s: string, i: nat)
    requires i <= |s|
    ensures Reads(cc, q, s[i..i]) == q
  {
    assert s[i..i] == [];
  }

  lemma {:induction false} OverStays(cc: CharClasses, t: string)
    ensures Reads(cc, Over, t) == Over
  {
    if t != [] {
      OverStays(cc, t[..|t| - 1]);
    }
  }

  /** After its end a formula may be followed by white space only. */
  lemma {:induction false} DoneStays(cc: CharClasses, mode: Mode, t: string)
    ensures Reads(cc, Done(mode), t) == if forall c :: c in t ==> cc.space(c) then Done(mode) else Over
  {
    if t != [] {
      DoneStays(cc, mode, t[..|t| - 1]);
      assert t == t[..|t| - 1] + [t[|t| - 1]];
    }
  }

  lemma {:induction false} ReadyOverSpaces(cc: CharClasses, n: string, t: string)
    requires forall c :: c in t ==> cc.space(c)
    ensures Reads(cc, Ready(n), t) == Ready(n)
  {
    if t != [] {
      assert t[|t| - 1] in t;
      ReadyOverSpaces(cc, n, t[..|t| - 1]);
    }
  }

  // ---------------------------------------------------------------- where a command or formula ends

  /** No further argument follows. */
  predicate NoArgument(cc: CharClasses, s: string, e: nat)
    requires e <= |s|
  {
    var j := ClassEnd(s, e, cc.space);
    !(j < |s| && IsOpener(s[j]))
  }

  /** The command or formula that starts at `i` ends at `e`: said of what the machine has read and what follows. */
  ghost predicate Ends(cc: CharClasses, s: string, i: nat, e: nat) {
    i < e <= |s| &&
    match Reads(cc, Start, s[i..e])
    case Done(_) => !cc.space(s[e - 1])
    case Name(_) => NoArgument(cc, s, e) && (e < |s| ==> !cc.alpha(s[e]) && s[e] != '*')
    case Ready(_) => NoArgument(cc, s, e) && (!cc.space(s[e - 1]) || e == i + 2)
    case Over => false
    case _ => e == |s|
  }

  lemma ReadyIsLast(cc: CharClasses, s: string, e: nat, e': nat, n: string)
    requires e < e' <= |s| && NoArgument(cc, s, e)
    ensures var q := Reads(cc, Ready(n), s[e..e']); q == Over || (q == Ready(n) && cc.space(s[e' - 1]))
  {
    var j := ClassEnd(s, e, cc.space);
    SpacesUpTo(cc, s, e);
    if e' <= j {
      ReadyOverSpaces(cc, n, s[e..e']);
    } else {
      ReadyOverSpaces(cc, n, s[e..j]);
      RunSlice(Step(cc), Ready(n), s, e, j, e');
      ReadsNext(cc, Ready(n), s, j, e');
      OverStays(cc, s[j + 1..e']);
    }
  }

  lemma {:induction false} SpacesUpTo(cc: CharClasses, s: string, i: nat)
    requires i <= |s|
    ensures var j := ClassEnd(s, i, cc.space); (forall p :: i <= p < j ==> cc.space(s[p])) && (j < |s| ==> !cc.space(s[j]))
    decreases |s| - i
  {
    if i < |s| && cc.space(s[i]) {
      SpacesUpTo(cc, s, i + 1);
    }
  }

  lemma NameIsLast(cc: CharClasses, s: string, e: nat, e': nat, n: string)
    requires Sane(cc) && e < e' <= |s| && NoArgument(cc, s, e) && !cc.alpha(s[e]) && s[e] != '*'
    ensures var q := Reads(cc, Name(n), s[e..e']); q == Over || (q == Ready(n) && cc.space(s[e' - 1]))
  {
    ReadsNext(cc, Name(n), s, e, e');
    if cc.space(s[e]) {
      ReadyIsLast(cc, s, e, e', n);
      ReadsNext(cc, Ready(n), s, e, e');
    } else {
      SpacesUpTo(cc, s, e);
      OverStays(cc, s[e + 1..e']);
    }
  }

  lemma DoneIsLast(cc: CharClasses, s: string, e: nat, e': nat, mode: Mode)
    requires e < e' <= |s|
    ensures var q := Reads(cc, Done(mode), s[e..e']); q == Over || (q == Done(mode) && cc.space(s[e' - 1]))
  {
    DoneStays(cc, mode, s[e..e']);
    assert s[e' - 1] in s[e..e'];
  }

  lemma OneCharacter(cc: CharClasses, s: string, i: nat)
    requires i < |s|
    ensures Reads(cc, Start, s[i..i + 1]) == NextState(cc, Start, s[i])
  {
    ReadsNext(cc, Start, s, i, i + 1);
    ReadsNothing(cc, NextState(cc, Start, s[i]), s, i + 1);
  }

  /** A command or formula ends in one place. */
  lemma EndsOnce(cc: CharClasses, s: string, i: nat, e: nat, e': nat)
    requires Sane(cc) && Ends(cc, s, i, e) && Ends(cc, s, i, e')
    ensures e == e'
  {
    if e < e' {
      NoLaterEnd(cc, s, i, e, e');
    } else if e' < e {
      NoLaterEnd(cc, s, i, e', e);
    }
  }

  lemma NoLaterEnd(cc: CharClasses, s: string, i: nat, e: nat, e': nat)
    requires Sane(cc) && Ends(cc, s, i, e) && e < e' <= |s|
    ensures !Ends(cc, s, i, e')
  {
    var q := Reads(cc, Start, s[i..e]);
    RunSlice(Step(cc), Start, s, i, e, e');
    OneCharacter(cc, s, i);
    match q {
      case Done(mode) => DoneIsLast(cc, s, e, e', mode);
      case Name(n) => NameIsLast(cc, s, e, e', n);
      case Ready(n) => ReadyIsLast(cc, s, e, e', n);
      case _ =>
    }
  }
}

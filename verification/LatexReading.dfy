/** What is read at a character of the text, said by the characters around it: which branch takes it, and where a
    protected word is read. */
module LatexReading {
  import opened PyText
  import opened Escapes
  import opened LatexScanners
  import opened LatexReflow
  import opened LatexWords

  // ---------------------------------------------------------------- protected words

  /** The `k`-th character of the word is read from `i` to `j`. A space takes all white space there is, at least one;
      any other character takes its like, whatever the case, and after a full stop inside the word all white space. */
  ghost predicate ReadsCharacter(cc: CharClasses, s: string, w: string, k: nat, i: nat, j: nat)
    requires k < |w|
  {
    i < j <= |s| &&
    if cc.space(w[k]) then (forall p :: i <= p < j ==> cc.space(s[p])) && (j < |s| ==> !cc.space(s[j]))
    else
      && cc.lower(s[i]) == cc.lower(w[k]) && (forall p :: i < p < j ==> cc.space(s[p]))
      && if w[k] == '.' && k + 1 < |w| && !cc.space(w[k + 1]) then j < |s| ==> !cc.space(s[j]) else j == i + 1
  }

  /** The word from its `k`-th character on is read from at[0] on, its characters at the places `at`. */
  ghost predicate ReadsWord(cc: CharClasses, s: string, w: string, k: nat, at: seq<nat>)
    requires k <= |w|
  {
    |at| == |w| - k + 1 && at[0] <= |s| &&
    forall n :: 0 <= n < |w| - k ==> ReadsCharacter(cc, s, w, k + n, at[n], at[n + 1])
  }

  lemma {:induction false} ClassEndIs(s: string, i: nat, class_: char -> bool)
    requires i <= |s|
    ensures var e := ClassEnd(s, i, class_); (forall p :: i <= p < e ==> class_(s[p])) && (e < |s| ==> !class_(s[e]))
    decreases |s| - i
  {
    if i < |s| && class_(s[i]) {
      ClassEndIs(s, i + 1, class_);
    }
  }

  /** Where the next character of the word is looked for. */
  function Next(cc: CharClasses, s: string, i: nat, w: string, k: nat): (j: nat)
    requires i < |s| && k < |w|
  {
    if cc.space(w[k]) then ClassEnd(s, i + 1, cc.space) else AfterStop(cc, s, i + 1, w, k)
  }

  predicate Fits(cc: CharClasses, s: string, i: nat, w: string, k: nat)
    requires k < |w|
  {
    i < |s| && if cc.space(w[k]) then cc.space(s[i]) else cc.lower(s[i]) == cc.lower(w[k])
  }

  lemma CharacterIsRead(cc: CharClasses, s: string, i: nat, w: string, k: nat, j: nat)
    requires k < |w|
    ensures ReadsCharacter(cc, s, w, k, i, j) <==> Fits(cc, s, i, w, k) && j == Next(cc, s, i, w, k)
  {
    if i < |s| {
      ClassEndIs(s, i + 1, cc.space);
    }
  }

  /** A match is a reading of the word. */
  lemma {:induction false} MatchIsReading(cc: CharClasses, s: string, i: nat, w: string, k: nat) returns (at: seq<nat>)
    requires i <= |s| && k <= |w| && MatchWord(cc, s, i, w, k).Match?
    ensures ReadsWord(cc, s, w, k, at) && at[0] == i && at[|w| - k] == MatchWord(cc, s, i, w, k).end
    decreases |w| - k
  {
    if k == |w| {
      at := [i];
    } else {
      var j := Next(cc, s, i, w, k);
      var rest := MatchIsReading(cc, s, j, w, k + 1);
      CharacterIsRead(cc, s, i, w, k, j);
      at := [i] + rest;
      forall n | 0 <= n < |w| - k ensures ReadsCharacter(cc, s, w, k + n, at[n], at[n + 1]) {
        if n > 0 {
          assert ReadsCharacter(cc, s, w, k + 1 + (n - 1), rest[n - 1], rest[n]);
        }
      }
    }
  }

  /** A reading of the word is a match, which puts out the text's own characters and single spaces. */
  lemma {:induction false} ReadingIsMatch(cc: CharClasses, s: string, w: string, k: nat, at: seq<nat>)
    requires k <= |w| && ReadsWord(cc, s, w, k, at)
    ensures var m := MatchWord(cc, s, at[0], w, k);
            && m.Match? && m.end == at[|w| - k] && |m.output| == |w| - k
            && forall n :: 0 <= n < |w| - k ==>
                 m.output[n] == if cc.space(w[k + n]) then ' ' else if at[n] < |s| then s[at[n]] else ' '
    decreases |w| - k
  {
    if k < |w| {
      var rest := at[1..];
      assert ReadsCharacter(cc, s, w, k + 0, at[0], at[1]);
      CharacterIsRead(cc, s, at[0], w, k, at[1]);
      forall n | 0 <= n < |w| - (k + 1) ensures ReadsCharacter(cc, s, w, k + 1 + n, rest[n], rest[n + 1]) {
        assert ReadsCharacter(cc, s, w, k + (n + 1), at[n + 1], at[n + 2]);
      }
      ReadingIsMatch(cc, s, w, k + 1, rest);
    }
  }

  /** Where a protected word is read: no letter, digit, underscore or tie stands right before it or, past the comma that
      may directly follow it, right after it; and it is a word of the list. */
  lemma ProtectedWordIs(lang: Language, s: string, i: nat) returns (w: string)
    requires i <= |s| && ProtectedAt(lang, s, i).Match?
    ensures var e := ProtectedAt(lang, s, i).end;
            && (i > 0 ==> !lang.cc.alnum(s[i - 1]) && s[i - 1] != '_' && s[i - 1] != '~')
            && (e < |s| ==> !lang.cc.alnum(s[e]) && s[e] != '_' && s[e] != '~')
    ensures var m := MatchWord(lang.cc, s, i, w, 0);
            && w in lang.protected && m.Match?
            && ProtectedAt(lang, s, i) == if m.end < |s| && s[m.end] == ',' then Match(m.end + 1, m.output + ",") else m
  {
    w := FoundWord(lang, s, i, 0);
  }

  /** Conversely a word of the list that is read between such neighbours is matched; and if the list is orderly it is
      this word that is matched. */
  lemma WordBetweenIsMatched(lang: Language, s: string, i: nat, w: string, e: nat)
    requires i <= |s| && w in lang.protected && MatchWord(lang.cc, s, i, w, 0).Match?
    requires var m := MatchWord(lang.cc, s, i, w, 0); e == if m.end < |s| && s[m.end] == ',' then m.end + 1 else m.end
    requires i > 0 ==> !lang.cc.alnum(s[i - 1]) && s[i - 1] != '_' && s[i - 1] != '~'
    requires e < |s| ==> !lang.cc.alnum(s[e]) && s[e] != '_' && s[e] != '~'
    ensures ProtectedAt(lang, s, i).Match?
    ensures var m := MatchWord(lang.cc, s, i, w, 0);
            Orderly(lang) ==> ProtectedAt(lang, s, i) == Match(e, m.output + if e > m.end then "," else "")
  {
    var n: nat :| n < |lang.protected| && lang.protected[n] == w;
    SomeWordIsFirst(lang, s, i, n, 0);
    if Orderly(lang) {
      assert lang.protected[0..] == lang.protected;
      FirstIsOnly(lang, s, i, 0, w);
      var m := MatchWord(lang.cc, s, i, w, 0);
      assert m.output + "" == m.output;
    }
  }

  lemma {:induction false} SomeWordIsFirst(lang: Language, s: string, i: nat, n: nat, from: nat)
    requires i <= |s| && from <= n < |lang.protected| && WordAt(lang.cc, s, i, lang.protected[n]).Match?
    ensures FirstWord(lang, s, i, from).Match?
    decreases n - from
  {
    if from < n {
      SomeWordIsFirst(lang, s, i, n, from + 1);
    }
  }

  /** Of several words that could be matched it is the first of the list. */
  lemma {:induction false} FirstOfList(lang: Language, s: string, i: nat, n: nat, from: nat)
    requires i <= |s| && from <= n < |lang.protected| && WordAt(lang.cc, s, i, lang.protected[n]).Match?
    requires forall k :: from <= k < n ==> WordAt(lang.cc, s, i, lang.protected[k]) == NoMatch
    ensures FirstWord(lang, s, i, from) == WordAt(lang.cc, s, i, lang.protected[n])
    decreases n - from
  {
    if from < n {
      FirstOfList(lang, s, i, n, from + 1);
    }
  }

  // ---------------------------------------------------------------- the branches

  /** A percent sign starts a comment, to the next carriage return or line feed. */
  lemma PercentIsComment(lang: Language, s: string, i: nat) returns (e: nat)
    requires lang.Valid() && i < |s| && s[i] == '%'
    ensures i < e <= |s| && LexemeAt(lang, s, i) == Lexeme(Comment, RStrip(lang.cc, s[i..e]), e)
    ensures e < |s| ==> s[e] == '\r' || s[e] == '\n'
    ensures forall p :: i <= p < e ==> s[p] != '\r' && s[p] != '\n'
  {
    e := ClassEnd(s, i + 1, NotLineEnd);
    ClassEndIs(s, i + 1, NotLineEnd);
  }

  /** `e` is past the first unescaped dollar, or pair of dollars, from `from` on; or the end of the text, without one. */
  ghost predicate EndsAtDollars(s: string, from: nat, e: nat, two: bool) {
    && from <= e <= |s|
    && (forall p :: from <= p && p + (if two then 2 else 1) < e && s[p] == '$' && (two ==> s[p + 1] == '$') ==>
          Escaped(s, from, p))
    && (e < |s| ==>
          if two then from + 2 <= e && s[e - 2] == '$' && s[e - 1] == '$' && !Escaped(s, from, e - 2)
          else from + 1 <= e && s[e - 1] == '$' && !Escaped(s, from, e - 1))
  }

  /** Two dollars start a display, one a formula within the text. */
  lemma DollarIsMath(lang: Language, s: string, i: nat) returns (e: nat)
    requires lang.Valid() && i < |s| && s[i] == '$'
    ensures var two := i + 1 < |s| && s[i + 1] == '$';
            && i < e <= |s| && EndsAtDollars(s, i + (if two then 2 else 1), e, two)
            && LexemeAt(lang, s, i) ==
               if two then Lexeme(Display, TrimLines(lang.cc, s[i..e]), e) else Lexeme(Inline, s[i..e], e)
  {
    var n := if PairAt(s, i, '$', '$') then 2 else 1;
    e := MathEnd(s, i);
    MathEndsAtFirst(s, i + n, i + n, n);
    assert EndsAtFirst(s, i + n, i + n, e, n, Dollars(s, n));
    forall p | i + n <= p && p + n < e && s[p] == '$' && (n == 2 ==> s[p + 1] == '$') ensures Escaped(s, i + n, p) {
      assert Dollars(s, n)(p);
    }
  }

  /** A backslash and an opening bracket start a display, a backslash and an opening parenthesis a formula within the
      text; it ends past the first unescaped backslash with the closing character. */
  lemma BackslashIsMath(lang: Language, s: string, i: nat, c: char) returns (e: nat)
    requires lang.Valid() && i + 1 < |s| && s[i] == '\\' && ((s[i + 1] == '[' && c == ']') || (s[i + 1] == '(' && c == ')'))
    ensures i + 2 <= e <= |s|
    ensures forall p :: i + 2 <= p && p + 2 < e && s[p] == '\\' && s[p + 1] == c ==> Escaped(s, i + 2, p)
    ensures e < |s| ==> i + 4 <= e && s[e - 2] == '\\' && s[e - 1] == c && !Escaped(s, i + 2, e - 2)
    ensures LexemeAt(lang, s, i) ==
            if s[i + 1] == '[' then Lexeme(Display, TrimLines(lang.cc, s[i..e]), e) else Lexeme(Inline, s[i..e], e)
  {
    e := CommandMathEnd(s, i + 2, c);
    CommandMathEndsAtFirst(s, i + 2, i + 2, c);
    assert EndsAtFirst(s, i + 2, i + 2, e, 2, Closings(s, c));
    forall p | i + 2 <= p && p + 2 < e && s[p] == '\\' && s[p + 1] == c ensures Escaped(s, i + 2, p) {
      assert Closings(s, c)(p);
    }
  }

  /** The command name at a backslash: all letters there are, or one other character, or nothing at the end. */
  ghost predicate IsName(cc: CharClasses, s: string, i: nat, name: string) {
    if i + 1 >= |s| then name == ""
    else if !cc.alpha(s[i + 1]) then name == [s[i + 1]]
    else
      var j := i + 1 + |name|;
      && j <= |s| && name == s[i + 1..j] && (forall c :: c in name ==> cc.alpha(c)) && (j < |s| ==> !cc.alpha(s[j]))
  }

  /** Nothing but white space stands on the line before `i` and from `e` on. */
  ghost predicate IsAlone(cc: CharClasses, s: string, i: nat, e: nat) {
    && (forall p :: 0 <= p < i <= |s| && (forall q :: p <= q < i ==> s[q] != '\n') ==> cc.space(s[p]))
    && (forall p :: e <= p < |s| && (forall q :: e <= q <= p ==> s[q] != '\n' && s[q] != '\r') ==> cc.space(s[p]))
  }

  /** Any other backslash starts a command: a display if its name is one of the block commands, or of the standalone
      ones and it stands alone on its line. */
  lemma BackslashIsCommand(lang: Language, s: string, i: nat) returns (name: string)
    requires lang.Valid() && i < |s| && s[i] == '\\' && (i + 1 < |s| ==> s[i + 1] != '[' && s[i + 1] != '(')
    ensures IsName(lang.cc, s, i, name)
    ensures var x := LexemeAt(lang, s, i);
            && (x.kind == Display <==> name in lang.block || (name in lang.standalone && IsAlone(lang.cc, s, i, x.end)))
            && (x.kind == Display ==> x.text == TrimLines(lang.cc, s[i..x.end]))
            && (x.kind != Display ==> x.kind == Inline && x.text == s[i..x.end])
  {
    name := CommandName(lang.cc, s, i);
    NameIs(lang.cc, s, i);
    AloneIs(lang.cc, s, i, CommandEnd(lang.cc, s, i));
  }

  /** Past the name, with a star if it is made of letters, come the arguments, each in braces or brackets; white space
      before an argument is passed, white space after the last one is not. */
  ghost predicate EndsAfterArguments(cc: CharClasses, s: string, at: seq<nat>, e: nat) {
    && at != [] && at[|at| - 1] == e <= |s|
    && (forall n :: 0 <= n < |at| - 1 ==> IsArgument(cc, s, at[n], at[n + 1]))
    && forall j :: e <= j < |s| && (s[j] == '{' || s[j] == '[') ==> exists p :: e <= p < j && !cc.space(s[p])
  }

  /** After white space a group starts, and ends at `e`. */
  ghost predicate IsArgument(cc: CharClasses, s: string, i: nat, e: nat) {
    exists j :: i <= j < |s| && (forall p :: i <= p < j ==> cc.space(s[p]))
      && ((s[j] == '{' && e == BodyEnd(s, j + 1, '}')) || (s[j] == '[' && e == BodyEnd(s, j + 1, ']')))
  }

  lemma {:induction false} ArgumentsAre(cc: CharClasses, s: string, i: nat) returns (at: seq<nat>)
    requires cc.Valid() && i <= |s|
    ensures EndsAfterArguments(cc, s, at, ArgumentsEnd(cc, s, i)) && at[0] == i
    decreases |s| - i
  {
    var j := ClassEnd(s, i, cc.space);
    ClassEndIs(s, i, cc.space);
    if j < |s| && IsOpener(s[j]) {
      var next := BodyEnd(s, j + 1, CloserOf(s[j]));
      assert IsArgument(cc, s, i, next);
      var rest := ArgumentsAre(cc, s, next);
      ArgumentInFront(cc, s, i, rest, ArgumentsEnd(cc, s, i));
      at := [i] + rest;
    } else {
      at := [i];
    }
  }

  lemma ArgumentInFront(cc: CharClasses, s: string, i: nat, rest: seq<nat>, e: nat)
    requires EndsAfterArguments(cc, s, rest, e) && IsArgument(cc, s, i, rest[0])
    ensures EndsAfterArguments(cc, s, [i] + rest, e)
  {
    var at := [i] + rest;
    forall n | 0 <= n < |at| - 1 ensures IsArgument(cc, s, at[n], at[n + 1]) {
      if n > 0 {
        assert IsArgument(cc, s, rest[n - 1], rest[n]);
      }
    }
  }

  lemma CommandEndsAt(lang: Language, s: string, i: nat) returns (at: seq<nat>)
    requires lang.Valid() && i < |s| && s[i] == '\\' && (i + 1 < |s| ==> s[i + 1] != '[' && s[i + 1] != '(')
    ensures EndsAfterArguments(lang.cc, s, at, LexemeAt(lang, s, i).end)
    ensures exists name ::
              IsName(lang.cc, s, i, name) && var j := i + 1 + |name|;
              j <= |s| && at[0] == if j < |s| && s[j] == '*' && lang.cc.alpha(s[i + 1]) then j + 1 else j
  {
    NameIs(lang.cc, s, i);
    at := ArgumentsAre(lang.cc, s, NameEnd(lang.cc, s, i));
  }

  lemma NameIs(cc: CharClasses, s: string, i: nat)
    requires i < |s|
    ensures IsName(cc, s, i, CommandName(cc, s, i))
  {
    if i + 1 < |s| && cc.alpha(s[i + 1]) {
      ClassEndIs(s, i + 1, cc.alpha);
      var name := CommandName(cc, s, i);
      forall c | c in name ensures cc.alpha(c) {
        var p :| 0 <= p < |name| && name[p] == c;
        assert s[i + 1 + p] == c;
      }
    }
  }

  lemma {:induction false} LineStartIs(s: string, i: nat)
    requires i <= |s|
    ensures var b := LineStart(s, i);
            (forall p :: b <= p < i ==> s[p] != '\n') && (b > 0 ==> s[b - 1] == '\n')
  {
    if i > 0 && s[i - 1] != '\n' {
      LineStartIs(s, i - 1);
    }
  }

  lemma AloneIs(cc: CharClasses, s: string, i: nat, e: nat)
    requires i <= e <= |s|
    ensures AloneOnLine(cc, s, i, e) <==> IsAlone(cc, s, i, e)
  {
    LineStartIs(s, i);
    var b, lf, cr := LineStart(s, i), Find(s, '\n', e), Find(s, '\r', e);
    var end := if lf < cr then lf else cr;
    AllSpaceIs(cc, s, b, i);
    AllSpaceIs(cc, s, e, end);
  }

  lemma AllSpaceIs(cc: CharClasses, s: string, a: nat, b: nat)
    requires a <= b <= |s|
    ensures AllSpace(cc, s[a..b]) <==> forall p :: a <= p < b ==> cc.space(s[p])
  {
    assert forall p :: a <= p < b ==> s[p] == s[a..b][p - a] && s[p] in s[a..b];
  }

  /** Any other character is taken alone, a comma or a full stop as a mark after which a line ends, unless a protected
      word is read there. */
  lemma CharacterIsTaken(lang: Language, s: string, i: nat)
    requires lang.Valid() && i < |s| && s[i] != '%' && s[i] != '\\' && s[i] != '$'
    ensures var x, m := LexemeAt(lang, s, i), ProtectedAt(lang, s, i);
            if m.Match? then x == Lexeme(Protected, m.output, m.end)
            else x == Lexeme(if s[i] == ',' || s[i] == '.' then Stop else Plain, [s[i]], i + 1)
  {
  }
}

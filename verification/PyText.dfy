/** Character classes of the host language and the string operations built on them. Which characters count as
    space, line break, letter or digit is a parameter: only the facts in `Valid` are used. */
module PyText {

  datatype CharClasses = CharClasses(space: char -> bool, lineBreak: char -> bool,
                                     alpha: char -> bool, alnum: char -> bool, lower: char -> string)
  {
    /** Line breaks are white space; printable ASCII is not; the characters the code names itself are classified. */
    ghost predicate Valid() {
      && (forall c :: lineBreak(c) ==> space(c))
      && (forall c :: '!' <= c <= '~' ==> !space(c))
      && space(' ') && !lineBreak(' ') && lineBreak('\n') && lineBreak('\r')
    }
  }

  /** The white space and the line boundaries of Unicode strings, spelled out. */
  predicate UnicodeSpace(c: char) {
    || '\t' <= c <= '\r' || '\U{1C}' <= c <= ' ' || c == '\U{85}' || c == '\U{A0}' || c == '\U{1680}'
    || '\U{2000}' <= c <= '\U{200A}' || c == '\U{2028}' || c == '\U{2029}' || c == '\U{202F}' || c == '\U{205F}'
    || c == '\U{3000}'
  }

  predicate UnicodeLineBreak(c: char) {
    '\n' <= c <= '\r' || '\U{1C}' <= c <= '\U{1E}' || c == '\U{85}' || c == '\U{2028}' || c == '\U{2029}'
  }

  /** The actual classes satisfy what the proofs rely on. */
  lemma UnicodeClassesAreValid(alpha: char -> bool, alnum: char -> bool, lower: char -> string)
    ensures CharClasses(UnicodeSpace, UnicodeLineBreak, alpha, alnum, lower).Valid()
  {
    var cc := CharClasses(UnicodeSpace, UnicodeLineBreak, alpha, alnum, lower);
    forall c ensures cc.lineBreak(c) ==> cc.space(c) {
      assert cc.lineBreak(c) == UnicodeLineBreak(c) && cc.space(c) == UnicodeSpace(c);
    }
  }

  function RStrip(cc: CharClasses, s: string): (r: string)
    ensures r <= s
  {
    if s != [] && cc.space(s[|s| - 1]) then RStrip(cc, s[..|s| - 1]) else s
  }

  function LStrip(cc: CharClasses, s: string): string {
    if s != [] && cc.space(s[0]) then LStrip(cc, s[1..]) else s
  }

  function Strip(cc: CharClasses, s: string): string {
    RStrip(cc, LStrip(cc, s))
  }

  /** Length of the line that starts at `i`, without its end. */
  function LineLength(cc: CharClasses, s: string): (n: nat)
    ensures n <= |s|
  {
    if s == [] || cc.lineBreak(s[0]) then 0 else 1 + LineLength(cc, s[1..])
  }

  /** A carriage return and a line feed together end one line. */
  function BreakLength(s: string, n: nat): (k: nat)
    requires n <= |s|
    ensures n + k <= |s| && (n < |s| ==> k >= 1)
  {
    if n == |s| then 0 else if PairAt(s, n, '\r', '\n') then 2 else 1
  }

  function SplitLines(cc: CharClasses, s: string): seq<string>
    decreases |s|
  {
    if s == [] then []
    else
      var n := LineLength(cc, s);
      if n == |s| then [s] else [s[..n]] + SplitLines(cc, s[n + BreakLength(s, n)..])
  }

  /** The lines with trailing white space removed, joined by line feeds. */
  function JoinStripped(cc: CharClasses, lines: seq<string>): string {
    if lines == [] then []
    else if |lines| == 1 then RStrip(cc, lines[0])
    else RStrip(cc, lines[0]) + "\n" + JoinStripped(cc, lines[1..])
  }

  function TrimLines(cc: CharClasses, s: string): string {
    Strip(cc, JoinStripped(cc, SplitLines(cc, s)))
  }

  // ---------------------------------------------------------------- the characters that carry meaning

  function NonSpace(cc: CharClasses, s: string): string {
    if s == [] then []
    else if cc.space(s[|s| - 1]) then NonSpace(cc, s[..|s| - 1])
    else NonSpace(cc, s[..|s| - 1]) + [s[|s| - 1]]
  }

  lemma {:induction false} NonSpaceConcat(cc: CharClasses, a: string, b: string)
    ensures NonSpace(cc, a + b) == NonSpace(cc, a) + NonSpace(cc, b)
  {
    if b == [] {
      assert a + b == a;
    } else {
      assert (a + b)[..|a + b| - 1] == a + b[..|b| - 1];
      NonSpaceConcat(cc, a, b[..|b| - 1]);
    }
  }

  lemma NonSpaceOne(cc: CharClasses, c: char)
    ensures NonSpace(cc, [c]) == if cc.space(c) then [] else [c]
  {
    assert [c][..0] == [];
  }

  lemma {:induction false} RStripKeeps(cc: CharClasses, s: string)
    ensures NonSpace(cc, RStrip(cc, s)) == NonSpace(cc, s)
  {
    if s != [] && cc.space(s[|s| - 1]) {
      RStripKeeps(cc, s[..|s| - 1]);
    }
  }

  lemma {:induction false} LStripKeeps(cc: CharClasses, s: string)
    ensures NonSpace(cc, LStrip(cc, s)) == NonSpace(cc, s)
  {
    if s != [] && cc.space(s[0]) {
      LStripKeeps(cc, s[1..]);
      NonSpaceConcat(cc, [s[0]], s[1..]);
      NonSpaceOne(cc, s[0]);
      assert s == [s[0]] + s[1..];
    }
  }

  lemma {:induction false} AllSpaceIsNothing(cc: CharClasses, s: string)
    requires forall c :: c in s ==> cc.space(c)
    ensures NonSpace(cc, s) == []
  {
    if s != [] {
      assert s[|s| - 1] in s;
      AllSpaceIsNothing(cc, s[..|s| - 1]);
    }
  }

  lemma {:induction false} LineLengthStops(cc: CharClasses, s: string)
    ensures var n := LineLength(cc, s); n < |s| ==> cc.lineBreak(s[n])
  {
    if s != [] && !cc.lineBreak(s[0]) {
      LineLengthStops(cc, s[1..]);
    }
  }

  lemma NonSpaceSplit(cc: CharClasses, s: string, m: nat)
    requires m <= |s|
    ensures NonSpace(cc, s) == NonSpace(cc, s[..m]) + NonSpace(cc, s[m..])
  {
    NonSpaceConcat(cc, s[..m], s[m..]);
    assert s == s[..m] + s[m..];
  }

  lemma NonSpaceCut(cc: CharClasses, s: string, n: nat, m: nat)
    requires n <= m <= |s| && NonSpace(cc, s[n..m]) == []
    ensures NonSpace(cc, s) == NonSpace(cc, s[..n]) + NonSpace(cc, s[m..])
  {
    NonSpaceSplit(cc, s, m);
    NonSpaceSplit(cc, s[..m], n);
    assert s[..m][..n] == s[..n] && s[..m][n..] == s[n..m];
    assert NonSpace(cc, s[..n]) + [] == NonSpace(cc, s[..n]);
  }

  lemma CutAtBreak(cc: CharClasses, s: string)
    requires cc.Valid() && LineLength(cc, s) < |s|
    ensures var n := LineLength(cc, s);
            NonSpace(cc, s) == NonSpace(cc, s[..n]) + NonSpace(cc, s[n + BreakLength(s, n)..])
  {
    var n := LineLength(cc, s);
    LineLengthStops(cc, s);
    BreakIsNothing(cc, s, n);
    NonSpaceCut(cc, s, n, n + BreakLength(s, n));
  }

  ghost predicate JoinKept(cc: CharClasses, s: string) {
    NonSpace(cc, JoinStripped(cc, SplitLines(cc, s))) == NonSpace(cc, s)
  }

  lemma SplitFirst(cc: CharClasses, s: string)
    requires LineLength(cc, s) < |s|
    ensures var n := LineLength(cc, s);
            SplitLines(cc, s) == [s[..n]] + SplitLines(cc, s[n + BreakLength(s, n)..])
  {
  }

  /** A line in front of lines whose visible characters are kept. */
  lemma LineInFront(cc: CharClasses, line: string, lines: seq<string>, s: string, rest: string)
    requires cc.Valid() && NonSpace(cc, JoinStripped(cc, lines)) == NonSpace(cc, rest)
    requires NonSpace(cc, s) == NonSpace(cc, line) + NonSpace(cc, rest)
    ensures NonSpace(cc, JoinStripped(cc, [line] + lines)) == NonSpace(cc, s)
  {
    FirstLineKeeps(cc, line, lines);
  }

  lemma OneMoreLine(cc: CharClasses, s: string, n: nat, rest: string)
    requires cc.Valid() && n == LineLength(cc, s) < |s| && rest == s[n + BreakLength(s, n)..] && JoinKept(cc, rest)
    ensures JoinKept(cc, s)
  {
    var line, lines := s[..n], SplitLines(cc, rest);
    CutAtBreak(cc, s);
    LineInFront(cc, line, lines, s, rest);
    SplitFirst(cc, s);
    assert SplitLines(cc, s) == [line] + lines;
  }

  lemma {:induction false} JoinKeeps(cc: CharClasses, s: string)
    requires cc.Valid()
    ensures JoinKept(cc, s)
    decreases |s|
  {
    var n := LineLength(cc, s);
    if n < |s| {
      JoinKeeps(cc, s[n + BreakLength(s, n)..]);
      OneMoreLine(cc, s, n, s[n + BreakLength(s, n)..]);
    } else {
      RStripKeeps(cc, s);
    }
  }

  lemma BreakIsNothing(cc: CharClasses, s: string, n: nat)
    requires cc.Valid() && n < |s| && cc.lineBreak(s[n])
    ensures NonSpace(cc, s[n..n + BreakLength(s, n)]) == []
  {
    AllSpaceIsNothing(cc, s[n..n + BreakLength(s, n)]);
  }

  lemma FirstLineKeeps(cc: CharClasses, line: string, lines: seq<string>)
    requires cc.Valid()
    ensures NonSpace(cc, JoinStripped(cc, [line] + lines)) == NonSpace(cc, line) + NonSpace(cc, JoinStripped(cc, lines))
  {
    var r, rest := RStrip(cc, line), JoinStripped(cc, lines);
    assert ([line] + lines)[1..] == lines;
    RStripKeeps(cc, line);
    if lines != [] {
      NonSpaceConcat(cc, r + "\n", rest);
      NonSpaceConcat(cc, r, "\n");
      NonSpaceOne(cc, '\n');
    } else {
      assert NonSpace(cc, line) + [] == NonSpace(cc, line);
    }
  }

  /** Trimming changes white space only. */
  lemma TrimKeeps(cc: CharClasses, s: string)
    requires cc.Valid()
    ensures NonSpace(cc, TrimLines(cc, s)) == NonSpace(cc, s)
  {
    var joined := JoinStripped(cc, SplitLines(cc, s));
    JoinKeeps(cc, s);
    LStripKeeps(cc, joined);
    RStripKeeps(cc, LStrip(cc, joined));
  }

  lemma {:induction false} RStripStart(cc: CharClasses, s: string)
    requires s != [] && !cc.space(s[0])
    ensures var r := RStrip(cc, s); r != [] && r[0] == s[0]
  {
    if cc.space(s[|s| - 1]) {
      RStripStart(cc, s[..|s| - 1]);
    }
  }

  /** A text that starts with a visible character still does when trimmed. */
  lemma TrimStart(cc: CharClasses, s: string)
    requires cc.Valid() && s != [] && !cc.space(s[0])
    ensures var r := TrimLines(cc, s); r != [] && r[0] == s[0]
  {
    var n := LineLength(cc, s);
    var lines := SplitLines(cc, s);
    assert n >= 1 && lines != [] && lines[0] == s[..n] by {
      assert s[..|s|] == s;
    }
    RStripStart(cc, s[..n]);
    var joined := JoinStripped(cc, lines);
    assert joined != [] && joined[0] == s[0];
    RStripStart(cc, joined);
  }

  predicate StartsWith(s: string, prefix: string, i: nat := 0) {
    i + |prefix| <= |s| && s[i..i + |prefix|] == prefix
  }

  predicate PairAt(s: string, i: nat, a: char, b: char) {
    i + 1 < |s| && s[i] == a && s[i + 1] == b
  }

  /** Index of the first `c` at or after `i`, or |s|. */
  function Find(s: string, c: char, i: nat := 0): (k: nat)
    requires i <= |s|
    ensures i <= k <= |s| && (k < |s| ==> s[k] == c)
    ensures forall j :: i <= j < k ==> s[j] != c
    decreases |s| - i
  {
    if i == |s| || s[i] == c then i else Find(s, c, i + 1)
  }
}

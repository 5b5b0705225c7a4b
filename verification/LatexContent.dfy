/** The reflow keeps every character that carries meaning: through each scanner, the protected words, the layout
    and the final trim, the visible characters of the output are those of the input, in order. */
module LatexContent {
  import opened PyText
  import opened LatexScanners
  import opened LatexReflow

  /** A stretch of the text and its rendering have the same visible characters. */
  ghost predicate Keeps(cc: CharClasses, s: string, i: nat, e: nat, output: string) {
    i <= e <= |s| && NonSpace(cc, output) == NonSpace(cc, s[i..e])
  }

  lemma {:induction false} ClassRun(s: string, i: nat, class_: char -> bool)
    requires i <= |s|
    ensures forall p :: i <= p < ClassEnd(s, i, class_) ==> class_(s[p])
    decreases |s| - i
  {
    if i < |s| && class_(s[i]) {
      ClassRun(s, i + 1, class_);
    }
  }

  lemma SpaceRunIsNothing(cc: CharClasses, s: string, i: nat)
    requires i <= |s|
    ensures NonSpace(cc, s[i..ClassEnd(s, i, cc.space)]) == []
  {
    ClassRun(s, i, cc.space);
    AllSpaceIsNothing(cc, s[i..ClassEnd(s, i, cc.space)]);
  }

  lemma SliceSplits(cc: CharClasses, s: string, i: nat, j: nat, e: nat)
    requires i <= j <= e <= |s|
    ensures NonSpace(cc, s[i..e]) == NonSpace(cc, s[i..j]) + NonSpace(cc, s[j..e])
  {
    NonSpaceConcat(cc, s[i..j], s[j..e]);
    assert s[i..e] == s[i..j] + s[j..e];
  }

  /** A visible character followed by what is kept from `j` on, with only white space skipped in between. */
  lemma KeepsOneMore(cc: CharClasses, s: string, i: nat, j: nat, e: nat, c: char, output: string)
    requires i < j <= e <= |s| && Keeps(cc, s, j, e, output)
    requires NonSpace(cc, [c]) == NonSpace(cc, [s[i]]) && NonSpace(cc, s[i + 1..j]) == []
    ensures Keeps(cc, s, i, e, [c] + output)
  {
    NonSpaceConcat(cc, [c], output);
    SliceSplits(cc, s, i, i + 1, e);
    SliceSplits(cc, s, i + 1, j, e);
    assert s[i..i + 1] == [s[i]];
    assert [] + NonSpace(cc, s[j..e]) == NonSpace(cc, s[j..e]);
  }

  lemma {:induction false} WordKeeps(cc: CharClasses, s: string, i: nat, w: string, k: nat)
    requires cc.Valid() && i <= |s| && k <= |w|
    ensures var m := MatchWord(cc, s, i, w, k); m.Match? ==> Keeps(cc, s, i, m.end, m.output)
    decreases |w| - k
  {
    if k == |w| || i == |s| || MatchWord(cc, s, i, w, k).NoMatch? {
      assert s[i..i] == [];
      return;
    }
    var m := MatchWord(cc, s, i, w, k);
    var j := if cc.space(w[k]) then ClassEnd(s, i + 1, cc.space) else AfterStop(cc, s, i + 1, w, k);
    WordKeeps(cc, s, j, w, k + 1);
    SpaceRunIsNothing(cc, s, i + 1);
    assert s[i + 1..i + 1] == [];
    NonSpaceOne(cc, ' ');
    NonSpaceOne(cc, s[i]);
    KeepsOneMore(cc, s, i, j, m.end, if cc.space(w[k]) then ' ' else s[i], m.output[1..]);
    assert m.output == [m.output[0]] + m.output[1..];
  }

  lemma KeepsNext(cc: CharClasses, s: string, i: nat, e: nat, output: string)
    requires e < |s| && Keeps(cc, s, i, e, output)
    ensures Keeps(cc, s, i, e + 1, output + [s[e]])
  {
    NonSpaceConcat(cc, output, [s[e]]);
    SliceSplits(cc, s, i, e, e + 1);
    assert s[e..e + 1] == [s[e]];
  }

  lemma WordAtKeeps(cc: CharClasses, s: string, i: nat, w: string)
    requires cc.Valid() && i <= |s|
    ensures var m := WordAt(cc, s, i, w); m.Match? ==> Keeps(cc, s, i, m.end, m.output)
  {
    WordKeeps(cc, s, i, w, 0);
    var m := MatchWord(cc, s, i, w, 0);
    if m.Match? && m.end < |s| && s[m.end] == ',' {
      KeepsNext(cc, s, i, m.end, m.output);
    }
  }

  lemma {:induction false} FirstWordKeeps(lang: Language, s: string, i: nat, n: nat)
    requires lang.Valid() && i < |s| && n <= |lang.protected|
    ensures var m := FirstWord(lang, s, i, n);
            m.Match? ==> Keeps(lang.cc, s, i, m.end, m.output) && m.output != "" && m.output[0] == s[i]
    decreases |lang.protected| - n
  {
    if n < |lang.protected| {
      var w := lang.protected[n];
      assert w in lang.protected;
      WordAtKeeps(lang.cc, s, i, w);
      assert MatchWord(lang.cc, s, i, w, 0).Match? ==> MatchWord(lang.cc, s, i, w, 0).output[0] == s[i];
      FirstWordKeeps(lang, s, i, n + 1);
    }
  }

  ghost predicate KeepsAndStarts(cc: CharClasses, s: string, i: nat, x: Lexeme) {
    Keeps(cc, s, i, x.end, x.text) && x.text != "" && i < |s| && x.text[0] == s[i]
  }

  lemma TrimmedSlice(cc: CharClasses, s: string, i: nat, e: nat, kind: Kind)
    requires cc.Valid() && i < e <= |s| && !cc.space(s[i])
    ensures KeepsAndStarts(cc, s, i, Lexeme(kind, TrimLines(cc, s[i..e]), e))
    ensures KeepsAndStarts(cc, s, i, Lexeme(kind, RStrip(cc, s[i..e]), e))
    ensures KeepsAndStarts(cc, s, i, Lexeme(kind, s[i..e], e))
  {
    TrimKeeps(cc, s[i..e]);
    TrimStart(cc, s[i..e]);
    RStripKeeps(cc, s[i..e]);
    RStripStart(cc, s[i..e]);
  }

  lemma WordOrCharKeeps(lang: Language, s: string, i: nat)
    requires lang.Valid() && i < |s|
    ensures KeepsAndStarts(lang.cc, s, i, WordOrChar(lang, s, i))
  {
    FirstWordKeeps(lang, s, i, 0);
    assert s[i..i + 1] == [s[i]];
  }

  lemma BackslashKeeps(lang: Language, s: string, i: nat)
    requires lang.Valid() && i < |s| && !lang.cc.space(s[i])
    ensures KeepsAndStarts(lang.cc, s, i, BackslashAt(lang, s, i))
  {
    var x := BackslashAt(lang, s, i);
    TrimmedSlice(lang.cc, s, i, x.end, x.kind);
  }

  /** Every lexeme keeps the visible characters of its stretch of text, and starts with its first character. */
  lemma LexemeKeeps(lang: Language, s: string, i: nat)
    requires lang.Valid() && i < |s| && !lang.cc.space(s[i])
    ensures KeepsAndStarts(lang.cc, s, i, LexemeAt(lang, s, i))
  {
    if s[i] == '\\' {
      BackslashKeeps(lang, s, i);
    } else if s[i] == '%' || s[i] == '$' {
      var x := LexemeAt(lang, s, i);
      TrimmedSlice(lang.cc, s, i, x.end, x.kind);
    } else {
      WordOrCharKeeps(lang, s, i);
    }
  }

  lemma VisibleIsNoSeparator(cc: CharClasses, text: string)
    requires cc.Valid() && text != "" && !cc.space(text[0])
    ensures !IsSeparator(text)
  {
  }

  lemma {:induction false} TokensAreProper(lang: Language, s: string, i: nat, gap: bool)
    requires lang.Valid() && i <= |s|
    ensures Proper(Tokens(lang, s, i, gap))
    decreases |s| - i
  {
    if i < |s| {
      if lang.cc.space(s[i]) {
        TokensAreProper(lang, s, i + 1, true);
      } else {
        LexemeKeeps(lang, s, i);
        VisibleIsNoSeparator(lang.cc, LexemeAt(lang, s, i).text);
        TokensAreProper(lang, s, LexemeAt(lang, s, i).end, false);
      }
    }
  }

  /** Visible characters of a list of tokens. */
  function Visible(cc: CharClasses, ts: seq<Token>): string {
    if ts == [] then [] else NonSpace(cc, ts[0].text) + Visible(cc, ts[1..])
  }

  lemma TokenInFront(cc: CharClasses, s: string, i: nat, e: nat, t: Token, ts: seq<Token>)
    requires Keeps(cc, s, i, e, t.text) && Visible(cc, ts) == NonSpace(cc, s[e..])
    ensures Visible(cc, [t] + ts) == NonSpace(cc, s[i..])
  {
    NonSpaceSplit(cc, s[i..], e - i);
    assert s[i..][..e - i] == s[i..e] && s[i..][e - i..] == s[e..];
    assert ([t] + ts)[1..] == ts;
  }

  lemma SpaceInFront(cc: CharClasses, s: string, i: nat)
    requires i < |s| && cc.space(s[i])
    ensures NonSpace(cc, s[i..]) == NonSpace(cc, s[i + 1..])
  {
    NonSpaceSplit(cc, s[i..], 1);
    NonSpaceOne(cc, s[i]);
    assert s[i..][..1] == [s[i]] && s[i..][1..] == s[i + 1..];
  }

  /** Tokenisation loses nothing but white space. */
  lemma {:induction false} TokensKeep(lang: Language, s: string, i: nat, gap: bool)
    requires lang.Valid() && i <= |s|
    ensures Visible(lang.cc, Tokens(lang, s, i, gap)) == NonSpace(lang.cc, s[i..])
    decreases |s| - i
  {
    if i < |s| {
      if lang.cc.space(s[i]) {
        TokensKeep(lang, s, i + 1, true);
        SpaceInFront(lang.cc, s, i);
      } else {
        var x := LexemeAt(lang, s, i);
        LexemeKeeps(lang, s, i);
        TokensKeep(lang, s, x.end, false);
        TokenInFront(lang.cc, s, i, x.end, Token(gap, x.kind, x.text), Tokens(lang, s, x.end, false));
      }
    }
  }

  lemma {:induction false} ConcatAppend(a: seq<string>, b: seq<string>)
    ensures Concat(a + b) == Concat(a) + Concat(b)
  {
    if b == [] {
      assert a + b == a;
    } else {
      assert (a + b)[..|a + b| - 1] == a + b[..|b| - 1];
      ConcatAppend(a, b[..|b| - 1]);
    }
  }

  lemma ConcatOne(p: string)
    ensures Concat([p]) == p
  {
    assert [p][..0] == [];
  }

  lemma SeparatorIsNothing(cc: CharClasses, p: string)
    requires cc.Valid() && IsSeparator(p)
    ensures NonSpace(cc, Concat([p])) == []
  {
    ConcatOne(p);
    NonSpaceOne(cc, p[0]);
    assert p == [p[0]];
  }

  lemma {:induction false} VisibleAppend(cc: CharClasses, ts: seq<Token>, t: Token)
    ensures Visible(cc, ts + [t]) == Visible(cc, ts) + NonSpace(cc, t.text)
  {
    if ts == [] {
      assert ts + [t] == [t] && [t][1..] == [];
    } else {
      assert (ts + [t])[1..] == ts[1..] + [t];
      VisibleAppend(cc, ts[1..], t);
    }
  }

  lemma PieceKeeps(cc: CharClasses, pieces: seq<string>, sep: seq<string>, text: string)
    requires cc.Valid() && (sep == [] || sep == [" "] || sep == ["\n"])
    ensures NonSpace(cc, Concat(pieces + sep + [text])) == NonSpace(cc, Concat(pieces)) + NonSpace(cc, text)
  {
    SeparatorsKeep(cc, pieces, sep);
    ConcatAppend(pieces + sep, [text]);
    ConcatOne(text);
    NonSpaceConcat(cc, Concat(pieces + sep), text);
  }

  /** Separators add white space only. */
  lemma {:induction false} LaidKeeps(cc: CharClasses, ts: seq<Token>)
    requires cc.Valid()
    ensures NonSpace(cc, Concat(Laid(ts))) == Visible(cc, ts)
  {
    if ts != [] {
      var n := |ts| - 1;
      var front, t := ts[..n], ts[n];
      var sep := if n > 0 then Between(ts[n - 1], t) else [];
      LaidKeeps(cc, front);
      PieceKeeps(cc, Laid(front), sep, t.text);
      VisibleAppend(cc, front, t);
      assert ts == front + [t];
    }
  }

  lemma SeparatorsKeep(cc: CharClasses, pieces: seq<string>, sep: seq<string>)
    requires cc.Valid() && (sep == [] || sep == [" "] || sep == ["\n"])
    ensures NonSpace(cc, Concat(pieces + sep)) == NonSpace(cc, Concat(pieces))
  {
    if sep == [] {
      assert pieces + sep == pieces;
    } else {
      ConcatAppend(pieces, sep);
      NonSpaceConcat(cc, Concat(pieces), Concat(sep));
      SeparatorIsNothing(cc, sep[0]);
    }
  }

  /** For every text: the visible characters of the reflowed text are those of the text, in order. */
  lemma ReflowKeepsContent(lang: Language, s: string)
    requires lang.Valid()
    ensures NonSpace(lang.cc, Reflow(lang, s)) == NonSpace(lang.cc, s)
  {
    var cc, ts := lang.cc, Tokens(lang, s, 0, false);
    TokensKeep(lang, s, 0, false);
    assert s[0..] == s;
    LaidKeeps(cc, ts);
    SeparatorsKeep(cc, Laid(ts), if ts != [] && BreaksAfter(ts[|ts| - 1]) then ["\n"] else []);
    var joined := Concat(Pieces(ts));
    TrimKeeps(cc, joined);
    NonSpaceConcat(cc, TrimLines(cc, joined), "\n");
    NonSpaceOne(cc, '\n');
    assert TrimLines(cc, joined) + "" == TrimLines(cc, joined);
  }
}

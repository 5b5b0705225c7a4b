/** Protected words: what a match outputs is matched again, two words never match in one place, and inside a word
    no other word can be entered. */
module LatexWords {
  import opened PyText
  import opened LatexScanners
  import opened LatexReflow
  import opened LatexLines
  import opened LatexMachines

  // ---------------------------------------------------------------- the word list

  /** Case folds letters to letters only. */
  ghost predicate SaneCase(cc: CharClasses) {
    forall c, d :: cc.lower(c) == cc.lower(d) ==>
      (cc.space(c) <==> cc.space(d)) && (cc.alpha(c) <==> cc.alpha(d)) && (c == '.' <==> d == '.')
  }

  /** A word starts with a letter and ends with its only kind of mark, a full stop; a space stands between letters. */
  predicate IsWord(cc: CharClasses, w: string) {
    && w != "" && cc.alpha(w[0]) && w[|w| - 1] == '.'
    && (forall j :: 0 <= j < |w| ==> cc.alpha(w[j]) || w[j] == '.' || cc.space(w[j]))
    && (forall j :: 0 <= j < |w| && cc.space(w[j]) ==> 0 < j < |w| - 1 && cc.alpha(w[j - 1]) && cc.alpha(w[j + 1]))
  }

  /** No character of the text is read as both. */
  predicate Differ(cc: CharClasses, c: char, d: char) {
    if cc.space(c) || cc.space(d) then cc.space(c) != cc.space(d) else cc.lower(c) != cc.lower(d)
  }

  predicate DifferFirst(cc: CharClasses, v: string, w: string, j: nat) {
    j < |v| && j < |w| && Differ(cc, v[j], w[j]) && forall i :: 0 <= i < j ==> !Differ(cc, v[i], w[i])
  }

  /** Place `j` of a word, where a word of its own could begin. */
  predicate Inner(cc: CharClasses, w: string, j: nat) {
    0 < j < |w| && (w[j - 1] == '.' || cc.space(w[j - 1]))
  }

  /** The word `v` is not read where `w` is read from place `j` on, or it goes on with a letter where `w` ends. */
  predicate Apart(cc: CharClasses, w: string, j: nat, v: string, p: nat)
    requires j <= |w|
  {
    p < |v| && j + p <= |w| && if j + p == |w| then cc.alpha(v[p]) else Differ(cc, w[j + p], v[p])
  }

  /** What the proofs rely on of the word list; the program's own list has it. */
  ghost predicate Orderly(lang: Language) {
    && lang.Valid() && Sane(lang.cc) && SaneCase(lang.cc)
    && (forall w :: w in lang.protected ==> IsWord(lang.cc, w))
    && (forall v, w :: v in lang.protected && w in lang.protected && v != w ==> exists j: nat :: DifferFirst(lang.cc, v, w, j))
    && (forall w, v, j: nat :: w in lang.protected && v in lang.protected && Inner(lang.cc, w, j) ==>
          exists p: nat :: Apart(lang.cc, w, j, v, p))
  }

  // ---------------------------------------------------------------- what a match outputs

  predicate RendersAt(cc: CharClasses, c: char, d: char) {
    if cc.space(d) then c == ' ' else cc.lower(c) == cc.lower(d)
  }

  /** The text spells the word from its `k`-th character on, with single spaces. */
  predicate Renders(cc: CharClasses, o: string, w: string, k: nat)
    requires k <= |w|
  {
    |o| == |w| - k && forall j :: 0 <= j < |o| ==> RendersAt(cc, o[j], w[k + j])
  }

  lemma RendersMore(cc: CharClasses, c: char, o: string, w: string, k: nat)
    requires k < |w| && Renders(cc, o, w, k + 1) && RendersAt(cc, c, w[k])
    ensures Renders(cc, [c] + o, w, k)
  {
    var all := [c] + o;
    forall j | 0 <= j < |all| ensures RendersAt(cc, all[j], w[k + j]) {
      if j > 0 {
        assert RendersAt(cc, o[j - 1], w[k + 1 + (j - 1)]);
      }
    }
  }

  lemma {:induction false} MatchRenders(cc: CharClasses, s: string, i: nat, w: string, k: nat)
    requires i <= |s| && k <= |w| && MatchWord(cc, s, i, w, k).Match?
    ensures Renders(cc, MatchWord(cc, s, i, w, k).output, w, k)
    decreases |w| - k
  {
    if k < |w| {
      var j := if cc.space(w[k]) then ClassEnd(s, i + 1, cc.space) else AfterStop(cc, s, i + 1, w, k);
      MatchRenders(cc, s, j, w, k + 1);
      RendersMore(cc, if cc.space(w[k]) then ' ' else s[i], MatchWord(cc, s, j, w, k + 1).output, w, k);
    }
  }

  lemma NoSpaceAfterStop(cc: CharClasses, w: string, k: nat)
    requires Sane(cc) && IsWord(cc, w) && k + 1 < |w| && (w[k] == '.' || cc.space(w[k]))
    ensures !cc.space(w[k + 1])
  {
    assert !cc.alnum('.');
  }

  lemma RenderedVisible(cc: CharClasses, c: char, d: char)
    requires SaneCase(cc) && RendersAt(cc, c, d) && !cc.space(d)
    ensures !cc.space(c)
  {
  }

  lemma RenderedHead(cc: CharClasses, o: string, w: string, k: nat)
    requires k < |w| && Renders(cc, o, w, k)
    ensures RendersAt(cc, o[0], w[k]) && Renders(cc, o[1..], w, k + 1) && o == [o[0]] + o[1..]
  {
    assert RendersAt(cc, o[0], w[k + 0]);
    forall j | 0 <= j < |o| - 1 ensures RendersAt(cc, o[1..][j], w[k + 1 + j]) {
      assert RendersAt(cc, o[j + 1], w[k + (j + 1)]);
    }
  }

  predicate HasAt(s: string, i: nat, o: string) {
    i + |o| <= |s| && s[i..i + |o|] == o
  }

  lemma HasTail(s: string, i: nat, o: string)
    requires HasAt(s, i, o) && o != ""
    ensures s[i] == o[0] && HasAt(s, i + 1, o[1..])
  {
    assert s[i] == s[i..i + |o|][0];
    assert s[i + 1..i + |o|] == s[i..i + |o|][1..];
  }

  /** In rendered text nothing is skipped. */
  lemma NothingSkipped(cc: CharClasses, s: string, i: nat, o: string, w: string, k: nat)
    requires Sane(cc) && SaneCase(cc) && IsWord(cc, w) && k < |w| && Renders(cc, o, w, k) && HasAt(s, i, o)
    ensures cc.space(w[k]) ==> ClassEnd(s, i + 1, cc.space) == i + 1
    ensures !cc.space(w[k]) ==> AfterStop(cc, s, i + 1, w, k) == i + 1
  {
    HasTail(s, i, o);
    if k + 1 < |w| && (w[k] == '.' || cc.space(w[k])) {
      NoSpaceAfterStop(cc, w, k);
      RenderedHead(cc, o, w, k);
      RenderedHead(cc, o[1..], w, k + 1);
      HasTail(s, i + 1, o[1..]);
      RenderedVisible(cc, o[1..][0], w[k + 1]);
    }
  }

  /** Rendered text is matched, and output as it is. */
  lemma {:induction false} RenderedMatches(cc: CharClasses, s: string, i: nat, o: string, w: string, k: nat)
    requires Sane(cc) && SaneCase(cc) && IsWord(cc, w) && k <= |w| && Renders(cc, o, w, k) && HasAt(s, i, o)
    ensures MatchWord(cc, s, i, w, k) == Match(i + |o|, o)
    decreases |w| - k
  {
    if k < |w| {
      HasTail(s, i, o);
      RenderedHead(cc, o, w, k);
      NothingSkipped(cc, s, i, o, w, k);
      RenderedMatches(cc, s, i + 1, o[1..], w, k + 1);
    } else {
      assert o == "";
    }
  }

  // ---------------------------------------------------------------- two words

  lemma {:induction false} OneWordOnly(cc: CharClasses, s: string, i: nat, v: string, w: string, j: nat, k: nat)
    requires Sane(cc) && SaneCase(cc) && IsWord(cc, v) && IsWord(cc, w) && DifferFirst(cc, v, w, j) && k <= j && i <= |s|
    ensures MatchWord(cc, s, i, v, k) == NoMatch || MatchWord(cc, s, i, w, k) == NoMatch
    decreases j - k
  {
    if k < j {
      assert !Differ(cc, v[k], w[k]);
      if i < |s| {
        if v[k] == '.' {
          NoSpaceAfterStop(cc, v, k);
          NoSpaceAfterStop(cc, w, k);
        }
        var n := if cc.space(v[k]) then ClassEnd(s, i + 1, cc.space) else AfterStop(cc, s, i + 1, v, k);
        OneWordOnly(cc, s, n, v, w, j, k + 1);
      }
    }
  }

  /** The first word found is the only one that matches. */
  lemma {:induction false} FirstIsOnly(lang: Language, s: string, i: nat, n: nat, w: string)
    requires Orderly(lang) && i <= |s| && n <= |lang.protected| && w in lang.protected[n..]
    requires WordAt(lang.cc, s, i, w).Match?
    ensures FirstWord(lang, s, i, n) == WordAt(lang.cc, s, i, w)
    decreases |lang.protected| - n
  {
    var v := lang.protected[n];
    if v != w {
      assert v in lang.protected && w in lang.protected;
      var j: nat :| DifferFirst(lang.cc, v, w, j);
      OneWordOnly(lang.cc, s, i, v, w, j, 0);
      FirstIsOnly(lang, s, i, n + 1, w);
    }
  }

  lemma {:induction false} FoundWord(lang: Language, s: string, i: nat, n: nat) returns (w: string)
    requires i <= |s| && n <= |lang.protected| && FirstWord(lang, s, i, n).Match?
    ensures w in lang.protected && FirstWord(lang, s, i, n) == WordAt(lang.cc, s, i, w)
    decreases |lang.protected| - n
  {
    w := lang.protected[n];
    if WordAt(lang.cc, s, i, w).NoMatch? {
      w := FoundWord(lang, s, i, n + 1);
    }
  }

  // ---------------------------------------------------------------- no word is entered

  /** The match is not cut off inside a run of letters. */
  predicate Clean(cc: CharClasses, s: string, m: Match) {
    m.Match? && (m.end < |s| ==> !cc.alpha(s[m.end]))
  }

  lemma DifferentReads(cc: CharClasses, c: char, d: char, e: char)
    requires SaneCase(cc) && Differ(cc, d, e) && RendersAt(cc, c, e) && cc.Valid()
    ensures if cc.space(d) then !cc.space(c) else cc.lower(c) != cc.lower(d)
  {
  }

  lemma EndsBeforeLetter(cc: CharClasses, s: string, i: nat, w: string, d: char)
    requires SaneCase(cc) && Sane(cc) && cc.alpha(d) && i < |s| && RendersAt(cc, s[i], d)
    ensures !Clean(cc, s, MatchWord(cc, s, i, w, |w|))
  {
    assert !cc.space(d);
  }

  lemma OtherCharacter(cc: CharClasses, s: string, i: nat, w: string, k: nat, d: char)
    requires SaneCase(cc) && cc.Valid() && k < |w| && i < |s| && RendersAt(cc, s[i], d) && Differ(cc, w[k], d)
    ensures MatchWord(cc, s, i, w, k) == NoMatch
  {
    DifferentReads(cc, s[i], w[k], d);
  }

  lemma StopsHere(cc: CharClasses, s: string, i: nat, w: string, k: nat, d: char)
    requires SaneCase(cc) && Sane(cc) && k <= |w| && i < |s| && RendersAt(cc, s[i], d)
    requires if k == |w| then cc.alpha(d) else Differ(cc, w[k], d)
    ensures !Clean(cc, s, MatchWord(cc, s, i, w, k))
  {
    if k == |w| {
      EndsBeforeLetter(cc, s, i, w, d);
    } else {
      OtherCharacter(cc, s, i, w, k, d);
    }
  }

  /** Where the text `o` of the word `v` stands, the word `w` is not read on from its place `j`. */
  lemma {:induction false} NotEntered(cc: CharClasses, s: string, i: nat, w: string, j: nat, v: string, o: string, p: nat, far: nat,
                                      k: nat)
    requires Sane(cc) && SaneCase(cc) && IsWord(cc, v) && IsWord(cc, w) && j <= |w| && Apart(cc, w, j, v, far) && p <= far
    requires Renders(cc, o, v, p) && HasAt(s, i, o) && k == j + p
    ensures !Clean(cc, s, MatchWord(cc, s, i, w, k))
    decreases far - p
  {
    HasTail(s, i, o);
    RenderedHead(cc, o, v, p);
    if k == |w| || Differ(cc, w[k], v[p]) {
      StopsHere(cc, s, i, w, k, v[p]);
      return;
    }
    NotEntered(cc, s, i + 1, w, j, v, o[1..], p + 1, far, k + 1);
    StepTogether(cc, s, i, w, k, v, p, o);
  }

  lemma StepTogether(cc: CharClasses, s: string, i: nat, w: string, k: nat, v: string, p: nat, o: string)
    requires Sane(cc) && SaneCase(cc) && IsWord(cc, v) && IsWord(cc, w) && k < |w| && p + 1 < |v|
    requires !Differ(cc, w[k], v[p]) && Renders(cc, o, v, p) && HasAt(s, i, o)
    ensures Clean(cc, s, MatchWord(cc, s, i, w, k)) ==> Clean(cc, s, MatchWord(cc, s, i + 1, w, k + 1))
  {
    HasTail(s, i, o);
    RenderedHead(cc, o, v, p);
    NothingSkipped(cc, s, i, o, v, p);
    if cc.space(w[k]) {
      assert ClassEnd(s, i + 1, cc.space) == i + 1;
    } else if w[k] == '.' && k + 1 < |w| {
      assert v[p] == '.';
      NoSpaceAfterStop(cc, v, p);
    }
  }
}

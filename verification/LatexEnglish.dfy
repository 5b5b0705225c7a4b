/** The program's own word lists meet what the theorems about a second pass rely on. */
module LatexEnglish {
  import opened PyText
  import opened LatexReflow
  import opened LatexIdempotence
  import opened LatexMachines
  import opened LatexMarkup
  import opened LatexWords

  // ---------------------------------------------------------------- the character classes

  lemma LettersAreVisible(c: char)
    requires AsciiAlnum(c)
    ensures !UnicodeSpace(c)
  {
  }

  lemma MarksAreNoLetters(c: char)
    requires c in "\\$%{}[]()*,."
    ensures !AsciiAlnum(c)
  {
  }

  lemma EnglishIsSane()
    ensures Sane(English().cc)
  {
    EnglishIsValid();
    forall c | English().cc.alnum(c) ensures !English().cc.space(c) {
      LettersAreVisible(c);
    }
    forall c | c in "\\$%{}[]()*,." ensures !English().cc.alnum(c) {
      MarksAreNoLetters(c);
    }
  }

  function Lowered(c: char): char {
    if 'A' <= c <= 'Z' then c - 'A' + 'a' else c
  }

  lemma LoweredAlike(c: char, d: char)
    requires Lowered(c) == Lowered(d)
    ensures (UnicodeSpace(c) <==> UnicodeSpace(d)) && (AsciiAlpha(c) <==> AsciiAlpha(d)) && (c == '.' <==> d == '.')
  {
    if AsciiAlpha(c) {
      LettersAreVisible(c);
      LettersAreVisible(d);
    } else {
      assert c == d;
    }
  }

  lemma LowerIs(c: char)
    ensures English().cc.lower(c) == [Lowered(c)]
  {
  }

  lemma EnglishIsSaneCase()
    ensures SaneCase(English().cc)
  {
    var cc := English().cc;
    forall c, d | cc.lower(c) == cc.lower(d)
      ensures (cc.space(c) <==> cc.space(d)) && (cc.alpha(c) <==> cc.alpha(d)) && (c == '.' <==> d == '.')
    {
      LowerIs(c);
      LowerIs(d);
      assert [Lowered(c)][0] == [Lowered(d)][0];
      LoweredAlike(c, d);
    }
  }

  // ---------------------------------------------------------------- the words

  lemma EnglishNames()
    ensures Named(English())
  {
    forall n | n in BLOCK + STANDALONE ensures n != "" && English().cc.alpha(n[0]) {
      assert 'a' <= n[0] <= 'z';
    }
  }

  /** Letters and full stops only. */
  predicate Abbreviation(w: string) {
    |w| >= 3 && AsciiAlpha(w[0]) && w[|w| - 1] == '.' && forall j :: 0 <= j < |w| ==> AsciiAlpha(w[j]) || w[j] == '.'
  }

  const OTHERS: seq<string> := ["e.g.", "i.e.", "etc.", "cf.", "vs.", "Fig.", "Eq.", "Sec.", "Tab.",
                                "Dr.", "Mr.", "Ms.", "Prof."]

  lemma OtherWords(w: string)
    requires w in OTHERS
    ensures Abbreviation(w)
  {
  }

  lemma AbbreviationIsWord(w: string)
    requires Abbreviation(w)
    ensures IsWord(English().cc, w)
  {
    forall j | 0 <= j < |w| ensures !UnicodeSpace(w[j]) {
      if w[j] != '.' {
        LettersAreVisible(w[j]);
      }
    }
  }

  lemma EtAlIsWord(w: string)
    requires w == "et al."
    ensures IsWord(English().cc, w)
  {
    assert forall j :: 0 <= j < 6 && j != 2 ==> !UnicodeSpace(w[j]);
  }

  lemma EnglishWord(w: string)
    requires w in PROTECTED
    ensures IsWord(English().cc, w)
  {
    if w == "et al." {
      EtAlIsWord(w);
    } else {
      assert w in OTHERS;
      OtherWords(w);
      AbbreviationIsWord(w);
    }
  }

  // ---------------------------------------------------------------- no two words begin alike

  lemma ByFirstLetter(w: string)
    requires w in PROTECTED
    ensures w != "" && match Lowered(w[0])
                       case 'e' => w in ["e.g.", "etc.", "Eq.", "et al."]
                       case 'm' => w in ["Mr.", "Ms."]
                       case 'i' => w == "i.e." case 'c' => w == "cf." case 'v' => w == "vs." case 'f' => w == "Fig."
                       case 's' => w == "Sec." case 't' => w == "Tab." case 'd' => w == "Dr." case 'p' => w == "Prof."
                       case _ => false
  {
  }

  /** The lowered first three characters tell the words apart. */
  lemma Begins(v: string, w: string)
    requires v in PROTECTED && w in PROTECTED && v != w && Lowered(v[0]) == Lowered(w[0])
    ensures |v| >= 3 && |w| >= 3 && (Lowered(v[1]) != Lowered(w[1]) || (v[2] == 'c' && w[2] == ' ') || (v[2] == ' ' && w[2] == 'c'))
  {
    ByFirstLetter(v);
    ByFirstLetter(w);
  }

  lemma Openings(w: string)
    requires w in PROTECTED
    ensures |w| >= 3 && AsciiAlpha(w[0]) && Lowered(w[0]) !in "ag" && (AsciiAlpha(w[1]) || w[1] == '.')
    ensures Lowered(w[0]) == 'e' && w[1] == '.' ==> w == "e.g."
  {
  }

  lemma DifferIs(c: char, d: char)
    ensures Differ(English().cc, c, d) <==>
              if UnicodeSpace(c) || UnicodeSpace(d) then UnicodeSpace(c) != UnicodeSpace(d) else Lowered(c) != Lowered(d)
  {
    LowerIs(c);
    LowerIs(d);
    assert [Lowered(c)][0] == Lowered(c) && [Lowered(d)][0] == Lowered(d);
  }

  lemma LettersDiffer(c: char, d: char)
    requires (AsciiAlpha(c) || c == '.') && (AsciiAlpha(d) || d == '.')
    ensures Differ(English().cc, c, d) <==> Lowered(c) != Lowered(d)
  {
    DifferIs(c, d);
    assert !UnicodeSpace('.');
    if AsciiAlpha(c) { LettersAreVisible(c); }
    if AsciiAlpha(d) { LettersAreVisible(d); }
  }

  lemma FirstTwo(v: string, w: string)
    requires v in PROTECTED && w in PROTECTED
    ensures |v| >= 3 && |w| >= 3
    ensures forall j :: 0 <= j < 2 ==> (Differ(English().cc, v[j], w[j]) <==> Lowered(v[j]) != Lowered(w[j]))
  {
    Openings(v);
    Openings(w);
    LettersDiffer(v[0], w[0]);
    LettersDiffer(v[1], w[1]);
  }

  lemma ThirdDiffers(v: string, w: string)
    requires v in PROTECTED && w in PROTECTED && v != w && Lowered(v[0]) == Lowered(w[0]) && |v| >= 3 && |w| >= 3
    requires Lowered(v[1]) == Lowered(w[1])
    ensures Differ(English().cc, v[2], w[2])
  {
    Begins(v, w);
    DifferIs(v[2], w[2]);
  }

  lemma EnglishDiffer(v: string, w: string) returns (j: nat)
    requires v in PROTECTED && w in PROTECTED && v != w
    ensures DifferFirst(English().cc, v, w, j)
  {
    FirstTwo(v, w);
    if Lowered(v[0]) != Lowered(w[0]) {
      return 0;
    }
    if Lowered(v[1]) != Lowered(w[1]) {
      return 1;
    }
    ThirdDiffers(v, w);
    j := 2;
  }

  lemma OnlyStopIsLast(w: string, j: nat)
    requires w in OTHERS && w != "e.g." && w != "i.e."
    ensures !(0 < j < |w| && w[j - 1] == '.')
  {
    assert forall k :: 0 <= k < |w| - 1 ==> w[k] != '.';
  }

  lemma SpecialPlaces(w: string, j: nat)
    requires w in ["e.g.", "i.e.", "et al."] && Inner(English().cc, w, j)
    ensures j == if w == "et al." then 3 else 2
  {
    assert forall c :: c in "egialt." ==> !UnicodeSpace(c);
  }

  lemma NoInnerPlace(w: string, j: nat)
    requires w in OTHERS && w != "e.g." && w != "i.e."
    ensures !Inner(English().cc, w, j)
  {
    OnlyStopIsLast(w, j);
    OtherWords(w);
    if 0 < j < |w| {
      AbbreviationHasNoSpace(w, j - 1);
    }
  }

  lemma InnerPlaces(w: string, j: nat)
    requires w in PROTECTED && Inner(English().cc, w, j)
    ensures ((w == "e.g." || w == "i.e.") && j == 2) || (w == "et al." && j == 3)
  {
    if w in ["e.g.", "i.e.", "et al."] {
      SpecialPlaces(w, j);
    } else {
      assert w in OTHERS;
      NoInnerPlace(w, j);
    }
  }

  lemma AbbreviationHasNoSpace(w: string, j: nat)
    requires Abbreviation(w) && j < |w|
    ensures !UnicodeSpace(w[j])
  {
    if w[j] != '.' {
      LettersAreVisible(w[j]);
    }
  }

  lemma EnglishApart(w: string, v: string, j: nat) returns (p: nat)
    requires w in PROTECTED && v in PROTECTED && Inner(English().cc, w, j)
    ensures j <= |w| && Apart(English().cc, w, j, v, p)
  {
    InnerPlaces(w, j);
    Openings(v);
    LettersDiffer(w[j], v[0]);
    if Lowered(w[j]) != Lowered(v[0]) {
      return 0;
    }
    assert w == "i.e.";
    LettersDiffer(w[3], v[1]);
    if v[1] != '.' {
      return 1;
    }
    assert v == "e.g.";
    p := 2;
  }

  /** All that the theorems ask of a language holds of the program's lists. */
  lemma EnglishIsOrderly()
    ensures Orderly(English()) && Named(English())
  {
    var lang := English();
    EnglishIsValid();
    EnglishNames();
    EnglishIsSane();
    EnglishIsSaneCase();
    forall w | w in lang.protected ensures IsWord(lang.cc, w) {
      EnglishWord(w);
    }
    forall v, w | v in lang.protected && w in lang.protected && v != w ensures exists j: nat :: DifferFirst(lang.cc, v, w, j) {
      var j := EnglishDiffer(v, w);
    }
    forall w, v, j: nat | w in lang.protected && v in lang.protected && Inner(lang.cc, w, j)
      ensures exists p: nat :: Apart(lang.cc, w, j, v, p)
    {
      var p := EnglishApart(w, v, j);
    }
  }
}

/** What the pieces of the toast link look like, character by character: the printed form, the command-line forms and
    the payloads that are read. */
module ToastForms {
  import opened Options
  import opened PyText
  import opened Utf8
  import opened ToastLink

  // ---------------------------------------------------------------- the printed link

  /** Letters, digits and four marks stand for themselves, any other byte is a percent sign and two upper-case
      hexadecimal digits. */
  lemma QuotedByteIs(b: Byte)
    ensures var plain := 'A' as int <= b <= 'Z' as int || 'a' as int <= b <= 'z' as int || '0' as int <= b <= '9' as int
                         || b == '_' as int || b == '.' as int || b == '-' as int || b == '~' as int;
            QuoteBytes([b]) == if plain then [b as char] else ['%', "0123456789ABCDEF"[b / 16], "0123456789ABCDEF"[b % 16]]
  {
    assert [b][1..] == [];
    DigitIs(b / 16);
    DigitIs(b % 16);
  }

  lemma DigitIs(n: int)
    requires 0 <= n < 16
    ensures HexDigit(n) == "0123456789ABCDEF"[n]
  {
  }

  lemma {:induction false} QuoteConcat(a: seq<Byte>, b: seq<Byte>)
    ensures QuoteBytes(a + b) == QuoteBytes(a) + QuoteBytes(b)
  {
    if a == [] {
      assert a + b == b;
    } else {
      assert (a + b)[1..] == a[1..] + b;
      QuoteConcat(a[1..], b);
    }
  }

  /** The UTF-8 bytes of a character: six bits in each continuation byte, the first byte tells how many follow, and no
      form is longer than need be. */
  lemma EncodedCharIs(c: char)
    ensures var n, bs := c as int, EncodeChar(c);
            match |bs|
            case 1 => n == bs[0] < 0x80
            case 2 => && n >= 0x80 && 0xC0 <= bs[0] < 0xE0 && 0x80 <= bs[1] < 0xC0
                      && n == (bs[0] as int - 0xC0) * 0x40 + (bs[1] as int - 0x80)
            case 3 => && n >= 0x800 && 0xE0 <= bs[0] < 0xF0 && 0x80 <= bs[1] < 0xC0 && 0x80 <= bs[2] < 0xC0
                      && n == (bs[0] as int - 0xE0) * 0x1000 + (bs[1] as int - 0x80) * 0x40 + (bs[2] as int - 0x80)
            case _ => && n >= 0x1_0000 && |bs| == 4 && 0xF0 <= bs[0] < 0xF8
                      && 0x80 <= bs[1] < 0xC0 && 0x80 <= bs[2] < 0xC0 && 0x80 <= bs[3] < 0xC0
                      && n == (bs[0] as int - 0xF0) * 0x4_0000 + (bs[1] as int - 0x80) * 0x1000
                              + (bs[2] as int - 0x80) * 0x40 + (bs[3] as int - 0x80)
  {
    SixBitGroups(c as int);
  }

  lemma {:induction false} EncodeConcat(a: string, b: string)
    ensures Encode(a + b) == Encode(a) + Encode(b)
    ensures |a| == 1 ==> Encode(a) == EncodeChar(a[0])
  {
    if a == [] {
      assert a + b == b;
    } else {
      assert (a + b)[1..] == a[1..] + b;
      EncodeConcat(a[1..], b);
      if |a| == 1 {
        assert a[1..] == [];
      }
    }
  }

  /** The link a toast prints, and the argument its launcher passes on. */
  lemma PrintedForms(id: string, link: string)
    ensures LaunchFor(id) == "androidtools://notification?id=" + QuoteBytes(Encode(id))
    ensures ActivationArg(link) == "--androidtools-toast-activation=\"" + link + "\""
  {
    assert "androidtools://notification?id=" == "androidtools://notification" + "?id=";
    assert "--androidtools-toast-activation=\"" == "--androidtools-toast-activation=" + "\"";
    Regroup("androidtools://notification", "?id=", QuoteBytes(Encode(id)));
    Regroup("--androidtools-toast-activation=", "\"", link + "\"");
    Regroup("\"", link, "\"");
  }

  lemma Regroup(a: string, b: string, c: string)
    ensures a + b + c == a + (b + c)
  {
  }

  // ---------------------------------------------------------------- the command line

  lemma {:induction false} RStripIs(cc: CharClasses, t: string, b: string)
    requires t == "" || !cc.space(t[|t| - 1])
    requires forall c :: c in b ==> cc.space(c)
    ensures RStrip(cc, t + b) == t
  {
    if b == "" {
      assert t + b == t;
    } else {
      assert b[|b| - 1] in b;
      assert (t + b)[..|t + b| - 1] == t + b[..|b| - 1];
      RStripIs(cc, t, b[..|b| - 1]);
    }
  }

  lemma {:induction false} LStripIs(cc: CharClasses, a: string, t: string)
    requires t == "" || !cc.space(t[0])
    requires forall c :: c in a ==> cc.space(c)
    ensures LStrip(cc, a + t) == t
  {
    if a == "" {
      assert a + t == t;
    } else {
      assert a[0] in a;
      assert (a + t)[1..] == a[1..] + t;
      LStripIs(cc, a[1..], t);
    }
  }

  lemma StripIs(cc: CharClasses, a: string, t: string, b: string)
    requires t != "" && !cc.space(t[0]) && !cc.space(t[|t| - 1])
    requires forall c :: c in a || c in b ==> cc.space(c)
    ensures Strip(cc, a + t + b) == t
  {
    Regroup(a, t, b);
    LStripIs(cc, a, t + b);
    RStripIs(cc, t, b);
  }

  /** White space around a payload goes, then one pair of double quotes around it. */
  lemma QuotesGo(cc: CharClasses, a: string, t: string, b: string)
    requires cc.Valid() && (forall c :: c in a || c in b ==> cc.space(c))
    ensures StripQuotes(cc, a + ("\"" + t + "\"") + b) == t
    ensures t != "" && !cc.space(t[0]) && !cc.space(t[|t| - 1]) && !(|t| >= 2 && t[0] == '"' && t[|t| - 1] == '"') ==>
              StripQuotes(cc, a + t + b) == t
  {
    var quoted := "\"" + t + "\"";
    StripIs(cc, a, quoted, b);
    assert quoted[1..|quoted| - 1] == t;
    if t != "" && !cc.space(t[0]) && !cc.space(t[|t| - 1]) {
      StripIs(cc, a, t, b);
    }
  }

  /** An argument that is not the flag, does not start with the flag and an equals sign, and has no link in it. */
  ghost predicate IsOther(arg: string) {
    && arg != "--androidtools-toast-activation"
    && !("--androidtools-toast-activation=" <= arg)
    && forall i :: 0 <= i <= |arg| ==> !("androidtools://notification" <= arg[i..])
  }

  lemma PrefixIs(s: string, t: string, i: nat)
    requires i <= |s|
    ensures StartsWith(s, t, i) <==> t <= s[i..]
  {
    assert i + |t| <= |s| ==> s[i..i + |t|] == s[i..][..|t|];
  }

  lemma OtherIsQuiet(arg: string)
    ensures IsOther(arg) <==> Quiet([arg])
  {
    PrefixIs(arg, "--androidtools-toast-activation=", 0);
    assert arg[0..] == arg;
    forall i: nat | i <= |arg|
      ensures StartsWith(arg, "androidtools://notification", i) <==> "androidtools://notification" <= arg[i..]
    {
      PrefixIs(arg, "androidtools://notification", i);
    }
    assert arg in [arg];
  }

  /** The payload is taken from the first argument that has one: what follows a flag that is not the last argument, what
      follows the flag and an equals sign, or a whole argument with a link in it. */
  lemma PayloadIs(cc: CharClasses, before: seq<string>, arg: string, after: seq<string>)
    requires forall a :: a in before ==> IsOther(a)
    ensures PayloadFromArgv(cc, before) == ""
    ensures arg == "--androidtools-toast-activation" && after != [] ==>
              PayloadFromArgv(cc, before + [arg] + after) == StripQuotes(cc, after[0])
    ensures "--androidtools-toast-activation=" <= arg ==>
              PayloadFromArgv(cc, before + [arg] + after) == StripQuotes(cc, arg[32..])
    ensures !("--androidtools-toast-activation=" <= arg) && arg != "--androidtools-toast-activation" && !IsOther(arg) ==>
              PayloadFromArgv(cc, before + [arg] + after) == StripQuotes(cc, arg)
    ensures arg == "--androidtools-toast-activation" ==> PayloadFromArgv(cc, before + [arg]) == ""
  {
    forall a | a in before ensures a != FLAG && !StartsWith(a, FLAG_PREFIX) && !Contains(a, LINK) {
      OtherIsQuiet(a);
      assert a in [a];
    }
    assert before + [] == before;
    QuietIsSkipped(cc, before, []);
    assert before + [arg] + after == before + ([arg] + after);
    QuietIsSkipped(cc, before, [arg] + after);
    QuietIsSkipped(cc, before, [arg]);
    FirstArgument(cc, arg, after);
  }

  lemma FirstArgument(cc: CharClasses, arg: string, after: seq<string>)
    ensures var payload := PayloadFromArgv(cc, [arg] + after);
            if arg == "--androidtools-toast-activation" then
              if after != [] then payload == StripQuotes(cc, after[0]) else payload == ""
            else if "--androidtools-toast-activation=" <= arg then payload == StripQuotes(cc, arg[32..])
            else if !IsOther(arg) then payload == StripQuotes(cc, arg)
            else payload == PayloadFromArgv(cc, after)
    ensures arg == "--androidtools-toast-activation" ==> PayloadFromArgv(cc, [arg]) == ""
  {
    OtherIsQuiet(arg);
    PrefixIs(arg, "--androidtools-toast-activation=", 0);
    assert arg[0..] == arg;
    if arg == "--androidtools-toast-activation" {
      FlagHasNoLink();
    }
    assert ([arg] + after)[1..] == after && [arg][1..] == [];
  }

  lemma FlagHasNoLink()
    ensures !Contains(FLAG, LINK)
  {
    var flag, link := "--androidtools-toast-activation", "androidtools://notification";
    assert |flag| == 31 && |link| == 27 && link[12] == ':';
    assert flag[12] != ':' && flag[13] != ':' && flag[14] != ':' && flag[15] != ':' && flag[16] != ':';
    forall i: nat | i <= |flag| ensures !StartsWith(flag, link, i) {
      assert i + |link| <= |flag| ==> flag[i..i + |link|][12] == flag[i + 12];
    }
  }

  // ---------------------------------------------------------------- payloads

  /** The query of a URL is what stands between the first question mark and the first number sign; without a question
      mark before it there is none. */
  lemma QueryIs(base: string, query: string, fragment: string)
    requires forall c :: c in base || c in query || c in fragment ==> c != '\t' && c != '\r' && c != '\n'
    requires forall c :: c in base || c in query ==> c != '#'
    requires '?' !in base && (fragment == "" || fragment[0] == '#')
    ensures UrlQuery(base + "?" + query + fragment) == query
    ensures UrlQuery(base + fragment) == ""
  {
    WholeIs(base + "?" + query, fragment);
    FindAfter(base, '?', query);
    WholeIs(base, fragment);
    FindNone(base, '?');
  }

  lemma WholeIs(whole: string, fragment: string)
    requires forall c :: c in whole || c in fragment ==> c != '\t' && c != '\r' && c != '\n'
    requires '#' !in whole && (fragment == "" || fragment[0] == '#')
    ensures var clean := RemoveUnsafe(whole + fragment); clean[..Find(clean, '#')] == whole
  {
    var url := whole + fragment;
    assert forall c :: c in url ==> c in whole || c in fragment;
    NothingUnsafe(url);
    assert forall i :: 0 <= i < |whole| ==> url[i] == whole[i] && whole[i] in whole;
    assert fragment != "" ==> url[|whole|] == '#';
  }

  lemma {:induction false} RemoveConcat(a: string, b: string)
    ensures RemoveUnsafe(a + b) == RemoveUnsafe(a) + RemoveUnsafe(b)
  {
    if a == "" {
      assert a + b == b;
    } else {
      assert (a + b)[1..] == a[1..] + b;
      RemoveConcat(a[1..], b);
    }
  }

  /** Tabs, carriage returns and line feeds in a URL do not count. */
  lemma UnsafeGoes(a: string, c: char, b: string)
    requires c == '\t' || c == '\r' || c == '\n'
    ensures UrlQuery(a + [c] + b) == UrlQuery(a + b)
  {
    RemoveConcat(a + [c], b);
    RemoveConcat(a, [c]);
    RemoveConcat(a, b);
    assert [c][1..] == "" && RemoveUnsafe([c]) == "";
    assert RemoveUnsafe(a) + "" == RemoveUnsafe(a);
  }

  /** A query is read pair by pair between ampersands: the first pair with the key and a value that is not empty gives
      its value; a plus sign reads as a space, before percent signs are looked at. */
  lemma ValueIs(key: string, k: string, v: string, rest: string, more: bool)
    requires '=' !in k && '&' !in k && '&' !in v && (!more ==> rest == "")
    ensures var query := k + "=" + v + if more then "&" + rest else "";
            FirstValue(query, key) ==
            if v != "" && Unquote(PlusToSpace(k)) == key then Unquote(PlusToSpace(v))
            else if more then FirstValue(rest, key) else ""
  {
    var pair := k + "=" + v;
    PairIs(pair, rest, more);
    FindAfter(k, '=', v);
    assert pair == k + ['='] + v && pair[..|k|] == k && pair[|k| + 1..] == v;
  }

  /** A plus sign reads as a space, any other character as itself. */
  lemma PlusIsSpace(a: string, c: char, b: string)
    ensures PlusToSpace(a + [c] + b) == PlusToSpace(a) + [if c == '+' then ' ' else c] + PlusToSpace(b)
    ensures PlusToSpace("") == ""
  {
  }

  lemma NoValueIs(key: string, pair: string, rest: string, more: bool)
    requires '=' !in pair && '&' !in pair && (!more ==> rest == "")
    ensures FirstValue(pair + if more then "&" + rest else "", key) == if more then FirstValue(rest, key) else ""
  {
    PairIs(pair, rest, more);
    FindNone(pair, '=');
  }

  lemma PairIs(pair: string, rest: string, more: bool)
    requires '&' !in pair && (!more ==> rest == "")
    ensures var query := pair + if more then "&" + rest else "";
            var k := Find(query, '&');
            k == |pair| && query[..k] == pair && (more <==> k < |query|) && (more ==> query[k + 1..] == rest)
  {
    if more {
      FindAfter(pair, '&', rest);
      assert pair + ("&" + rest) == pair + ['&'] + rest;
      assert (pair + ['&'] + rest)[..|pair|] == pair && (pair + ['&'] + rest)[|pair| + 1..] == rest;
    } else {
      assert pair + "" == pair;
      FindNone(pair, '&');
      assert pair[..|pair|] == pair;
    }
  }

  /** A payload is a link, a query that starts with the id, or an id by itself. */
  lemma PayloadIsRead(payload: string)
    ensures "androidtools://notification" <= payload ==> ParsePayload(payload) == FirstValue(UrlQuery(payload), "id")
    ensures "id=" <= payload ==> ParsePayload(payload) == FirstValue(payload, "id")
    ensures !("androidtools://notification" <= payload) && !("id=" <= payload) ==> ParsePayload(payload) == payload
  {
    PrefixIs(payload, "androidtools://notification", 0);
    PrefixIs(payload, "id=", 0);
    assert payload[0..] == payload;
    if "id=" <= payload {
      assert payload[0] == 'i';
      FirstDiffers(payload, "androidtools://notification");
    }
  }

  // ---------------------------------------------------------------- percent-decoding

  /** The value of a hexadecimal digit, of either case. */
  lemma HexValueIs(c: char, n: int)
    ensures HexValue(c) == Some(n) <==>
              0 <= n < 16 && (c == "0123456789ABCDEF"[n] || c == "0123456789abcdef"[n])
  {
  }

  /** ASCII text is read from the left: a percent sign with two hexadecimal digits is a byte ... */
  lemma EscapeIs(a: char, b: char, n: int, m: int, rest: string, s: string)
    requires |s| >= 3 && s[0] == '%' && s[1] == a && s[2] == b && s[3..] == rest
    requires forall i :: 0 <= i < |s| ==> s[i] as int < 0x80
    requires HexValue(a) == Some(n) && HexValue(b) == Some(m)
    ensures forall i :: 0 <= i < |rest| ==> rest[i] as int < 0x80
    ensures UnquoteBytes(s) == [n * 16 + m] + UnquoteBytes(rest)
  {
    assert EscapeAt(s);
  }

  /** ... and any other character stands for itself. */
  lemma NoEscapeIs(c: char, rest: string, s: string)
    requires s != "" && s[0] == c && s[1..] == rest && forall i :: 0 <= i < |s| ==> s[i] as int < 0x80
    requires !(c == '%' && |rest| >= 2 && HexValue(rest[0]) != None && HexValue(rest[1]) != None)
    ensures forall i :: 0 <= i < |rest| ==> rest[i] as int < 0x80
    ensures UnquoteBytes(s) == [c as int] + UnquoteBytes(rest)
  {
    assert |rest| >= 2 ==> rest[0] == s[1] && rest[1] == s[2];
  }

  /** Stretches of ASCII are decoded as UTF-8; other characters stay. */
  lemma UnquoteIs(ascii: string, c: char, rest: string)
    requires (forall i :: 0 <= i < |ascii| ==> ascii[i] as int < 0x80) && c as int >= 0x80
    ensures Unquote(ascii) == Decode(UnquoteBytes(ascii))
    ensures Unquote(ascii + [c] + rest) == Decode(UnquoteBytes(ascii)) + [c] + Unquote(rest)
  {
    UnquoteRun(ascii, [c] + rest);
    UnquoteRun(ascii, "");
    assert ascii + [c] + rest == ascii + ([c] + rest) && ascii + "" == ascii;
    assert AsciiRun([c] + rest) == 0 && ([c] + rest)[1..] == rest;
    Regroup(Decode(UnquoteBytes(ascii)), [c], Unquote(rest));
    assert Decode(UnquoteBytes(ascii)) + "" == Decode(UnquoteBytes(ascii));
  }

  lemma UnquoteRun(ascii: string, rest: string)
    requires (forall i :: 0 <= i < |ascii| ==> ascii[i] as int < 0x80) && (rest == "" || rest[0] as int >= 0x80)
    ensures Unquote(ascii + rest) == Decode(UnquoteBytes(ascii)) + Unquote(rest)
  {
    var s := ascii + rest;
    RunIs(ascii, rest);
    assert s[..|ascii|] == ascii && s[|ascii|..] == rest;
    if ascii == "" {
      assert s == rest && Decode([]) == "";
    }
  }

  lemma {:induction false} RunIs(ascii: string, rest: string)
    requires (forall i :: 0 <= i < |ascii| ==> ascii[i] as int < 0x80) && (rest == "" || rest[0] as int >= 0x80)
    ensures AsciiRun(ascii + rest) == |ascii|
  {
    if ascii == "" {
      assert ascii + rest == rest;
    } else {
      assert (ascii + rest)[1..] == ascii[1..] + rest;
      RunIs(ascii[1..], rest);
    }
  }
}

/** The link a toast carries and its way back through the command line: printer (percent-encoding, section 2.1 of
    RFC 3986), activation argument, extraction from argv and query parsing. */
module ToastLink {
  import opened Options
  import opened PyText
  import opened Utf8

  const LINK := "androidtools://notification"
  const FLAG := "--androidtools-toast-activation"
  const FLAG_PREFIX := "--androidtools-toast-activation="

  // ---------------------------------------------------------------- percent-encoding

  predicate Unreserved(b: int) {
    || 'A' as int <= b <= 'Z' as int || 'a' as int <= b <= 'z' as int || '0' as int <= b <= '9' as int
    || b == '_' as int || b == '.' as int || b == '-' as int || b == '~' as int
  }

  function HexDigit(n: int): char
    requires 0 <= n < 16
  {
    if n < 10 then ('0' as int + n) as char else ('A' as int + n - 10) as char
  }

  /** Either case is accepted when reading. */
  function HexValue(c: char): Option<int> {
    if '0' <= c <= '9' then Some(c as int - '0' as int)
    else if 'A' <= c <= 'F' then Some(c as int - 'A' as int + 10)
    else if 'a' <= c <= 'f' then Some(c as int - 'a' as int + 10)
    else None
  }

  function QuoteByte(b: Byte): string {
    if Unreserved(b) then [b as char] else ['%', HexDigit(b / 16), HexDigit(b % 16)]
  }

  function QuoteBytes(bs: seq<Byte>): string {
    if bs == [] then [] else QuoteByte(bs[0]) + QuoteBytes(bs[1..])
  }

  function Quote(s: string): string {
    QuoteBytes(Encode(s))
  }

  predicate Ascii(c: char) {
    c as int < 0x80
  }

  predicate EscapeAt(s: string) {
    |s| >= 3 && s[0] == '%' && HexValue(s[1]).Some? && HexValue(s[2]).Some?
  }

  /** Bytes of an ASCII string; a '%' that does not start an escape stands for itself. */
  function UnquoteBytes(s: string): seq<Byte>
    requires forall i :: 0 <= i < |s| ==> Ascii(s[i])
  {
    if s == [] then []
    else if EscapeAt(s) then [HexValue(s[1]).value * 16 + HexValue(s[2]).value] + UnquoteBytes(s[3..])
    else
      assert Ascii(s[0]);
      var b: Byte := s[0] as int;
      [b] + UnquoteBytes(s[1..])
  }

  function AsciiRun(s: string): (n: nat)
    ensures n <= |s| && forall i :: 0 <= i < n ==> Ascii(s[i])
    ensures n < |s| ==> !Ascii(s[n])
  {
    if s == [] || !Ascii(s[0]) then 0 else 1 + AsciiRun(s[1..])
  }

  /** Runs of ASCII characters are unquoted and decoded, other characters stay. */
  function Unquote(s: string): string
    decreases |s|
  {
    if s == [] then []
    else
      var n := AsciiRun(s);
      if n == 0 then [s[0]] + Unquote(s[1..]) else Decode(UnquoteBytes(s[..n])) + Unquote(s[n..])
  }

  // ---------------------------------------------------------------- printer and parsers

  function LaunchFor(id: string): string {
    LINK + "?id=" + Quote(id)
  }

  /** `TOAST_ACTIVATION_ARG` with %1 replaced. */
  function ActivationArg(link: string): string {
    FLAG_PREFIX + "\"" + link + "\""
  }

  function StripQuotes(cc: CharClasses, payload: string): string {
    var p := Strip(cc, payload);
    if |p| >= 2 && p[0] == p[|p| - 1] == '"' then p[1..|p| - 1] else p
  }

  predicate Contains(s: string, t: string) {
    exists i :: 0 <= i <= |s| && StartsWith(s, t, i)
  }

  function PayloadFromArgv(cc: CharClasses, argv: seq<string>): string {
    if argv == [] then ""
    else if argv[0] == FLAG && |argv| > 1 then StripQuotes(cc, argv[1])
    else if StartsWith(argv[0], FLAG_PREFIX) then StripQuotes(cc, argv[0][|FLAG_PREFIX|..])
    else if Contains(argv[0], LINK) then StripQuotes(cc, argv[0])
    else PayloadFromArgv(cc, argv[1..])
  }

  predicate Unsafe(c: char) {
    c == '\t' || c == '\r' || c == '\n'
  }

  function RemoveUnsafe(s: string): string {
    if s == [] then [] else (if Unsafe(s[0]) then [] else [s[0]]) + RemoveUnsafe(s[1..])
  }

  /** Query of a URL: without tabs and line ends, up to the fragment, after the first question mark. */
  function UrlQuery(url: string): string {
    var clean := RemoveUnsafe(url);
    var whole := clean[..Find(clean, '#')];
    var k := Find(whole, '?');
    if k == |whole| then "" else whole[k + 1..]
  }

  function PlusToSpace(s: string): string {
    seq(|s|, i requires 0 <= i < |s| => if s[i] == '+' then ' ' else s[i])
  }

  /** The first non-blank value of `key` in a query string, or "". */
  function FirstValue(query: string, key: string): string
    decreases |query|
  {
    var k := Find(query, '&');
    var pair := query[..k];
    var e := Find(pair, '=');
    if e < |pair| && e + 1 < |pair| && Unquote(PlusToSpace(pair[..e])) == key then Unquote(PlusToSpace(pair[e + 1..]))
    else if k < |query| then FirstValue(query[k + 1..], key)
    else ""
  }

  function ParsePayload(payload: string): string {
    if payload == "" then ""
    else if StartsWith(payload, LINK) then FirstValue(UrlQuery(payload), "id")
    else if StartsWith(payload, "id=") then FirstValue(payload, "id")
    else payload
  }

  // ---------------------------------------------------------------- the round trip

  /** A character a quoted id can contain. */
  predicate Quoted(c: char) {
    Unreserved(c as int) || c == '%'
  }

  lemma {:induction false} QuoteIsAscii(bs: seq<Byte>)
    ensures forall c :: c in QuoteBytes(bs) ==> Quoted(c)
    ensures forall i :: 0 <= i < |QuoteBytes(bs)| ==> Ascii(QuoteBytes(bs)[i])
  {
    if bs != [] {
      QuoteIsAscii(bs[1..]);
    }
  }

  /** One quoted byte is read back as that byte. */
  lemma UnquoteHead(b: Byte, tail: string)
    requires forall i :: 0 <= i < |tail| ==> Ascii(tail[i])
    ensures forall i :: 0 <= i < |QuoteByte(b) + tail| ==> Ascii((QuoteByte(b) + tail)[i])
    ensures UnquoteBytes(QuoteByte(b) + tail) == [b] + UnquoteBytes(tail)
  {
    var head := QuoteByte(b);
    var s := head + tail;
    assert s[|head|..] == tail;
    if !Unreserved(b) {
      assert s[0] == '%' && s[1] == HexDigit(b / 16) && s[2] == HexDigit(b % 16);
    } else {
      assert s[0] == b as char;
    }
  }

  lemma {:induction false} QuoteUnquotes(bs: seq<Byte>)
    requires forall i :: 0 <= i < |QuoteBytes(bs)| ==> Ascii(QuoteBytes(bs)[i])
    ensures UnquoteBytes(QuoteBytes(bs)) == bs
  {
    if bs != [] {
      QuoteIsAscii(bs[1..]);
      QuoteUnquotes(bs[1..]);
      UnquoteHead(bs[0], QuoteBytes(bs[1..]));
    }
  }

  /** Percent-decoding undoes percent-encoding, for every string. */
  lemma UnquoteQuote(s: string)
    ensures Unquote(Quote(s)) == s
  {
    var q := Quote(s);
    QuoteIsAscii(Encode(s));
    QuoteUnquotes(Encode(s));
    DecodeEncode(s);
    var n := AsciiRun(q);
    if q != [] {
      assert q[..n] == q && Unquote(q[n..]) == [];
    }
  }

  lemma {:induction false} NothingUnsafe(s: string)
    requires forall c :: c in s ==> !Unsafe(c)
    ensures RemoveUnsafe(s) == s
  {
    if s != [] {
      NothingUnsafe(s[1..]);
    }
  }

  lemma FindAfter(a: string, c: char, rest: string)
    requires c !in a
    ensures Find(a + [c] + rest, c) == |a|
  {
    var s := a + [c] + rest;
    var k := Find(s, c);
    assert s[|a|] == c;
    assert forall i :: 0 <= i < |a| ==> s[i] == a[i] && a[i] != c;
  }

  lemma FindNone(s: string, c: char)
    requires c !in s
    ensures Find(s, c) == |s|
  {
    assert forall i :: 0 <= i < |s| ==> s[i] != c;
  }

  lemma QueryAfterMark(base: string, query: string)
    requires forall c :: c in base || c in query ==> !Unsafe(c) && c != '#'
    requires '?' !in base
    ensures UrlQuery(base + ['?'] + query) == query
  {
    var url := base + ['?'] + query;
    assert forall c :: c in url ==> c in base || c == '?' || c in query;
    NothingUnsafe(url);
    FindNone(url, '#');
    assert url[..|url|] == url;
    FindAfter(base, '?', query);
  }

  lemma QuoteIsPlain(id: string)
    ensures forall c :: c in Quote(id) ==> Quoted(c)
  {
    QuoteIsAscii(Encode(id));
  }

  lemma LinkIsPlain()
    ensures forall c :: c in LINK || c in "id=" ==> !Unsafe(c) && c != '#' && c != '?'
  {
  }

  lemma QueryOfLink(id: string)
    ensures UrlQuery(LaunchFor(id)) == "id=" + Quote(id)
  {
    var q := Quote(id);
    QuoteIsPlain(id);
    LinkIsPlain();
    assert forall c :: c in "id=" + q ==> c in "id=" || c in q;
    QueryAfterMark(LINK, "id=" + q);
    assert LaunchFor(id) == LINK + ['?'] + ("id=" + q);
  }

  lemma NoPlus(s: string)
    requires '+' !in s
    ensures PlusToSpace(s) == s
  {
    assert forall i :: 0 <= i < |s| ==> s[i] in s;
  }

  lemma UnquoteId()
    ensures Unquote("id") == "id"
  {
    assert AsciiRun("id"[1..][1..]) == 0;
    assert AsciiRun("id"[1..]) == 1;
    assert "id"[..2] == "id" && "id"[2..] == [];
    assert UnquoteBytes("d") == ['d' as int] + UnquoteBytes("d"[1..]);
    assert "id"[1..] == "d";
    assert UnquoteBytes("id") == ['i' as int, 'd' as int];
    assert Encode("id") == ['i' as int, 'd' as int] by {
      assert Encode("d") == EncodeChar('d') + Encode("d"[1..]);
    }
    DecodeEncode("id");
  }

  lemma SingleValue(key: string, value: string)
    requires '=' !in key && '+' !in key && '&' !in key && '+' !in value && '&' !in value
    requires Unquote(key) == key
    ensures FirstValue(key + ['='] + value, key) == Unquote(value)
  {
    var query := key + ['='] + value;
    assert forall c :: c in query ==> c in key || c == '=' || c in value;
    FindNone(query, '&');
    assert query[..|query|] == query;
    FindAfter(key, '=', value);
    assert query[..|key|] == key && query[|key| + 1..] == value;
    NoPlus(key);
    NoPlus(value);
  }

  lemma IdValue(id: string)
    ensures FirstValue("id=" + Quote(id), "id") == id
  {
    QuoteIsPlain(id);
    UnquoteId();
    KeyAndValue("id", Quote(id), "id=");
    UnquoteQuote(id);
  }

  lemma KeyAndValue(key: string, value: string, prefix: string)
    requires '=' !in key && '+' !in key && '&' !in key && '+' !in value && '&' !in value
    requires Unquote(key) == key && prefix == key + ['=']
    ensures FirstValue(prefix + value, key) == Unquote(value)
  {
    SingleValue(key, value);
  }

  /** Parsing a printed link returns the id. */
  lemma ParsePrintedLink(id: string)
    ensures ParsePayload(LaunchFor(id)) == id
  {
    QueryOfLink(id);
    IdValue(id);
    assert LaunchFor(id)[0..0 + |LINK|] == LINK;
  }

  /** No argument of the list is taken for an activation. */
  ghost predicate Quiet(args: seq<string>) {
    forall a :: a in args ==> a != FLAG && !StartsWith(a, FLAG_PREFIX) && !Contains(a, LINK)
  }

  lemma {:induction false} QuietIsSkipped(cc: CharClasses, before: seq<string>, rest: seq<string>)
    requires Quiet(before)
    ensures PayloadFromArgv(cc, before + rest) == PayloadFromArgv(cc, rest)
  {
    if before == [] {
      assert before + rest == rest;
    } else {
      assert before[0] in before;
      assert (before + rest)[1..] == before[1..] + rest;
      assert forall a :: a in before[1..] ==> a in before;
      QuietIsSkipped(cc, before[1..], rest);
    }
  }

  lemma StripKeeps(cc: CharClasses, s: string)
    requires s != [] && !cc.space(s[0]) && !cc.space(s[|s| - 1])
    ensures Strip(cc, s) == s
  {
  }

  /** First and last character of a printed link are printable. */
  lemma LinkEnds(id: string)
    ensures var link := LaunchFor(id); link[0] == 'a' && '!' <= link[|link| - 1] <= '~'
  {
    var q, link := Quote(id), LaunchFor(id);
    QuoteIsPlain(id);
    if q != "" {
      assert link[|link| - 1] == q[|q| - 1] && q[|q| - 1] in q;
    }
  }

  lemma StripQuotesOfLink(cc: CharClasses, id: string)
    requires cc.Valid()
    ensures StripQuotes(cc, LaunchFor(id)) == LaunchFor(id)
    ensures StripQuotes(cc, "\"" + LaunchFor(id) + "\"") == LaunchFor(id)
  {
    LinkEnds(id);
    StripKeeps(cc, LaunchFor(id));
    var wrapped := "\"" + LaunchFor(id) + "\"";
    StripKeeps(cc, wrapped);
    assert wrapped[1..|wrapped| - 1] == LaunchFor(id);
  }

  /** The ways a link can stand in argv: in the registered quoted argument, in the same argument with the quotes
      already removed, after the bare flag, or on its own. */
  datatype Form = QuotedArgument | BareArgument | AfterFlag | Alone

  function ArgumentsFor(form: Form, link: string): seq<string> {
    match form
    case QuotedArgument => [ActivationArg(link)]
    case BareArgument => [FLAG_PREFIX + link]
    case AfterFlag => [FLAG, link]
    case Alone => [link]
  }

  lemma PrefixedArgument(cc: CharClasses, payload: string, after: seq<string>)
    requires payload != ""
    ensures PayloadFromArgv(cc, [FLAG_PREFIX + payload] + after) == StripQuotes(cc, payload)
  {
    var arg := FLAG_PREFIX + payload;
    assert |FLAG| < |FLAG_PREFIX| < |arg|;
    assert arg[0..0 + |FLAG_PREFIX|] == FLAG_PREFIX && arg[|FLAG_PREFIX|..] == payload;
  }

  lemma FirstDiffers(s: string, prefix: string)
    requires s != "" && prefix != "" && s[0] != prefix[0]
    ensures !StartsWith(s, prefix)
  {
    assert |prefix| <= |s| ==> s[0..0 + |prefix|][0] == s[0];
  }

  lemma LinkAlone(cc: CharClasses, link: string, after: seq<string>)
    requires StartsWith(link, LINK)
    ensures PayloadFromArgv(cc, [link] + after) == StripQuotes(cc, link)
  {
    assert link[0] == LINK[0] by { assert link[0..0 + |LINK|][0] == link[0]; }
    FirstDiffers(link, FLAG_PREFIX);
    assert StartsWith(link, LINK, 0);
  }

  lemma ExtractLink(cc: CharClasses, link: string, form: Form, after: seq<string>)
    requires StartsWith(link, LINK) && StripQuotes(cc, link) == link && StripQuotes(cc, "\"" + link + "\"") == link
    ensures PayloadFromArgv(cc, ArgumentsFor(form, link) + after) == link
  {
    match form {
      case QuotedArgument =>
        var payload := "\"" + link + "\"";
        PrefixedArgument(cc, payload, after);
        assert ActivationArg(link) == FLAG_PREFIX + payload;
      case BareArgument => PrefixedArgument(cc, link, after);
      case AfterFlag => assert ([FLAG, link] + after)[1] == link;
      case Alone => LinkAlone(cc, link, after);
    }
  }

  /** For every id, every form and all surrounding arguments: print, wrap, extract and parse gives the id back. */
  lemma LinkRoundTrip(cc: CharClasses, id: string, form: Form, before: seq<string>, after: seq<string>)
    requires cc.Valid() && Quiet(before)
    ensures ParsePayload(PayloadFromArgv(cc, before + ArgumentsFor(form, LaunchFor(id)) + after)) == id
  {
    var link := LaunchFor(id);
    assert StartsWith(link, LINK) by { assert link[0..0 + |LINK|] == LINK; }
    StripQuotesOfLink(cc, id);
    ParsePrintedLink(id);
    ExtractLink(cc, link, form, after);
    var args := ArgumentsFor(form, link) + after;
    assert before + ArgumentsFor(form, link) + after == before + args;
    QuietIsSkipped(cc, before, args);
  }
}

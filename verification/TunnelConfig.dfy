/** coreapi/linphone_tunnel.cc: server configurations as text, one word each, and back. */
module TunnelConfig {
  import opened Wrappers

  /** The settings of a LinphoneTunnelConfig. A mirror port of -1 means no UDP mirror. */
  datatype Settings = Settings(host: Option<string>, port: int, mirrorPort: int, delay: int)

  const DEFAULT_MIRROR_PORT := 12345
  const DEFAULT_DELAY := 1000

  // ---- decimal numbers

  function Digit(n: nat): (c: char)
    requires n < 10
    ensures IsDigit(c) && DigitValue(c) == n
  {
    '0' + n as char
  }

  predicate IsDigit(c: char) { '0' <= c <= '9' }

  function DigitValue(c: char): nat
    requires IsDigit(c)
  {
    c as int - '0' as int
  }

  predicate AllDigits(s: string) { forall i :: 0 <= i < |s| ==> IsDigit(s[i]) }

  function PrintNat(n: nat): (s: string)
    ensures s != [] && AllDigits(s) && (s[0] == '0' <==> n == 0)
  {
    if n < 10 then [Digit(n)] else PrintNat(n / 10) + [Digit(n % 10)]
  }

  function PrintInt(n: int): (s: string)
    ensures s != [] && IsDigit(s[|s| - 1]) && (s[0] == '-' <==> n < 0)
    ensures forall c <- s :: IsDigit(c) || c == '-'
  {
    if n < 0 then "-" + PrintNat(-n) else PrintNat(n)
  }

  function ParseDigits(s: string): nat
    requires AllDigits(s)
  {
    if s == [] then 0 else ParseDigits(s[..|s| - 1]) * 10 + DigitValue(s[|s| - 1])
  }

  function DigitPrefix(s: string): (p: string)
    ensures AllDigits(p)
  {
    if s == [] || !IsDigit(s[0]) then [] else [s[0]] + DigitPrefix(s[1..])
  }

  // atoi: white space, a sign, then as many digits as there are.
  function Atoi(s: string): int {
    if s == [] then 0
    else if IsSpace(s[0]) then Atoi(s[1..])
    else if s[0] == '-' then 0 - ParseDigits(DigitPrefix(s[1..]))
    else if s[0] == '+' then ParseDigits(DigitPrefix(s[1..]))
    else ParseDigits(DigitPrefix(s))
  }

  lemma {:induction false} DigitPrefixOfDigits(s: string)
    requires AllDigits(s)
    ensures DigitPrefix(s) == s
  {
    if s != [] {
      DigitPrefixOfDigits(s[1..]);
      assert s == [s[0]] + s[1..];
    }
  }

  lemma {:induction false} ParsePrintNat(n: nat)
    ensures ParseDigits(PrintNat(n)) == n
  {
    if n >= 10 {
      ParsePrintNat(n / 10);
      var s := PrintNat(n);
      assert s[..|s| - 1] == PrintNat(n / 10) && s[|s| - 1] == Digit(n % 10);
    } else {
      assert PrintNat(n)[..0] == [];
    }
  }

  lemma AtoiOfDigits(s: string)
    requires AllDigits(s) && s != []
    ensures Atoi(s) == ParseDigits(s) && Atoi("-" + s) == 0 - ParseDigits(s)
  {
    hide ParseDigits;
    DigitPrefixOfDigits(s);
    assert IsDigit(s[0]) && ("-" + s)[1..] == s;
  }

  lemma AtoiUndoesPrint(n: int)
    ensures Atoi(PrintInt(n)) == n
  {
    hide Atoi, ParseDigits, PrintNat;
    var m := if n < 0 then -n else n;
    AtoiOfDigits(PrintNat(m));
    ParsePrintNat(m);
  }

  lemma {:induction false} DigitPrefixEnds(digits: string, rest: string)
    requires AllDigits(digits) && (rest == [] || !IsDigit(rest[0]))
    ensures DigitPrefix(digits + rest) == digits
  {
    if digits == [] {
      assert digits + rest == rest;
    } else {
      assert (digits + rest)[1..] == digits[1..] + rest;
      DigitPrefixEnds(digits[1..], rest);
    }
  }

  // White space is skipped, a sign is taken, and what follows the digits is ignored; without digits the result is 0.
  lemma {:induction false} AtoiExactly(space: string, sign: string, digits: string, rest: string)
    requires (forall c <- space :: IsSpace(c)) && sign in ["", "-", "+"] && AllDigits(digits)
    requires rest == [] || !IsDigit(rest[0])
    requires sign == "" && digits == [] && rest != [] ==> !IsSpace(rest[0]) && rest[0] != '-' && rest[0] != '+'
    ensures Atoi(space + (sign + (digits + rest))) == if sign == "-" then 0 - ParseDigits(digits) else ParseDigits(digits)
    decreases space
  {
    hide ParseDigits, DigitPrefix;
    DigitPrefixEnds(digits, rest);
    var s := space + (sign + (digits + rest));
    if space != [] {
      assert space[0] in space && s[1..] == space[1..] + (sign + (digits + rest));
      AtoiExactly(space[1..], sign, digits, rest);
    } else if sign == "" {
      assert s == digits + rest;
      if s == [] { NoDigits(digits); } else { AtoiUnsigned(s); }
    } else {
      assert s == sign + (digits + rest) && s[1..] == digits + rest;
    }
  }

  lemma AtoiUnsigned(s: string)
    requires s != [] && !IsSpace(s[0]) && s[0] != '-' && s[0] != '+'
    ensures Atoi(s) == ParseDigits(DigitPrefix(s))
  {
  }

  lemma NoDigits(s: string)
    requires s == []
    ensures ParseDigits(s) == 0
  {
  }

  // ---- words: what strtok and sscanf("%s") take off the front of a string

  datatype Separator = Colon | Space

  predicate IsSpace(c: char) { c == ' ' || 9 <= c as int <= 13 }

  predicate Separates(sep: Separator, c: char) { if sep.Colon? then c == ':' else IsSpace(c) }

  predicate Free(sep: Separator, s: string) { forall i :: 0 <= i < |s| ==> !Separates(sep, s[i]) }

  // A word: not empty, without separators.
  predicate Word(sep: Separator, s: string) { s != [] && Free(sep, s) }

  function WordEnd(sep: Separator, s: string): (n: nat)
    ensures n <= |s| && Free(sep, s[..n])
    ensures n < |s| ==> Separates(sep, s[n])
  {
    if s == [] || Separates(sep, s[0]) then 0
    else
      var n := 1 + WordEnd(sep, s[1..]);
      assert s[..n] == [s[0]] + s[1..][..n - 1];
      n
  }

  function Words(sep: Separator, s: string): (r: seq<string>)
    ensures forall w <- r :: Word(sep, w)
    decreases |s|
  {
    if s == [] then []
    else if Separates(sep, s[0]) then Words(sep, s[1..])
    else [s[..WordEnd(sep, s)]] + Words(sep, s[WordEnd(sep, s)..])
  }

  method NextWord(sep: Separator, s: string) returns (word: Option<string>, rest: string)
    ensures word.None? ==> Words(sep, s) == []
    ensures word.Some? ==> Words(sep, s) == [word.value] + Words(sep, rest) && |rest| < |s|
  {
    rest := s;
    while |rest| > 0 && Separates(sep, rest[0])
      invariant Words(sep, rest) == Words(sep, s) && |rest| <= |s|
    {
      rest := rest[1..];
    }
    if |rest| == 0 { return None, rest; }
    var n := WordEnd(sep, rest);
    word, rest := Some(rest[..n]), rest[n..];
  }

  lemma {:induction false} WordEndIs(sep: Separator, w: string, rest: string)
    requires Free(sep, w) && (rest == [] || Separates(sep, rest[0]))
    ensures WordEnd(sep, w + rest) == |w|
  {
    if w == [] {
      assert w + rest == rest;
    } else {
      assert (w + rest)[1..] == w[1..] + rest;
      WordEndIs(sep, w[1..], rest);
    }
  }

  lemma WordsCons(sep: Separator, w: string, c: char, rest: string)
    requires Word(sep, w) && Separates(sep, c)
    ensures Words(sep, w + [c] + rest) == [w] + Words(sep, rest)
  {
    WordEndIs(sep, w, [c] + rest);
    var s := w + ([c] + rest);
    assert s == w + [c] + rest && s[0] == w[0] && s[..|w|] == w && s[|w|..] == [c] + rest;
    assert ([c] + rest)[1..] == rest;
  }

  lemma WordsLast(sep: Separator, w: string)
    requires Word(sep, w)
    ensures Words(sep, w) == [w]
  {
    WordEndIs(sep, w, []);
    assert w + [] == w && w[..|w|] == w && w[|w|..] == [];
  }

  // Separators in front of the first word are skipped.
  lemma WordsSkip(sep: Separator, c: char, s: string)
    requires Separates(sep, c)
    ensures Words(sep, [c] + s) == Words(sep, s) && Words(sep, "") == []
  {
    assert ([c] + s)[1..] == s;
  }

  // ---- one configuration

  function ToText(s: Settings): Option<string> {
    if s.host.None? then None
    else if s.mirrorPort != -1 then
      Some(s.host.value + ":" + (PrintInt(s.port) + ":" + (PrintInt(s.mirrorPort) + ":" + PrintInt(s.delay))))
    else Some(s.host.value + ":" + PrintInt(s.port))
  }

  /** The local variables of the parsing loop. A fifth word starts the count again. */
  datatype Fields = Fields(host: string, port: int, mirrorPort: int, delay: int, pos: nat)

  const NO_FIELDS := Fields("", -1, -1, -1, 0)

  function Absorb(f: Fields, word: string): Fields {
    match f.pos
    case 0 => f.(host := word, pos := 1)
    case 1 => f.(port := Atoi(word), pos := 2)
    case 2 => f.(mirrorPort := Atoi(word), pos := 3)
    case 3 => f.(delay := Atoi(word), pos := 4)
    case _ => f.(pos := 1)
  }

  function AbsorbAll(f: Fields, words: seq<string>): Fields
    decreases words
  {
    if words == [] then f else AbsorbAll(Absorb(f, words[0]), words[1..])
  }

  function Conclude(f: Fields): Option<Settings> {
    if f.pos < 2 then None
    else Some(Settings(Some(f.host), f.port,
                       if f.pos >= 3 then f.mirrorPort else DEFAULT_MIRROR_PORT,
                       if f.pos == 4 then f.delay else DEFAULT_DELAY))
  }

  function FromText(text: string): Option<Settings> { Conclude(AbsorbAll(NO_FIELDS, Words(Colon, text))) }

  method ConfigFromString(text: string) returns (config: Option<Settings>)
    ensures config == FromText(text)
  {
    var f := NO_FIELDS;
    var pch, rest := NextWord(Colon, text);
    while pch.Some?
      invariant pch.None? ==> f == AbsorbAll(NO_FIELDS, Words(Colon, text))
      invariant pch.Some? ==> AbsorbAll(f, [pch.value] + Words(Colon, rest)) == AbsorbAll(NO_FIELDS, Words(Colon, text))
      decreases pch.Some?, |rest|
    {
      assert ([pch.value] + Words(Colon, rest))[1..] == Words(Colon, rest);
      f := Absorb(f, pch.value);
      if |rest| == 0 { return Conclude(f); }
      pch, rest := NextWord(Colon, rest);
    }
    config := Conclude(f);
  }

  lemma {:induction false} AbsorbLast(f: Fields, words: seq<string>)
    requires words != []
    ensures AbsorbAll(f, words) == Absorb(AbsorbAll(f, words[..|words| - 1]), words[|words| - 1])
    decreases words
  {
    hide Absorb;
    if |words| > 1 {
      AbsorbLast(Absorb(f, words[0]), words[1..]);
      assert words[1..][..|words| - 2] == words[..|words| - 1][1..];
    } else {
      assert words[..0] == [] && words[1..] == [];
    }
  }

  /** The loop after any number of words: every fourth word after the first starts a new round and is itself dropped. */
  predicate Absorbed(f: Fields, words: seq<string>) {
    var n := |words|;
    && f.pos == (if n == 0 then 0 else (n - 1) % 4 + 1)
    && (n > 0 ==> f.host == words[0])
    && (n > 1 ==> f.port == Atoi(words[n - 1 - (n - 2) % 4]))
    && (n > 2 ==> f.mirrorPort == Atoi(words[n - 1 - (n - 3) % 4]))
    && (n > 3 ==> f.delay == Atoi(words[n - 1 - (n - 4) % 4]))
  }

  lemma AbsorbedNext(f: Fields, words: seq<string>, word: string)
    requires Absorbed(f, words)
    ensures Absorbed(Absorb(f, word), words + [word])
  {
    hide Atoi;
    var n := |words|;
    if n > 0 {
      var round := (n - 1) / 4;
      assert n == 4 * round + f.pos && 1 <= f.pos <= 4;
    }
  }

  lemma {:induction false} AbsorbedExactly(words: seq<string>)
    ensures Absorbed(AbsorbAll(NO_FIELDS, words), words)
    decreases words
  {
    hide Absorbed, Absorb;
    if words == [] {
      NothingAbsorbed();
    } else {
      var before := words[..|words| - 1];
      AbsorbLast(NO_FIELDS, words);
      AbsorbedExactly(before);
      AbsorbedNext(AbsorbAll(NO_FIELDS, before), before, words[|words| - 1]);
      assert before + [words[|words| - 1]] == words;
    }
  }

  lemma NothingAbsorbed()
    ensures Absorbed(NO_FIELDS, [])
  {
  }

  // What any text parses to. The host is the first word; the other fields are the last words, as many as there are since the
  // last word that starts a round, and fields not given there have their defaults. A text that ends with such a word, or has no
  // word, is refused.
  lemma ParsedExactly(text: string)
    ensures var words, n := Words(Colon, text), |Words(Colon, text)|;
      && (FromText(text) == None <==> n == 0 || n % 4 == 1)
      && (n > 0 && n % 4 == 2 ==>
            FromText(text) == Some(Settings(Some(words[0]), Atoi(words[n - 1]), 12345, 1000)))
      && (n % 4 == 3 ==>
            FromText(text) == Some(Settings(Some(words[0]), Atoi(words[n - 2]), Atoi(words[n - 1]), 1000)))
      && (n > 0 && n % 4 == 0 ==>
            FromText(text) == Some(Settings(Some(words[0]), Atoi(words[n - 3]), Atoi(words[n - 2]), Atoi(words[n - 1]))))
  {
    hide Atoi, Words, AbsorbAll;
    AbsorbedExactly(Words(Colon, text));
  }

  predicate ValidHost(host: string) { Word(Colon, host) && Word(Space, host) }

  // What survives: without a mirror, only host and port, and the defaults come back.
  function Canonical(s: Settings): Settings {
    if s.mirrorPort != -1 then s else s.(mirrorPort := DEFAULT_MIRROR_PORT, delay := DEFAULT_DELAY)
  }

  lemma PrintedIsWord(n: int)
    ensures Word(Colon, PrintInt(n)) && Word(Space, PrintInt(n))
  {
    forall i | 0 <= i < |PrintInt(n)| ensures PrintInt(n)[i] != ':' && !IsSpace(PrintInt(n)[i]) {
      assert PrintInt(n)[i] in PrintInt(n);
    }
  }

  lemma FourWords(host: string, port: string, mirror: string, delay: string)
    requires Word(Colon, host) && Word(Colon, port) && Word(Colon, mirror) && Word(Colon, delay)
    ensures Words(Colon, host + ":" + (port + ":" + (mirror + ":" + delay))) == [host, port, mirror, delay]
  {
    hide Words, Word;
    WordsCons(Colon, host, ':', port + ":" + (mirror + ":" + delay));
    WordsCons(Colon, port, ':', mirror + ":" + delay);
    WordsCons(Colon, mirror, ':', delay);
    WordsLast(Colon, delay);
  }

  lemma TwoWords(host: string, port: string)
    requires Word(Colon, host) && Word(Colon, port)
    ensures Words(Colon, host + ":" + port) == [host, port]
  {
    hide Words, Word;
    WordsCons(Colon, host, ':', port);
    WordsLast(Colon, port);
  }

  lemma OneConfigRoundTrip(s: Settings)
    requires s.host.Some? && ValidHost(s.host.value)
    ensures FromText(ToText(s).value) == Some(Canonical(s))
  {
    hide Words, Word, Absorb, AbsorbAll, PrintInt, Atoi;
    PrintedIsWord(s.port);
    PrintedIsWord(s.mirrorPort);
    PrintedIsWord(s.delay);
    AtoiUndoesPrint(s.port);
    AtoiUndoesPrint(s.mirrorPort);
    AtoiUndoesPrint(s.delay);
    FourWords(s.host.value, PrintInt(s.port), PrintInt(s.mirrorPort), PrintInt(s.delay));
    AbsorbFour(s.host.value, PrintInt(s.port), PrintInt(s.mirrorPort), PrintInt(s.delay));
    TwoWords(s.host.value, PrintInt(s.port));
    AbsorbTwo(s.host.value, PrintInt(s.port));
  }

  lemma AbsorbTwo(host: string, port: string)
    ensures AbsorbAll(NO_FIELDS, [host, port]) == Fields(host, Atoi(port), -1, -1, 2)
  {
    assert [host, port][1..] == [port] && [port][1..] == [];
    assert AbsorbAll(Fields(host, -1, -1, -1, 1), [port]) == Fields(host, Atoi(port), -1, -1, 2);
  }

  lemma AbsorbFour(host: string, port: string, mirror: string, delay: string)
    ensures AbsorbAll(NO_FIELDS, [host, port, mirror, delay]) == Fields(host, Atoi(port), Atoi(mirror), Atoi(delay), 4)
  {
    assert [host, port, mirror, delay][1..] == [port, mirror, delay];
    assert [port, mirror, delay][1..] == [mirror, delay] && [mirror, delay][1..] == [delay] && [delay][1..] == [];
    var last := Fields(host, Atoi(port), Atoi(mirror), -1, 3);
    assert AbsorbAll(last, [delay]) == Fields(host, Atoi(port), Atoi(mirror), Atoi(delay), 4);
    assert AbsorbAll(Fields(host, Atoi(port), -1, -1, 2), [mirror, delay]) == AbsorbAll(last, [delay]);
    assert AbsorbAll(Fields(host, -1, -1, -1, 1), [port, mirror, delay]) == AbsorbAll(last, [delay]);
  }

  // ---- the saved list

  function Joined(configs: seq<Settings>): Option<string> {
    if configs == [] then None
    else
      var before := Joined(configs[..|configs| - 1]);
      match ToText(configs[|configs| - 1])
      case None => before
      case Some(text) => if before.None? then Some(text) else Some(before.value + " " + text)
  }

  // What a saved list looks like.
  lemma SavedText()
    ensures Joined([Settings(Some("h"), 443, 12345, 1000), Settings(None, 1, 2, 3), Settings(Some("k"), 80, -1, 0)])
         == Some("h:443:12345:1000 k:80")
  {
    var h, n, k := Settings(Some("h"), 443, 12345, 1000), Settings(None, 1, 2, 3), Settings(Some("k"), 80, -1, 0);
    hide PrintInt;
    PrintedNumbers();
    assert "h" + ":" + ("443" + ":" + ("12345" + ":" + "1000")) == "h:443:12345:1000" && "k" + ":" + "80" == "k:80";
    assert ToText(h) == Some("h:443:12345:1000") && ToText(k) == Some("k:80");
    assert [h][..0] == [] && [h, n][..1] == [h] && [h, n, k][..2] == [h, n];
    assert Joined([h]) == ToText(h);
    assert Joined([h, n]) == ToText(h);
    assert "h:443:12345:1000" + " " + "k:80" == "h:443:12345:1000 k:80";
  }

  lemma PrintedNumbers()
    ensures PrintInt(443) == "443" && PrintInt(12345) == "12345" && PrintInt(1000) == "1000" && PrintInt(80) == "80"
    ensures PrintInt(-7) == "-7"
  {
  }

  method SaveConfig(configs: seq<Settings>) returns (saved: Option<string>)
    ensures saved == Joined(configs)
  {
    saved := None;
    var i := 0;
    while i < |configs|
      invariant 0 <= i <= |configs|
      invariant saved == Joined(configs[..i])
    {
      assert configs[..i + 1][..i] == configs[..i];
      var text := ToText(configs[i]);
      if text.Some? {
        saved := if saved.Some? then Some(saved.value + " " + text.value) else text;
      }
      i := i + 1;
    }
    assert configs[..i] == configs;
  }

  function FromWords(words: seq<string>): seq<Settings> {
    if words == [] then []
    else FromWords(words[..|words| - 1]) + match FromText(words[|words| - 1]) case None => [] case Some(s) => [s]
  }

  // An absent or empty entry loads nothing. A word that does not parse is skipped.
  function Loaded(saved: Option<string>): seq<Settings> {
    if saved.None? then [] else FromWords(Words(Space, saved.value))
  }

  lemma NothingLoaded()
    ensures FromWords([]) == []
  {
  }

  lemma FromWordsStep(words: seq<string>, word: string)
    ensures FromWords(words + [word]) == FromWords(words) + match FromText(word) case None => [] case Some(s) => [s]
  {
    hide FromText;
    assert (words + [word])[..|words|] == words;
  }

  method LoadConfig(saved: Option<string>) returns (configs: seq<Settings>)
    ensures configs == Loaded(saved)
  {
    hide Words, FromWords, FromText;
    NothingLoaded();
    configs := [];
    if saved.Some? {
      var it := saved.value;
      ghost var words: seq<string> := [];
      while true
        invariant words + Words(Space, it) == Words(Space, saved.value)
        invariant configs == FromWords(words)
        decreases |it|
      {
        var word, rest := NextWord(Space, it);
        if word.None? { assert words + [] == words; break; }
        assert words + ([word.value] + Words(Space, rest)) == words + [word.value] + Words(Space, rest);
        FromWordsStep(words, word.value);
        it, words := rest, words + [word.value];
        var config := ConfigFromString(word.value);
        if config.Some? { configs := configs + [config.value]; }
      }
    }
  }

  function Restored(configs: seq<Settings>): seq<Settings> {
    if configs == [] then []
    else
      var last := configs[|configs| - 1];
      Restored(configs[..|configs| - 1]) + if last.host.None? then [] else [Canonical(last)]
  }

  predicate HostsValid(configs: seq<Settings>) {
    forall i :: 0 <= i < |configs| ==> configs[i].host.Some? ==> ValidHost(configs[i].host.value)
  }

  lemma TextIsWord(s: Settings)
    requires s.host.Some? && ValidHost(s.host.value)
    ensures Word(Space, ToText(s).value)
  {
    PrintedIsWord(s.port);
    PrintedIsWord(s.mirrorPort);
    PrintedIsWord(s.delay);
  }

  lemma {:induction false} WordsOfTwo(s: string, w: string)
    requires Word(Space, w)
    ensures Words(Space, s + " " + w) == Words(Space, s) + [w]
    decreases |s|
  {
    var all := s + " " + w;
    if s == [] {
      assert all[1..] == w;
      WordsLast(Space, w);
    } else if IsSpace(s[0]) {
      WordsOfTwo(s[1..], w);
      assert all[1..] == s[1..] + " " + w;
    } else {
      var n := WordEnd(Space, s);
      var head, tail := s[..n], s[n..];
      assert s == head + tail && all == head + (tail + " " + w);
      WordEndIs(Space, head, tail + " " + w);
      assert all[..n] == head && all[n..] == tail + " " + w;
      WordsOfTwo(tail, w);
    }
  }

  // Loading what was saved, for every list whose hosts are words: null hosts are dropped, the others keep their order.
  lemma {:induction false} LoadAfterSave(configs: seq<Settings>)
    requires HostsValid(configs)
    ensures Loaded(Joined(configs)) == Restored(configs)
  {
    if configs != [] {
      var before, last := configs[..|configs| - 1], configs[|configs| - 1];
      LoadAfterSave(before);
      if last.host.Some? {
        var text := ToText(last).value;
        TextIsWord(last);
        OneConfigRoundTrip(last);
        if Joined(before).None? {
          WordsLast(Space, text);
          assert FromWords([text][..0]) == [];
        } else {
          var words := Words(Space, Joined(before).value);
          WordsOfTwo(Joined(before).value, text);
          assert (words + [text])[..|words|] == words;
        }
      }
    }
  }

  lemma {:induction false} AbsorbedHost(f: Fields, words: seq<string>)
    requires (forall w <- words :: Word(Colon, w) && Free(Space, w)) && (f.pos > 0 ==> Word(Colon, f.host) && Free(Space, f.host))
    ensures AbsorbAll(f, words).pos > 0 ==> ValidHost(AbsorbAll(f, words).host)
    decreases words
  {
    if words != [] {
      assert words[0] in words;
      AbsorbedHost(Absorb(f, words[0]), words[1..]);
    }
  }

  lemma {:induction false} WordsAreFree(sep: Separator, other: Separator, s: string)
    requires Free(other, s)
    ensures forall w <- Words(sep, s) :: Word(sep, w) && Free(other, w)
    decreases |s|
  {
    if s != [] {
      WordsAreFree(sep, other, if Separates(sep, s[0]) then s[1..] else s[WordEnd(sep, s)..]);
    }
  }

  // Whatever was saved, every loaded host is a word.
  lemma {:induction false} LoadedHosts(words: seq<string>)
    requires forall w <- words :: Word(Space, w)
    ensures forall s <- FromWords(words) :: s.host.Some? && ValidHost(s.host.value)
  {
    if words != [] {
      var last := words[|words| - 1];
      assert last in words;
      LoadedHosts(words[..|words| - 1]);
      WordsAreFree(Colon, Space, last);
      AbsorbedHost(NO_FIELDS, Words(Colon, last));
    }
  }

  lemma {:induction false} RestoredIs(configs: seq<Settings>)
    requires forall i :: 0 <= i < |configs| ==> configs[i].host.Some?
    ensures |Restored(configs)| == |configs|
    ensures forall i :: 0 <= i < |configs| ==> Restored(configs)[i] == Canonical(configs[i])
  {
    if configs != [] { RestoredIs(configs[..|configs| - 1]); }
  }

  /** A caller can check this before saving. */
  predicate Saveable(s: Settings) { s.host.Some? && ValidHost(s.host.value) && s.mirrorPort != -1 }

  // Saving and loading return the same list exactly when every host is a word and every config has a mirror.
  lemma RoundTrip(configs: seq<Settings>)
    ensures Loaded(Joined(configs)) == configs <==> forall i :: 0 <= i < |configs| ==> Saveable(configs[i])
  {
    if forall i :: 0 <= i < |configs| ==> Saveable(configs[i]) {
      LoadAfterSave(configs);
      RestoredIs(configs);
    }
    if Loaded(Joined(configs)) == configs {
      OnlySaveableSurvive(configs);
    }
  }

  lemma OnlySaveableSurvive(configs: seq<Settings>)
    requires Loaded(Joined(configs)) == configs
    ensures forall i :: 0 <= i < |configs| ==> Saveable(configs[i])
  {
    if configs != [] { LoadedHosts(Words(Space, Joined(configs).value)); }
    forall i | 0 <= i < |configs| ensures configs[i].host.Some? && ValidHost(configs[i].host.value) {
      assert configs[i] in Loaded(Joined(configs));
    }
    LoadAfterSave(configs);
    RestoredIs(configs);
    forall i | 0 <= i < |configs| ensures configs[i].mirrorPort != -1 {
      assert Canonical(configs[i]) == configs[i];
    }
  }
}

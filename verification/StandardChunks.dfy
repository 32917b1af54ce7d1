/**
 The chunked coding as section 4.1 of RFC 7230 has it, up to the trailer, and when the parser agrees with it.
 The parser takes every letter as a digit of a size, lets sizes wrap at 64 bits, and reads extensions as any
 mixture of token characters and semicolons.
 */
module StandardChunks {
  import opened Wrappers
  import opened Ascii
  import opened Numerals
  import opened MessageSyntax
  import opened Framing

  // chunk-size = 1*HEXDIG

  predicate IsSize(t: string) {
    t != "" && IsHexText(t)
  }

  // chunk-ext = *( ";" token [ "=" ( token / quoted-string ) ] )

  /** How many token characters stand in front. */
  function TokenLength(s: string): (n: nat)
    ensures n <= |s| && (forall k :: 0 <= k < n ==> IsTchar(s[k])) && (n < |s| ==> !IsTchar(s[n]))
  {
    if s == "" || !IsTchar(s[0]) then 0 else 1 + TokenLength(s[1..])
  }

  predicate IsQuotable(c: char) {
    c == '\t' || ' ' <= c <= '~' || '\U{80}' <= c <= '\U{ff}'
  }

  /** Where a quoted string ends, its opening quote being in front of `s`. */
  function QuotedLength(s: string): (n: Option<nat>)
    ensures n.Some? ==> 0 < n.value <= |s|
    decreases |s|
  {
    if s == "" then None
    else if s[0] == '"' then Some(1)
    else
      var step := if s[0] == '\\' then 2 else 1;
      if |s| < step || !IsQuotable(s[0]) || !IsQuotable(s[step - 1]) then None
      else
        match QuotedLength(s[step..])
        case None => None
        case Some(n) => Some(step + n)
  }

  predicate StandardExtensions(s: string)
    decreases |s|, 0
  {
    s == "" ||
    (s[0] == ';' && TokenLength(s[1..]) > 0 && BehindName(s[1..][TokenLength(s[1..])..]))
  }

  predicate BehindName(s: string)
    decreases |s|, 1
  {
    if s == "" || s[0] != '=' then StandardExtensions(s)
    else
      var value := s[1..];
      if value != "" && value[0] == '"' then
        QuotedLength(value[1..]).Some? && StandardExtensions(value[1..][QuotedLength(value[1..]).value..])
      else
        TokenLength(value) > 0 && StandardExtensions(value[TokenLength(value)..])
  }

  /** The size a chunk header line announces. */
  function StandardSize(line: string): Option<nat> {
    var separator := Find(line, ';', 0);
    if IsSize(line[..separator]) && StandardExtensions(line[separator..]) then Some(HexValue(line[..separator]))
    else None
  }

  function StandardDechunk(cfg: Config, prefix: string, text: string): Option<Decoded>
    decreases |text|
  {
    var k := FindCrlf(text);
    if k == |text| || k + 1 > cfg.bufferLimit then None
    else
      var after := text[k + 2..];
      match StandardSize(text[..k])
      case None => None
      case Some(size) =>
        if size == 0 then Some(Decoded(prefix, after))
        else if !ChunkFits(cfg, |prefix|, size, after) then None
        else StandardDechunk(cfg, prefix + after[..size], after[size + 2..])
  }

  // Where the parser agrees

  /** No extension lacks its name. */
  predicate NamesPresent(s: string) {
    forall k :: 0 <= k < |s| && s[k] == ';' ==> k + 1 < |s| && s[k + 1] != ';'
  }

  /** A line both read, to the same size: HEXDIG digits below 2^64 and extensions that are just names. */
  predicate Conforms(line: string) {
    var separator := Find(line, ';', 0);
    var size, extensions := line[..separator], line[separator..];
    && IsSize(size) && HexValue(size) < U64
    && ValidExtension(extensions) && NamesPresent(extensions)
  }

  /** The header lines met in the text conform, up to the last chunk. */
  predicate SizesConform(text: string)
    decreases |text|
  {
    var k := FindCrlf(text);
    k < |text| && Conforms(text[..k]) &&
    var n, after := HexValue(text[..k][..Find(text[..k], ';', 0)]), text[k + 2..];
    n > 0 ==> n + 2 <= |after| && SizesConform(after[n + 2..])
  }

  /** Extensions of the standard are taken exactly when none has a value. */
  lemma {:induction false} ValuesRefused(s: string)
    requires StandardExtensions(s)
    ensures ValidExtension(s) <==> '=' !in s
    decreases |s|
  {
    if '=' in s {
      var k :| 0 <= k < |s| && s[k] == '=';
      assert !IsTchar(s[k]);
    } else if s != "" {
      var n := TokenLength(s[1..]);
      var rest := s[1..][n..];
      assert s == [s[0]] + s[1..][..n] + rest;
      assert forall k :: 0 <= k < |rest| ==> rest[k] in s;
      ValuesRefused(rest);
    }
  }

  /** What the parser takes as extensions meets the standard exactly when every one has a name. */
  lemma {:induction false} EmptyNamesTaken(s: string)
    requires ValidExtension(s) && (s != "" ==> s[0] == ';')
    ensures StandardExtensions(s) <==> NamesPresent(s)
    decreases |s|
  {
    if s != "" {
      var n := TokenLength(s[1..]);
      var rest := s[1..][n..];
      assert forall k :: 0 <= k < |rest| ==> rest[k] == s[1 + n + k];
      assert rest != "" ==> rest[0] == s[1 + n] == ';';
      EmptyNamesTaken(rest);
      if n > 0 {
        NamesBehind(s, n, rest);
      }
    }
  }

  lemma NamesBehind(s: string, n: nat, rest: string)
    requires s != "" && s[0] == ';' && 0 < n <= |s| - 1 && rest == s[1 + n..]
    requires forall k :: 1 <= k <= n ==> IsTchar(s[k])
    ensures NamesPresent(s) <==> NamesPresent(rest)
  {
    if NamesPresent(s) {
      forall k | 0 <= k < |rest| && rest[k] == ';' ensures k + 1 < |rest| && rest[k + 1] != ';' {
        assert s[1 + n + k] == ';';
      }
    }
    if NamesPresent(rest) {
      forall k | 0 <= k < |s| && s[k] == ';' ensures k + 1 < |s| && s[k + 1] != ';' {
        if k > n {
          assert rest[k - 1 - n] == ';';
          assert s[k + 1] == rest[k - n];
        } else {
          assert k == 0 && IsTchar(s[1]);
        }
      }
    }
  }

  /** The parser and the standard read the same size from a line exactly when it conforms. */
  lemma LineExact(line: string)
    ensures Conforms(line) <==> LineSize(line).Some? && LineSize(line) == StandardSize(line)
  {
    var separator := Find(line, ';', 0);
    var size, extensions := line[..separator], line[separator..];
    if IsSize(size) && ValidExtension(extensions) {
      HexReadExactly(size);
      ReadDigitsBound(0, size);
      EmptyNamesTaken(extensions);
    }
  }

  /** On a line both read at all, they read the same size unless it does not fit 64 bits. */
  lemma LineDiffers(line: string)
    requires LineSize(line).Some? && StandardSize(line).Some?
    ensures Conforms(line) || StandardSize(line).value >= U64
  {
    var separator := Find(line, ';', 0);
    HexReadExactly(line[..separator]);
    LineExact(line);
  }

  /** A body both decode has conforming lines, and conforming lines make both decode the same. */
  lemma {:induction false} StandardExact(cfg: Config, prefix: string, text: string)
    requires LimitsFit(cfg)
    ensures SizesConform(text) ==> Dechunk(cfg, prefix, text) == StandardDechunk(cfg, prefix, text)
    ensures Dechunk(cfg, prefix, text).Some? && StandardDechunk(cfg, prefix, text).Some? ==> SizesConform(text)
    decreases |text|
  {
    hide FindCrlf, LineSize, StandardSize, Conforms, Find;
    var k := FindCrlf(text);
    if k < |text| {
      var line, after := text[..k], text[k + 2..];
      LineExact(line);
      LineValue(line);
      if LineSize(line).Some? && StandardSize(line).Some? {
        LineDiffers(line);
        var n := StandardSize(line).value;
        if Conforms(line) && n > 0 && n + 2 <= |after| {
          StandardExact(cfg, prefix + after[..n], after[n + 2..]);
        }
      }
    }
  }

  lemma LineValue(line: string)
    ensures Conforms(line) ==> StandardSize(line) == Some(HexValue(line[..Find(line, ';', 0)]))
  {
    LineExact(line);
  }

  /** The parser delivers exactly the bodies of the standard while the header lines conform, and a body of the
      standard whose lines do not conform it never delivers. */
  lemma ParserMeetsStandard(cfg: Config, st: State, text: string)
    requires LimitsFit(cfg) && st.phase.ChunkedBodySize? && st.buffer == "" && DecodedSize(st) <= cfg.bodyLimit
    ensures SizesConform(text) ==>
              Delivers(FeedAll(cfg, st, text), st.headers, StandardDechunk(cfg, Prefix(st), text))
    ensures !SizesConform(text) ==>
              !FeedAll(cfg, st, text).outcome.Done? || StandardDechunk(cfg, Prefix(st), text).None?
  {
    hide FeedAll, Dechunk, StandardDechunk, SizesConform;
    FeedDechunks(cfg, st, text);
    StandardExact(cfg, Prefix(st), text);
  }

  /** A letter that is no HEXDIG is taken as a digit. */
  lemma LetterTaken()
    ensures LineSize("G") == Some(16) && StandardSize("G") == None
  {
    var line := "G";
    FindAt(line, ';', 0, 1);
    assert line[..1] == line && line[1..] == "";
    assert !IsXdigit(line[0]);
  }

  lemma WrappedDigit(high: nat, d: nat)
    requires high < U64 && d < 16 && high * 16 >= U64 && high * 16 % U64 >= high
    ensures ReadDigits(16, high, [HexDigit(d)]) == Some(high * 16 % U64 + d)
  {
    DigitsRead(d);
    hide HexDigit, HexDecode;
    var c := HexDigit(d);
    assert [c][1..] == "";
    assert high * 16 % U64 <= U64 - 16;
  }

  /** A size over 64 bits can wrap: an overflow is only noticed when it makes the number smaller. */
  lemma WideSizeWraps(high: nat, d: nat)
    requires high < U64 && d < 16 && high * 16 >= U64 && high * 16 % U64 >= high
    ensures var line := Hex(high) + [HexDigit(d)];
      LineSize(line) == Some(high * 16 % U64 + d) && StandardSize(line) == Some(high * 16 + d)
  {
    WideDigits(high, d);
    hide Hex, HexDigit, ReadDigits;
    var line := Hex(high) + [HexDigit(d)];
    FindAt(line, ';', 0, |line|);
    assert line[..|line|] == line && line[|line|..] == "";
  }

  lemma WideDigits(high: nat, d: nat)
    requires high < U64 && d < 16 && high * 16 >= U64 && high * 16 % U64 >= high
    ensures var line := Hex(high) + [HexDigit(d)];
      && IsHexText(line) && HexValue(line) == high * 16 + d && ';' !in line
      && ReadDigits(16, 0, line) == Some(high * 16 % U64 + d)
  {
    var digits, c := Hex(high), HexDigit(d);
    var line := digits + [c];
    HexText(high);
    DigitsRead(d);
    HexIsPlain(high);
    WrappedDigit(high, d);
    ReadPrintedHex(high);
    hide Hex, HexDigit, HexDecode;
    ReadDigitsSnoc(16, 0, digits, c);
    hide ReadDigits;
    assert line[..|line| - 1] == digits && line[|line| - 1] == c;
  }

  /** One that does. */
  lemma WideSizeExists()
    ensures var high := 0x1FFF_FFFF_FFFF_FFFF;
      high < U64 && high * 16 >= U64 && high * 16 % U64 >= high
  {
  }

  /** An extension with a value is refused. */
  lemma ValueRefused()
    ensures LineSize("1;a=b") == None && StandardSize("1;a=b") == Some(1)
  {
    var line, e := "1;a=b", ";a=b";
    FindAt(line, ';', 0, 1);
    assert line[..1] == "1" && line[1..] == e;
    assert e[2] == '=' && !ValidExtension(e);
    assert e[1..] == "a=b" && TokenLength("a=b") == 1 && ("a=b")[1..] == "=b";
    assert ("=b")[1..] == "b" && TokenLength("b") == 1 && ("b")[1..] == "";
    assert StandardExtensions(e);
  }

  /** An extension without a name is taken. */
  lemma EmptyNameTaken()
    ensures LineSize("1;;") == Some(1) && StandardSize("1;;") == None
  {
    var line, e := "1;;", ";;";
    FindAt(line, ';', 0, 1);
    assert line[..1] == "1" && line[1..] == e;
    EmptyNamesTaken(e);
    assert e[0] == ';' && e[1] == ';';
    assert ReadHex("1") == Some(1) by { HexReadExactly("1"); }
  }
}

/** The converse of the round trip: every text the parser takes is a document of the grammar. */
module JsonSoundness {
  import opened Wrappers
  import opened Ascii
  import opened JsonSyntax
  import opened JsonGrammar
  import opened JsonNumbers
  import opened JsonRoundTrip

  lemma TrimFirst(text: string)
    requires text != ""
    ensures Trim(text) == if IsSpace(text[0]) then Trim(text[1..]) else text
  {
  }

  lemma BlankFirst(c: char, blank: string)
    requires IsSpace(c) && Blank(blank)
    ensures Blank([c] + blank)
  {
  }

  lemma {:induction false} TrimSplit(text: string) returns (blank: string)
    ensures Blank(blank) && text == blank + Trim(text)
  {
    if text == "" {
      return "";
    }
    assert Blank("");
    hide IsSpace, Blank, Trim;
    TrimFirst(text);
    if IsSpace(text[0]) {
      blank := TrimSplit(text[1..]);
      BlankFirst(text[0], blank);
      Associate([text[0]], blank, Trim(text[1..]));
      assert text == [text[0]] + text[1..];
      blank := [text[0]] + blank;
    } else {
      blank := "";
    }
  }

  lemma TokenSplit(text: string) returns (blank: string)
    requires Token(text).Done?
    ensures Blank(blank) && Trim(text) == [Token(text).value] + Token(text).rest && text == blank + Trim(text)
  {
    blank := TrimSplit(text);
  }

  lemma {:induction false} DigitsSplit(text: string) returns (digits: string)
    ensures text == digits + SkipDigits(text) && (forall k :: 0 <= k < |digits| ==> IsDigit(digits[k]))
    ensures digits != "" <==> IsDigit(Front(text))
    ensures digits != "" ==> digits[0] == text[0]
  {
    if text != "" && IsDigit(text[0]) {
      hide IsDigit;
      digits := DigitsSplit(text[1..]);
      assert text == [text[0]] + (digits + SkipDigits(text[1..]));
      Associate([text[0]], digits, SkipDigits(text[1..]));
      digits := [text[0]] + digits;
    } else {
      digits := "";
    }
  }

  // Strings

  lemma {:induction false} SoundPieces(text: string, out: string, last: int) returns (ps: seq<Piece>)
    requires -1 <= last < 0x10000 && JsonSyntax.StringBody(text, out, last).Done?
    ensures PiecesOk(ps) && text == PrintPieces(ps) + ("\"" + JsonSyntax.StringBody(text, out, last).rest)
    decreases |text|
  {
    hide Utf8, Combine, IsLead, IsTrail;
    var ch, next := text[0], text[1..];
    assert text == [ch] + next;
    if ch == '"' {
      ps := [];
    } else if ch != '\\' {
      ps := SoundPieces(next, out + Utf8(last) + [ch], -1);
      ps := PieceFirst(Plain(ch), ps, next, JsonSyntax.StringBody(text, out, last).rest);
    } else if next[0] != 'u' {
      assert next == [next[0]] + next[1..];
      ps := SoundPieces(next[1..], out + Utf8(last) + [Unescape(next[0])], -1);
      ps := PieceFirst(Escaped(next[0]), ps, next[1..], JsonSyntax.StringBody(text, out, last).rest);
    } else {
      var cp := CodePoint(next[1..5]);
      assert next == ['u'] + next[1..5] + next[5..];
      if IsLead(last) && IsTrail(cp) {
        ps := SoundPieces(next[5..], out + Utf8(Combine(last, cp)), -1);
      } else {
        ps := SoundPieces(next[5..], out + Utf8(last), cp);
      }
      ps := PieceFirst(Unicode(next[1..5]), ps, next[5..], JsonSyntax.StringBody(text, out, last).rest);
    }
  }

  lemma PieceFirst(p: Piece, ps: seq<Piece>, next: string, rest: string) returns (all: seq<Piece>)
    requires PieceOk(p) && PiecesOk(ps) && next == PrintPieces(ps) + ("\"" + rest)
    ensures PiecesOk(all) && all == [p] + ps && PrintPiece(p) + next == PrintPieces(all) + ("\"" + rest)
  {
    hide PieceOk, PrintPiece;
    all := [p] + ps;
    assert all[1..] == ps;
    Associate(PrintPiece(p), PrintPieces(ps), "\"" + rest);
  }

  lemma SoundQuoted(text: string) returns (ps: seq<Piece>)
    requires JsonSyntax.StringBody(text, "", -1).Done?
    ensures PiecesOk(ps) && "\"" + text == Quoted(ps) + JsonSyntax.StringBody(text, "", -1).rest
  {
    hide JsonSyntax.StringBody;
    ps := SoundPieces(text, "", -1);
    var rest := JsonSyntax.StringBody(text, "", -1).rest;
    hide PrintPieces, PiecesOk;
    assert Quoted(ps) + rest == "\"" + (PrintPieces(ps) + ("\"" + rest));
  }

  // Numbers

  lemma SoundPast(text: string) returns (digits: string, after: char)
    requires SkipPastDigits(text).Done?
    ensures Digits(digits) && !IsDigit(after) && text == digits + [after] + SkipPastDigits(text).rest
  {
    digits := DigitsSplit(text);
    var end := SkipDigits(text);
    after := end[0];
    assert end == [after] + end[1..];
  }

  lemma PowerJoin(p: Power, rest: string)
    ensures PrintPower(p) + rest == [p.mark] + (p.sign + (p.digits + [p.after] + rest))
  {
  }

  lemma SoundPower(text: string, numeral: string) returns (p: Power)
    requires (Front(text) == 'e' || Front(text) == 'E') && Exponent(text, numeral).Done?
    ensures PowerOk(p) && text == PrintPower(p) + Exponent(text, numeral).rest
  {
    hide SkipPastDigits, PrintPower, Digits;
    var sign := text[1..];
    var hasSign := Front(sign) == '+' || Front(sign) == '-';
    var power := if hasSign then sign[1..] else sign;
    var digits, after := SoundPast(power);
    p := Power(text[0], if hasSign then [sign[0]] else "", digits, after);
    var rest := Exponent(text, numeral).rest;
    assert rest == SkipPastDigits(power).rest;
    hide Exponent;
    assert text == [p.mark] + sign && sign == p.sign + power;
    PowerJoin(p, rest);
  }

  lemma SoundTail(rest: string, text: string) returns (t: Tail)
    requires NumberEnd(rest, text).Done?
    ensures TailOk(t) && rest == PrintTail(t) + NumberEnd(rest, text).rest
  {
    hide Exponent, SkipPastDigits, FloatText, PrintPower;
    var c := Front(rest);
    if c == '.' {
      assert rest == "." + rest[1..];
      var digits, after := SoundPast(rest[1..]);
      var next := SkipPastDigits(rest[1..]).rest;
      if Front(next) == 'e' || Front(next) == 'E' {
        var p := SoundPower(next, FloatText(text));
        t := Fraction(digits, after, Some(p));
      } else {
        NoPower(next, FloatText(text));
        t := Fraction(digits, after, None);
      }
    } else if c == 'e' || c == 'E' {
      var p := SoundPower(rest, FloatText(text));
      t := Scientific(p);
    } else {
      NoPower(rest, FloatText(text));
      t := Whole;
    }
  }

  lemma NoPower(text: string, numeral: string)
    requires Front(text) != 'e' && Front(text) != 'E'
    ensures Exponent(text, numeral) == Done(Double(numeral), text)
  {
  }

  lemma SignedJoin(n: Numeral, rest: string)
    ensures Signed(n) + rest == (if n.minus then "-" + (n.digits + rest) else n.digits + rest)
  {
  }

  lemma SoundNumber(text: string) returns (n: Numeral)
    requires Number(text).Done?
    ensures NumeralOk(n) && text == PrintNumeral(n) + Number(text).rest
  {
    hide NumberEnd, PrintTail, TailOk, Signed;
    var minus := Front(text) == '-';
    var unsigned := if minus then text[1..] else text;
    assert text == if minus then "-" + unsigned else unsigned;
    var digits, end := SoundInteger(unsigned);
    assert Number(text) == NumberEnd(end, text);
    hide Number;
    var tail := SoundTail(end, text);
    n := Numeral(minus, digits, tail);
    SignedJoin(n, end);
    Associate(Signed(n), PrintTail(tail), NumberEnd(end, text).rest);
  }

  /** The integer part of an unsigned number that has one. */
  lemma SoundInteger(text: string) returns (digits: string, end: string)
    requires IsDigit(Front(text)) && (Front(text) == '0' ==> !IsDigit(Front(text[1..])))
    ensures text == digits + end && Digits(digits) && (digits[0] == '0' ==> |digits| == 1)
    ensures end == if Front(text) == '0' then text[1..] else SkipDigits(text)
  {
    if Front(text) == '0' {
      digits, end := "0", text[1..];
      assert text == [text[0]] + end;
    } else {
      digits := DigitsSplit(text);
      end := SkipDigits(text);
    }
  }

  // Values

  lemma Flat(lead: string, body: Body, rest: string) returns (d: Doc)
    requires Blank(lead) && BodyOk(body)
    ensures DocOk(d) && d.trail == "" && lead + (PrintBody(body) + rest) == Print(d) + rest
  {
    hide PrintBody, BodyOk;
    d := Doc(lead, body, "");
    assert Print(d) == lead + PrintBody(body);
    Associate(lead, PrintBody(body), rest);
  }

  lemma SoundWord(text: string, word: string, value: Json)
    requires word != "" && Expect(text, word, value).Done?
    ensures text == word + Expect(text, word, value).rest
  {
  }

  lemma {:induction false} SoundValue(text: string, depth: nat) returns (d: Doc)
    requires Value(text, depth).Done?
    ensures DocOk(d) && d.trail == "" && text == Print(d) + Value(text, depth).rest
    decreases |text|, 2
  {
    var lead := TokenSplit(text);
    var ch, next := Token(text).value, Token(text).rest;
    if ch == '{' {
      var body := SoundObject(next, depth);
      d := Flat(lead, body, Value(text, depth).rest);
    } else if ch == '[' {
      var body := SoundArray(next, depth);
      d := Flat(lead, body, Value(text, depth).rest);
    } else {
      var body := SoundFlat(text, depth);
      d := Flat(lead, body, Value(text, depth).rest);
    }
  }

  lemma SoundFlat(text: string, depth: nat) returns (body: Body)
    requires Value(text, depth).Done? && Token(text).value != '[' && Token(text).value != '{'
    ensures BodyOk(body) && Trim(text) == PrintBody(body) + Value(text, depth).rest
  {
    hide Trim, Number, Expect, JsonSyntax.StringBody, PrintNumeral, Quoted, NumeralOk, PiecesOk, Items, Members;
    var lead := TokenSplit(text);
    var ch, next := Token(text).value, Token(text).rest;
    if ch == '"' {
      var ps := SoundQuoted(next);
      body := Body.StringBody(ps);
    } else if ch == 't' {
      SoundWord(Trim(text), "true", Bool(true));
      body := BoolBody(true);
    } else if ch == 'f' {
      SoundWord(Trim(text), "false", Bool(false));
      body := BoolBody(false);
    } else if ch == 'n' {
      SoundWord(Trim(text), "null", Null);
      body := NullBody;
    } else {
      var n := SoundNumber(Trim(text));
      body := NumberBody(n);
    }
  }

  lemma {:induction false} SoundArray(next: string, depth: nat) returns (body: Body)
    requires ArrayBody(next, depth).Done?
    ensures BodyOk(body) && "[" + next == PrintBody(body) + ArrayBody(next, depth).rest
    decreases |next|, 4
  {
    hide Trim, Items, PrintItems, ItemsOk;
    var blank := TokenSplit(next);
    var rest := ArrayBody(next, depth).rest;
    if Token(next).value == ']' {
      body := ListBody([], blank);
      NoItems();
    } else {
      var items := SoundItems(Trim(next), depth, []);
      items := LeadItems(items, blank, "]" + rest);
      body := ListBody(items, "");
    }
  }

  lemma NoItems()
    ensures ItemsOk([])
  {
  }

  lemma LeadItems(items: seq<Doc>, blank: string, rest: string) returns (all: seq<Doc>)
    requires ItemsOk(items) && items != [] && Blank(blank)
    ensures ItemsOk(all) && all != [] && blank + (PrintItems(items) + rest) == PrintItems(all) + rest
  {
    hide PrintBody, BodyOk;
    var d := items[0];
    assert DocOk(d);
    var first := d.(lead := blank + d.lead);
    all := [first] + items[1..];
    assert all[1..] == items[1..];
    assert Print(first) == blank + Print(d);
    hide Print;
    assert PrintItems(all) == blank + PrintItems(items);
  }

  lemma OneItem(d: Doc, trail: string, rest: string) returns (items: seq<Doc>)
    requires DocOk(d) && d.trail == "" && Blank(trail)
    ensures ItemsOk(items) && items != [] && PrintItems(items) + rest == Print(d) + (trail + rest)
  {
    hide PrintBody, BodyOk;
    items := [d.(trail := trail)];
    assert items[1..] == [];
    assert Print(items[0]) == Print(d) + trail;
    hide Print;
  }

  lemma MoreItems(d: Doc, trail: string, others: seq<Doc>, rest: string) returns (items: seq<Doc>)
    requires DocOk(d) && d.trail == "" && Blank(trail) && ItemsOk(others) && others != []
    ensures ItemsOk(items) && items != []
    ensures PrintItems(items) + rest == Print(d) + (trail + ("," + (PrintItems(others) + rest)))
  {
    hide PrintBody, BodyOk;
    var first := d.(trail := trail);
    items := [first] + others;
    assert items[1..] == others;
    assert Print(first) == Print(d) + trail;
    assert PrintItems(items) == Print(first) + "," + PrintItems(others);
    hide Print, PrintItems;
    Between(Print(d) + trail, PrintItems(others), rest);
    Associate(Print(d), trail, "," + (PrintItems(others) + rest));
  }

  lemma {:induction false} SoundItems(text: string, depth: nat, acc: seq<Json>) returns (items: seq<Doc>)
    requires Items(text, depth, acc).Done?
    ensures ItemsOk(items) && items != []
    ensures text == PrintItems(items) + ("]" + Items(text, depth, acc).rest)
    decreases |text|, 3
  {
    hide Trim, Value, PrintItems, ItemsOk, Print, DocOk, Blank;
    var rest := Items(text, depth, acc).rest;
    var v := Value(text, depth + 1);
    var d := SoundValue(text, depth + 1);
    var trail := TokenSplit(v.rest);
    var comma := Token(v.rest);
    if comma.value == ']' {
      items := OneItem(d, trail, "]" + rest);
    } else {
      var blank := TokenSplit(comma.rest);
      var others := SoundItems(Trim(comma.rest), depth, acc + [v.value]);
      others := LeadItems(others, blank, "]" + rest);
      items := MoreItems(d, trail, others, "]" + rest);
    }
  }

  lemma {:induction false} SoundObject(next: string, depth: nat) returns (body: Body)
    requires ObjectBody(next, depth).Done?
    ensures BodyOk(body) && "{" + next == PrintBody(body) + ObjectBody(next, depth).rest
    decreases |next|, 4
  {
    hide Trim, Members, PrintMembers, MembersOk;
    var blank := TokenSplit(next);
    var rest := ObjectBody(next, depth).rest;
    var first := Token(next);
    if first.value == '}' {
      body := RecordBody([], blank);
      NoMembers();
    } else {
      var members := SoundMembers(first.value, first.rest, depth, map[]);
      members := LeadMembers(members, blank, "}" + rest);
      body := RecordBody(members, "");
    }
  }

  lemma NoMembers()
    ensures MembersOk([])
  {
  }

  lemma LeadMembers(members: seq<Member>, blank: string, rest: string) returns (all: seq<Member>)
    requires MembersOk(members) && members != [] && Blank(blank)
    ensures MembersOk(all) && all != [] && blank + (PrintMembers(members) + rest) == PrintMembers(all) + rest
  {
    hide Print, DocOk, Quoted, PiecesOk;
    var m := members[0];
    assert MemberOk(m);
    var first := m.(lead := blank + m.lead);
    assert MemberOk(first);
    all := [first] + members[1..];
    assert all[1..] == members[1..];
    assert PrintMember(first) == blank + PrintMember(m);
    hide PrintMember;
    assert PrintMembers(all) == blank + PrintMembers(members);
  }

  lemma OneMember(key: seq<Piece>, trail: string, d: Doc, after: string, rest: string) returns (members: seq<Member>)
    requires PiecesOk(key) && Blank(trail) && DocOk(d) && d.trail == "" && Blank(after)
    ensures MembersOk(members) && |members| == 1
    ensures PrintMembers(members) + rest == Quoted(key) + (trail + (":" + (Print(d) + (after + rest))))
  {
    hide PrintBody, BodyOk, Quoted, PiecesOk;
    var value := d.(trail := after);
    var m := Member("", key, trail, value);
    members := [m];
    assert members[1..] == [] && MemberOk(m);
    assert Print(value) == Print(d) + after;
    MemberText(m, rest);
    hide Print, PrintMember;
    Associate(Print(d), after, rest);
  }

  lemma MoreMembers(key: seq<Piece>, trail: string, d: Doc, after: string, others: seq<Member>, rest: string)
    returns (members: seq<Member>)
    requires PiecesOk(key) && Blank(trail) && DocOk(d) && d.trail == "" && Blank(after)
    requires MembersOk(others) && others != []
    ensures MembersOk(members) && members != []
    ensures PrintMembers(members) + rest ==
            Quoted(key) + (trail + (":" + (Print(d) + (after + ("," + (PrintMembers(others) + rest))))))
  {
    hide Print, DocOk, Quoted, PiecesOk, PrintMember, MemberOk;
    var more := "," + (PrintMembers(others) + rest);
    var one := OneMember(key, trail, d, after, more);
    members := [one[0]] + others;
    JoinMembers(one, others, members, rest);
  }

  lemma JoinMembers(one: seq<Member>, others: seq<Member>, all: seq<Member>, rest: string)
    requires MembersOk(one) && MembersOk(others) && |one| == 1 && others != [] && all == one + others
    ensures MembersOk(all) && PrintMembers(all) + rest == PrintMembers(one) + ("," + (PrintMembers(others) + rest))
  {
    hide PrintMember, MemberOk;
    assert all[1..] == others && all[0] == one[0];
    Between(PrintMember(one[0]), PrintMembers(others), rest);
  }

  lemma {:induction false} SoundMembers(ch: char, text: string, depth: nat, acc: map<string, Json>)
    returns (members: seq<Member>)
    requires Members(ch, text, depth, acc).Done?
    ensures MembersOk(members) && members != []
    ensures [ch] + text == PrintMembers(members) + ("}" + Members(ch, text, depth, acc).rest)
    decreases |text|, 3
  {
    hide Trim, Value, PrintMembers, MembersOk, Print, DocOk, Blank, Quoted, PiecesOk, JsonSyntax.StringBody;
    var rest := Members(ch, text, depth, acc).rest;
    var key := JsonSyntax.StringBody(text, "", -1);
    var ps := SoundQuoted(text);
    var trail := TokenSplit(key.rest);
    var colon := Token(key.rest);
    var v := Value(colon.rest, depth + 1);
    var d := SoundValue(colon.rest, depth + 1);
    var after := TokenSplit(v.rest);
    var comma := Token(v.rest);
    if comma.value == '}' {
      members := OneMember(ps, trail, d, after, "}" + rest);
    } else {
      var blank := TokenSplit(comma.rest);
      var first := Token(comma.rest);
      var others := SoundMembers(first.value, first.rest, depth, acc[key.value := v.value]);
      others := LeadMembers(others, blank, "}" + rest);
      members := MoreMembers(ps, trail, d, after, others, "}" + rest);
    }
  }

  /** An accepted text is the text of a document. */
  lemma Sound(text: string) returns (d: Doc)
    requires Parse(text).Done?
    ensures DocOk(d) && text == Print(d) && Fits(d, MAX_DEPTH) && Parse(text) == Done(Meaning(d), "")
  {
    hide Value, Trim, DocOk, Fits, Meaning, Print;
    var bare := SoundValue(text, 0);
    var trail := TrimSplit(Value(text, 0).rest);
    d := Trailed(bare, trail);
    assert trail + "" == trail;
    RoundTrip(d);
  }

  lemma Trailed(bare: Doc, trail: string) returns (d: Doc)
    requires DocOk(bare) && bare.trail == "" && Blank(trail)
    ensures DocOk(d) && Print(d) == Print(bare) + trail
  {
    hide PrintBody, BodyOk;
    d := bare.(trail := trail);
  }

  ghost predicate IsDocument(text: string, value: Json) {
    exists d | DocOk(d) :: text == Print(d) && Fits(d, MAX_DEPTH) && value == Meaning(d)
  }

  /** The parser takes exactly the documents nested at most 20 levels, as what they mean. */
  lemma ParseExact(text: string, value: Json)
    ensures Parse(text) == Done(value, "") <==> IsDocument(text, value)
    ensures Parse(text).Done? ==> Parse(text).rest == ""
  {
    hide Parse, DocOk, Print, Fits, Meaning;
    if Parse(text).Done? {
      var d := Sound(text);
    }
    forall d | DocOk(d) && text == Print(d) && Fits(d, MAX_DEPTH) ensures Parse(text) == Done(Meaning(d), "") {
      RoundTrip(d);
    }
  }

  /** A document with anything but white space behind it is refused for that. */
  lemma TrailingRefused(d: Doc, post: string)
    requires DocOk(d) && post != "" && Stops(post[0]) && !IsSpace(post[0])
    ensures Parse(Print(d) + post) == if Fits(d, MAX_DEPTH) then Fail(Trailing(post[0])) else Fail(TooDeep)
  {
    hide Value, Print, Fits, Meaning, DocOk, Blank, Stops;
    ReadValue(d, post, 0);
    DocBlanks(d);
    TrimBlank(d.trail, post);
  }
}

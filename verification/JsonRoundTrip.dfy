/** Every document within the depth limit is read as what it means; every deeper one is refused. */
module JsonRoundTrip {
  import opened Wrappers
  import opened Ascii
  import opened Numerals
  import opened JsonSyntax
  import opened JsonGrammar
  import opened JsonNumbers

  /** What a document leads to when its parsing begins at `depth`. */
  ghost function Outcome(fits: bool, value: Json, rest: string): Parsed<Json> {
    if fits then Done(value, rest) else Fail(TooDeep)
  }

  lemma BodyStart(b: Body)
    requires BodyOk(b)
    ensures PrintBody(b) != "" && !IsSpace(PrintBody(b)[0])
  {
    if b.NumberBody? {
      NumeralStart(b.numeral);
    }
  }

  lemma BlankEnds(s: string, rest: string)
    requires Blank(s) && (rest == "" || Stops(rest[0]))
    ensures Stops(Front(s + rest))
  {
    if s == "" {
      assert s + rest == rest;
    } else {
      assert (s + rest)[0] == s[0];
    }
  }

  /** Splits the text of a document before its body. */
  lemma ValueText(d: Doc, post: string)
    requires DocOk(d)
    ensures var text := PrintBody(d.body) + (d.trail + post);
      && Print(d) + post == d.lead + text
      && Trim(Print(d) + post) == text && text != ""
      && Token(Print(d) + post) == Done(text[0], text[1..])
  {
    hide PrintBody, BodyOk;
    var text := PrintBody(d.body) + (d.trail + post);
    BodyStart(d.body);
    assert Print(d) + post == d.lead + text;
    assert text == [text[0]] + text[1..];
    TokenAfter(d.lead, text[0], text[1..]);
  }

  lemma ExpectWord(word: string, rest: string, value: Json)
    requires word != ""
    ensures Expect(word + rest, word, value) == Done(value, rest)
  {
    assert word <= word + rest && (word + rest)[|word|..] == rest;
  }

  lemma ReadWord(d: Doc, post: string, depth: nat)
    requires DocOk(d) && depth <= MAX_DEPTH && (d.body.NullBody? || d.body.BoolBody?)
    ensures Value(Print(d) + post, depth) == Done(Meaning(d), d.trail + post)
  {
    hide Print, Token, Trim, Expect, JsonSyntax.StringBody, Number, Members, Items;
    ValueText(d, post);
    ExpectWord(PrintBody(d.body), d.trail + post, Meaning(d));
  }

  lemma ReadNumber(d: Doc, post: string, depth: nat)
    requires DocOk(d) && depth <= MAX_DEPTH && d.body.NumberBody? && (post == "" || Stops(post[0]))
    ensures Value(Print(d) + post, depth) == Done(Meaning(d), d.trail + post)
  {
    hide Print, Token, Trim, Number, PrintNumeral, NumeralOk, NumeralMeaning, Expect,
      JsonSyntax.StringBody, Members, Items;
    ValueText(d, post);
    BlankEnds(d.trail, post);
    ReadNumeral(d.body.numeral, d.trail + post);
    NumeralStart(d.body.numeral);
  }

  lemma ReadQuoted(ps: seq<Piece>, rest: string)
    requires PiecesOk(ps)
    ensures var text := Quoted(ps) + rest;
      text[0] == '"' && JsonSyntax.StringBody(text[1..], "", -1) == Done(Decoded(ps), rest)
  {
    var text := Quoted(ps) + rest;
    assert text[1..] == PrintPieces(ps) + ("\"" + rest);
    ReadPieces(ps, rest, "", -1);
    assert "" + DecodedAfter(-1, ps) == Decoded(ps);
  }

  lemma ReadString(d: Doc, post: string, depth: nat)
    requires DocOk(d) && depth <= MAX_DEPTH && d.body.StringBody?
    ensures Value(Print(d) + post, depth) == Done(Meaning(d), d.trail + post)
  {
    hide Print, Token, Trim, JsonSyntax.StringBody, Quoted, Decoded, Expect, Number, Members, Items;
    ValueText(d, post);
    ReadQuoted(d.body.pieces, d.trail + post);
  }

  /** The parser looks at the first token of a value only after trimming. */
  lemma ValueTrimmed(rest: string, depth: nat)
    ensures Value(Trim(rest), depth) == Value(rest, depth)
  {
    hide JsonSyntax.StringBody, Number, Expect, Members, Items;
    TrimTwice(rest);
    hide Trim, Token;
  }

  lemma TrimTwice(rest: string)
    ensures Trim(Trim(rest)) == Trim(rest) && Token(Trim(rest)) == Token(rest)
  {
  }

  lemma {:induction false} ReadValue(d: Doc, post: string, depth: nat)
    requires DocOk(d) && (post == "" || Stops(post[0]))
    ensures Value(Print(d) + post, depth) == Outcome(Fits(d, MAX_DEPTH - depth), Meaning(d), d.trail + post)
    decreases d, 0
  {
    if depth > MAX_DEPTH {
      TooDeepValue(d, post, depth);
      return;
    }
    hide Value, Print, Meaning, DocOk, BodyOk, Stops;
    if d.body.ListBody? {
      ReadList(d, post, depth);
    } else if d.body.RecordBody? {
      ReadRecord(d, post, depth);
    } else {
      FlatFits(d, MAX_DEPTH - depth);
      if d.body.NumberBody? {
        ReadNumber(d, post, depth);
      } else if d.body.StringBody? {
        ReadString(d, post, depth);
      } else {
        ReadWord(d, post, depth);
      }
    }
  }

  lemma TooDeepValue(d: Doc, post: string, depth: nat)
    requires depth > MAX_DEPTH
    ensures Value(Print(d) + post, depth) == Fail(TooDeep) && !Fits(d, MAX_DEPTH - depth)
  {
    hide Print;
  }

  lemma FlatFits(d: Doc, levels: int)
    requires !d.body.ListBody? && !d.body.RecordBody?
    ensures Fits(d, levels) == (levels >= 0)
  {
  }

  /** The value a list or record gives, once its first token is known. */
  lemma OpenList(text: string, next: string, depth: nat)
    requires depth <= MAX_DEPTH && Token(text) == Done('[', next) && Token(next).Done?
    ensures Value(text, depth)
         == if Token(next).value == ']' then Done(Arr([]), Token(next).rest) else Items(Trim(next), depth, [])
  {
    hide Token, Trim, JsonSyntax.StringBody, Number, Expect, Members, Items;
  }

  lemma OpenRecord(text: string, next: string, depth: nat)
    requires depth <= MAX_DEPTH && Token(text) == Done('{', next) && Token(next).Done?
    ensures Value(text, depth)
         == if Token(next).value == '}' then Done(Obj(map[]), Token(next).rest)
            else Members(Token(next).value, Token(next).rest, depth, map[])
  {
    hide Token, Trim, JsonSyntax.StringBody, Number, Expect, Members, Items;
  }

  lemma Bracketed(open: string, a: string, close: string, rest: string)
    requires |open| == 1
    ensures open + a + close + rest == open + (a + (close + rest)) == [open[0]] + (a + (close + rest))
    ensures (open + (a + (close + rest)))[1..] == a + (close + rest)
  {
  }

  lemma BracketedBlank(s: string, c: char, rest: string)
    requires Blank(s) && (c == ']' || c == '}')
    ensures Token(s + ([c] + rest)) == Done(c, rest)
  {
    hide Token, Trim;
    TokenAfter(s, c, rest);
  }

  lemma ListUnfold(d: Doc, levels: int)
    requires DocOk(d) && d.body.ListBody?
    ensures Blank(d.body.inner) && ItemsOk(d.body.items) && Meaning(d) == Arr(MeaningOfItems(d.body.items))
    ensures Fits(d, levels) <==> levels >= 0 && ItemsFit(d.body.items, levels - 1)
    ensures MeaningOfItems([]) == [] && ItemsFit([], levels - 1)
    ensures PrintBody(d.body) == "[" + (if d.body.items == [] then d.body.inner else PrintItems(d.body.items)) + "]"
  {
  }

  /** The first token of a list, and the text behind it. */
  lemma ListText(d: Doc, post: string)
    requires DocOk(d) && d.body.ListBody?
    ensures var inside := if d.body.items == [] then d.body.inner else PrintItems(d.body.items);
      Token(Print(d) + post) == Done('[', inside + ("]" + (d.trail + post)))
  {
    hide Print, Token, Trim, DocOk, BodyOk, PrintBody, ItemsOk, PrintItems, Blank, IsSpace;
    ListUnfold(d, 0);
    ValueText(d, post);
    Bracketed("[", if d.body.items == [] then d.body.inner else PrintItems(d.body.items), "]", d.trail + post);
  }

  lemma ReadEmptyList(d: Doc, post: string, depth: nat)
    requires DocOk(d) && depth <= MAX_DEPTH && d.body.ListBody? && d.body.items == []
    ensures Value(Print(d) + post, depth) == Done(Meaning(d), d.trail + post) && Fits(d, MAX_DEPTH - depth)
  {
    ListUnfold(d, MAX_DEPTH - depth);
    hide Print, Token, Trim, DocOk, BodyOk, PrintBody, Value, ItemsOk, PrintItems, Items, Fits, ItemsFit,
      Meaning, Blank, IsSpace;
    var inner, rest := d.body.inner, d.trail + post;
    ListText(d, post);
    BracketedBlank(inner, ']', rest);
    OpenList(Print(d) + post, inner + ("]" + rest), depth);
  }

  lemma {:induction false} ReadList(d: Doc, post: string, depth: nat)
    requires DocOk(d) && depth <= MAX_DEPTH && d.body.ListBody?
    ensures Value(Print(d) + post, depth) == Outcome(Fits(d, MAX_DEPTH - depth), Meaning(d), d.trail + post)
    decreases d.body
  {
    hide Print, Token, Trim, DocOk, BodyOk, PrintBody, Value, ItemsOk, PrintItems, Items, Fits, ItemsFit, Meaning,
      MeaningOfItems, Blank, Stops, IsSpace;
    var items, rest := d.body.items, d.trail + post;
    if items == [] {
      ReadEmptyList(d, post, depth);
      return;
    }
    ListUnfold(d, MAX_DEPTH - depth);
    ListText(d, post);
    ReadItems(items, rest, depth, []);
    FirstItem(items, "]" + rest, 0);
    OpenList(Print(d) + post, PrintItems(items) + ("]" + rest), depth);
    assert [] + MeaningOfItems(items) == MeaningOfItems(items);
  }

  /** What stands behind the first item: the end of the list, or a comma and the other items. */
  function AfterItem(items: seq<Doc>, end: string): string
    requires items != []
  {
    if |items| == 1 then end else "," + (PrintItems(items[1..]) + end)
  }

  lemma FirstItem(items: seq<Doc>, end: string, depth: nat)
    requires ItemsOk(items) && items != []
    ensures var text := PrintItems(items) + end;
      && Value(Trim(text), depth) == Value(Print(items[0]) + AfterItem(items, end), depth)
      && Token(text).Done? && Token(text).value != ']'
  {
    hide Value;
    assert DocOk(items[0]);
    var post := AfterItem(items, end);
    assert PrintItems(items) + end == Print(items[0]) + post by {
      hide Print, PrintBody;
      if |items| > 1 {
        Between(Print(items[0]), PrintItems(items[1..]), end);
      }
    }
    BodyBracket(items[0].body);
    ValueText(items[0], post);
    ValueTrimmed(PrintItems(items) + end, depth);
  }

  lemma Between(a: string, b: string, c: string)
    ensures a + "," + b + c == a + ("," + (b + c))
  {
  }

  lemma BodyBracket(b: Body)
    requires BodyOk(b)
    ensures PrintBody(b) != "" && PrintBody(b)[0] != ']'
  {
    if b.NumberBody? {
      NumeralStart(b.numeral);
    }
  }

  /** One turn of the loop over a list. */
  lemma ItemsStep(rest: string, depth: nat, acc: seq<Json>)
    ensures Value(rest, depth + 1).Fail? ==> Items(rest, depth, acc) == Fail(Value(rest, depth + 1).error)
    ensures var v := Value(rest, depth + 1);
      v.Done? && Token(v.rest).Done? ==>
        var t := Token(v.rest);
        && (t.value == ']' ==> Items(rest, depth, acc) == Done(Arr(acc + [v.value]), t.rest))
        && (t.value == ',' && Token(t.rest).Done? ==>
              Items(rest, depth, acc) == Items(Trim(t.rest), depth, acc + [v.value]))
  {
    hide Value, Token, Trim;
  }

  lemma ItemsUnfold(items: seq<Doc>, levels: int)
    requires ItemsOk(items) && items != []
    ensures ItemsOk(items[1..]) && DocOk(items[0]) && Blank(items[0].trail)
    ensures MeaningOfItems(items) == [Meaning(items[0])] + MeaningOfItems(items[1..])
    ensures ItemsFit(items, levels) <==> Fits(items[0], levels) && ItemsFit(items[1..], levels)
    ensures |items| == 1 ==> MeaningOfItems(items) == [Meaning(items[0])] && ItemsFit(items[1..], levels)
  {
    assert |items| == 1 ==> items[1..] == [];
  }

  /** The token behind an item, and the text behind that. */
  lemma AfterItemText(items: seq<Doc>, rest: string)
    requires items != [] && Blank(items[0].trail)
    ensures var end := "]" + rest;
      var post, next := AfterItem(items, end), if |items| == 1 then rest else PrintItems(items[1..]) + end;
      && post != "" && Stops(post[0])
      && Token(items[0].trail + post) == Done(if |items| == 1 then ']' else ',', next)
  {
    hide Print, PrintItems, Token, Trim;
    var end := "]" + rest;
    TokenAfter(items[0].trail, if |items| == 1 then ']' else ',',
               if |items| == 1 then rest else PrintItems(items[1..]) + end);
  }

  lemma {:induction false} ReadItems(items: seq<Doc>, rest: string, depth: nat, acc: seq<Json>)
    requires ItemsOk(items) && items != [] && depth <= MAX_DEPTH
    ensures Items(Trim(PrintItems(items) + ("]" + rest)), depth, acc)
         == Outcome(ItemsFit(items, MAX_DEPTH - depth - 1), Arr(acc + MeaningOfItems(items)), rest)
    decreases items
  {
    hide Value, Token, Trim, Items, Print, PrintItems, PrintBody, ItemsOk, DocOk, Meaning, Fits,
      MeaningOfItems, ItemsFit,
      AfterItem, Stops, Blank;
    var end := "]" + rest;
    var text := PrintItems(items) + end;
    ItemsUnfold(items, MAX_DEPTH - depth - 1);
    FirstItem(items, end, depth + 1);
    AfterItemText(items, rest);
    ReadValue(items[0], AfterItem(items, end), depth + 1);
    ItemsStep(Trim(text), depth, acc);
    var one, others := [Meaning(items[0])], MeaningOfItems(items[1..]);
    if |items| > 1 {
      FirstItem(items[1..], end, 0);
      ReadItems(items[1..], rest, depth, acc + one);
      Associate(acc, one, others);
    }
  }

  // Objects

  function AfterMember(members: seq<Member>, end: string): string
    requires members != []
  {
    if |members| == 1 then end else "," + (PrintMembers(members[1..]) + end)
  }

  lemma MembersUnfold(members: seq<Member>, levels: int)
    requires MembersOk(members) && members != []
    ensures var m := members[0];
      && MembersOk(members[1..]) && Blank(m.lead) && Blank(m.trail) && PiecesOk(m.key) && DocOk(m.value)
      && Blank(m.value.trail)
      && (forall acc :: MeaningOfMembers(members, acc)
                     == MeaningOfMembers(members[1..], acc[Decoded(m.key) := Meaning(m.value)]))
      && (MembersFit(members, levels) <==> Fits(m.value, levels) && MembersFit(members[1..], levels))
    ensures |members| == 1 ==> members[1..] == [] && MembersFit([], levels)
    ensures forall acc :: MeaningOfMembers([], acc) == acc
  {
    assert MemberOk(members[0]) && DocOk(members[0].value);
    assert MembersFit(members, levels) <==> MemberFits(members[0], levels) && MembersFit(members[1..], levels);
  }

  /** The text of the first member, taken apart. */
  lemma FirstMember(members: seq<Member>, end: string)
    requires MembersOk(members) && members != []
    ensures Blank(members[0].lead)
    ensures var m, value := members[0], Print(members[0].value) + AfterMember(members, end);
      var key := Quoted(m.key) + (m.trail + (":" + value));
      PrintMembers(members) + end == m.lead + key && Token(PrintMembers(members) + end) == Done('"', key[1..])
  {
    MembersUnfold(members, 0);
    var m := members[0];
    var value := Print(m.value) + AfterMember(members, end);
    var key := Quoted(m.key) + (m.trail + (":" + value));
    hide Print, PrintPieces;
    if |members| > 1 {
      Between(PrintMember(m), PrintMembers(members[1..]), end);
    }
    assert PrintMembers(members) + end == PrintMember(m) + AfterMember(members, end);
    MemberText(m, AfterMember(members, end));
    assert key[0] == '"' && key == ['"'] + key[1..];
    TokenAfter(m.lead, '"', key[1..]);
  }

  lemma MemberText(m: Member, post: string)
    ensures PrintMember(m) + post == m.lead + (Quoted(m.key) + (m.trail + (":" + (Print(m.value) + post))))
  {
    hide Print, Quoted;
  }

  /** One turn of the loop over an object, once the key and its colon are known. */
  lemma MembersStep(rest: string, depth: nat, acc: map<string, Json>)
    requires JsonSyntax.StringBody(rest, "", -1).Done?
    requires Token(JsonSyntax.StringBody(rest, "", -1).rest).Done?
    requires Token(JsonSyntax.StringBody(rest, "", -1).rest).value == ':'
    ensures var key := JsonSyntax.StringBody(rest, "", -1);
      var v := Value(Token(key.rest).rest, depth + 1);
      && (v.Fail? ==> Members('"', rest, depth, acc) == Fail(v.error))
      && (v.Done? && Token(v.rest).Done? ==>
            var t := Token(v.rest);
            && (t.value == '}' ==> Members('"', rest, depth, acc) == Done(Obj(acc[key.value := v.value]), t.rest))
            && (t.value == ',' && Token(t.rest).Done? ==>
                  Members('"', rest, depth, acc)
                  == Members(Token(t.rest).value, Token(t.rest).rest, depth, acc[key.value := v.value])))
  {
    hide Value, Token, Trim, JsonSyntax.StringBody;
  }

  lemma AfterMemberText(members: seq<Member>, rest: string)
    requires members != [] && Blank(members[0].value.trail)
    ensures var end := "}" + rest;
      var post, next := AfterMember(members, end), if |members| == 1 then rest else PrintMembers(members[1..]) + end;
      && post != "" && Stops(post[0])
      && Token(members[0].value.trail + post) == Done(if |members| == 1 then '}' else ',', next)
  {
    hide Print, PrintMembers, Token, Trim;
    var end := "}" + rest;
    TokenAfter(members[0].value.trail, if |members| == 1 then '}' else ',',
               if |members| == 1 then rest else PrintMembers(members[1..]) + end);
  }

  lemma {:induction false} ReadMembers(members: seq<Member>, rest: string, depth: nat, acc: map<string, Json>)
    requires MembersOk(members) && members != [] && depth <= MAX_DEPTH
    ensures var t := Token(PrintMembers(members) + ("}" + rest));
      && t.Done? && t.value == '"'
      && Members('"', t.rest, depth, acc)
         == Outcome(MembersFit(members, MAX_DEPTH - depth - 1), Obj(MeaningOfMembers(members, acc)), rest)
    decreases members
  {
    hide Value, Token, Trim, Members, Print, PrintMembers, MembersOk, DocOk, Meaning, Fits,
      MeaningOfMembers, MembersFit,
      AfterMember, Stops, Quoted, Decoded, JsonSyntax.StringBody;
    var end := "}" + rest;
    var m := members[0];
    MembersUnfold(members, MAX_DEPTH - depth - 1);
    FirstMember(members, end);
    AfterMemberText(members, rest);
    var value := Print(m.value) + AfterMember(members, end);
    var colon := m.trail + (":" + value);
    ReadQuoted(m.key, colon);
    TokenAfter(m.trail, ':', value);
    ReadValue(m.value, AfterMember(members, end), depth + 1);
    MembersStep((Quoted(m.key) + colon)[1..], depth, acc);
    if |members| > 1 {
      ReadMembers(members[1..], rest, depth, acc[Decoded(m.key) := Meaning(m.value)]);
    }
  }

  lemma RecordUnfold(d: Doc, levels: int)
    requires DocOk(d) && d.body.RecordBody?
    ensures Blank(d.body.inner) && MembersOk(d.body.members)
            && Meaning(d) == Obj(MeaningOfMembers(d.body.members, map[]))
    ensures Fits(d, levels) <==> levels >= 0 && MembersFit(d.body.members, levels - 1)
    ensures MeaningOfMembers([], map[]) == map[] && MembersFit([], levels - 1)
    ensures PrintBody(d.body)
         == "{" + (if d.body.members == [] then d.body.inner else PrintMembers(d.body.members)) + "}"
  {
  }

  /** The first token of a record, and the text behind it. */
  lemma RecordText(d: Doc, post: string)
    requires DocOk(d) && d.body.RecordBody?
    ensures var inside := if d.body.members == [] then d.body.inner else PrintMembers(d.body.members);
      Token(Print(d) + post) == Done('{', inside + ("}" + (d.trail + post)))
  {
    hide Print, Token, Trim, DocOk, BodyOk, PrintBody, MembersOk, PrintMembers, Blank, IsSpace;
    RecordUnfold(d, 0);
    ValueText(d, post);
    Bracketed("{", if d.body.members == [] then d.body.inner else PrintMembers(d.body.members), "}", d.trail + post);
  }

  lemma ReadEmptyRecord(d: Doc, post: string, depth: nat)
    requires DocOk(d) && depth <= MAX_DEPTH && d.body.RecordBody? && d.body.members == []
    ensures Value(Print(d) + post, depth) == Done(Meaning(d), d.trail + post) && Fits(d, MAX_DEPTH - depth)
  {
    RecordUnfold(d, MAX_DEPTH - depth);
    hide Print, Token, Trim, DocOk, BodyOk, PrintBody, Value, MembersOk, PrintMembers, Members, Fits,
      MembersFit, Meaning, Blank, IsSpace;
    var inner, rest := d.body.inner, d.trail + post;
    RecordText(d, post);
    BracketedBlank(inner, '}', rest);
    OpenRecord(Print(d) + post, inner + ("}" + rest), depth);
  }

  lemma {:induction false} ReadRecord(d: Doc, post: string, depth: nat)
    requires DocOk(d) && depth <= MAX_DEPTH && d.body.RecordBody?
    ensures Value(Print(d) + post, depth) == Outcome(Fits(d, MAX_DEPTH - depth), Meaning(d), d.trail + post)
    decreases d.body
  {
    hide Print, Token, Trim, DocOk, BodyOk, PrintBody, Value, MembersOk, PrintMembers, Members, Fits,
      MembersFit, Meaning,
      MeaningOfMembers, Blank, Stops, IsSpace;
    var members, rest := d.body.members, d.trail + post;
    if members == [] {
      ReadEmptyRecord(d, post, depth);
      return;
    }
    RecordUnfold(d, MAX_DEPTH - depth);
    RecordText(d, post);
    ReadMembers(members, rest, depth, map[]);
    OpenRecord(Print(d) + post, PrintMembers(members) + ("}" + rest), depth);
  }

  /** A whole text: parsing gives the meaning of the document exactly when it is nested at most 20 levels. */
  lemma RoundTrip(d: Doc)
    requires DocOk(d)
    ensures Parse(Print(d)) == if Fits(d, MAX_DEPTH) then Done(Meaning(d), "") else Fail(TooDeep)
  {
    hide Value, Print, Trim, Fits, Meaning, DocOk, Blank;
    ReadValue(d, "", 0);
    assert Print(d) + "" == Print(d) && d.trail + "" == d.trail;
    DocBlanks(d);
    TrimBlank(d.trail, "");
    TrimNothing();
  }

  lemma DocBlanks(d: Doc)
    requires DocOk(d)
    ensures Blank(d.lead) && Blank(d.trail)
  {
  }

  lemma TrimNothing()
    ensures Trim("") == ""
  {
  }
}

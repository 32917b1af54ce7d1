/** Request targets (section 5.3 of RFC 7230): what their texts are made of. */
module UriSyntax {
  import opened Wrappers
  import opened Ascii

  // Where a text stands decides which characters it may hold unescaped.
  datatype Place = InPath | InQuery | InUserinfo | InHost

  predicate IsAllowed(c: char, place: Place) {
    IsUnreserved(c) || IsSubDelim(c)
    || (c == ':' && !place.InHost?)
    || ((c == '@' || c == '/') && (place.InPath? || place.InQuery?))
    || (c == '?' && place.InQuery?)
  }

  predicate IsPctEncoded(s: string) {
    |s| == 3 && s[0] == '%' && IsHexDigit(s[1]) && IsHexDigit(s[2])
  }

  /** Sixteen times one digit plus the other, as a byte: digits beyond F wrap around. */
  function PctDecode(s: string): char
    requires IsPctEncoded(s)
  {
    ((HexDecode(s[1]) * 16 + HexDecode(s[2])) % 256) as char
  }

  predicate StartsEncoded(s: string) {
    |s| >= 3 && IsPctEncoded(s[..3])
  }

  /** Length of the longest beginning that is made of allowed characters and encoded bytes. */
  function Munch(s: string, place: Place): (n: nat)
    ensures n <= |s|
  {
    if s == "" then 0
    else if IsAllowed(s[0], place) then 1 + Munch(s[1..], place)
    else if StartsEncoded(s) then 3 + Munch(s[3..], place)
    else 0
  }

  predicate IsText(s: string, place: Place) {
    Munch(s, place) == |s|
  }

  /** A text with its encoded bytes decoded. */
  function Decode(s: string): string {
    if s == "" then ""
    else if StartsEncoded(s) then [PctDecode(s[..3])] + Decode(s[3..])
    else [s[0]] + Decode(s[1..])
  }

  /** What may follow a text without becoming part of it. */
  predicate Ends(rest: string, place: Place) {
    rest == "" || (!IsAllowed(rest[0], place) && rest[0] != '%')
  }

  lemma {:induction false} MunchWhole(s: string, rest: string, place: Place)
    requires IsText(s, place) && Ends(rest, place)
    ensures Munch(s + rest, place) == |s|
    decreases |s|
  {
    var text := s + rest;
    if s == "" {
      assert text == rest && !StartsEncoded(rest);
    } else if IsAllowed(s[0], place) {
      assert text[1..] == s[1..] + rest;
      MunchWhole(s[1..], rest, place);
    } else {
      assert text[3..] == s[3..] + rest && text[..3] == s[..3];
      MunchWhole(s[3..], rest, place);
    }
  }

  lemma {:induction false} MunchedIsText(s: string, place: Place)
    ensures IsText(s[..Munch(s, place)], place)
    decreases |s|
  {
    var n := Munch(s, place);
    if n > 0 {
      if IsAllowed(s[0], place) {
        MunchedIsText(s[1..], place);
        assert s[..n][1..] == s[1..][..n - 1];
      } else {
        MunchedIsText(s[3..], place);
        assert s[..n][3..] == s[3..][..n - 3] && s[..n][..3] == s[..3];
      }
    }
  }

  // Escapes of section 2.1 of RFC 3986: a percent sign and two HEXDIG

  predicate IsStandardText(s: string, place: Place) {
    s == "" ||
    if IsAllowed(s[0], place) then IsStandardText(s[1..], place)
    else |s| >= 3 && s[0] == '%' && IsXdigit(s[1]) && IsXdigit(s[2]) && IsStandardText(s[3..], place)
  }

  predicate EscapesHex(s: string) {
    forall k :: 0 <= k < |s| && s[k] == '%' ==> k + 2 < |s| && IsXdigit(s[k + 1]) && IsXdigit(s[k + 2])
  }

  /** A text the parser takes meets the standard exactly when every percent sign stands before two HEXDIG. */
  lemma {:induction false} StandardTextExact(s: string, place: Place)
    ensures IsStandardText(s, place) <==> IsText(s, place) && EscapesHex(s)
    decreases |s|
  {
    if s != "" {
      if IsAllowed(s[0], place) {
        StandardTextExact(s[1..], place);
        EscapesBehind(s, 1);
      } else if |s| >= 3 && s[0] == '%' && IsXdigit(s[1]) && IsXdigit(s[2]) {
        assert StartsEncoded(s);
        StandardTextExact(s[3..], place);
        EscapesBehind(s, 3);
      } else if IsText(s, place) {
        assert s[0] == '%';
      }
    }
  }

  lemma EscapesBehind(s: string, n: nat)
    requires n <= |s| && forall k :: 1 <= k < n ==> s[k] != '%'
    requires n > 0 && (s[0] == '%' ==> n == 3 && IsXdigit(s[1]) && IsXdigit(s[2]))
    ensures EscapesHex(s) <==> EscapesHex(s[n..])
  {
    var rest := s[n..];
    if EscapesHex(s) {
      forall k | 0 <= k < |rest| && rest[k] == '%'
        ensures k + 2 < |rest| && IsXdigit(rest[k + 1]) && IsXdigit(rest[k + 2])
      {
        assert s[n + k] == '%';
      }
    }
    if EscapesHex(rest) {
      forall k | 0 <= k < |s| && s[k] == '%' ensures k + 2 < |s| && IsXdigit(s[k + 1]) && IsXdigit(s[k + 2]) {
        if k >= n {
          assert rest[k - n] == '%' && rest[k - n + 1] == s[k + 1] && rest[k - n + 2] == s[k + 2];
        }
      }
    }
  }

  /** Letters behind F are taken as digits, and what they come to wraps around. */
  lemma LettersDecoded()
    ensures IsText("%GG", InPath) && !IsStandardText("%GG", InPath) && Decode("%GG") == [16 as char]
  {
    var s := "%GG";
    assert s[..3] == s && s[3..] == "";
    assert Decode("") == "";
  }

  // Path, query and fragment

  /** The pieces of a target, taken apart. */
  datatype Target = Target(path: Option<string>, query: Option<string>, fragment: Option<string>)

  function RenderQuery(t: Target): string {
    (if t.query.Some? then "?" + t.query.value else "") + (if t.fragment.Some? then "#" + t.fragment.value else "")
  }

  function Render(t: Target): string {
    (if t.path.Some? then t.path.value else "") + RenderQuery(t)
  }

  predicate IsTarget(t: Target) {
    && (t.path.Some? ==> t.path.value != "" && t.path.value[0] == '/' && IsText(t.path.value[1..], InPath))
    && (t.query.Some? ==> IsText(t.query.value, InQuery))
    && (t.fragment.Some? ==> IsText(t.fragment.value, InQuery))
  }

  /** The rest behind path and query. */
  function SplitFragment(rest: string, path: Option<string>, query: Option<string>): Option<Target> {
    if rest == "" then Some(Target(path, query, None))
    else if rest[0] == '#' && IsText(rest[1..], InQuery) then Some(Target(path, query, Some(rest[1..])))
    else None
  }

  function SplitQuery(rest: string, path: Option<string>): Option<Target> {
    if rest != "" && rest[0] == '?' then
      var n := 1 + Munch(rest[1..], InQuery);
      SplitFragment(rest[n..], path, Some(rest[1..n]))
    else SplitFragment(rest, path, None)
  }

  function Split(str: string): Option<Target> {
    if str != "" && str[0] == '/' then
      var n := 1 + Munch(str[1..], InPath);
      SplitQuery(str[n..], Some(str[..n]))
    else SplitQuery(str, None)
  }

  lemma SplitFragmentExact(rest: string, path: Option<string>, query: Option<string>, t: Target)
    ensures SplitFragment(rest, path, query) == Some(t) <==>
            && t.path == path && t.query == query && (t.fragment.Some? ==> IsText(t.fragment.value, InQuery))
            && rest == if t.fragment.Some? then "#" + t.fragment.value else ""
  {
    if rest != "" {
      assert rest == [rest[0]] + rest[1..];
    }
    if t.fragment.Some? {
      assert ("#" + t.fragment.value)[1..] == t.fragment.value;
    }
  }

  lemma SplitQuerySound(rest: string, path: Option<string>)
    requires SplitQuery(rest, path).Some?
    ensures var t := SplitQuery(rest, path).value;
      t.path == path && IsTarget(t.(path := None)) && rest == RenderQuery(t)
  {
    hide Munch, IsAllowed, StartsEncoded;
    var t := SplitQuery(rest, path).value;
    if rest != "" && rest[0] == '?' {
      var n := 1 + Munch(rest[1..], InQuery);
      MunchedIsText(rest[1..], InQuery);
      assert rest[1..][..n - 1] == rest[1..n] && rest == "?" + rest[1..n] + rest[n..];
      SplitFragmentExact(rest[n..], path, Some(rest[1..n]), t);
    } else {
      SplitFragmentExact(rest, path, None, t);
      assert rest == RenderQuery(t);
    }
  }

  lemma SplitQueryComplete(t: Target)
    requires IsTarget(t.(path := None))
    ensures SplitQuery(RenderQuery(t), t.path) == Some(t)
  {
    hide Munch, IsAllowed, StartsEncoded;
    var rest := RenderQuery(t);
    var end := if t.fragment.Some? then "#" + t.fragment.value else "";
    if t.query.Some? {
      var q := t.query.value;
      assert rest[1..] == q + end;
      FragmentEnds(t);
      MunchWhole(q, end, InQuery);
      assert rest[1..1 + |q|] == q && rest[1 + |q|..] == end;
      SplitFragmentExact(end, t.path, Some(q), t);
    } else {
      assert rest == end;
      SplitFragmentExact(rest, t.path, None, t);
    }
  }

  lemma FragmentEnds(t: Target)
    ensures Ends(if t.fragment.Some? then "#" + t.fragment.value else "", InQuery) && Ends(RenderQuery(t), InPath)
  {
  }

  lemma SplitSound(str: string)
    requires Split(str).Some?
    ensures IsTarget(Split(str).value) && str == Render(Split(str).value)
  {
    hide Munch, IsAllowed, StartsEncoded, SplitQuery;
    if str != "" && str[0] == '/' {
      var n := 1 + Munch(str[1..], InPath);
      MunchedIsText(str[1..], InPath);
      assert str[1..][..n - 1] == str[..n][1..] && str == str[..n] + str[n..];
      SplitQuerySound(str[n..], Some(str[..n]));
    } else {
      SplitQuerySound(str, None);
      assert str == Render(Split(str).value);
    }
  }

  lemma SplitComplete(t: Target)
    requires IsTarget(t)
    ensures Split(Render(t)) == Some(t)
  {
    hide Munch, IsAllowed, StartsEncoded, SplitQuery, RenderQuery;
    var str, end := Render(t), RenderQuery(t);
    SplitQueryComplete(t);
    if t.path.Some? {
      var p := t.path.value;
      assert str[1..] == p[1..] + end;
      FragmentEnds(t);
      MunchWhole(p[1..], end, InPath);
      assert str[..|p|] == p && str[|p|..] == end;
    } else {
      assert str == end;
      NoSlash(t);
    }
  }

  lemma NoSlash(t: Target)
    ensures RenderQuery(t) == "" || RenderQuery(t)[0] != '/'
  {
  }

  /** A text is a target in at most one way, and that is the one found. */
  lemma SplitExact(str: string, t: Target)
    ensures Split(str) == Some(t) <==> IsTarget(t) && str == Render(t)
  {
    hide IsTarget, Render, Split;
    if Split(str) == Some(t) {
      SplitSound(str);
    }
    if IsTarget(t) && str == Render(t) {
      SplitComplete(t);
    }
  }
}

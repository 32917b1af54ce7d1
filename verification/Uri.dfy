/** The parsers of request targets, which take characters off the front of the text, and the printer. */
module Uris {
  import opened Wrappers
  import opened Ascii
  import opened Numerals
  import opened UriSyntax
  import opened Authorities

  // The decoded path, and the path as it was written if the two differ.
  datatype Path = Path(escaped: string, unescaped: Option<string>)

  datatype PathQueryFragment = PathQueryFragment(path: Option<Path>, query: Option<string>, fragment: Option<string>)

  datatype Uri = AsteriskForm | OriginForm(pqf: PathQueryFragment) | AuthorityForm(authority: Authority)
    | AbsoluteForm(scheme: string, authority: Authority, pqf: PathQueryFragment)

  function GetPath(p: Path): string {
    if p.unescaped.Some? then p.unescaped.value else p.escaped
  }

  /** The pieces as they were written. */
  function Written(pqf: PathQueryFragment): Target {
    Target(if pqf.path.Some? then Some(GetPath(pqf.path.value)) else None, pqf.query, pqf.fragment)
  }

  /** Decoding goes piece by piece over a text. */
  lemma {:induction false} DecodeAppend(s: string, rest: string, place: Place)
    requires IsText(s, place)
    ensures Decode(s + rest) == Decode(s) + Decode(rest)
    decreases |s|
  {
    var text := s + rest;
    if s == "" {
      assert text == rest;
    } else if IsAllowed(s[0], place) {
      assert text[1..] == s[1..] + rest;
      NotEncoded(s, place);
      NotEncoded(text, place);
      hide IsAllowed, StartsEncoded;
      DecodeAppend(s[1..], rest, place);
      Associate([s[0]], Decode(s[1..]), Decode(rest));
    } else {
      assert text[3..] == s[3..] + rest && text[..3] == s[..3];
      assert StartsEncoded(text);
      hide IsAllowed, StartsEncoded;
      DecodeAppend(s[3..], rest, place);
      Associate([PctDecode(s[..3])], Decode(s[3..]), Decode(rest));
    }
  }

  lemma NotEncoded(s: string, place: Place)
    requires s != "" && IsAllowed(s[0], place)
    ensures !StartsEncoded(s)
  {
  }

  /** One more character, or one more encoded byte, behind what has been read. */
  lemma Extend(str: string, k: nat, size: nat)
    requires k < |str| && size == (if IsAllowed(str[k], InPath) then 1 else 3)
    requires IsAllowed(str[k], InPath) || StartsEncoded(str[k..])
    requires IsText(str[..k], InPath)
    ensures k + size <= |str| && IsText(str[..k + size], InPath)
    ensures Munch(str[k..], InPath) == size + Munch(str[k + size..], InPath)
    ensures Decode(str[..k + size]) == Decode(str[..k]) + if size == 1 then [str[k]] else [PctDecode(str[k..k + 3])]
    ensures size == 3 ==> str[k] == '%'
  {
    var piece := str[k..k + size];
    assert str[..k + size] == str[..k] + piece;
    assert str[k..][0] == str[k] && str[k..][size..] == str[k + size..] && (size == 3 ==> str[k..][..3] == piece);
    DecodeAppend(str[..k], piece, InPath);
    assert piece[size..] == "" && Decode("") == "";
    if size == 1 {
      NotEncoded(piece, InPath);
      assert piece == [str[k]];
    } else {
      assert piece[..3] == piece;
    }
    TextAppend(str[..k], piece, InPath);
  }

  lemma {:induction false} TextAppend(s: string, rest: string, place: Place)
    requires IsText(s, place)
    ensures Munch(s + rest, place) == |s| + Munch(rest, place)
    decreases |s|
  {
    var text := s + rest;
    if s == "" {
      assert text == rest;
    } else if IsAllowed(s[0], place) {
      assert text[1..] == s[1..] + rest;
      TextAppend(s[1..], rest, place);
    } else {
      assert text[3..] == s[3..] + rest && text[..3] == s[..3];
      TextAppend(s[3..], rest, place);
    }
  }

  /** The state of the path loop: the raw copy is empty until the first encoded byte. */
  ghost predicate ReadTo(str: string, k: nat, pathEscaped: string, path: string) {
    && 1 <= k <= |str| && IsText(str[..k], InPath)
    && k + Munch(str[k..], InPath) == 1 + Munch(str[1..], InPath)
    && pathEscaped == Decode(str[..k])
    && if path == "" then pathEscaped == str[..k] && '%' !in str[..k] else path == str[..k] && '%' in str[..k]
  }

  lemma Begin(str: string)
    requires str != "" && str[0] == '/'
    ensures ReadTo(str, 1, "/", "")
  {
    assert str[..1][1..] == "";
    assert str[..1] == "/" == Decode(str[..1]);
  }

  lemma StepPlain(str: string, k: nat, pathEscaped: string, path: string)
    requires ReadTo(str, k, pathEscaped, path) && k < |str| && IsAllowed(str[k], InPath)
    ensures ReadTo(str, k + 1, pathEscaped + [str[k]], if path == "" then "" else path + [str[k]])
  {
    Extend(str, k, 1);
    hide IsText, Decode, Munch;
    assert str[k] != '%' && str[..k + 1] == str[..k] + [str[k]];
  }

  lemma StepEncoded(str: string, k: nat, pathEscaped: string, path: string)
    requires ReadTo(str, k, pathEscaped, path) && k < |str| && !IsAllowed(str[k], InPath) && StartsEncoded(str[k..])
    ensures k + 3 <= |str| && IsPctEncoded(str[k..k + 3])
    ensures ReadTo(str, k + 3, pathEscaped + [PctDecode(str[k..k + 3])],
                   (if path == "" then pathEscaped else path) + str[k..k + 3])
  {
    assert str[k..][..3] == str[k..k + 3];
    Extend(str, k, 3);
    hide IsText, Decode, Munch;
    assert str[..k + 3] == str[..k] + str[k..k + 3] && str[..k + 3][k] == '%';
  }

  lemma Stop(str: string, k: nat, pathEscaped: string, path: string)
    requires ReadTo(str, k, pathEscaped, path)
    requires k == |str| || (!IsAllowed(str[k], InPath) && !StartsEncoded(str[k..]))
    ensures k == 1 + Munch(str[1..], InPath) && pathEscaped == Decode(str[..k])
    ensures if path == "" then pathEscaped == str[..k] && '%' !in str[..k] else path == str[..k] && '%' in str[..k]
  {
    hide Decode;
    assert k < |str| ==> str[k..][0] == str[k];
  }

  /** Reads the path; the copy of its raw text is begun only at the first encoded byte. */
  method ParsePath(str: string) returns (r: Path, rest: string)
    requires str != "" && str[0] == '/'
    ensures var n := 1 + Munch(str[1..], InPath);
      && rest == str[n..] && GetPath(r) == str[..n] && r.escaped == Decode(str[..n])
      && (r.unescaped.Some? <==> '%' in str[..n])
  {
    hide Decode, StartsEncoded, ReadTo, Munch, IsAllowed;
    var k, pathEscaped, path := 1, "/", "";
    Begin(str);
    while k < |str|
      invariant 1 <= k <= |str| && ReadTo(str, k, pathEscaped, path)
    {
      var c := str[k];
      if IsAllowed(c, InPath) {
        StepPlain(str, k, pathEscaped, path);
        pathEscaped := pathEscaped + [c];
        if path != "" {
          path := path + [c];
        }
        k := k + 1;
        continue;
      }
      if StartsEncoded(str[k..]) {
        StepEncoded(str, k, pathEscaped, path);
        if path == "" {
          path := path + pathEscaped;
          assert path == pathEscaped;
        }
        pathEscaped := pathEscaped + [PctDecode(str[k..k + 3])];
        path := path + str[k..k + 3];
        k := k + 3;
        continue;
      }
      break;
    }
    Stop(str, k, pathEscaped, path);
    rest := str[k..];
    r := Path(pathEscaped, if path == "" then None else Some(path));
  }

  /** Reads a query, a fragment, the user information or the host: everything up to the first character that
      cannot be part of it. */
  method TakeText(str: string, place: Place) returns (text: string, rest: string)
    ensures text == str[..Munch(str, place)] && rest == str[Munch(str, place)..]
  {
    hide Munch, IsAllowed, StartsEncoded;
    text, rest := "", str;
    while rest != ""
      invariant str == text + rest && Munch(str, place) == |text| + Munch(rest, place)
      decreases |rest|
    {
      if IsAllowed(rest[0], place) {
        MunchStep(rest, place);
        assert str == text + [rest[0]] + rest[1..];
        text := text + [rest[0]];
        rest := rest[1..];
      } else if StartsEncoded(rest) {
        MunchStep(rest, place);
        assert str == text + rest[..3] + rest[3..];
        text := text + rest[..3];
        rest := rest[3..];
      } else {
        MunchStep(rest, place);
        return;
      }
    }
    MunchNothing(place);
  }

  lemma MunchStep(rest: string, place: Place)
    requires rest != ""
    ensures IsAllowed(rest[0], place) ==> Munch(rest, place) == 1 + Munch(rest[1..], place)
    ensures !IsAllowed(rest[0], place) && StartsEncoded(rest) ==>
              |rest| >= 3 && Munch(rest, place) == 3 + Munch(rest[3..], place)
    ensures !IsAllowed(rest[0], place) && !StartsEncoded(rest) ==> Munch(rest, place) == 0
  {
  }

  lemma MunchNothing(place: Place)
    ensures Munch("", place) == 0
  {
  }

  method ParseFragment(str: string, path: Option<Path>, query: Option<string>) returns (r: Option<PathQueryFragment>)
    ensures var t := SplitFragment(str, Written(PathQueryFragment(path, query, None)).path, query);
      && (r.Some? <==> t.Some?)
      && (r.Some? ==> r.value.path == path && Written(r.value) == t.value)
  {
    hide Munch, Decode, IsAllowed;
    if str == "" {
      return Some(PathQueryFragment(path, query, None));
    }
    if str[0] != '#' {
      return None;
    }
    var fragment, rest := TakeText(str[1..], InQuery);
    if rest != "" {
      return None;
    }
    assert fragment == str[1..];
    return Some(PathQueryFragment(path, query, Some(fragment)));
  }

  method ParseQuery(str: string, path: Option<Path>) returns (r: Option<PathQueryFragment>)
    ensures var t := SplitQuery(str, Written(PathQueryFragment(path, None, None)).path);
      && (r.Some? <==> t.Some?)
      && (r.Some? ==> r.value.path == path && Written(r.value) == t.value)
  {
    hide Munch, Decode, IsAllowed, SplitFragment;
    if str != "" && str[0] == '?' {
      ghost var n := Munch(str[1..], InQuery);
      assert str[1..][n..] == str[1 + n..] && str[1..][..n] == str[1..1 + n];
      var query, rest := TakeText(str[1..], InQuery);
      r := ParseFragment(rest, path, Some(query));
    } else {
      r := ParseFragment(str, path, None);
    }
  }

  /** A target, in any of its possible shapes; every other text is refused. */
  method ParsePathQueryFragment(str: string) returns (r: Option<PathQueryFragment>)
    ensures r.Some? <==> Split(str).Some?
    ensures r.Some? ==> Written(r.value) == Split(str).value
    ensures r.Some? && r.value.path.Some? ==> r.value.path.value.escaped == Decode(GetPath(r.value.path.value))
  {
    hide Munch, Decode, IsAllowed, SplitQuery;
    if str == "" {
      r := ParseQuery(str, None);
      return;
    }
    if str[0] != '/' && str[0] != '?' && str[0] != '#' {
      NoTarget(str);
      return None;
    }
    if str[0] == '/' {
      var path, rest := ParsePath(str);
      r := ParseQuery(rest, Some(path));
    } else {
      r := ParseQuery(str, None);
    }
  }

  lemma NoTarget(str: string)
    requires str != "" && str[0] != '/' && str[0] != '?' && str[0] != '#'
    ensures Split(str) == None
  {
  }

  // The printer

  /** The absolute form as it is printed: query and fragment come without their marks. */
  function PrintAbsolute(scheme: string, authority: Authority, t: Target): string {
    scheme + "://" + PrintAuthority(authority)
    + (if t.path.Some? then t.path.value else "")
    + (if t.query.Some? then t.query.value else "")
    + (if t.fragment.Some? then t.fragment.value else "")
  }

  /** The printer reads a path without asking whether there is one, and the text of a standard scheme. */
  predicate CanPrint(uri: Uri) {
    && (uri.OriginForm? || uri.AbsoluteForm? ==> uri.pqf.path.Some?)
    && (uri.AbsoluteForm? ==> uri.scheme == "http" || uri.scheme == "https")
  }

  method PrintUri(uri: Uri) returns (stream: string)
    requires CanPrint(uri)
    ensures uri.OriginForm? ==> stream == Render(Written(uri.pqf))
    ensures uri.AbsoluteForm? ==> stream == PrintAbsolute(uri.scheme, uri.authority, Written(uri.pqf))
    ensures uri.AuthorityForm? ==> stream == PrintAuthority(uri.authority)
    ensures uri.AsteriskForm? ==> stream == "*"
  {
    stream := "";
    match uri {
      case OriginForm(pqf) =>
        stream := WriteOrigin(pqf);
      case AbsoluteForm(scheme, authority, pqf) =>
        stream := WriteAbsolute(scheme, authority, pqf);
      case AuthorityForm(authority) =>
        stream := WriteAuthority(authority);
      case AsteriskForm =>
        stream := stream + "*";
    }
  }

  method WriteOrigin(pqf: PathQueryFragment) returns (stream: string)
    requires pqf.path.Some?
    ensures stream == Render(Written(pqf))
  {
    stream := GetPath(pqf.path.value);
    if pqf.query.Some? {
      stream := stream + "?" + pqf.query.value;
    }
    if pqf.fragment.Some? {
      stream := stream + "#" + pqf.fragment.value;
    }
  }

  method WriteAbsolute(scheme: string, authority: Authority, pqf: PathQueryFragment) returns (stream: string)
    requires pqf.path.Some?
    ensures stream == PrintAbsolute(scheme, authority, Written(pqf))
  {
    hide PrintAuthority;
    stream := scheme + "://";
    var text := WriteAuthority(authority);
    stream := stream + text;
    stream := stream + GetPath(pqf.path.value);
    ghost var start := stream;
    if pqf.query.Some? {
      stream := stream + pqf.query.value;
    }
    assert stream == start + (if pqf.query.Some? then pqf.query.value else "");
    ghost var next := stream;
    if pqf.fragment.Some? {
      stream := stream + pqf.fragment.value;
    }
    assert stream == next + (if pqf.fragment.Some? then pqf.fragment.value else "");
  }

  method WriteAuthority(authority: Authority) returns (stream: string)
    ensures stream == PrintAuthority(authority)
  {
    stream := "";
    if authority.userinfo.Some? {
      stream := stream + authority.userinfo.value + "@";
    }
    stream := stream + authority.host;
    if authority.port.Some? {
      var port := Uint64ToString(authority.port.value);
      stream := stream + ":" + port;
    }
  }

  // The other forms

  method ReadPort(digits: string) returns (r: Option<nat>)
    ensures r == PortValue(digits, 0)
  {
    var idx, port := 0, 0;
    assert digits[0..] == digits;
    while idx < |digits|
      invariant 0 <= idx <= |digits| && 0 <= port <= UINT16_MAX
      invariant PortValue(digits[idx..], port) == PortValue(digits, 0)
    {
      var c := digits[idx];
      assert digits[idx..][1..] == digits[idx + 1..];
      if !IsDigit(c) {
        return None;
      }
      port := port * 10;
      port := port + (c as int - '0' as int);
      if port > UINT16_MAX {
        return None;
      }
      idx := idx + 1;
    }
    return Some(port);
  }

  /** User information up to the first at sign, the port behind the first colon after it, the host between. */
  method ReadAuthority(str: string) returns (r: Option<Authority>)
    ensures r == ParseAuthority(str)
  {
    hide Munch, IsAllowed, PortValue;
    var userinfoEnd := Find(str, '@', 0);
    var userinfo: Option<string> := None;
    if userinfoEnd < |str| {
      var text, rest := TakeText(str[..userinfoEnd], InUserinfo);
      if rest != "" {
        return None;
      }
      assert text == str[..userinfoEnd];
      userinfo := Some(text);
    }
    var portStart := Find(str, ':', if userinfo.None? then 0 else userinfoEnd);
    var port: Option<nat> := None;
    if portStart < |str| && portStart + 1 != |str| {
      assert str[portStart..][1..] == str[portStart + 1..];
      port := ReadPort(str[portStart + 1..]);
      if port.None? {
        return None;
      }
    }
    var hostStart := if userinfo.None? then 0 else userinfoEnd + 1;
    var host, rest := TakeText(str[hostStart..portStart], InHost);
    if rest != "" {
      return None;
    }
    assert host == str[hostStart..portStart];
    return Some(Authority(userinfo, host, port));
  }

  predicate MarkAt(str: string, k: nat)
    requires k + 3 <= |str|
  {
    str[k..k + 3] == "://"
  }

  /** Where the first `://` at or after `from` stands, the length if there is none. */
  function SchemeEnd(str: string, from: nat): (k: nat)
    requires from <= |str|
    ensures from <= k <= |str| && (k < |str| ==> k + 3 <= |str|)
    decreases |str| - from
  {
    if from + 3 > |str| then |str| else if MarkAt(str, from) then from else SchemeEnd(str, from + 1)
  }

  predicate HasSchemeMark(str: string) {
    SchemeEnd(str, 0) < |str|
  }

  predicate SchemeOk(s: string) {
    s != "" && IsAlpha(s[0]) && forall k :: 1 <= k < |s| ==> IsAlpha(s[k]) || IsDigit(s[k]) || s[k] in {'=', '-', '.'}
  }

  /** The authority ends at the first slash; only without one, at a question mark, and else at a number sign. */
  function AuthorityEnd(str: string, start: nat): (k: nat)
    requires start <= |str|
    ensures start <= k <= |str|
  {
    if Find(str, '/', start) < |str| then Find(str, '/', start)
    else if Find(str, '?', start) < |str| then Find(str, '?', start)
    else Find(str, '#', start)
  }

  method ReadScheme(view: string) returns (ok: bool)
    ensures ok <==> SchemeOk(view)
  {
    if view == "http" || view == "https" {
      return true;
    }
    if view == "" || !IsAlpha(view[0]) {
      return false;
    }
    for k := 1 to |view|
      invariant forall m :: 1 <= m < k ==> IsAlpha(view[m]) || IsDigit(view[m]) || view[m] in {'=', '-', '.'}
    {
      if !IsAlpha(view[k]) && !IsDigit(view[k]) && view[k] != '=' && view[k] != '-' && view[k] != '.' {
        return false;
      }
    }
    return true;
  }

  /** Scheme, authority and the rest of an absolute target. */
  predicate IsAbsolute(str: string) {
    str != "*" && (str == "" || str[0] != '/') && HasSchemeMark(str)
  }

  function SchemeText(str: string): string
    requires HasSchemeMark(str)
  {
    str[..SchemeEnd(str, 0)]
  }

  function AuthorityText(str: string): string
    requires HasSchemeMark(str)
  {
    var start := SchemeEnd(str, 0) + 3;
    str[start..AuthorityEnd(str, start)]
  }

  function RestText(str: string): string
    requires HasSchemeMark(str)
  {
    str[AuthorityEnd(str, SchemeEnd(str, 0) + 3)..]
  }

  method ParseAbsolute(str: string) returns (r: Option<Uri>)
    requires HasSchemeMark(str)
    ensures r.Some? <==>
            SchemeOk(SchemeText(str)) && ParseAuthority(AuthorityText(str)).Some? && Split(RestText(str)).Some?
    ensures r.Some? ==>
              && r.value.AbsoluteForm? && r.value.scheme == SchemeText(str)
              && ParseAuthority(AuthorityText(str)) == Some(r.value.authority)
              && Split(RestText(str)) == Some(Written(r.value.pqf))
  {
    hide SchemeOk, ParseAuthority, Split, AuthorityEnd, SchemeEnd;
    var schemeEnd := SchemeEnd(str, 0);
    var ok := ReadScheme(str[..schemeEnd]);
    if !ok {
      return None;
    }
    var authorityStart := schemeEnd + 3;
    var authorityEnd := AuthorityEnd(str, authorityStart);
    var authority := ReadAuthority(str[authorityStart..authorityEnd]);
    if authority.None? {
      return None;
    }
    var pqf := ParsePathQueryFragment(str[authorityEnd..]);
    if pqf.None? {
      return None;
    }
    return Some(AbsoluteForm(str[..schemeEnd], authority.value, pqf.value));
  }

  /** The form of a target decides how it is read. */
  method ParseUri(str: string) returns (r: Option<Uri>)
    ensures str == "*" ==> r == Some(AsteriskForm)
    ensures str != "" && str[0] == '/' ==>
              && (r.Some? <==> Split(str).Some?)
              && (r.Some? ==> r.value.OriginForm? && Written(r.value.pqf) == Split(str).value
                              && r.value.pqf.path.Some?
                              && r.value.pqf.path.value.escaped == Decode(GetPath(r.value.pqf.path.value)))
    ensures IsAbsolute(str) ==>
              && (r.Some? <==>
                  SchemeOk(SchemeText(str)) && ParseAuthority(AuthorityText(str)).Some? && Split(RestText(str)).Some?)
              && (r.Some? ==>
                    && r.value.AbsoluteForm? && r.value.scheme == SchemeText(str)
                    && ParseAuthority(AuthorityText(str)) == Some(r.value.authority)
                    && Split(RestText(str)) == Some(Written(r.value.pqf)))
    ensures str != "*" && (str == "" || str[0] != '/') && !HasSchemeMark(str) ==>
              r == if ParseAuthority(str).Some? then Some(AuthorityForm(ParseAuthority(str).value)) else None
  {
    if str == "*" {
      return Some(AsteriskForm);
    }
    if str != "" && str[0] == '/' {
      var pqf := ParsePathQueryFragment(str);
      return if pqf.None? then None else Some(OriginForm(pqf.value));
    }
    hide SchemeOk, ParseAuthority, Split, AuthorityText, RestText, SchemeText;
    if HasSchemeMark(str) {
      r := ParseAbsolute(str);
      return;
    }
    var authority := ReadAuthority(str);
    return if authority.None? then None else Some(AuthorityForm(authority.value));
  }

  // Reading and printing again

  lemma {:induction false} DecimalGrows(digits: string, acc: nat)
    requires acc > 0 && PortValue(digits, acc).Some?
    ensures |Decimal(PortValue(digits, acc).value)| == |Decimal(acc)| + |digits|
    decreases |digits|
  {
    if digits != "" {
      DecimalGrows(digits[1..], acc * 10 + HexDecode(digits[0]));
    }
  }

  /** The digits of a port are no shorter than its decimal form. */
  lemma {:induction false} PortIsShort(digits: string)
    requires digits != "" && PortValue(digits, 0).Some?
    ensures |Decimal(PortValue(digits, 0).value)| <= |digits|
    decreases |digits|
  {
    var d := HexDecode(digits[0]);
    assert |Decimal(d)| == 1;
    if d > 0 {
      DecimalGrows(digits[1..], d);
    } else if |digits| > 1 {
      PortIsShort(digits[1..]);
    }
  }

  lemma PrintedIsShort(s: string)
    requires ParseAuthority(s).Some?
    ensures |PrintAuthority(ParseAuthority(s).value)| <= |s|
  {
    ReadsOk(s);
    var a := ParseAuthority(s).value;
    var text := s[Find(s, ':', if a.userinfo.Some? then |a.userinfo.value| else 0)..];
    hide ParseAuthority, Find, PortValue, Decimal;
    if a.port.Some? {
      PortIsShort(text[1..]);
    }
  }

  /** The absolute form comes out as it went in exactly when it has neither query nor fragment and its authority
      is spelled as it is printed. */
  lemma AbsoluteReprint(str: string)
    requires HasSchemeMark(str) && ParseAuthority(AuthorityText(str)).Some? && Split(RestText(str)).Some?
    ensures var a, t := ParseAuthority(AuthorityText(str)).value, Split(RestText(str)).value;
      PrintAbsolute(SchemeText(str), a, t) == str <==>
      t.query.None? && t.fragment.None? && PrintAuthority(a) == AuthorityText(str)
  {
    var a, t := ParseAuthority(AuthorityText(str)).value, Split(RestText(str)).value;
    SplitSound(RestText(str));
    PrintedIsShort(AuthorityText(str));
    AbsoluteParts(str);
    hide ParseAuthority, Split, PrintAuthority, IsTarget, PrintAbsolute, Render, SchemeText, AuthorityText, RestText,
      HasSchemeMark;
    if t.query.None? && t.fragment.None? {
      PlainReprint(str, SchemeText(str), AuthorityText(str), a, t);
    } else {
      MarksDropped(SchemeText(str), AuthorityText(str), a, t);
    }
  }

  lemma AbsoluteParts(str: string)
    requires HasSchemeMark(str)
    ensures str == SchemeText(str) + "://" + AuthorityText(str) + RestText(str)
  {
    MarkFound(str, 0);
    hide SchemeEnd, AuthorityEnd;
    var k := SchemeEnd(str, 0);
    var e := AuthorityEnd(str, k + 3);
    assert str[..k] + str[k..k + 3] == str[..k + 3];
    assert str[..k + 3] + str[k + 3..e] == str[..e];
    assert str[..e] + str[e..] == str;
  }

  lemma PlainReprint(str: string, scheme: string, mid: string, a: Authority, t: Target)
    requires str == scheme + "://" + mid + Render(t) && t.query.None? && t.fragment.None?
    ensures PrintAbsolute(scheme, a, t) == str <==> PrintAuthority(a) == mid
  {
    hide PrintAuthority;
    var path := if t.path.Some? then t.path.value else "";
    var front, text := scheme + "://", PrintAuthority(a);
    assert Render(t) == path;
    assert PrintAbsolute(scheme, a, t) == front + text + path + "" + "";
    assert front + text + path + "" + "" == front + text + path;
    if front + text + path == front + mid + path {
      assert |text| == |mid|;
      assert (front + text + path)[|front|..|front| + |mid|] == text;
      assert (front + mid + path)[|front|..|front| + |mid|] == mid;
    }
  }

  lemma MarksDropped(scheme: string, mid: string, a: Authority, t: Target)
    requires |PrintAuthority(a)| <= |mid| && (t.query.Some? || t.fragment.Some?)
    ensures |PrintAbsolute(scheme, a, t)| < |scheme + "://" + mid + Render(t)|
  {
    hide PrintAuthority;
  }

  lemma {:induction false} MarkFound(str: string, from: nat)
    requires from <= |str|
    ensures var k := SchemeEnd(str, from); k < |str| ==> k + 3 <= |str| && str[k..k + 3] == "://"
    decreases |str| - from
  {
    if from + 3 <= |str| && !MarkAt(str, from) {
      MarkFound(str, from + 1);
    }
  }

  /** Reading a target and printing it: the origin form and the asterisk come out as they went in, an authority
      in a form that is read as the same authority.  What is refused is exactly what the parts refuse. */
  method Reprint(str: string) returns (r: Option<string>)
    requires IsAbsolute(str) ==>
               && (SchemeText(str) == "http" || SchemeText(str) == "https")
               && (Split(RestText(str)).Some? ==> Split(RestText(str)).value.path.Some?)
    ensures str == "*" || (str != "" && str[0] == '/') ==>
              (r.Some? <==> str == "*" || Split(str).Some?) && (r.Some? ==> r.value == str)
    ensures IsAbsolute(str) ==>
              var a, t := ParseAuthority(AuthorityText(str)), Split(RestText(str));
              && (r.Some? <==> a.Some? && t.Some?)
              && (r.Some? ==> r.value == PrintAbsolute(SchemeText(str), a.value, t.value))
    ensures str != "*" && (str == "" || str[0] != '/') && !HasSchemeMark(str) ==>
              && (r.Some? <==> ParseAuthority(str).Some?)
              && (r.Some? ==> ParseAuthority(r.value) == ParseAuthority(str))
  {
    assert SchemeOk("http") && SchemeOk("https");
    hide ParseAuthority, PrintAuthority, PrintAbsolute, AuthorityText, SchemeText, RestText, SchemeOk, HasSchemeMark,
      Render, Decode;
    var uri := ParseUri(str);
    if uri.None? {
      return None;
    }
    var printed := PrintUri(uri.value);
    if uri.value.OriginForm? {
      SplitSound(str);
    } else if uri.value.AuthorityForm? {
      Normalises(str);
    }
    return Some(printed);
  }
}

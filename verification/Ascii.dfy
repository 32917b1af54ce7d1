/** Character classes of HTTP messages.  A byte is modelled by the character of the same code. */
module Ascii {
  predicate IsDigit(c: char) { '0' <= c <= '9' }

  predicate IsAlpha(c: char) { 'a' <= c <= 'z' || 'A' <= c <= 'Z' }

  // Accepts every letter, not only those up to F, as the source does.
  predicate IsHexDigit(c: char) { IsDigit(c) || IsAlpha(c) }

  function HexDecode(c: char): (d: nat)
    ensures d < 36
  {
    if IsDigit(c) then c as int - '0' as int
    else if 'a' <= c <= 'z' then c as int - 'a' as int + 10
    else if 'A' <= c <= 'Z' then c as int - 'A' as int + 10
    else 17
  }

  // The digits of base sixteen, and no more.
  predicate IsXdigit(c: char) { IsDigit(c) || 'a' <= c <= 'f' || 'A' <= c <= 'F' }

  function XdigitValue(c: char): (d: nat)
    requires IsXdigit(c)
    ensures d < 16
  {
    HexDecode(c)
  }

  predicate IsTchar(c: char) {
    IsDigit(c) || IsAlpha(c) || c in {'!', '#', '$', '%', '&', '\'', '*', '+', '-', '.', '^', '_', '`', '|', '~'}
  }

  predicate IsVchar(c: char) { '!' <= c <= '~' }

  predicate IsBlank(c: char) { c == ' ' || c == '\t' }

  predicate IsUnreserved(c: char) { IsAlpha(c) || IsDigit(c) || c in {'-', '.', '_', '~'} }

  predicate IsSubDelim(c: char) { c in {'!', '$', '&', '\'', '(', ')', '*', '+', ',', ';', '='} }

  function ToLower(c: char): char {
    if 'A' <= c <= 'Z' then (c as int + 32) as char else c
  }

  predicate EqualNoCase(a: string, b: string) {
    |a| == |b| && forall k :: 0 <= k < |a| ==> ToLower(a[k]) == ToLower(b[k])
  }

  /** The first place of a character at or after `from`, the length if there is none. */
  function Find(s: string, c: char, from: nat): (k: nat)
    requires from <= |s|
    ensures from <= k <= |s| && (k < |s| ==> s[k] == c) && forall j :: from <= j < k ==> s[j] != c
    decreases |s| - from
  {
    if from == |s| || s[from] == c then from else Find(s, c, from + 1)
  }

  lemma FindAt(s: string, c: char, from: nat, k: nat)
    requires from <= k <= |s| && (k < |s| ==> s[k] == c) && forall j :: from <= j < k ==> s[j] != c
    ensures Find(s, c, from) == k
  {
  }
}

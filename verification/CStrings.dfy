/** C character data. A C string is the sequence of its characters without the
    terminating NUL; a byte is a character whose code is below 256. The functions
    are the string.h and ctype.h routines the parsers are written with. */
module CStrings {
  const NUL := 0 as char
  const VT := 11 as char
  const FF := 12 as char

  datatype Option<+T> = None | Some(value: T)

  /** EZXML_WS */
  const XML_WS: set<char> := {'\t', '\r', '\n', ' '}

  /** isspace() in the C locale */
  predicate IsSpace(c: char) {
    c == ' ' || 9 <= c as int <= 13
  }

  /** isdigit() */
  predicate IsDigit(c: char) {
    '0' <= c <= '9'
  }

  /** strcspn(): length of the prefix that holds no character of stop */
  function CSpan(s: string, stop: set<char>): (n: nat)
    ensures n <= |s|
    ensures forall k :: 0 <= k < n ==> s[k] !in stop
    ensures n < |s| ==> s[n] in stop
  {
    if s == "" || s[0] in stop then 0 else 1 + CSpan(s[1..], stop)
  }

  /** strspn(): what follows the prefix made of characters of skip */
  function SkipAny(s: string, skip: set<char>): (r: string)
    ensures |r| <= |s|
    ensures r != "" ==> r[0] !in skip
    ensures s != "" && s[0] !in skip ==> r == s
  {
    if s != "" && s[0] in skip then SkipAny(s[1..], skip) else s
  }

  /** skips white space as isspace() sees it */
  function SkipSpace(s: string): (r: string)
    ensures |r| <= |s|
    ensures r != "" ==> !IsSpace(r[0])
    ensures s != "" && !IsSpace(s[0]) ==> r == s
  {
    if s != "" && IsSpace(s[0]) then SkipSpace(s[1..]) else s
  }

  /** strstr(): the position of the first occurrence of w */
  function Find(s: string, w: string): (r: Option<nat>)
    ensures r.Some? ==> r.value + |w| <= |s| && w <= s[r.value..]
  {
    if w <= s then Some(0)
    else if s == "" then None
    else match Find(s[1..], w) case Some(k) => Some(k + 1) case None => None
  }

  lemma CSpanStops(w: string, rest: string, stop: set<char>)
    requires forall k :: 0 <= k < |w| ==> w[k] !in stop
    requires rest == "" || rest[0] in stop
    ensures CSpan(w + rest, stop) == |w|
  {
    assert forall k :: 0 <= k < |w| ==> (w + rest)[k] == w[k];
    assert rest != "" ==> (w + rest)[|w|] == rest[0];
  }

  lemma Assoc(a: string, b: string, c: string)
    ensures a + b + c == a + (b + c)
  {}
}

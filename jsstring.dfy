/**
 * The JavaScript string operations the search plugin relies on, over
 * strings of characters: `trim`, `indexOf`, `lastIndexOf`, `substring`,
 * `includes`, `replace` of a literal (first occurrence or all of them),
 * `join`, and ASCII case-insensitive search.
 */
module JsString {

  /** The characters of JavaScript's `\s` class, which are also what `trim` removes. */
  predicate IsSpace(c: char) {
    c == ' ' || c == '\t' || c == '\n' || c == '\r' || c == '\U{000B}' || c == '\U{000C}'
    || c == '\U{00A0}' || c == '\U{1680}' || ('\U{2000}' <= c <= '\U{200A}')
    || c == '\U{2028}' || c == '\U{2029}' || c == '\U{202F}' || c == '\U{205F}'
    || c == '\U{3000}' || c == '\U{FEFF}'
  }

  /** `s` with its leading white space removed. */
  function TrimStart(s: string): (r: string)
    ensures |r| <= |s| && r == s[|s| - |r|..]
    ensures r == [] || !IsSpace(r[0])
    ensures forall k :: 0 <= k < |s| - |r| ==> IsSpace(s[k])
  {
    if s != [] && IsSpace(s[0]) then TrimStart(s[1..]) else s
  }

  /** `s` with its trailing white space removed. */
  function TrimEnd(s: string): (r: string)
    ensures |r| <= |s| && r == s[..|r|]
    ensures r == [] || !IsSpace(r[|r| - 1])
    ensures forall k :: |r| <= k < |s| ==> IsSpace(s[k])
  {
    if s != [] && IsSpace(s[|s| - 1]) then TrimEnd(s[..|s| - 1]) else s
  }

  /** `String.prototype.trim`. */
  function Trim(s: string): (r: string)
    ensures |r| <= |s|
    ensures r == [] || (!IsSpace(r[0]) && !IsSpace(r[|r| - 1]))
  {
    TrimEnd(TrimStart(s))
  }

  lemma TrimStartIdle(s: string)
    requires s == [] || !IsSpace(s[0])
    ensures TrimStart(s) == s
  {}

  lemma TrimEndIdle(s: string)
    requires s == [] || !IsSpace(s[|s| - 1])
    ensures TrimEnd(s) == s
  {}

  /** Trimming a string that neither starts nor ends with white space changes nothing. */
  lemma TrimIdle(s: string)
    requires s == [] || (!IsSpace(s[0]) && !IsSpace(s[|s| - 1]))
    ensures Trim(s) == s
  {
    TrimStartIdle(s);
    TrimEndIdle(s);
  }

  /** Trimming twice is trimming once. */
  lemma TrimIdempotent(s: string)
    ensures Trim(Trim(s)) == Trim(s)
  {
    TrimIdle(Trim(s));
  }

  /** A string made of white space only trims to the empty string. */
  lemma {:induction false} TrimBlank(s: string)
    requires forall k :: 0 <= k < |s| ==> IsSpace(s[k])
    ensures Trim(s) == []
  {
    if s != [] {
      TrimBlank(s[1..]);
    }
  }

  /** `s` has `sub` at position `k`. */
  predicate At(s: string, sub: string, k: int) {
    0 <= k && k + |sub| <= |s| && s[k..k + |sub|] == sub
  }

  function Clamp(n: int, len: nat): (r: nat)
    ensures r <= len
    ensures 0 <= n <= len ==> r == n
  {
    if n < 0 then 0 else if n > len then len else n
  }

  function IndexFrom(s: string, sub: string, k: nat): (r: int)
    requires k <= |s|
    decreases |s| - k
    ensures r == -1 || (k <= r && At(s, sub, r))
    ensures r == -1 ==> forall j :: k <= j <= |s| ==> !At(s, sub, j)
    ensures r != -1 ==> forall j :: k <= j < r ==> !At(s, sub, j)
  {
    if At(s, sub, k) then k
    else if k == |s| then -1
    else IndexFrom(s, sub, k + 1)
  }

  /**
   * `s.indexOf(sub, from)`: the first position at or after `from`
   * (clamped into the string) where `sub` occurs, or -1.
   */
  function IndexOf(s: string, sub: string, from: int): (r: int)
    ensures r == -1 || (Clamp(from, |s|) <= r && At(s, sub, r))
    ensures r == -1 <==> forall j :: Clamp(from, |s|) <= j <= |s| ==> !At(s, sub, j)
    ensures r != -1 ==> forall j :: Clamp(from, |s|) <= j < r ==> !At(s, sub, j)
  {
    IndexFrom(s, sub, Clamp(from, |s|))
  }

  function LastIndexDown(s: string, sub: string, k: nat): (r: int)
    decreases k
    ensures r == -1 || (r <= k && At(s, sub, r))
    ensures r == -1 ==> forall j :: 0 <= j <= k ==> !At(s, sub, j)
    ensures r != -1 ==> forall j :: r < j <= k ==> !At(s, sub, j)
  {
    if At(s, sub, k) then k
    else if k == 0 then -1
    else LastIndexDown(s, sub, k - 1)
  }

  /**
   * `s.lastIndexOf(sub, from)`: the last position at or before `from`
   * (clamped into the string) where `sub` occurs, or -1.
   */
  function LastIndexOf(s: string, sub: string, from: int): (r: int)
    ensures r == -1 || (r <= Clamp(from, |s|) && At(s, sub, r))
    ensures r == -1 <==> forall j :: 0 <= j <= Clamp(from, |s|) ==> !At(s, sub, j)
    ensures r != -1 ==> forall j :: r < j <= Clamp(from, |s|) ==> !At(s, sub, j)
  {
    LastIndexDown(s, sub, Clamp(from, |s|))
  }

  /** `s.includes(sub)`. */
  predicate Includes(s: string, sub: string) {
    IndexOf(s, sub, 0) != -1
  }

  /**
   * `s.substring(a, b)`: both ends are clamped into the string and
   * swapped when they are out of order.
   */
  function Substring(s: string, a: int, b: int): (r: string)
    ensures |r| <= |s|
    ensures 0 <= a <= b <= |s| ==> r == s[a..b]
    ensures 0 <= b <= a <= |s| ==> r == s[b..a]
  {
    var x, y := Clamp(a, |s|), Clamp(b, |s|);
    if x <= y then s[x..y] else s[y..x]
  }

  /** `substring` does not care in which order its two ends are given. */
  lemma SubstringSwap(s: string, a: int, b: int)
    ensures Substring(s, a, b) == Substring(s, b, a)
  {}

  /** `s.replace(pat, "")` for a literal pattern: the first occurrence is removed. */
  function RemoveFirst(s: string, pat: string): (r: string)
    ensures |r| <= |s|
    ensures IndexOf(s, pat, 0) == -1 ==> r == s
    ensures IndexOf(s, pat, 0) != -1 ==>
      var i := IndexOf(s, pat, 0); r == s[..i] + s[i + |pat|..] && |r| == |s| - |pat|
  {
    var i := IndexOf(s, pat, 0);
    if i == -1 then s else s[..i] + s[i + |pat|..]
  }

  /** `s.replace(/pat/g, "")` for a non-empty literal pattern, scanning left to right. */
  function RemoveAll(s: string, pat: string): (r: string)
    requires pat != []
    ensures |r| <= |s|
    decreases |s|
  {
    if s == [] then []
    else if At(s, pat, 0) then RemoveAll(s[|pat|..], pat)
    else [s[0]] + RemoveAll(s[1..], pat)
  }

  /** Removing a pattern whose first character never occurs leaves the string as it is. */
  lemma {:induction false} RemoveAllAbsent(s: string, pat: string)
    requires pat != []
    requires forall k :: 0 <= k < |s| ==> s[k] != pat[0]
    ensures RemoveAll(s, pat) == s
  {
    if s != [] {
      assert !At(s, pat, 0) by { assert s[0] != pat[0]; }
      RemoveAllAbsent(s[1..], pat);
    }
  }

  /** `parts.join(sep)`. */
  function Join(parts: seq<string>, sep: string): (r: string)
    ensures parts == [] ==> r == []
    ensures |parts| == 1 ==> r == parts[0]
  {
    if parts == [] then []
    else if |parts| == 1 then parts[0]
    else parts[0] + sep + Join(parts[1..], sep)
  }

  function LowerChar(c: char): char {
    if 'A' <= c <= 'Z' then (c as int + 32) as char else c
  }

  /** ASCII lower-casing, the case folding the model uses for the `i` regex flag. */
  function Lower(s: string): (r: string)
    ensures |r| == |s|
    ensures forall k :: 0 <= k < |s| ==> r[k] == LowerChar(s[k])
  {
    seq(|s|, k requires 0 <= k < |s| => LowerChar(s[k]))
  }

  /** `s` has `sub` at position `k`, ignoring ASCII case. */
  predicate AtCI(s: string, sub: string, k: int) {
    0 <= k && k + |sub| <= |s| && Lower(s[k..k + |sub|]) == Lower(sub)
  }

  lemma AtLower(s: string, sub: string, k: int)
    ensures AtCI(s, sub, k) <==> At(Lower(s), Lower(sub), k)
  {
    if 0 <= k && k + |sub| <= |s| {
      assert Lower(s)[k..k + |sub|] == Lower(s[k..k + |sub|]);
    }
  }

  /**
   * `s.search(re)` for the case-insensitive literal pattern `sub`: the
   * first position where `sub` occurs ignoring case, or -1.
   */
  function SearchCI(s: string, sub: string): (r: int)
    ensures r == -1 || AtCI(s, sub, r)
    ensures r == -1 <==> forall j :: 0 <= j <= |s| ==> !AtCI(s, sub, j)
    ensures r != -1 ==> forall j :: 0 <= j < r ==> !AtCI(s, sub, j)
  {
    var r := IndexOf(Lower(s), Lower(sub), 0);
    forall j ensures AtCI(s, sub, j) <==> At(Lower(s), Lower(sub), j) {
      AtLower(s, sub, j);
    }
    r
  }

  /** The empty pattern matches at the very start of any string. */
  lemma SearchEmpty(s: string)
    ensures SearchCI(s, "") == 0
  {
    assert AtCI(s, "", 0);
  }
}

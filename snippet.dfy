/**
 * The pieces of a search snippet: the window of body text shown around a
 * match, and the highlight markup wrapped around every match of a keyword.
 */
module Snippet {
  import opened JsString

  const OpenTag: string := "<em class=\"search-keyword\">"
  const CloseTag: string := "</em>"

  function Mark(w: string): string {
    OpenTag + w + CloseTag
  }

  /**
   * `s.replace(re, w => "<em class=\"search-keyword\">" + w + "</em>")` for
   * the global, case-insensitive literal pattern `p`: matches are found left
   * to right without overlapping, and each is wrapped with its original
   * spelling. An empty pattern matches at every position, the end included.
   */
  function Highlight(s: string, p: string): (r: string)
    ensures |r| >= |s|
    decreases |s|
  {
    if p == [] then HighlightEmpty(s)
    else if s == [] then []
    else if AtCI(s, p, 0) then Mark(s[..|p|]) + Highlight(s[|p|..], p)
    else [s[0]] + Highlight(s[1..], p)
  }

  function HighlightEmpty(s: string): (r: string)
    ensures |r| > |s|
    decreases |s|
  {
    if s == [] then Mark("") else Mark("") + [s[0]] + HighlightEmpty(s[1..])
  }

  /** The reading of highlighted text with the markup taken out again. */
  function Unwrap(r: string): string
    decreases |r|
  {
    if r == [] then []
    else if At(r, OpenTag, 0) then Unwrap(r[|OpenTag|..])
    else if At(r, CloseTag, 0) then Unwrap(r[|CloseTag|..])
    else [r[0]] + Unwrap(r[1..])
  }

  predicate NoTagStart(s: string) {
    forall k :: 0 <= k < |s| ==> s[k] != '<'
  }

  /** Text without a `<` comes out of `Unwrap` as it went in. */
  lemma {:induction false} UnwrapPlain(w: string, t: string)
    requires NoTagStart(w)
    ensures Unwrap(w + t) == w + Unwrap(t)
    decreases |w|
  {
    if w == [] {
      assert w + t == t;
    } else {
      var r := w + t;
      assert r[0] == w[0] && r[0] != '<';
      assert !At(r, OpenTag, 0) by { assert OpenTag[0] == '<'; }
      assert !At(r, CloseTag, 0) by { assert CloseTag[0] == '<'; }
      assert r[1..] == w[1..] + t;
      UnwrapPlain(w[1..], t);
      assert [w[0]] + (w[1..] + Unwrap(t)) == w + Unwrap(t);
    }
  }

  lemma UnwrapMark(w: string, t: string)
    requires NoTagStart(w)
    ensures Unwrap(Mark(w) + t) == w + Unwrap(t)
  {
    var u := CloseTag + t;
    assert Mark(w) + t == OpenTag + (w + u) by {
      AppendAssoc(OpenTag, w, CloseTag);
      AppendAssoc(OpenTag + w, CloseTag, t);
      AppendAssoc(OpenTag, w, u);
    }
    assert Unwrap(OpenTag + (w + u)) == Unwrap(w + u) by { PrefixAt(OpenTag, w + u); }
    assert Unwrap(w + u) == w + Unwrap(u) by { UnwrapPlain(w, u); }
    assert Unwrap(u) == Unwrap(t) by {
      PrefixAt(CloseTag, t);
      assert !At(u, OpenTag, 0) by { assert u[1] == '/' != OpenTag[1]; }
    }
  }

  lemma AppendAssoc(a: string, b: string, c: string)
    ensures (a + b) + c == a + (b + c)
  {}

  /** `x` sits at the start of `x + y`, and what follows it is `y`. */
  lemma PrefixAt(x: string, y: string)
    ensures At(x + y, x, 0) && (x + y)[|x|..] == y
  {
    assert (x + y)[..|x|] == x;
  }

  /** Taking the markup out of highlighted text gives the text back, whatever the keyword. */
  lemma {:induction false} UnwrapHighlight(s: string, p: string, t: string)
    requires NoTagStart(s)
    ensures Unwrap(Highlight(s, p) + t) == s + Unwrap(t)
    decreases |s|
  {
    if p == [] {
      UnwrapHighlightEmpty(s, t);
    } else if s == [] {
      assert Highlight(s, p) + t == t;
    } else if AtCI(s, p, 0) {
      var w, v, rest := s[..|p|], s[|p|..], Highlight(s[|p|..], p);
      AppendAssoc(Mark(w), rest, t);
      UnwrapMark(w, rest + t);
      UnwrapHighlight(v, p, t);
      AppendAssoc(w, v, Unwrap(t));
      assert w + v == s;
    } else {
      var v, rest := s[1..], Highlight(s[1..], p);
      AppendAssoc([s[0]], rest, t);
      UnwrapPlain([s[0]], rest + t);
      UnwrapHighlight(v, p, t);
      AppendAssoc([s[0]], v, Unwrap(t));
      assert [s[0]] + v == s;
    }
  }

  lemma {:induction false} UnwrapHighlightEmpty(s: string, t: string)
    requires NoTagStart(s)
    ensures Unwrap(HighlightEmpty(s) + t) == s + Unwrap(t)
    decreases |s|
  {
    if s == [] {
      UnwrapMark("", t);
    } else {
      var v, rest := s[1..], HighlightEmpty(s[1..]);
      var tail := [s[0]] + (rest + t);
      assert HighlightEmpty(s) + t == Mark("") + tail by {
        AppendAssoc(Mark("") + [s[0]], rest, t);
        AppendAssoc(Mark(""), [s[0]], rest + t);
      }
      assert Unwrap(Mark("") + tail) == Unwrap(tail) by {
        UnwrapMark("", tail);
        assert "" + Unwrap(tail) == Unwrap(tail);
      }
      assert Unwrap(tail) == [s[0]] + Unwrap(rest + t) by { UnwrapPlain([s[0]], rest + t); }
      assert Unwrap(rest + t) == v + Unwrap(t) by { UnwrapHighlightEmpty(v, t); }
      assert [s[0]] + (v + Unwrap(t)) == s + Unwrap(t) by {
        AppendAssoc([s[0]], v, Unwrap(t));
        assert [s[0]] + v == s;
      }
    }
  }

  /** A non-empty keyword that occurs nowhere leaves the text unchanged. */
  lemma {:induction false} HighlightNoMatch(s: string, p: string)
    requires p != []
    requires forall j :: 0 <= j <= |s| ==> !AtCI(s, p, j)
    ensures Highlight(s, p) == s
    decreases |s|
  {
    if s != [] {
      assert !AtCI(s, p, 0);
      forall j | 0 <= j <= |s[1..]|
        ensures !AtCI(s[1..], p, j)
      {
        assert !AtCI(s, p, j + 1);
        if j + |p| <= |s[1..]| {
          assert s[1..][j..j + |p|] == s[j + 1..j + 1 + |p|];
        }
      }
      HighlightNoMatch(s[1..], p);
      assert [s[0]] + s[1..] == s;
    }
  }

  /** A match at the very start is wrapped, with its own spelling, ahead of everything else. */
  lemma HighlightLeadingMatch(s: string, p: string)
    requires p != [] && AtCI(s, p, 0)
    ensures Highlight(s, p) == OpenTag + s[..|p|] + CloseTag + Highlight(s[|p|..], p)
  {}

  /**
   * `start`: 0 for a match among the first eleven positions, else the last
   * space at or before ten positions ahead of the match (-1 if none).
   */
  function SnippetStart(content: string, ic: int): (r: int)
    ensures -1 <= r && (r < |content| || r == 0)
    ensures r > 0 ==> content[r] == ' '
  {
    if ic < 11 then 0
    else
      var r := LastIndexOf(content, " ", ic - 10);
      assert r >= 0 ==> content[r] == content[r..r + 1][0];
      r
  }

  /**
   * `end`: 70 when `start` is 0, else the first space at or after sixty
   * positions past the keyword; the whole length when there is none.
   */
  function SnippetEnd(content: string, ic: int, kwLen: nat, start: int): (r: int)
    ensures start != 0 ==> 0 <= r <= |content| && (r < |content| ==> content[r] == ' ')
  {
    var e := if start == 0 then 70 else IndexOf(content, " ", ic + kwLen + 60);
    assert start != 0 && e != -1 ==> content[e] == content[e..e + 1][0];
    if e == -1 then |content| else e
  }

  /** The start of the window: where it lies and what it points at. */
  lemma StartFacts(content: string, ic: int)
    ensures ic < 11 ==> SnippetStart(content, ic) == 0
    ensures -1 <= SnippetStart(content, ic) <= |content|
    ensures ic >= 11 ==>
      var st := SnippetStart(content, ic);
      st <= Clamp(ic - 10, |content|) &&
      (st >= 0 ==> content[st] == ' ') &&
      (forall j :: st < j < Clamp(ic - 10, |content|) ==> content[j] != ' ')
  {
    var st := SnippetStart(content, ic);
    if ic >= 11 {
      forall j | st < j < Clamp(ic - 10, |content|)
        ensures content[j] != ' '
      {
        assert content[j] == ' ' ==> At(content, " ", j) by {
          assert content[j..j + 1] == [content[j]];
        }
      }
      if st >= 0 {
        assert At(content, " ", st);
        assert content[st..st + 1] == [content[st]];
      }
    }
  }

  /**
   * A body that starts with a non-blank character (every trimmed body
   * does) has no space at position 0, so `start` is 0 only for an early
   * match, and `end` is 70 exactly then.
   */
  lemma EarlyWindowOnly(content: string, ic: int, kwLen: nat)
    requires content == [] || !IsSpace(content[0])
    ensures SnippetStart(content, ic) == 0 <==> ic < 11
    ensures ic < 11 ==> SnippetEnd(content, ic, kwLen, SnippetStart(content, ic)) == 70
  {
    if ic >= 11 {
      if content != [] {
        assert !At(content, " ", 0) by { assert content[0..1] == [content[0]]; }
      }
    }
  }

  /** The end of a late window is the first space far enough past the keyword, or the end of the body. */
  lemma EndFacts(content: string, ic: int, kwLen: nat, start: int)
    requires start != 0
    ensures
      var e := SnippetEnd(content, ic, kwLen, start);
      var from := Clamp(ic + kwLen + 60, |content|);
      from <= e <= |content| &&
      (e < |content| ==> content[e] == ' ') &&
      (forall j :: from <= j < e ==> content[j] != ' ')
  {
    var e := SnippetEnd(content, ic, kwLen, start);
    var from := Clamp(ic + kwLen + 60, |content|);
    var i := IndexOf(content, " ", ic + kwLen + 60);
    forall j | from <= j < e
      ensures content[j] != ' '
    {
      assert content[j] == ' ' ==> At(content, " ", j) by { assert content[j..j + 1] == [content[j]]; }
    }
    if i != -1 {
      assert At(content, " ", i);
      assert content[i..i + 1] == [content[i]];
    }
  }

  /** The window never runs backwards: `start <= end`, and `end` stays within 70 or the body's length. */
  lemma WindowOrdered(content: string, ic: int, kwLen: nat)
    ensures
      var st := SnippetStart(content, ic);
      var e := SnippetEnd(content, ic, kwLen, st);
      -1 <= st <= e && e <= if |content| > 70 then |content| else 70
  {
    var st := SnippetStart(content, ic);
    StartFacts(content, ic);
    if st != 0 {
      EndFacts(content, ic, kwLen, st);
    }
  }
}

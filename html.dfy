/** HTML escaping of titles and snippets (`escapeHtml`). */
module Html {
  import opened JsString

  predicate IsSpecial(c: char) {
    c == '&' || c == '<' || c == '>' || c == '"' || c == '\''
  }

  /** The replacement `escapeHtml` uses for one character. */
  function Entity(c: char): (r: string)
    ensures IsSpecial(c) ==> |r| > 1 && r[0] == '&'
    ensures !IsSpecial(c) ==> r == [c]
  {
    if c == '&' then "&amp;"
    else if c == '<' then "&lt;"
    else if c == '>' then "&gt;"
    else if c == '"' then "&quot;"
    else if c == '\'' then "&#39;"
    else [c]
  }

  /**
   * `escapeHtml`: each of the five HTML-special characters becomes its
   * entity, every other character is kept, and the result holds no
   * `<`, `>`, `"` or `'`.
   */
  function EscapeHtml(s: string): (r: string)
    ensures |r| >= |s|
    ensures forall k :: 0 <= k < |r| ==> r[k] != '<' && r[k] != '>' && r[k] != '"' && r[k] != '\''
    decreases |s|
  {
    if s == [] then [] else Entity(s[0]) + EscapeHtml(s[1..])
  }

  /** On a string without special characters `escapeHtml` is the identity. */
  lemma {:induction false} EscapeHtmlIdle(s: string)
    requires forall k :: 0 <= k < |s| ==> !IsSpecial(s[k])
    ensures EscapeHtml(s) == s
  {
    if s != [] {
      EscapeHtmlIdle(s[1..]);
    }
  }

  /** Escaping distributes over concatenation. */
  lemma {:induction false} EscapeHtmlAppend(a: string, b: string)
    ensures EscapeHtml(a + b) == EscapeHtml(a) + EscapeHtml(b)
  {
    if a != [] {
      assert (a + b)[0] == a[0] && (a + b)[1..] == a[1..] + b;
      EscapeHtmlAppend(a[1..], b);
      calc {
        EscapeHtml(a + b);
        Entity(a[0]) + EscapeHtml(a[1..] + b);
        Entity(a[0]) + (EscapeHtml(a[1..]) + EscapeHtml(b));
      }
    } else {
      assert a + b == b;
    }
  }

  /** The inverse of `escapeHtml`: each of the five entities becomes its character again. */
  function UnescapeHtml(s: string): string
    decreases |s|
  {
    if s == [] then []
    else if s[0] != '&' then [s[0]] + UnescapeHtml(s[1..])
    else if At(s, "&amp;", 0) then "&" + UnescapeHtml(s[5..])
    else if At(s, "&lt;", 0) then "<" + UnescapeHtml(s[4..])
    else if At(s, "&gt;", 0) then ">" + UnescapeHtml(s[4..])
    else if At(s, "&quot;", 0) then "\"" + UnescapeHtml(s[6..])
    else if At(s, "&#39;", 0) then "'" + UnescapeHtml(s[5..])
    else "&" + UnescapeHtml(s[1..])
  }

  lemma UnescapeAmp(t: string)
    ensures UnescapeHtml("&amp;" + t) == "&" + UnescapeHtml(t)
  {
    assert ("&amp;" + t)[5..] == t;
  }

  lemma UnescapeLt(t: string)
    ensures UnescapeHtml("&lt;" + t) == "<" + UnescapeHtml(t)
  {
    var s := "&lt;" + t;
    assert s[1] == 'l' && !At(s, "&amp;", 0);
    assert s[4..] == t;
  }

  lemma UnescapeGt(t: string)
    ensures UnescapeHtml("&gt;" + t) == ">" + UnescapeHtml(t)
  {
    var s := "&gt;" + t;
    assert s[1] == 'g' && !At(s, "&amp;", 0) && !At(s, "&lt;", 0);
    assert s[4..] == t;
  }

  lemma UnescapeQuot(t: string)
    ensures UnescapeHtml("&quot;" + t) == "\"" + UnescapeHtml(t)
  {
    var s := "&quot;" + t;
    assert s[1] == 'q' && !At(s, "&amp;", 0) && !At(s, "&lt;", 0) && !At(s, "&gt;", 0);
    assert s[6..] == t;
  }

  lemma UnescapeApos(t: string)
    ensures UnescapeHtml("&#39;" + t) == "'" + UnescapeHtml(t)
  {
    var s := "&#39;" + t;
    assert s[1] == '#' && !At(s, "&amp;", 0) && !At(s, "&lt;", 0) && !At(s, "&gt;", 0) && !At(s, "&quot;", 0);
    assert s[5..] == t;
  }

  lemma UnescapeEntity(c: char, t: string)
    ensures UnescapeHtml(Entity(c) + t) == [c] + UnescapeHtml(t)
  {
    if c == '&' {
      UnescapeAmp(t);
    } else if c == '<' {
      UnescapeLt(t);
    } else if c == '>' {
      UnescapeGt(t);
    } else if c == '"' {
      UnescapeQuot(t);
    } else if c == '\'' {
      UnescapeApos(t);
    } else {
      var s := [c] + t;
      assert s[0] == c && s[1..] == t;
    }
  }

  /** Escaping loses nothing: unescaping gives back the original string. */
  lemma {:induction false} EscapeRoundTrip(s: string)
    ensures UnescapeHtml(EscapeHtml(s)) == s
  {
    if s != [] {
      UnescapeEntity(s[0], EscapeHtml(s[1..]));
      EscapeRoundTrip(s[1..]);
    }
  }
}

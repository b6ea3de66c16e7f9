/**
 * `search(query)`: every entry of every page index is checked against
 * every keyword of the query. The entry's title scores 3 for a keyword it
 * contains and otherwise its body scores 2; entries with a title and a
 * positive score become results, with a highlighted snippet of the body
 * for each keyword that hit, and the results are sorted by score.
 */
module Query {
  import opened Wrappers
  import opened JsString
  import opened Html
  import opened Dict
  import Indexer
  import opened QuerySplit
  import opened Snippet
  import opened Ranking

  /** The two copies of the engine differ in the snippet for an empty body. */
  datatype Release = Release2_0 | Release1_10

  /**
   * Collaborators the model does not look into: NFD diacritic stripping
   * (`normalize("NFD")` then removing U+0300..U+036F), and the chain of
   * regular-expression replacements of `stripMarkdownAndHTML` before its
   * final trim.
   */
  datatype TextOps = TextOps(stripMarks: string -> string, stripMarkup: string -> string)

  /** `ignoreDiacriticalMarks`: a falsy (empty) string is returned as it is. */
  function IgnoreDiacriticalMarks(ops: TextOps, s: string): (r: string)
    ensures s == "" ==> r == ""
  {
    if s == "" then s else ops.stripMarks(s)
  }

  /** `escapeHtml(ignoreDiacriticalMarks(s))`: the form in which titles, bodies and keywords are compared. */
  function Normalize(ops: TextOps, s: string): (r: string)
    ensures NoTagStart(r)
    ensures s == "" ==> r == ""
  {
    EscapeHtml(IgnoreDiacriticalMarks(ops, s))
  }

  function StripMarkdownAndHtml(ops: TextOps, s: string): (r: string)
    ensures r == [] || (!IsSpace(r[0]) && !IsSpace(r[|r| - 1]))
  {
    Trim(ops.stripMarkup(s))
  }

  /** Bodies holding an embed or an icon are skipped. */
  predicate Embedded(content: string) {
    Includes(content, "iframe") || Includes(content, ":fas") ||
    Includes(content, ":fab") || Includes(content, "embedly-card")
  }

  /** `post.title && post.title.trim()`: a pre-heading entry has no title. */
  function PostTitle(post: Indexer.Entry): string {
    if post.Section? then Trim(post.title) else ""
  }

  function PostContent(ops: TextOps, post: Indexer.Entry): string {
    StripMarkdownAndHtml(ops, Trim(post.body))
  }

  /** `post.slug || ""`. */
  function PostUrl(post: Indexer.Entry): string {
    if post.Section? then post.slug else ""
  }

  /** Where the keyword first occurs in the normalised title, or -1. */
  function TitleHit(ops: TextOps, title: string, kw: string): int {
    if title != "" then SearchCI(Normalize(ops, title), Normalize(ops, kw)) else -1
  }

  /** Where the keyword first occurs in the normalised body, or -1. */
  function ContentHit(ops: TextOps, content: string, kw: string): int {
    if content != "" then SearchCI(Normalize(ops, content), Normalize(ops, kw)) else -1
  }

  /** What one keyword adds to the score. */
  function Weight(ops: TextOps, title: string, content: string, kw: string): (r: nat)
    ensures r <= 3
    ensures r > 0 <==> TitleHit(ops, title, kw) >= 0 || ContentHit(ops, content, kw) >= 0
  {
    if TitleHit(ops, title, kw) >= 0 then 3
    else if ContentHit(ops, content, kw) >= 0 then 2
    else 0
  }

  /** `f` summed over `xs`, left to right. */
  function Sum(f: string -> nat, xs: seq<string>): nat
    decreases |xs|
  {
    if xs == [] then 0 else Sum(f, xs[..|xs| - 1]) + f(xs[|xs| - 1])
  }

  /** `f` of each of `xs`, concatenated left to right. */
  function Concatenated(f: string -> string, xs: seq<string>): string
    decreases |xs|
  {
    if xs == [] then "" else Concatenated(f, xs[..|xs| - 1]) + f(xs[|xs| - 1])
  }

  /** `matchesScore`: the weights of all keywords added up. */
  function Score(ops: TextOps, title: string, content: string, kws: seq<string>): (r: nat)
    ensures r <= 3 * |kws|
  {
    var f := kw => Weight(ops, title, content, kw);
    SumAtMost(f, kws, 3);
    Sum(f, kws)
  }

  /** The snippet one matching keyword contributes. */
  function KeywordSnippet(rel: Release, ops: TextOps, content: string, kw: string): (r: string)
    ensures rel == Release2_0 && Normalize(ops, content) == "" ==> r == ""
    ensures !(rel == Release2_0 && Normalize(ops, content) == "") ==> |r| >= 3 && r[|r| - 3..] == "..."
  {
    var hc := Normalize(ops, content);
    var hit := ContentHit(ops, content, kw);
    var ic := if hit < 0 then 0 else hit;
    var start := SnippetStart(content, ic);
    var end := SnippetEnd(content, ic, |kw|, start);
    if rel == Release2_0 && hc == "" then ""
    else Highlight(Substring(hc, start, end), Normalize(ops, kw)) + "..."
  }

  /** The snippets of the matching keywords, one after the other. */
  function Snippets(rel: Release, ops: TextOps, title: string, content: string, kws: seq<string>): string {
    Concatenated(kw => if Weight(ops, title, content, kw) > 0 then KeywordSnippet(rel, ops, content, kw) else "", kws)
  }

  /** The result an entry gives for the keywords, if any. */
  function Evaluate(rel: Release, ops: TextOps, post: Indexer.Entry, kws: seq<string>): (r: Option<SearchResult>)
    ensures r.Some? ==> PostTitle(post) != "" && !Embedded(PostContent(ops, post))
    ensures r.Some? ==> 0 < r.value.score <= 3 * |kws| && r.value.url == PostUrl(post)
  {
    var title := PostTitle(post);
    var content := PostContent(ops, post);
    if Embedded(content) || title == "" then None
    else
      var score := Score(ops, title, content, kws);
      var snippets := Snippets(rel, ops, title, content, kws);
      if score > 0 then
        Some(SearchResult(Normalize(ops, title), if snippets != "" then snippets else content, PostUrl(post), score))
      else None
  }

  /** The results of the entries in encounter order. */
  function Matching(rel: Release, ops: TextOps, posts: seq<Indexer.Entry>, kws: seq<string>): seq<SearchResult> {
    Collect(post => Evaluate(rel, ops, post, kws), posts)
  }

  /** The values `f` finds among `posts`, in order. */
  function Collect(f: Indexer.Entry -> Option<SearchResult>, posts: seq<Indexer.Entry>): seq<SearchResult>
    decreases |posts|
  {
    if posts == [] then []
    else
      var found := f(posts[|posts| - 1]);
      Collect(f, posts[..|posts| - 1]) + (if found.Some? then [found.value] else [])
  }

  /** The entries of the page indexes listed by `keys`, page after page. */
  function PostsOf(keys: seq<string>, pages: map<string, Dict<Indexer.Entry>>): seq<Indexer.Entry>
    decreases |keys|
  {
    if keys == [] then []
    else
      var k := keys[|keys| - 1];
      PostsOf(keys[..|keys| - 1], pages) + (if k in pages then pages[k].Values() else [])
  }

  function Posts(indexs: Dict<Dict<Indexer.Entry>>): seq<Indexer.Entry> {
    PostsOf(indexs.keys, indexs.vals)
  }

  /** What `search` returns. */
  function SearchResults(rel: Release, ops: TextOps, indexs: Dict<Dict<Indexer.Entry>>, query: string): (r: seq<SearchResult>)
    ensures Descending(r)
    ensures multiset(r) == multiset(Matching(rel, ops, Posts(indexs), Keywords(query)))
  {
    var matching := Matching(rel, ops, Posts(indexs), Keywords(query));
    SortDescending(matching);
    SortPermutes(matching);
    SortByScore(matching)
  }

  /** `search(query)`: the loops of the source, proved to compute `SearchResults`. */
  method Search(rel: Release, ops: TextOps, indexs: Dict<Dict<Indexer.Entry>>, query: string)
    returns (results: seq<SearchResult>)
    ensures results == SearchResults(rel, ops, indexs, query)
    ensures Descending(results)
    ensures multiset(results) == multiset(Matching(rel, ops, Posts(indexs), Keywords(query)))
    ensures forall v :: WithScore(v, results) == WithScore(v, Matching(rel, ops, Posts(indexs), Keywords(query)))
  {
    var data := CollectPosts(indexs);
    var q := Trim(query);
    var keywords := Split(q);
    if |keywords| != 1 {
      keywords := [q] + keywords;
    }
    var matching := MatchPosts(rel, ops, data, keywords);
    results := SortByScore(matching);
    SortDescending(matching);
    SortPermutes(matching);
    forall v ensures WithScore(v, results) == WithScore(v, matching) {
      SortStable(v, matching);
    }
  }

  /** `Object.keys(INDEXS).forEach(key => data = data.concat(...))`. */
  method CollectPosts(indexs: Dict<Dict<Indexer.Entry>>) returns (data: seq<Indexer.Entry>)
    ensures data == Posts(indexs)
  {
    data := [];
    for n := 0 to |indexs.keys|
      invariant data == PostsOf(indexs.keys[..n], indexs.vals)
    {
      var key := indexs.keys[n];
      assert indexs.keys[..n + 1][..n] == indexs.keys[..n];
      if key in indexs.vals {
        data := data + indexs.vals[key].Values();
      }
    }
    assert indexs.keys[..|indexs.keys|] == indexs.keys;
  }

  /** `for (i = 0; i < data.length; i++) loop(i)`. */
  method MatchPosts(rel: Release, ops: TextOps, data: seq<Indexer.Entry>, keywords: seq<string>)
    returns (matching: seq<SearchResult>)
    ensures matching == Matching(rel, ops, data, keywords)
  {
    matching := [];
    for i := 0 to |data|
      invariant matching == Matching(rel, ops, data[..i], keywords)
    {
      var found := EvaluatePost(rel, ops, data[i], keywords);
      MatchingSnoc(rel, ops, data, keywords, i);
      if found.Some? {
        matching := matching + [found.value];
      }
    }
    assert data[..|data|] == data;
  }

  lemma MatchingSnoc(rel: Release, ops: TextOps, posts: seq<Indexer.Entry>, kws: seq<string>, i: nat)
    requires i < |posts|
    ensures Matching(rel, ops, posts[..i + 1], kws) ==
      Matching(rel, ops, posts[..i], kws) +
      (if Evaluate(rel, ops, posts[i], kws).Some? then [Evaluate(rel, ops, posts[i], kws).value] else [])
  {
    assert posts[..i + 1][..i] == posts[..i];
  }

  /** The body of the per-entry closure `loop(i)`. */
  method EvaluatePost(rel: Release, ops: TextOps, post: Indexer.Entry, keywords: seq<string>)
    returns (found: Option<SearchResult>)
    ensures found == Evaluate(rel, ops, post, keywords)
  {
    var title := PostTitle(post);
    var content := PostContent(ops, post);
    if Embedded(content) {
      return None;
    }
    if title == "" && content == "" {
      return None;
    }
    found := None;
    if title != "" {
      var score, resultStr := MatchKeywords(rel, ops, title, content, keywords);
      if score > 0 {
        found := Some(SearchResult(Normalize(ops, title), if resultStr != "" then resultStr else content, PostUrl(post), score));
      }
    }
  }

  /** `keywords.forEach(...)`: the summed score and the joined snippets. */
  method MatchKeywords(rel: Release, ops: TextOps, title: string, content: string, keywords: seq<string>)
    returns (score: nat, resultStr: string)
    ensures score == Score(ops, title, content, keywords)
    ensures resultStr == Snippets(rel, ops, title, content, keywords)
  {
    score, resultStr := 0, "";
    for k := 0 to |keywords|
      invariant score == Score(ops, title, content, keywords[..k])
      invariant resultStr == Snippets(rel, ops, title, content, keywords[..k])
    {
      var kw := keywords[k];
      var weight, piece := MatchKeyword(rel, ops, title, content, kw);
      ScoreSnoc(rel, ops, title, content, keywords, k);
      score := score + weight;
      resultStr := resultStr + piece;
    }
    assert keywords[..|keywords|] == keywords;
  }

  lemma ScoreSnoc(rel: Release, ops: TextOps, title: string, content: string, kws: seq<string>, k: nat)
    requires k < |kws|
    ensures Score(ops, title, content, kws[..k + 1]) == Score(ops, title, content, kws[..k]) + Weight(ops, title, content, kws[k])
    ensures Snippets(rel, ops, title, content, kws[..k + 1]) ==
      Snippets(rel, ops, title, content, kws[..k]) +
      (if Weight(ops, title, content, kws[k]) > 0 then KeywordSnippet(rel, ops, content, kws[k]) else "")
  {
    assert kws[..k + 1][..k] == kws[..k];
  }

  /** The body of `keywords.forEach`: the score and the snippet one keyword adds. */
  method MatchKeyword(rel: Release, ops: TextOps, title: string, content: string, kw: string)
    returns (weight: nat, piece: string)
    ensures weight == Weight(ops, title, content, kw)
    ensures piece == if weight > 0 then KeywordSnippet(rel, ops, content, kw) else ""
  {
    var pattern := Normalize(ops, kw);
    var handleTitle := if title != "" then Normalize(ops, title) else title;
    var handleContent := if content != "" then Normalize(ops, content) else content;
    var indexTitle := if title != "" then SearchCI(handleTitle, pattern) else -1;
    var indexContent := if content != "" then SearchCI(handleContent, pattern) else -1;
    weight, piece := 0, "";
    if indexTitle >= 0 || indexContent >= 0 {
      var add := if indexTitle >= 0 then 3 else if indexContent >= 0 then 2 else 0;
      weight := add;
      if indexContent < 0 {
        indexContent := 0;
      }
      var start := SnippetStart(content, indexContent);
      var end := SnippetEnd(content, indexContent, |kw|, start);
      if rel == Release2_0 && handleContent == "" {
        piece := "";
      } else {
        piece := Highlight(Substring(handleContent, start, end), pattern) + "...";
      }
    }
  }

  /** `p` occurs somewhere in `s`, ignoring ASCII case. */
  predicate ContainsCI(s: string, p: string) {
    exists j :: 0 <= j <= |s| && AtCI(s, p, j)
  }

  /** A keyword earns 3 exactly when the title contains it, else 2 exactly when the body does. */
  lemma WeightMeaning(ops: TextOps, title: string, content: string, kw: string)
    ensures Weight(ops, title, content, kw) == 3 <==>
      title != "" && ContainsCI(Normalize(ops, title), Normalize(ops, kw))
    ensures Weight(ops, title, content, kw) == 2 <==>
      !(title != "" && ContainsCI(Normalize(ops, title), Normalize(ops, kw))) &&
      content != "" && ContainsCI(Normalize(ops, content), Normalize(ops, kw))
    ensures Weight(ops, title, content, kw) in {0, 2, 3}
  {
    var p := Normalize(ops, kw);
    if title != "" {
      var ht := Normalize(ops, title);
      if ContainsCI(ht, p) {
        var j :| 0 <= j <= |ht| && AtCI(ht, p, j);
        assert SearchCI(ht, p) != -1;
      }
    }
    if content != "" {
      var hc := Normalize(ops, content);
      if ContainsCI(hc, p) {
        var j :| 0 <= j <= |hc| && AtCI(hc, p, j);
        assert SearchCI(hc, p) != -1;
      }
    }
  }

  lemma {:induction false} SumAppend(f: string -> nat, xs: seq<string>, ys: seq<string>)
    ensures Sum(f, xs + ys) == Sum(f, xs) + Sum(f, ys)
    decreases |ys|
  {
    if ys == [] {
      assert xs + ys == xs;
    } else {
      var init := ys[..|ys| - 1];
      SumAppend(f, xs, init);
      assert (xs + ys)[..|xs + ys| - 1] == xs + init;
      assert (xs + ys)[|xs + ys| - 1] == ys[|ys| - 1];
    }
  }

  lemma {:induction false} SumAtMost(f: string -> nat, xs: seq<string>, m: nat)
    requires forall k :: 0 <= k < |xs| ==> f(xs[k]) <= m
    ensures Sum(f, xs) <= m * |xs|
    decreases |xs|
  {
    if xs != [] {
      var init := xs[..|xs| - 1];
      assert forall k :: 0 <= k < |init| ==> f(init[k]) <= m by {
        forall k | 0 <= k < |init| ensures f(init[k]) <= m { assert init[k] == xs[k]; }
      }
      SumAtMost(f, init, m);
    }
  }

  lemma {:induction false} SumPositive(f: string -> nat, xs: seq<string>)
    ensures Sum(f, xs) > 0 <==> exists k :: 0 <= k < |xs| && f(xs[k]) > 0
    decreases |xs|
  {
    if xs != [] {
      var init := xs[..|xs| - 1];
      SumPositive(f, init);
      if exists k :: 0 <= k < |init| && f(init[k]) > 0 {
        var k :| 0 <= k < |init| && f(init[k]) > 0;
        assert xs[k] == init[k];
      }
      if exists k :: 0 <= k < |xs| && f(xs[k]) > 0 {
        var k :| 0 <= k < |xs| && f(xs[k]) > 0;
        if k < |init| {
          assert init[k] == xs[k];
        }
      }
    }
  }

  /** The score of the keywords `kws + more` is the sum of the two scores. */
  lemma ScoreAppend(ops: TextOps, title: string, content: string, kws: seq<string>, more: seq<string>)
    ensures Score(ops, title, content, kws + more) == Score(ops, title, content, kws) + Score(ops, title, content, more)
  {
    SumAppend(kw => Weight(ops, title, content, kw), kws, more);
  }

  /** Adding keywords never lowers a score. */
  lemma ScoreMonotone(ops: TextOps, title: string, content: string, kws: seq<string>, more: seq<string>)
    ensures Score(ops, title, content, kws) <= Score(ops, title, content, kws + more)
  {
    ScoreAppend(ops, title, content, kws, more);
  }

  /** At most 3 per keyword, and positive exactly when some keyword hits the title or the body. */
  lemma ScoreBounds(ops: TextOps, title: string, content: string, kws: seq<string>)
    ensures Score(ops, title, content, kws) <= 3 * |kws|
    ensures Score(ops, title, content, kws) > 0 <==> exists k :: 0 <= k < |kws| && Weight(ops, title, content, kws[k]) > 0
  {
    var f := kw => Weight(ops, title, content, kw);
    SumAtMost(f, kws, 3);
    SumPositive(f, kws);
  }

  /** The empty keyword is found at the start of every title. */
  lemma EmptyKeywordHitsTitle(ops: TextOps, title: string, content: string)
    requires title != ""
    ensures Weight(ops, title, content, "") == 3
  {
    SearchEmpty(Normalize(ops, title));
  }

  /** Entries without a title, pre-heading entries among them, are never returned. */
  lemma UntitledNeverReturned(rel: Release, ops: TextOps, post: Indexer.Entry, kws: seq<string>)
    requires post.Preamble? || Trim(post.title) == ""
    ensures Evaluate(rel, ops, post, kws) == None
  {}

  /** Entries whose body holds an embed or an icon are never returned. */
  lemma EmbeddedNeverReturned(rel: Release, ops: TextOps, post: Indexer.Entry, kws: seq<string>)
    requires Embedded(PostContent(ops, post))
    ensures Evaluate(rel, ops, post, kws) == None
  {}

  /** What a returned entry looks like: a titled section, no embed, positive score, escaped title, its own slug. */
  lemma EvaluateSome(rel: Release, ops: TextOps, post: Indexer.Entry, kws: seq<string>)
    ensures Evaluate(rel, ops, post, kws).Some? <==>
      post.Section? && Trim(post.title) != "" && !Embedded(PostContent(ops, post)) &&
      Score(ops, PostTitle(post), PostContent(ops, post), kws) > 0
    ensures Evaluate(rel, ops, post, kws).Some? ==>
      var r := Evaluate(rel, ops, post, kws).value;
      r.title == Normalize(ops, Trim(post.title)) && r.url == post.slug &&
      r.score == Score(ops, PostTitle(post), PostContent(ops, post), kws) && r.score > 0
  {}

  lemma {:induction false} CollectSound(f: Indexer.Entry -> Option<SearchResult>, posts: seq<Indexer.Entry>, r: SearchResult)
    requires r in Collect(f, posts)
    ensures exists i :: 0 <= i < |posts| && f(posts[i]) == Some(r)
    decreases |posts|
  {
    var init := posts[..|posts| - 1];
    if r in Collect(f, init) {
      CollectSound(f, init, r);
      var i :| 0 <= i < |init| && f(init[i]) == Some(r);
      assert posts[i] == init[i];
    }
  }

  lemma {:induction false} CollectComplete(f: Indexer.Entry -> Option<SearchResult>, posts: seq<Indexer.Entry>, i: nat)
    requires i < |posts| && f(posts[i]).Some?
    ensures f(posts[i]).value in Collect(f, posts)
    decreases |posts|
  {
    var init := posts[..|posts| - 1];
    if i < |init| {
      CollectComplete(f, init, i);
      assert init[i] == posts[i];
    }
  }

  /** Every result comes from one of the entries. */
  lemma MatchingSound(rel: Release, ops: TextOps, posts: seq<Indexer.Entry>, kws: seq<string>, r: SearchResult)
    requires r in Matching(rel, ops, posts, kws)
    ensures exists i :: 0 <= i < |posts| && Evaluate(rel, ops, posts[i], kws) == Some(r)
  {
    CollectSound(post => Evaluate(rel, ops, post, kws), posts, r);
  }

  /** Every entry that has a result contributes it. */
  lemma MatchingComplete(rel: Release, ops: TextOps, posts: seq<Indexer.Entry>, kws: seq<string>, i: nat)
    requires i < |posts| && Evaluate(rel, ops, posts[i], kws).Some?
    ensures Evaluate(rel, ops, posts[i], kws).value in Matching(rel, ops, posts, kws)
  {
    CollectComplete(post => Evaluate(rel, ops, post, kws), posts, i);
  }

  /** A blank query returns every titled entry without an embed, each with score 3. */
  lemma BlankQueryMatchesTitled(rel: Release, ops: TextOps, post: Indexer.Entry, query: string)
    requires forall k :: 0 <= k < |query| ==> IsSpace(query[k])
    requires post.Section? && Trim(post.title) != "" && !Embedded(PostContent(ops, post))
    ensures Evaluate(rel, ops, post, Keywords(query)).Some?
    ensures Evaluate(rel, ops, post, Keywords(query)).value.score == 3
  {
    BlankQuery(query);
    var title, content := PostTitle(post), PostContent(ops, post);
    EmptyKeywordHitsTitle(ops, title, content);
    assert [""][..0] == [];
    assert Score(ops, title, content, [""]) == 3;
  }

  /**
   * With the markup taken out, a keyword's snippet is a piece of the
   * normalised body followed by `...`; in release 2.0 an empty body gives
   * no snippet at all.
   */
  lemma SnippetIsBodyPiece(rel: Release, ops: TextOps, content: string, kw: string)
    ensures rel == Release2_0 && content == "" ==> KeywordSnippet(rel, ops, content, kw) == ""
    ensures !(rel == Release2_0 && Normalize(ops, content) == "") ==>
      var hc := Normalize(ops, content);
      exists a, b :: 0 <= a <= b <= |hc| && Unwrap(KeywordSnippet(rel, ops, content, kw)) == hc[a..b] + "..."
  {
    var hc := Normalize(ops, content);
    if !(rel == Release2_0 && hc == "") {
      var hit := ContentHit(ops, content, kw);
      var ic := if hit < 0 then 0 else hit;
      var start := SnippetStart(content, ic);
      var end := SnippetEnd(content, ic, |kw|, start);
      HighlightedPiece(hc, start, end, Normalize(ops, kw));
    }
  }

  /** Highlighting part of a text without markup, then taking the markup out, leaves that part. */
  lemma HighlightedPiece(hc: string, start: int, end: int, p: string)
    requires NoTagStart(hc)
    ensures exists a, b :: 0 <= a <= b <= |hc| && Unwrap(Highlight(Substring(hc, start, end), p) + "...") == hc[a..b] + "..."
  {
    var x, y := Clamp(start, |hc|), Clamp(end, |hc|);
    var piece := Substring(hc, start, end);
    var a, b := if x <= y then x else y, if x <= y then y else x;
    assert piece == hc[a..b];
    assert NoTagStart(piece);
    UnwrapHighlight(piece, p, "...");
    assert Unwrap("...") == "..." by {
      UnwrapPlain("...", "");
      assert "..." + "" == "...";
    }
  }

  /** The snippet of a non-empty keyword on an empty body: nothing in release 2.0, a bare `...` in 1.10. */
  lemma EmptyBodySnippet(ops: TextOps, kw: string)
    requires Normalize(ops, kw) != ""
    ensures KeywordSnippet(Release2_0, ops, "", kw) == ""
    ensures KeywordSnippet(Release1_10, ops, "", kw) == "..."
  {
    assert Normalize(ops, "") == "";
    assert Substring("", 0, 0) == "";
    assert Highlight("", Normalize(ops, kw)) == "";
  }

  /** One keyword's contribution, when it is the only keyword. */
  lemma SingleKeyword(rel: Release, ops: TextOps, title: string, content: string, kw: string)
    ensures Score(ops, title, content, [kw]) == Weight(ops, title, content, kw)
    ensures Snippets(rel, ops, title, content, [kw]) ==
      if Weight(ops, title, content, kw) > 0 then KeywordSnippet(rel, ops, content, kw) else ""
  {
    assert [kw][..0] == [];
    assert Score(ops, title, content, [kw]) == Score(ops, title, content, []) + Weight(ops, title, content, kw);
    assert Snippets(rel, ops, title, content, [kw]) == Snippets(rel, ops, title, content, []) +
      (if Weight(ops, title, content, kw) > 0 then KeywordSnippet(rel, ops, content, kw) else "");
    assert Snippets(rel, ops, title, content, []) == "";
  }

  /**
   * A title hit on a page with an empty body: release 2.0 shows the empty
   * body, release 1.10 shows a bare `...` snippet.
   */
  lemma EmptyBodyReleases(ops: TextOps, post: Indexer.Entry, kw: string)
    requires post.Section? && Trim(post.title) != ""
    requires PostContent(ops, post) == ""
    requires Normalize(ops, kw) != ""
    requires ContainsCI(Normalize(ops, Trim(post.title)), Normalize(ops, kw))
    ensures Evaluate(Release2_0, ops, post, [kw]).Some? && Evaluate(Release2_0, ops, post, [kw]).value.content == ""
    ensures Evaluate(Release1_10, ops, post, [kw]).Some? && Evaluate(Release1_10, ops, post, [kw]).value.content == "..."
  {
    var title := PostTitle(post);
    assert Weight(ops, title, "", kw) == 3 by { WeightMeaning(ops, title, "", kw); }
    assert !Embedded("") by {
      assert IndexOf("", "iframe", 0) == -1;
      assert IndexOf("", ":fas", 0) == -1;
      assert IndexOf("", ":fab", 0) == -1;
      assert IndexOf("", "embedly-card", 0) == -1;
    }
    SingleKeyword(Release2_0, ops, title, "", kw);
    SingleKeyword(Release1_10, ops, title, "", kw);
    EmptyBodySnippet(ops, kw);
  }

  /** An entry is in the joined list exactly when some listed page index holds it. */
  lemma {:induction false} PostsMembership(keys: seq<string>, pages: map<string, Dict<Indexer.Entry>>, e: Indexer.Entry)
    ensures e in PostsOf(keys, pages) <==> exists k :: k in keys && k in pages && e in pages[k].Values()
    decreases |keys|
  {
    if keys != [] {
      var init := keys[..|keys| - 1];
      var last := keys[|keys| - 1];
      PostsMembership(init, pages, e);
      assert keys == init + [last];
      if exists k :: k in keys && k in pages && e in pages[k].Values() {
        var k :| k in keys && k in pages && e in pages[k].Values();
        if k != last {
          assert k in init;
        }
      }
    }
  }

  /** Results of equal score keep the order in which their entries were met. */
  lemma SearchStable(rel: Release, ops: TextOps, indexs: Dict<Dict<Indexer.Entry>>, query: string, v: int)
    ensures WithScore(v, SearchResults(rel, ops, indexs, query)) ==
      WithScore(v, Matching(rel, ops, Posts(indexs), Keywords(query)))
  {
    SortStable(v, Matching(rel, ops, Posts(indexs), Keywords(query)));
  }

  /** Every result of `search` is the result of a titled entry of some page index. */
  lemma SearchSound(rel: Release, ops: TextOps, indexs: Dict<Dict<Indexer.Entry>>, query: string, r: SearchResult)
    requires r in SearchResults(rel, ops, indexs, query)
    ensures exists post :: post in Posts(indexs) && Evaluate(rel, ops, post, Keywords(query)) == Some(r)
  {
    var matching := Matching(rel, ops, Posts(indexs), Keywords(query));
    SortPermutes(matching);
    assert r in multiset(SortByScore(matching));
    MatchingSound(rel, ops, Posts(indexs), Keywords(query), r);
  }
}

/**
 * `genIndex`: one pass over the block tokens of a Markdown page that
 * builds the page's search index, a dictionary from section slug to the
 * section's slug, title and body text.
 *
 * The Markdown lexer is not modelled: its output is the `tokens`
 * argument. The router's `toURL` and the slug generator are abstract
 * functions; the slug generator keeps per-page state (the calls made since
 * it was last cleared), which is what lets it number repeated headings.
 */
module Indexer {
  import opened Wrappers
  import opened JsString
  import opened Html
  import opened Directives
  import opened Dict

  datatype TokenType = Heading | Table | List | Block(name: string)

  /**
   * A lexer token. `text` is `""` where the token has no text (the
   * source tests it for falsiness, so absent and empty behave alike).
   */
  datatype Token = Token(
    kind: TokenType,
    depth: int,
    text: string,
    raw: string,
    header: seq<string>,
    cells: seq<seq<string>>)

  /**
   * An index entry. Headings create `Section`s. The entry for text above
   * the first heading is created bare, with a body only.
   */
  datatype Entry = Section(slug: string, title: string, body: string) | Preamble(body: string)

  /** `router.toURL(path, params)`; `None` when no `{id}` is passed. */
  type ToUrl = (string, Option<string>) -> string

  /** The slug generator's answer to a call, given the calls made since it was last cleared. */
  type SlugFn = (seq<ConfigValue>, ConfigValue) -> string

  /** `Docsify.slugify` with its `clear`. */
  class Slugger {
    var history: seq<ConfigValue>
    const fn: SlugFn

    constructor (fn: SlugFn)
      ensures history == [] && this.fn == fn
    {
      history := [];
      this.fn := fn;
    }

    method Slugify(x: ConfigValue) returns (r: string)
      modifies this
      ensures r == fn(old(history), x)
      ensures history == old(history) + [x]
    {
      r := fn(history, x);
      history := history + [x];
    }

    method Clear()
      modifies this
      ensures history == []
    {
      history := [];
    }
  }

  // ---------------------------------------------------------------------
  // Token flattening

  function RowText(row: seq<string>): string {
    Join(row, " | ")
  }

  function RowTexts(rows: seq<seq<string>>): seq<string> {
    if rows == [] then [] else [RowText(rows[0])] + RowTexts(rows[1..])
  }

  /**
   * `getTableData`: a table without text gets its header put in front of
   * its rows and its text set to the rows, cells joined by `" | "` and rows
   * by `" |\n "`. Any other token is returned as it is.
   */
  function GetTableData(t: Token): (r: Token)
    ensures r.kind == t.kind && r.depth == t.depth && r.raw == t.raw && r.header == t.header
    ensures t.text != "" || t.kind != Table ==> r == t
  {
    if t.text == "" && t.kind == Table then
      var cells := [t.header] + t.cells;
      t.(cells := cells, text := Join(RowTexts(cells), " |\n "))
    else t
  }

  /** `getListData`: a list without text takes its raw source as text. */
  function GetListData(t: Token): (r: Token)
    ensures r.kind == t.kind && r.depth == t.depth && r.raw == t.raw && r.header == t.header && r.cells == t.cells
    ensures t.text != "" || t.kind != List ==> r == t
  {
    if t.text == "" && t.kind == List then t.(text := t.raw) else t
  }

  /** The text a token contributes to a section body. */
  function FlatText(t: Token): (r: string)
    ensures t.text != "" ==> r == t.text
    ensures t.kind == List && t.text == "" ==> r == t.raw
  {
    GetListData(GetTableData(t)).text
  }

  /** A text-less table is flattened header first; only its `cells` and `text` change. */
  lemma TableFlattening(t: Token)
    requires t.text == "" && t.kind == Table
    ensures GetTableData(t).cells == [t.header] + t.cells
    ensures GetTableData(t).text == Join([RowText(t.header)] + RowTexts(t.cells), " |\n ")
    ensures GetTableData(t) == t.(cells := GetTableData(t).cells, text := GetTableData(t).text)
    ensures FlatText(t) == GetTableData(t).text
  {
    assert ([t.header] + t.cells)[1..] == t.cells;
  }

  /** A text-less list takes its raw source; every other token passes through both helpers unchanged. */
  lemma ListFlattening(t: Token)
    ensures t.text == "" && t.kind == List ==> GetListData(t) == t.(text := t.raw) && FlatText(t) == t.raw
    ensures !(t.text == "" && t.kind == List) ==> GetListData(t) == t
    ensures t.kind != Table ==> GetTableData(t) == t
  {}

  /** A flattened table keeps its text: flattening again changes nothing. */
  lemma TableDataSettles(t: Token)
    requires GetTableData(t).text != ""
    ensures GetTableData(GetTableData(t)) == GetTableData(t)
  {}

  /** ... but an empty table flattens to `""`, so a second call flattens it again with another header row. */
  lemma EmptyTableFlattensTwice(t: Token)
    requires t.kind == Table && t.text == "" && t.header == [] && t.cells == []
    ensures GetTableData(t).text == ""
    ensures GetTableData(GetTableData(t)).cells == [[], []]
    ensures GetTableData(GetTableData(t)).text == " |\n "
  {
    var once := GetTableData(t);
    assert once.cells == [[]];
    assert RowTexts(once.cells) == [""];
    var twice := GetTableData(once);
    assert twice.cells == [[], []];
    assert RowTexts(twice.cells) == ["", ""];
    assert Join(["", ""], " |\n ") == "" + " |\n " + Join([""], " |\n ");
  }

  /** Only a text-less list or table gets new text; every other token contributes its own text. */
  lemma FlatTextOthers(t: Token)
    requires t.text != "" || (t.kind != Table && t.kind != List)
    ensures FlatText(t) == t.text
  {}

  // ---------------------------------------------------------------------
  // The pass, as a function of the tokens

  /**
   * The heading clean-up `genIndex` applies: directive parsing, marker
   * removal and HTML escaping. The pass is stated over any such triple;
   * `genIndex` uses `DocsifyHeadings`.
   */
  datatype HeadingText = HeadingText(parse: string -> Parsed, strip: string -> string, escape: string -> string)

  const DocsifyHeadings: HeadingText := HeadingText(GetAndRemoveConfig, RemoveDocsifyIgnoreTag, EscapeHtml)

  /**
   * What `genIndex` gets besides the tokens. `flatten` is the text a body
   * token contributes; `genIndex` uses `FlatText`.
   */
  datatype Env = Env(path: string, toUrl: ToUrl, slugFn: SlugFn, depth: int, heading: HeadingText, flatten: Token -> string)

  /** The state the pass carries from token to token. `slug == ""` also stands for "no slug yet". */
  datatype Cursor = Cursor(index: Dict<Entry>, slug: string, title: string, slugCalls: seq<ConfigValue>)

  /** Headings at or above the depth limit open a section; every other token is body text. */
  predicate Opens(env: Env, t: Token) {
    t.kind == Heading && t.depth <= env.depth
  }

  /** What the slug generator is called with: the `:id` directive if present, else the escaped heading. */
  function SlugSource(env: Env, t: Token): ConfigValue {
    var parsed := env.heading.parse(t.text);
    if "id" in parsed.config then parsed.config["id"]
    else Text(env.heading.escape(env.heading.strip(t.text)))
  }

  function Start(hist: seq<ConfigValue>): Cursor {
    Cursor(Empty(), "", "", hist)
  }

  /** The body after appending one more token's text. */
  function AppendText(body: string, text: string): string {
    if body != "" then body + "\n" + text else text
  }

  /** One iteration of the `forEach` over the tokens; `i` is the token's index. */
  function Step(env: Env, c: Cursor, t: Token, i: nat): (r: Cursor)
    ensures c.index.vals.Keys <= r.index.vals.Keys
    ensures r.slug != "" ==> r.slug in r.index.vals
  {
    if Opens(env, t) then
      var parsed := env.heading.parse(t.text);
      var id := SlugSource(env, t);
      var slug := env.toUrl(env.path, Some(env.slugFn(c.slugCalls, id)));
      var title := if parsed.str != "" then env.heading.strip(parsed.str) else c.title;
      Cursor(c.index.Put(slug, Section(slug, title, "")), slug, title, c.slugCalls + [id])
    else
      var c1 := if i == 0 then Lead(env, c, t) else c;
      if c1.slug == "" then c1
      else if c1.slug !in c1.index.vals then
        c1.(index := c1.index.Put(c1.slug, Section(c1.slug, "", "")))
      else
        var e := c1.index.vals[c1.slug];
        c1.(index := c1.index.Put(c1.slug, e.(body := AppendText(e.body, env.flatten(t)))))
  }

  /** The first token, when it is not a heading, starts the entry keyed by the page's own URL. */
  function Lead(env: Env, c: Cursor, t: Token): (r: Cursor)
    ensures c.index.vals.Keys <= r.index.vals.Keys && r.slug in r.index.vals
    ensures r.title == c.title && r.slugCalls == c.slugCalls
  {
    var u := env.toUrl(env.path, None);
    var e := if u in c.index.vals then c.index.vals[u] else Preamble("");
    c.(index := c.index.Put(u, e.(body := e.body + "\n" + t.text)), slug := u)
  }

  /** The state after the first `n` tokens. */
  function Run(env: Env, hist: seq<ConfigValue>, tokens: seq<Token>, n: nat): (r: Cursor)
    requires n <= |tokens|
    ensures r.slug != "" ==> r.slug in r.index.vals
  {
    if n == 0 then Start(hist)
    else Step(env, Run(env, hist, tokens, n - 1), tokens[n - 1], n - 1)
  }

  /**
   * `genIndex(path, content, router, depth)`. The tokens are updated as
   * `getTableData`/`getListData` do, on a local copy, since nothing reads
   * them afterwards. The slug generator is cleared once, after the pass.
   */
  method GenIndex(path: string, tokens: seq<Token>, toUrl: ToUrl, depth: int, slugger: Slugger)
    returns (index: Dict<Entry>)
    modifies slugger
    ensures index == Run(Env(path, toUrl, slugger.fn, depth, DocsifyHeadings, FlatText), old(slugger.history), tokens, |tokens|).index
    ensures slugger.history == []
  {
    ghost var env := Env(path, toUrl, slugger.fn, depth, DocsifyHeadings, FlatText);
    ghost var hist := slugger.history;
    index := Empty();
    var slug := "";
    var title := "";
    for i := 0 to |tokens|
      invariant Run(env, hist, tokens, i) == Cursor(index, slug, title, slugger.history)
    {
      var token := tokens[i];
      if token.kind == Heading && token.depth <= depth {
        index, slug, title := OpenSection(env, DocsifyHeadings, path, toUrl, token, i, index, slug, title, slugger);
      } else {
        index, slug := AddText(env, path, toUrl, token, i, index, slug, title, slugger.history);
      }
    }
    slugger.Clear();
  }

  /**
   * The heading branch of the pass: a new section under the heading's slug.
   * `h` is the heading clean-up (`DocsifyHeadings` in `GenIndex`).
   */
  method OpenSection(ghost env: Env, h: HeadingText, path: string, toUrl: ToUrl, token: Token, i: nat,
                     index: Dict<Entry>, slug: string, title: string, slugger: Slugger)
    returns (index': Dict<Entry>, slug': string, title': string)
    requires Opens(env, token)
    requires env.path == path && env.toUrl == toUrl && env.slugFn == slugger.fn && env.heading == h
    modifies slugger
    ensures Cursor(index', slug', title', slugger.history) == Step(env, Cursor(index, slug, title, old(slugger.history)), token, i)
  {
    var parsed := h.parse(token.text);
    var text := h.strip(token.text);
    var id;
    if "id" in parsed.config {
      id := slugger.Slugify(parsed.config["id"]);
    } else {
      id := slugger.Slugify(Text(h.escape(text)));
    }
    slug' := toUrl(path, Some(id));
    title' := title;
    if parsed.str != "" {
      title' := h.strip(parsed.str);
    }
    index' := index.Put(slug', Section(slug', title', ""));
  }

  /** The other branch: the token's text goes into the current section (and, for the first token, the page entry). */
  method AddText(ghost env: Env, path: string, toUrl: ToUrl, token: Token, i: nat,
                 index: Dict<Entry>, slug: string, ghost title: string, ghost calls: seq<ConfigValue>)
    returns (index': Dict<Entry>, slug': string)
    requires !Opens(env, token)
    requires env.path == path && env.toUrl == toUrl && env.flatten == FlatText
    ensures Cursor(index', slug', title, calls) == Step(env, Cursor(index, slug, title, calls), token, i)
  {
    index', slug' := index, slug;
    if i == 0 {
      slug' := toUrl(path, None);
      var e := if slug' in index'.vals then index'.vals[slug'] else Preamble("");
      index' := index'.Put(slug', e.(body := e.body + "\n" + token.text));
    }
    if slug' == "" {
      return;
    }
    var tok := token;
    if slug' !in index'.vals {
      index' := index'.Put(slug', Section(slug', "", ""));
    } else if index'.vals[slug'].body != "" {
      tok := GetTableData(tok);
      tok := GetListData(tok);
      var e := index'.vals[slug'];
      index' := index'.Put(slug', e.(body := e.body + "\n" + tok.text));
    } else {
      tok := GetTableData(tok);
      tok := GetListData(tok);
      index' := index'.Put(slug', index'.vals[slug'].(body := tok.text));
    }
  }

  // ---------------------------------------------------------------------
  // What the pass computes

  /** Every `Section` sits under its own slug; a bare entry only under the page URL; the cursor slug is always present. */
  ghost predicate Shaped(env: Env, c: Cursor) {
    (forall k :: k in c.index.vals && c.index.vals[k].Section? ==> c.index.vals[k].slug == k) &&
    (forall k :: k in c.index.vals && c.index.vals[k].Preamble? ==> k == env.toUrl(env.path, None)) &&
    (c.slug != "" ==> c.slug in c.index.vals)
  }

  lemma StepShaped(env: Env, c: Cursor, t: Token, i: nat)
    requires Shaped(env, c)
    ensures Shaped(env, Step(env, c, t, i))
  {
    if !Opens(env, t) && i == 0 {
      var c1 := Lead(env, c, t);
      assert Shaped(env, c1);
    }
  }

  /** The index is always a well-formed dictionary. */
  lemma {:induction false} RunValid(env: Env, hist: seq<ConfigValue>, tokens: seq<Token>, n: nat)
    requires n <= |tokens|
    ensures Run(env, hist, tokens, n).index.Valid()
  {
    if n == 0 {
      EmptyValid<Entry>();
    } else {
      var prev := Run(env, hist, tokens, n - 1);
      var t := tokens[n - 1];
      RunValid(env, hist, tokens, n - 1);
      assert Run(env, hist, tokens, n) == Step(env, prev, t, n - 1);
      if Opens(env, t) {
        var id := SlugSource(env, t);
        var slug := env.toUrl(env.path, Some(env.slugFn(prev.slugCalls, id)));
        var title := if env.heading.parse(t.text).str != "" then env.heading.strip(env.heading.parse(t.text).str) else prev.title;
        PutValid(prev.index, slug, Section(slug, title, ""));
      } else {
        var c1 := if n - 1 == 0 then Lead(env, prev, t) else prev;
        if n - 1 == 0 {
          PutValid(prev.index, PageUrl(env), Preamble("" + "\n" + t.text));
        }
        if c1.slug != "" {
          if c1.slug !in c1.index.vals {
            PutValid(c1.index, c1.slug, Section(c1.slug, "", ""));
          } else {
            var e := c1.index.vals[c1.slug];
            PutValid(c1.index, c1.slug, e.(body := AppendText(e.body, env.flatten(t))));
          }
        }
      }
    }
  }

  lemma {:induction false} RunShaped(env: Env, hist: seq<ConfigValue>, tokens: seq<Token>, n: nat)
    requires n <= |tokens|
    ensures Shaped(env, Run(env, hist, tokens, n))
  {
    if n > 0 {
      var prev := Run(env, hist, tokens, n - 1);
      RunShaped(env, hist, tokens, n - 1);
      StepShaped(env, prev, tokens[n - 1], n - 1);
      assert Run(env, hist, tokens, n) == Step(env, prev, tokens[n - 1], n - 1);
    }
  }

  // ---------------------------------------------------------------------
  // Reference definitions: titles, slug calls, keys and bodies

  /** The title in force after `ts`: set by the last opening heading with text left, and `""` before any. */
  function LastTitle(env: Env, ts: seq<Token>): string
    decreases |ts|
  {
    if ts == [] then ""
    else
      var t := ts[|ts| - 1];
      var str := env.heading.parse(t.text).str;
      if Opens(env, t) && str != "" then env.heading.strip(str) else LastTitle(env, ts[..|ts| - 1])
  }

  /** The slug generator's calls for `ts`: one per opening heading, in order. */
  function SlugCalls(env: Env, ts: seq<Token>): seq<ConfigValue>
    decreases |ts|
  {
    if ts == [] then []
    else
      var t := ts[|ts| - 1];
      SlugCalls(env, ts[..|ts| - 1]) + (if Opens(env, t) then [SlugSource(env, t)] else [])
  }

  /** What one step does to the title and to the slug generator's calls. */
  lemma StepCursor(env: Env, c: Cursor, t: Token, i: nat)
    ensures Step(env, c, t, i).title == LastTitle(env, [t]) || (Step(env, c, t, i).title == c.title && LastTitle(env, [t]) == "")
    ensures Opens(env, t) && env.heading.parse(t.text).str != "" ==> Step(env, c, t, i).title == LastTitle(env, [t])
    ensures !(Opens(env, t) && env.heading.parse(t.text).str != "") ==> Step(env, c, t, i).title == c.title
    ensures Step(env, c, t, i).slugCalls == c.slugCalls + SlugCalls(env, [t])
  {
    assert [t][..0] == [];
  }

  lemma {:induction false} RunTitle(env: Env, hist: seq<ConfigValue>, tokens: seq<Token>, n: nat)
    requires n <= |tokens|
    ensures Run(env, hist, tokens, n).title == LastTitle(env, tokens[..n])
  {
    if n > 0 {
      RunTitle(env, hist, tokens, n - 1);
      TitleStep(env, hist, tokens, n);
    }
  }

  lemma TitleStep(env: Env, hist: seq<ConfigValue>, tokens: seq<Token>, n: nat)
    requires 0 < n <= |tokens|
    requires Run(env, hist, tokens, n - 1).title == LastTitle(env, tokens[..n - 1])
    ensures Run(env, hist, tokens, n).title == LastTitle(env, tokens[..n])
  {
    RunSnoc(env, hist, tokens, n);
    NextTitle(env, tokens, n, Run(env, hist, tokens, n - 1), Run(env, hist, tokens, n));
  }

  lemma NextTitle(env: Env, tokens: seq<Token>, n: nat, prev: Cursor, next: Cursor)
    requires 0 < n <= |tokens|
    requires prev.title == LastTitle(env, tokens[..n - 1])
    requires next == Step(env, prev, tokens[n - 1], n - 1)
    ensures next.title == LastTitle(env, tokens[..n])
  {
    var t := tokens[n - 1];
    assert tokens[..n] == tokens[..n - 1] + [t];
    LastTitleSnoc(env, tokens[..n - 1], t);
    StepCursor(env, prev, t, n - 1);
  }

  lemma {:induction false} RunSlugCalls(env: Env, hist: seq<ConfigValue>, tokens: seq<Token>, n: nat)
    requires n <= |tokens|
    ensures Run(env, hist, tokens, n).slugCalls == hist + SlugCalls(env, tokens[..n])
  {
    if n > 0 {
      RunSlugCalls(env, hist, tokens, n - 1);
      SlugCallsStep(env, hist, tokens, n);
    }
  }

  lemma SlugCallsStep(env: Env, hist: seq<ConfigValue>, tokens: seq<Token>, n: nat)
    requires 0 < n <= |tokens|
    requires Run(env, hist, tokens, n - 1).slugCalls == hist + SlugCalls(env, tokens[..n - 1])
    ensures Run(env, hist, tokens, n).slugCalls == hist + SlugCalls(env, tokens[..n])
  {
    RunSnoc(env, hist, tokens, n);
    NextSlugCalls(env, hist, tokens, n, Run(env, hist, tokens, n - 1), Run(env, hist, tokens, n));
  }

  lemma NextSlugCalls(env: Env, hist: seq<ConfigValue>, tokens: seq<Token>, n: nat, prev: Cursor, next: Cursor)
    requires 0 < n <= |tokens|
    requires prev.slugCalls == hist + SlugCalls(env, tokens[..n - 1])
    requires next == Step(env, prev, tokens[n - 1], n - 1)
    ensures next.slugCalls == hist + SlugCalls(env, tokens[..n])
  {
    var t := tokens[n - 1];
    assert tokens[..n] == tokens[..n - 1] + [t];
    SlugCallsSnoc(env, tokens[..n - 1], t);
    StepCursor(env, prev, t, n - 1);
  }

  /** The state after `n` tokens is one step on from the state after `n - 1`. */
  lemma RunSnoc(env: Env, hist: seq<ConfigValue>, tokens: seq<Token>, n: nat)
    requires 0 < n <= |tokens|
    ensures Run(env, hist, tokens, n) == Step(env, Run(env, hist, tokens, n - 1), tokens[n - 1], n - 1)
  {}

  lemma RunCursor(env: Env, hist: seq<ConfigValue>, tokens: seq<Token>, n: nat)
    requires n <= |tokens|
    ensures Run(env, hist, tokens, n).title == LastTitle(env, tokens[..n])
    ensures Run(env, hist, tokens, n).slugCalls == hist + SlugCalls(env, tokens[..n])
  {
    RunTitle(env, hist, tokens, n);
    RunSlugCalls(env, hist, tokens, n);
  }

  lemma LastTitleSnoc(env: Env, ts: seq<Token>, t: Token)
    ensures LastTitle(env, ts + [t]) ==
      if Opens(env, t) && env.heading.parse(t.text).str != "" then LastTitle(env, [t]) else LastTitle(env, ts)
  {
    assert (ts + [t])[..|ts|] == ts;
    assert [t][..0] == [];
  }

  lemma SlugCallsSnoc(env: Env, ts: seq<Token>, t: Token)
    ensures SlugCalls(env, ts + [t]) == SlugCalls(env, ts) + SlugCalls(env, [t])
  {
    assert (ts + [t])[..|ts|] == ts;
    assert [t][..0] == [];
  }

  /** The slug of the opening heading at position `h`. */
  function HeadingSlug(env: Env, hist: seq<ConfigValue>, tokens: seq<Token>, h: nat): string
    requires h < |tokens|
  {
    env.toUrl(env.path, Some(env.slugFn(hist + SlugCalls(env, tokens[..h]), SlugSource(env, tokens[h]))))
  }

  /**
   * An opening heading creates an empty section under its slug (from its
   * `:id` directive if it has one), titled with its own text or, when none
   * is left, the title of the heading before.
   */
  lemma OpenerEntry(env: Env, hist: seq<ConfigValue>, tokens: seq<Token>, h: nat)
    requires h < |tokens| && Opens(env, tokens[h])
    ensures Run(env, hist, tokens, h + 1).slug == HeadingSlug(env, hist, tokens, h)
    ensures Run(env, hist, tokens, h + 1).title == LastTitle(env, tokens[..h + 1])
    ensures Run(env, hist, tokens, h + 1).index.vals[HeadingSlug(env, hist, tokens, h)]
         == Section(HeadingSlug(env, hist, tokens, h), LastTitle(env, tokens[..h + 1]), "")
  {
    RunCursor(env, hist, tokens, h);
    RunCursor(env, hist, tokens, h + 1);
    var prev := Run(env, hist, tokens, h);
    assert Run(env, hist, tokens, h + 1) == Step(env, prev, tokens[h], h);
  }

  /** When the cleaned heading text is empty, the section inherits the title in force before it. */
  lemma TitleCarriesOver(env: Env, hist: seq<ConfigValue>, tokens: seq<Token>, h: nat)
    requires h < |tokens| && Opens(env, tokens[h])
    requires env.heading.parse(tokens[h].text).str == ""
    ensures Run(env, hist, tokens, h + 1).title == Run(env, hist, tokens, h).title
  {
    RunCursor(env, hist, tokens, h);
    RunCursor(env, hist, tokens, h + 1);
    assert tokens[..h + 1][..h] == tokens[..h];
  }

  /**
   * A heading with an `:id` directive: the slug generator is called with
   * the directive's value, whatever the heading's text, and the section's
   * slug is the URL built from its answer.
   */
  lemma ExplicitIdWins(env: Env, hist: seq<ConfigValue>, tokens: seq<Token>, h: nat)
    requires h < |tokens| && Opens(env, tokens[h])
    requires "id" in env.heading.parse(tokens[h].text).config
    ensures SlugSource(env, tokens[h]) == env.heading.parse(tokens[h].text).config["id"]
    ensures Run(env, hist, tokens, h + 1).slugCalls
         == hist + SlugCalls(env, tokens[..h]) + [env.heading.parse(tokens[h].text).config["id"]]
    ensures Run(env, hist, tokens, h + 1).slug
         == env.toUrl(env.path, Some(env.slugFn(hist + SlugCalls(env, tokens[..h]), env.heading.parse(tokens[h].text).config["id"])))
  {
    OpenerEntry(env, hist, tokens, h);
    RunCursor(env, hist, tokens, h + 1);
    assert tokens[..h + 1] == tokens[..h] + [tokens[h]];
    SlugCallsSnoc(env, tokens[..h], tokens[h]);
    assert SlugCalls(env, [tokens[h]]) == [SlugSource(env, tokens[h])] by {
      assert [tokens[h]][..0] == [];
    }
  }

  /**
   * With docsify's own heading clean-up, a heading `"Title :id=anchor"`
   * gets its slug from `anchor` and its title from `Title`.
   */
  lemma DocsifyIdAnchor(env: Env, hist: seq<ConfigValue>, tokens: seq<Token>, h: nat, title: string, anchor: string)
    requires env.heading == DocsifyHeadings
    requires h < |tokens| && Opens(env, tokens[h])
    requires tokens[h].text == title + " :id=" + anchor
    requires forall i :: 0 <= i < |title| ==> title[i] != ':'
    requires title != [] ==> title[0] != '\'' && title[0] != '"'
    requires ValueOk(Text(anchor))
    ensures Run(env, hist, tokens, h + 1).slug
         == env.toUrl(env.path, Some(env.slugFn(hist + SlugCalls(env, tokens[..h]), Text(anchor))))
    ensures Trim(title) != "" ==> Run(env, hist, tokens, h + 1).title == RemoveDocsifyIgnoreTag(Trim(title))
  {
    IdDirectiveParsed(title, anchor);
    IdHeading(env, hist, tokens, h, Trim(title), Text(anchor));
  }

  /** An opening heading whose clean-up leaves `str` and only an `:id` directive. */
  lemma IdHeading(env: Env, hist: seq<ConfigValue>, tokens: seq<Token>, h: nat, str: string, v: ConfigValue)
    requires h < |tokens| && Opens(env, tokens[h])
    requires env.heading.parse(tokens[h].text) == Parsed(str, map["id" := v])
    ensures Run(env, hist, tokens, h + 1).slug == env.toUrl(env.path, Some(env.slugFn(hist + SlugCalls(env, tokens[..h]), v)))
    ensures str != "" ==> Run(env, hist, tokens, h + 1).title == env.heading.strip(str)
  {
    ExplicitIdWins(env, hist, tokens, h);
    OpenerEntry(env, hist, tokens, h);
    LastTitleSnoc(env, tokens[..h], tokens[h]);
    assert tokens[..h + 1] == tokens[..h] + [tokens[h]];
    assert [tokens[h]][..0] == [];
  }

  lemma IdDirectiveParsed(title: string, anchor: string)
    requires forall i :: 0 <= i < |title| ==> title[i] != ':'
    requires title != [] ==> title[0] != '\'' && title[0] != '"'
    requires ValueOk(Text(anchor))
    ensures DocsifyHeadings.parse(title + " :id=" + anchor) == Parsed(Trim(title), map["id" := Text(anchor)])
  {
    assert KeyOk("id");
    assert title + " :id=" + anchor == title + " :" + "id" + "=" + anchor;
    ValueDirective(title, "id", anchor);
  }


  // ---------------------------------------------------------------------
  // The keys of the index

  /** The page URL, the key of text above the first heading. */
  function PageUrl(env: Env): string {
    env.toUrl(env.path, None)
  }

  /** The keys after `n` tokens, token by token: each opening heading adds its slug, a first token that is not one the page URL. */
  function KeysOf(env: Env, hist: seq<ConfigValue>, tokens: seq<Token>, n: nat): set<string>
    requires n <= |tokens|
  {
    if n == 0 then {}
    else
      KeysOf(env, hist, tokens, n - 1) +
      (if Opens(env, tokens[n - 1]) then {HeadingSlug(env, hist, tokens, n - 1)} else {}) +
      (if n == 1 && !Opens(env, tokens[0]) then {PageUrl(env)} else {})
  }

  /** Some opening heading among the first `n` tokens has slug `k`. */
  predicate HeadingKeyed(env: Env, hist: seq<ConfigValue>, tokens: seq<Token>, n: nat, k: string)
    requires n <= |tokens|
  {
    exists h :: 0 <= h < n && Opens(env, tokens[h]) && HeadingSlug(env, hist, tokens, h) == k
  }

  lemma HeadingKeyedSnoc(env: Env, hist: seq<ConfigValue>, tokens: seq<Token>, n: nat, k: string)
    requires 0 < n <= |tokens|
    ensures HeadingKeyed(env, hist, tokens, n, k) <==>
      HeadingKeyed(env, hist, tokens, n - 1, k) || (Opens(env, tokens[n - 1]) && HeadingSlug(env, hist, tokens, n - 1) == k)
  {
    if HeadingKeyed(env, hist, tokens, n, k) && !HeadingKeyed(env, hist, tokens, n - 1, k) {
      var h :| 0 <= h < n && Opens(env, tokens[h]) && HeadingSlug(env, hist, tokens, h) == k;
      assert h == n - 1;
    }
  }

  /** The keys are exactly the slugs of the opening headings, and the page URL if the first token is not one. */
  lemma {:induction false} KeysOfMembers(env: Env, hist: seq<ConfigValue>, tokens: seq<Token>, n: nat, k: string)
    requires n <= |tokens|
    ensures k in KeysOf(env, hist, tokens, n) <==>
      HeadingKeyed(env, hist, tokens, n, k) || (n > 0 && !Opens(env, tokens[0]) && k == PageUrl(env))
  {
    if n > 0 {
      KeysOfMembers(env, hist, tokens, n - 1, k);
      HeadingKeyedSnoc(env, hist, tokens, n, k);
    }
  }

  lemma RunKeys(env: Env, hist: seq<ConfigValue>, tokens: seq<Token>, n: nat)
    requires n <= |tokens|
    ensures Run(env, hist, tokens, n).index.vals.Keys == KeysOf(env, hist, tokens, n)
  {
    RunKeysTrack(env, hist, tokens, n);
  }

  /** What the induction over the keys carries: the cursor slug is present, the slug calls so far and the keys so far. */
  ghost predicate KeysTrack(env: Env, hist: seq<ConfigValue>, tokens: seq<Token>, n: nat, c: Cursor)
    requires n <= |tokens|
  {
    (c.slug != "" ==> c.slug in c.index.vals) &&
    c.slugCalls == hist + SlugCalls(env, tokens[..n]) &&
    c.index.vals.Keys == KeysOf(env, hist, tokens, n)
  }

  lemma {:induction false} RunKeysTrack(env: Env, hist: seq<ConfigValue>, tokens: seq<Token>, n: nat)
    requires n <= |tokens|
    ensures KeysTrack(env, hist, tokens, n, Run(env, hist, tokens, n))
  {
    if n == 0 {
      assert tokens[..0] == [];
    } else {
      RunKeysTrack(env, hist, tokens, n - 1);
      RunSnoc(env, hist, tokens, n);
      NextKeys(env, hist, tokens, n, Run(env, hist, tokens, n - 1), Run(env, hist, tokens, n));
    }
  }

  /** The keys one step adds, in terms of the headings' slugs. */
  lemma NextKeys(env: Env, hist: seq<ConfigValue>, tokens: seq<Token>, n: nat, prev: Cursor, next: Cursor)
    requires 0 < n <= |tokens|
    requires KeysTrack(env, hist, tokens, n - 1, prev)
    requires next == Step(env, prev, tokens[n - 1], n - 1)
    ensures KeysTrack(env, hist, tokens, n, next)
  {
    NextCalls(env, hist, tokens, n, prev, next);
    NextKeySet(env, hist, tokens, n, prev, next);
  }

  lemma NextCalls(env: Env, hist: seq<ConfigValue>, tokens: seq<Token>, n: nat, prev: Cursor, next: Cursor)
    requires 0 < n <= |tokens|
    requires prev.slugCalls == hist + SlugCalls(env, tokens[..n - 1])
    requires next == Step(env, prev, tokens[n - 1], n - 1)
    ensures next.slugCalls == hist + SlugCalls(env, tokens[..n])
  {
    var t := tokens[n - 1];
    StepCursor(env, prev, t, n - 1);
    assert tokens[..n] == tokens[..n - 1] + [t];
    SlugCallsSnoc(env, tokens[..n - 1], t);
  }

  lemma NextKeySet(env: Env, hist: seq<ConfigValue>, tokens: seq<Token>, n: nat, prev: Cursor, next: Cursor)
    requires 0 < n <= |tokens|
    requires prev.slug != "" ==> prev.slug in prev.index.vals
    requires prev.slugCalls == hist + SlugCalls(env, tokens[..n - 1])
    requires prev.index.vals.Keys == KeysOf(env, hist, tokens, n - 1)
    requires next == Step(env, prev, tokens[n - 1], n - 1)
    ensures next.index.vals.Keys == KeysOf(env, hist, tokens, n)
  {
    StepKeys(env, prev, tokens[n - 1], n - 1);
  }

  /** One step adds the opening heading's slug, or the page URL for a first token that is not one, and no other key. */
  lemma StepKeys(env: Env, c: Cursor, t: Token, i: nat)
    requires c.slug != "" ==> c.slug in c.index.vals
    ensures Step(env, c, t, i).index.vals.Keys ==
      c.index.vals.Keys +
      (if Opens(env, t) then {env.toUrl(env.path, Some(env.slugFn(c.slugCalls, SlugSource(env, t))))} else {}) +
      (if i == 0 && !Opens(env, t) then {PageUrl(env)} else {})
  {}

  // ---------------------------------------------------------------------
  // Section bodies

  /** The flattened texts of `ts`. */
  function Texts(env: Env, ts: seq<Token>): (r: seq<string>)
    ensures |r| == |ts|
    ensures forall i :: 0 <= i < |ts| ==> r[i] == env.flatten(ts[i])
  {
    seq(|ts|, i requires 0 <= i < |ts| => env.flatten(ts[i]))
  }

  function DropLeadingEmpty(xs: seq<string>): (r: seq<string>)
    ensures r == [] || r[0] != ""
  {
    if xs == [] then []
    else if xs[0] == "" then DropLeadingEmpty(xs[1..])
    else xs
  }

  /** The body a section gets from the tokens after its heading: their texts, newline-separated, leading empty ones skipped. */
  function SectionBody(env: Env, ts: seq<Token>): string {
    Join(DropLeadingEmpty(Texts(env, ts)), "\n")
  }

  lemma {:induction false} JoinSnoc(xs: seq<string>, x: string, sep: string)
    requires xs != []
    ensures Join(xs + [x], sep) == Join(xs, sep) + sep + x
  {
    if |xs| > 1 {
      JoinSnoc(xs[1..], x, sep);
      assert (xs + [x])[1..] == xs[1..] + [x];
    }
  }

  lemma {:induction false} JoinHead(xs: seq<string>, sep: string)
    requires xs != []
    ensures |Join(xs, sep)| >= |xs[0]|
  {
    if |xs| > 1 {
      JoinHead(xs[1..], sep);
    }
  }

  lemma {:induction false} DropLeadingEmptySnoc(xs: seq<string>, x: string)
    ensures DropLeadingEmpty(xs + [x]) ==
      if DropLeadingEmpty(xs) == [] then DropLeadingEmpty([x]) else DropLeadingEmpty(xs) + [x]
  {
    if xs != [] {
      assert (xs + [x])[1..] == xs[1..] + [x];
      if xs[0] == "" {
        DropLeadingEmptySnoc(xs[1..], x);
      }
    }
  }

  /** Appending one token to a section is what the pass does to its body. */
  lemma SectionBodyExtend(env: Env, tokens: seq<Token>, a: nat, n: nat)
    requires a < n <= |tokens|
    ensures SectionBody(env, tokens[a..n]) == AppendText(SectionBody(env, tokens[a..n - 1]), env.flatten(tokens[n - 1]))
  {
    assert tokens[a..n] == tokens[a..n - 1] + [tokens[n - 1]];
    SectionBodySnoc(env, tokens[a..n - 1], tokens[n - 1]);
  }

  lemma SectionBodySnoc(env: Env, ts: seq<Token>, t: Token)
    ensures SectionBody(env, ts + [t]) == AppendText(SectionBody(env, ts), env.flatten(t))
  {
    var xs := Texts(env, ts);
    assert Texts(env, ts + [t]) == xs + [env.flatten(t)];
    DropLeadingEmptySnoc(xs, env.flatten(t));
    var d := DropLeadingEmpty(xs);
    if d != [] {
      JoinSnoc(d, env.flatten(t), "\n");
      JoinHead(d, "\n");
    }
  }

  /**
   * The body of a section: after the opening heading at `h` and the
   * non-opening tokens up to `n`, the section holds `SectionBody` of those
   * tokens (unless its slug is empty, see `OrphansDropped`).
   */
  lemma SectionBodyRun(env: Env, hist: seq<ConfigValue>, tokens: seq<Token>, h: nat, n: nat)
    requires h < n <= |tokens| && Opens(env, tokens[h])
    requires forall j :: h < j < n ==> !Opens(env, tokens[j])
    requires Run(env, hist, tokens, h + 1).slug != ""
    ensures Run(env, hist, tokens, n).slug == Run(env, hist, tokens, h + 1).slug
    ensures Run(env, hist, tokens, n).title == Run(env, hist, tokens, h + 1).title
    ensures Run(env, hist, tokens, n).index.vals[Run(env, hist, tokens, h + 1).slug]
         == Section(Run(env, hist, tokens, h + 1).slug, Run(env, hist, tokens, h + 1).title, SectionBody(env, tokens[h + 1..n]))
  {
    var opener := Run(env, hist, tokens, h + 1);
    SectionOpened(env, hist, tokens, h);
    SectionGrows(env, hist, tokens, h, n, opener.slug, opener.title);
  }

  /** The cursor stands on the section `slug`, titled `title`, whose body is `body`. */
  ghost predicate OnSection(c: Cursor, slug: string, title: string, body: string) {
    c.slug == slug && c.title == title && slug in c.index.vals && c.index.vals[slug] == Section(slug, title, body)
  }

  /** The induction behind `SectionBodyRun`, with the opener's slug and title fixed. */
  lemma {:induction false} SectionGrows(env: Env, hist: seq<ConfigValue>, tokens: seq<Token>, h: nat, n: nat, slug: string, title: string)
    requires h < n <= |tokens| && slug != ""
    requires forall j :: h < j < n ==> !Opens(env, tokens[j])
    requires OnSection(Run(env, hist, tokens, h + 1), slug, title, SectionBody(env, tokens[h + 1..h + 1]))
    ensures OnSection(Run(env, hist, tokens, n), slug, title, SectionBody(env, tokens[h + 1..n]))
  {
    if n > h + 1 {
      SectionGrows(env, hist, tokens, h, n - 1, slug, title);
      SectionBodyStep(env, hist, tokens, h, n, slug, title);
    }
  }

  lemma SectionOpened(env: Env, hist: seq<ConfigValue>, tokens: seq<Token>, h: nat)
    requires h < |tokens| && Opens(env, tokens[h])
    ensures OnSection(Run(env, hist, tokens, h + 1), Run(env, hist, tokens, h + 1).slug, Run(env, hist, tokens, h + 1).title,
      SectionBody(env, tokens[h + 1..h + 1]))
  {
    OpenerEntry(env, hist, tokens, h);
    assert SectionBody(env, tokens[h + 1..h + 1]) == "" by {
      assert tokens[h + 1..h + 1] == [];
    }
  }

  lemma SectionBodyStep(env: Env, hist: seq<ConfigValue>, tokens: seq<Token>, h: nat, n: nat, slug: string, title: string)
    requires h + 1 < n <= |tokens| && !Opens(env, tokens[n - 1]) && slug != ""
    requires OnSection(Run(env, hist, tokens, n - 1), slug, title, SectionBody(env, tokens[h + 1..n - 1]))
    ensures OnSection(Run(env, hist, tokens, n), slug, title, SectionBody(env, tokens[h + 1..n]))
  {
    SectionBodyExtend(env, tokens, h + 1, n);
    AbsorbSection(env, Run(env, hist, tokens, n - 1), tokens[n - 1], n - 1, slug, title, SectionBody(env, tokens[h + 1..n - 1]));
    RunSnoc(env, hist, tokens, n);
  }

  /** A body token appends its text to the section under the cursor and leaves slug and title alone. */
  lemma AbsorbSection(env: Env, c: Cursor, t: Token, i: nat, slug: string, title: string, body: string)
    requires i > 0 && !Opens(env, t) && slug != ""
    requires OnSection(c, slug, title, body)
    ensures OnSection(Step(env, c, t, i), slug, title, AppendText(body, env.flatten(t)))
  {
    AbsorbStep(env, c, t, i);
  }

  /** A body token after the first one appends to the section under the cursor. */
  lemma AbsorbStep(env: Env, c: Cursor, t: Token, i: nat)
    requires i > 0 && !Opens(env, t) && c.slug != "" && c.slug in c.index.vals
    ensures Step(env, c, t, i) ==
      c.(index := c.index.Put(c.slug, c.index.vals[c.slug].(body := AppendText(c.index.vals[c.slug].body, env.flatten(t)))))
  {}

  /** Text under an empty slug (and, past the first token, under no slug at all) is dropped. */
  lemma {:induction false} OrphansDropped(env: Env, hist: seq<ConfigValue>, tokens: seq<Token>, m: nat, n: nat)
    requires 1 <= m <= n <= |tokens|
    requires Run(env, hist, tokens, m).slug == ""
    requires forall j :: m <= j < n ==> !Opens(env, tokens[j])
    ensures Run(env, hist, tokens, n) == Run(env, hist, tokens, m)
  {
    if n > m {
      OrphansDropped(env, hist, tokens, m, n - 1);
      RunSnoc(env, hist, tokens, n);
      OrphanStep(env, Run(env, hist, tokens, m), tokens[n - 1], n - 1);
    }
  }

  /** Past the first token, a body token under no slug changes nothing. */
  lemma OrphanStep(env: Env, c: Cursor, t: Token, i: nat)
    requires i > 0 && !Opens(env, t) && c.slug == ""
    ensures Step(env, c, t, i) == c
  {}

  /**
   * Text above the first heading: the first token's text goes in twice,
   * once raw after a newline and once flattened, because the entry's body
   * is no longer empty when the second append runs; later tokens each add a
   * newline and their text. With an empty page URL only the first append
   * happens and the rest is dropped.
   */
  function NewlineTexts(env: Env, ts: seq<Token>): string
    decreases |ts|
  {
    if ts == [] then "" else NewlineTexts(env, ts[..|ts| - 1]) + "\n" + env.flatten(ts[|ts| - 1])
  }

  /** The first token, not a heading, opens the page entry and, under a non-empty page URL, is appended twice. */
  lemma PreambleFirst(env: Env, hist: seq<ConfigValue>, tokens: seq<Token>)
    requires 1 <= |tokens| && !Opens(env, tokens[0])
    ensures Run(env, hist, tokens, 1).slug == PageUrl(env)
    ensures PageUrl(env) != "" ==>
      Run(env, hist, tokens, 1).index.vals == map[PageUrl(env) := Preamble("\n" + tokens[0].text + "\n" + env.flatten(tokens[0]))]
    ensures PageUrl(env) == "" ==>
      Run(env, hist, tokens, 1).index.vals == map["" := Preamble("\n" + tokens[0].text)]
  {
    var u, t := PageUrl(env), tokens[0];
    var c1 := Lead(env, Start(hist), t);
    assert c1.index.vals == map[u := Preamble("\n" + t.text)] by {
      assert Start(hist).index.vals == map[];
      assert [] + "\n" + t.text == "\n" + t.text;
    }
    assert Run(env, hist, tokens, 1) == Step(env, Start(hist), t, 0);
  }

  lemma {:induction false} PreambleRun(env: Env, hist: seq<ConfigValue>, tokens: seq<Token>, n: nat)
    requires 1 <= n <= |tokens|
    requires forall j :: 0 <= j < n ==> !Opens(env, tokens[j])
    ensures Run(env, hist, tokens, n).slug == PageUrl(env)
    ensures PageUrl(env) != "" ==>
      Run(env, hist, tokens, n).index.vals == map[PageUrl(env) := Preamble("\n" + tokens[0].text + NewlineTexts(env, tokens[..n]))]
    ensures PageUrl(env) == "" ==>
      Run(env, hist, tokens, n).index.vals == map["" := Preamble("\n" + tokens[0].text)]
  {
    var u := PageUrl(env);
    if n == 1 {
      PreambleFirst(env, hist, tokens);
      var f := env.flatten(tokens[0]);
      assert NewlineTexts(env, tokens[..1]) == "\n" + f by {
        assert tokens[..1][..0] == [] && tokens[..1][0] == tokens[0];
        assert NewlineTexts(env, tokens[..1]) == NewlineTexts(env, []) + "\n" + f;
      }
      assert "\n" + tokens[0].text + "\n" + f == "\n" + tokens[0].text + ("\n" + f);
    } else if u == "" {
      PreambleFirst(env, hist, tokens);
      OrphansDropped(env, hist, tokens, 1, n);
    } else {
      PreambleRun(env, hist, tokens, n - 1);
      PreambleStep(env, hist, tokens, n);
    }
  }

  lemma PreambleStep(env: Env, hist: seq<ConfigValue>, tokens: seq<Token>, n: nat)
    requires 1 < n <= |tokens| && !Opens(env, tokens[n - 1]) && PageUrl(env) != ""
    requires Run(env, hist, tokens, n - 1).slug == PageUrl(env)
    requires Run(env, hist, tokens, n - 1).index.vals == map[PageUrl(env) := Preamble("\n" + tokens[0].text + NewlineTexts(env, tokens[..n - 1]))]
    ensures Run(env, hist, tokens, n).slug == PageUrl(env)
    ensures Run(env, hist, tokens, n).index.vals == map[PageUrl(env) := Preamble("\n" + tokens[0].text + NewlineTexts(env, tokens[..n]))]
  {
    var u := PageUrl(env);
    var prev := Run(env, hist, tokens, n - 1);
    var t := tokens[n - 1];
    var body := "\n" + tokens[0].text + NewlineTexts(env, tokens[..n - 1]);
    assert NewlineTexts(env, tokens[..n]) == NewlineTexts(env, tokens[..n - 1]) + "\n" + env.flatten(t) by {
      assert tokens[..n][..n - 1] == tokens[..n - 1];
    }
    assert body + "\n" + env.flatten(t) == "\n" + tokens[0].text + NewlineTexts(env, tokens[..n]);
    assert body != "";
    AbsorbStep(env, prev, t, n - 1);
    assert map[u := Preamble(body)][u := Preamble(body + "\n" + env.flatten(t))] == map[u := Preamble(body + "\n" + env.flatten(t))];
    RunSnoc(env, hist, tokens, n);
  }
}

# Docsify client-side search and result pagination, modelled in Dafny

This project models the client-side full-text search of a docsify documentation site
and the pagination overlay that shows its results.

- **Search plugin.** Three releases exist: `search.2.0.js`, plus `search.1.10.13.js` and
  `search.1.10.12.js`, which share one code base.
  - It builds an in-memory index. Each markdown page is split into sections, one per
    heading, each keyed by a slug.
  - It keeps that index in local storage under namespaced keys.
  - It answers a query with a scored, highlighted and sorted list of matching sections.
- **Result pagination overlay** (`plugins.1.9.js`). It shows the sidebar's results
  twenty per page, with a window of up to ten page buttons.

## Modules

| module (file) | what it models |
|---|---|
| `Wrappers` (`wrappers.dfy`) | `Option` |
| `JsString` (`jsstring.dfy`) | The JavaScript string operations the plugin relies on: `trim`, `indexOf` and `lastIndexOf` with their clamping of the start position, `substring` with its swapping of the bounds, `includes`, `replace` of a literal (first occurrence), `join`, and a case-insensitive search for a literal (the `gi` regular expression built from an escaped keyword). |
| `Html` (`html.dfy`) | `escapeHtml`, and an unescaping function that is its inverse. |
| `StorageKeys` (`storage_keys.dfy`) | The local-storage keys `docsify.search.expires` and `docsify.search.index`, and their namespaced forms. |
| `Dict` (`dict.dfy`) | A JavaScript object used as a dictionary: a key order plus a map. `Object.keys` gives insertion order, and assigning to an existing key keeps its place. |
| `Directives` (`directives.dfy`) | `getAndRemoveConfig`, which reads heading directives such as `:id=setup`, and `removeDocsifyIgnoreTag`. |
| `Indexer` (`indexer.dfy`) | `genIndex`, which turns a page's token stream into section entries. It also covers the lazy table and list flattening (`getTableData`, `getListData`) and the slugger's call history. |
| `QuerySplit` (`query_split.dfy`) | Splitting the trimmed query on `[\s\-，\\/]+`, with the whole query put in front when there is more than one piece. |
| `Snippet` (`snippet.dfy`) | Keyword highlighting with `<em class="search-keyword">`, and the snippet window around a match. |
| `Ranking` (`ranking.dfy`) | The stable descending sort by score. |
| `Query` (`query.dfy`) | `search`: collecting the entries of every page, filtering, scoring, building snippets and sorting. Both releases' variants are modelled. |
| `IndexStore` (`store.dfy`) | `init`: path normalisation and de-duplication, fetch settlement, completion counting, and `saveData`. Both releases' variants are modelled. |
| `Pagination` (`pagination.dfy`) | The overlay's state (`currentPage`, `fullSearchResults`, visibility), its page arithmetic, the pagination controls, and the event handlers. |

**What changes state in place.** Three classes update their fields, exactly where the
source mutates state:
- `Indexer.Slugger` is the slugger, which remembers what it has produced;
- `IndexStore.IndexBuild` holds `init`'s `INDEXS`, `count` and local storage;
- `Pagination.SearchOverlay` holds the overlay's closure variables.

**Loops.** The source's loops are methods with loop invariants, each proved equal to a
pure specification function:
- `Indexer.GenIndex` matches `Run`;
- `Query.Search` and its helpers match `SearchResults`;
- `IndexStore.StartFetches` matches `UniqueNormalized`;
- `Pagination.GeneratePaginationControls` matches `PaginationControls`.

The properties are proved about those specification functions.

**Where the two search releases differ,** a `Release` parameter selects the behaviour:
- release 2.0 counts every settled fetch; 1.10 counts only successful ones;
- release 2.0 de-duplicates paths after appending `.md`; 1.10 uses paths as given;
- in `search` the releases differ only in the snippet of an empty body, which is `""` in release 2.0 and `"..."` in release 1.10. Both clean bodies and skip embeds the same way.

## Model

| member | source | states |
|---|---|---|
| `StorageKeys.Namespaced` | search.2.0.js:67-82 | Without a namespace the key is the bare key; with one it is the key, `/`, then the namespace. |
| `StorageKeys.ResolveExpireKey` | search.2.0.js:72-76 | The expiry key is `docsify.search.expires`, or that plus `/` and the namespace. |
| `StorageKeys.ResolveIndexKey` | search.2.0.js:78-82 | The index key is `docsify.search.index`, or that plus `/` and the namespace. |
| `StorageKeys.NamespacedInjective` | search.2.0.js:72-82 | Two namespaces giving the same key are the same namespace. |
| `StorageKeys.ResolveKeysInjective` | search.1.10.13.js:41-47 | For both key kinds, two namespaces share a key if and only if they are equal. |
| `StorageKeys.ExpireAndIndexApart` | search.1.10.12.js:41-47 | No expiry key ever equals an index key, whatever the namespaces. |
| `Html.Entity` | search.2.0.js:85-91 | Each of `& < > " '` becomes an entity starting with `&`; every other character stays as it is. |
| `Html.EscapeHtml` | search.2.0.js:84-96 | The escaped text is never shorter and contains none of `< > " '`. |
| `Html.EscapeHtmlIdle` | search.1.10.13.js:49-60 | Text without special characters is left unchanged. |
| `Html.EscapeHtmlAppend` | search.2.0.js:93-95 | Escaping works character by character: escaping a concatenation is concatenating the escapes. |
| `Html.UnescapeEntity` | search.2.0.js:85-91 | Unescaping reads each entity of the map back as its character. |
| `Html.EscapeRoundTrip` | search.1.10.12.js:49-60 | Unescaping the escaped text gives back the original, so escaping loses nothing. |
| `JsString.TrimStart` | search.2.0.js:45 | The result is a suffix of the input, starts with a non-space, and only white space was dropped. |
| `JsString.TrimEnd` | search.2.0.js:45 | The result is a prefix of the input, ends with a non-space, and only white space was dropped. |
| `JsString.Trim` | search.2.0.js:241 | The trimmed query is no longer than the query and neither starts nor ends with white space. |
| `JsString.TrimIdle` | search.2.0.js:289 | Text that neither starts nor ends with white space is left unchanged by `trim`. |
| `JsString.TrimIdempotent` | search.2.0.js:253-254 | Trimming twice is trimming once. |
| `JsString.TrimBlank` | search.2.0.js:241 | An all-blank string trims to the empty string. |
| `JsString.IndexOf` | search.2.0.js:340 | `indexOf` returns the first occurrence at or after the clamped start, and returns -1 exactly when there is none. |
| `JsString.LastIndexOf` | search.2.0.js:339 | `lastIndexOf` returns the last occurrence at or before the clamped start, and returns -1 exactly when there is none. |
| `JsString.Substring` | search.2.0.js:350 | `substring` takes the slice between the two bounds, whichever comes first. |
| `JsString.SubstringSwap` | search.2.0.js:350 | Swapping the bounds of `substring` changes nothing. |
| `JsString.RemoveFirst` | search.2.0.js:55-59 | Replacing a literal with `""` removes its first occurrence, or leaves the text unchanged when there is none. |
| `JsString.RemoveAll` | search.2.0.js:39 | `replace(/&quot;/g, "")` never lengthens the text. |
| `JsString.Lower` | search.2.0.js:319 | Lower-casing keeps the length and maps each character. |
| `JsString.AtLower` | search.2.0.js:319 | A case-insensitive match at a position is a match of the lower-cased strings there. |
| `JsString.SearchCI` | search.2.0.js:326-327 | `search` with a `gi` literal pattern returns the first case-insensitive match, or -1 exactly when there is none. |
| `JsString.SearchEmpty` | search.1.10.13.js:222-223 | The empty keyword matches at position 0 of any text. |
| `Dict.EmptyValid` | search.2.0.js:394 | `{}` is a well-formed dictionary with no values. |
| `Dict.PutValid` | search.2.0.js:435 | Assigning to a key keeps the dictionary well formed. An existing key keeps its place; a new key goes last. |
| `Dict.ValuesInOrder` | search.2.0.js:233-238 | `Object.keys(..).map(..)` lists one value per key, in key order. |
| `Dict.ValuesCons` | search.2.0.js:235-237 | The first value is the first key's, followed by the rest's values. |
| `Dict.RestValid` | search.2.0.js:233 | Dropping the first key leaves a well-formed dictionary. |
| `Dict.ValuesIgnoreUnlisted` | search.2.0.js:235-237 | Only the listed keys' values are read. |
| `Directives.KeyRun` | search.2.0.js:37 | The key part `[\w-]+` is the maximal run of word characters and dashes. |
| `Directives.ValueRun` | search.2.0.js:37 | The value part `[\w-%]+` is the maximal run of word characters, `-` and `%`. |
| `Directives.MatchBody` | search.2.0.js:37 | A match after the colon has a non-empty key and ends inside the string. A key that does not end with `:` is made only of key characters. A value is made only of value characters. |
| `Directives.MatchAt` | search.2.0.js:37 | A directive match at a position spans at least `:` and one key character. It carries a well-formed key (unless the key ends with `:`) and a well-formed value. |
| `Directives.Scan` | search.2.0.js:37-44 | The global replace only adds keys, and every key it adds is well formed. Either nothing was recorded and the text is unchanged, or text was removed and the config is non-empty. |
| `Directives.ScanValues` | search.2.0.js:39 | Every recorded value is `true` or a string of value characters (never containing `&quot;`). |
| `Directives.ValueOf` | search.2.0.js:39 | A value is recorded as a text only when one was matched, and that text is non-empty and no longer than the match; a missing or emptied value becomes `true`. |
| `Directives.RecordValue` | search.2.0.js:39 | Recording a well-formed value keeps every value well formed. |
| `Directives.QuotNeverInValue` | search.2.0.js:39 | A matched value never contains `&quot;`, so the `replace` inside the callback leaves it unchanged. |
| `Directives.Dequote` | search.2.0.js:34-36 | Removing one leading and one trailing quote never lengthens the string. |
| `Directives.GetAndRemoveConfig` | search.2.0.js:28-52 | Every config key is well formed and every value is `true` or a text. The returned text is always trimmed. With an empty config it is the dequoted input, trimmed; otherwise it is shorter than the dequoted input. |
| `Directives.UnquotedConfig` | search.1.10.13.js:5-22 | For an unquoted string whose scan leaves trimmed text, the result is exactly the scan's text and config. |
| `Directives.DequoteIdle` | search.2.0.js:34-36 | A string without surrounding quotes is not changed by dequoting. |
| `Directives.ScanNoColon` | search.2.0.js:37 | The directive pattern never matches in text without `:`. |
| `Directives.NoColonNoConfig` | search.2.0.js:28-52 | A heading without `:` yields an empty config and its trimmed, dequoted text. |
| `Directives.ScanSkip` | search.2.0.js:37 | A stretch without `:` passes through unchanged. |
| `Directives.IdDirectiveMatch` | search.2.0.js:37 | In `Install :id=setup`, the match at the space is key `id`, value `setup`, and it runs to the end. |
| `Directives.ExplicitIdExample` | search.2.0.js:28-52 | `Install :id=setup` parses to text `Install` with config `{id: "setup"}`. |
| `Directives.ColonKeyMatch` | search.2.0.js:37 | In `at :a:b` the optional `:` joins the key, giving key `a:` and value `b`. |
| `Directives.ColonInKeyExample` | search.2.0.js:38-43 | `at :a:b` is returned unchanged with an empty config, because its key holds `:`. |
| `Directives.DirectiveMatch` | search.2.0.js:37 | A well-formed ` :key` or ` :key=value` followed by a space or the end of the text is matched whole, with exactly that key and value. |
| `Directives.DirectiveRecorded` | search.2.0.js:37-40 | A matched directive with a well-formed key is recorded with its setting, and the scan resumes right after it. |
| `Directives.ScanDirectives` | search.2.0.js:37-44 | Text made only of well-formed directives is removed entirely, and every directive is recorded in turn. |
| `Directives.TrailingDirectives` | search.2.0.js:28-52 | For every colon-free, unquoted text followed by any list of well-formed directives, the result is the text trimmed and the directives' settings recorded in order. |
| `Directives.NoDirectives` | search.2.0.js:28-52 | A colon-free text without surrounding quotes gives itself, trimmed, and an empty config. |
| `Directives.ValueDirective` | search.2.0.js:37-44 | `text :key=value` gives the trimmed text and the config `{key: value}`. |
| `Directives.FlagDirective` | search.2.0.js:37-44 | `text :key` gives the trimmed text and the config `{key: true}`. |
| `Directives.DirectivesConfig` | search.2.0.js:37-44 | After text and directives, the config's keys are exactly the directives' keys, and the last directive naming a key decides its value. |
| `Directives.RecordAllKeys` | search.2.0.js:39 | Recording directives adds exactly their keys. |
| `Directives.RecordAllUntouched` | search.2.0.js:39 | A key no directive names keeps its value. |
| `Directives.RecordAllLastWins` | search.2.0.js:39 | A key's value is set by the last directive that names it. |
| `Directives.RemoveDocsifyIgnoreTag` | search.2.0.js:54-61 | Removing the ignore markers never lengthens the text, and the result is trimmed. |
| `Directives.AbsentCharNoMatch` | search.1.10.13.js:24-31 | A literal whose character never occurs in the text is not found. |
| `Directives.NoBraceOnlyTrims` | search.2.0.js:54-61 | Text without `{` is only trimmed. |
| `Directives.NoCommentInMarkers` | search.2.0.js:56 | The comment form is not found in two bare markers. |
| `Directives.FirstMarkerRemoved` | search.2.0.js:57 | Only the first bare `{docsify-ignore}` is removed. |
| `Directives.MarkerHoldsNoIgnoreAll` | search.2.0.js:58-59 | A bare `{docsify-ignore}` holds neither ignore-all form. |
| `Directives.SecondMarkerSurvives` | search.2.0.js:54-61 | With the marker written twice, one copy survives: each `replace` removes one occurrence. |
| `Directives.MatchOnlyAt` | search.2.0.js:55-58 | When some character of a literal occurs at most once in the text, the literal is found only at the position that character fixes, or not at all. |
| `Directives.CommentRemoved` | search.2.0.js:55 | `<!-- {docsify-ignore} -->` in text otherwise free of `{` is removed, and the rest is trimmed. |
| `Directives.MarkerCut` | search.2.0.js:56 | `{docsify-ignore}` in text otherwise free of `{` and without `<` before it is removed, and the rest is trimmed. |
| `Directives.AllCommentCut` | search.2.0.js:57 | `<!-- {docsify-ignore-all} -->` in text otherwise free of `{` is removed, and the rest is trimmed. |
| `Directives.AllMarkerCut` | search.2.0.js:58 | `{docsify-ignore-all}` in text otherwise free of `{` and without `<` before it is removed, and the rest is trimmed. |
| `Directives.MarkerRemoved` | search.2.0.js:54-61 | Any one of the four markers, in text otherwise free of `{` and with no `<` before it, is removed, leaving the surrounding text trimmed. |
| `Indexer.Slugger.constructor` | search.2.0.js:162-170 | A fresh slugger has an empty history. |
| `Indexer.Slugger.Slugify` | search.2.0.js:168 | A slug is computed from the slugger's history and the text, and the text joins the history. |
| `Indexer.Slugger.Clear` | search.2.0.js:213 | `slugify.clear()` empties the history. |
| `Indexer.TableFlattening` | search.2.0.js:120-130 | A table without text gets the header as its first row. Its text is each row's cells joined by ` \| `, with the rows joined by ` \|\n `; all other fields stay. |
| `Indexer.ListFlattening` | search.2.0.js:132-137 | A list without text takes its raw markdown as text. Every other token is untouched by either flattening. |
| `Indexer.GetTableData` | search.2.0.js:120-130 | Flattening a table keeps the kind, depth, raw text and header. A token with text, or one that is not a table, is unchanged. |
| `Indexer.GetListData` | search.2.0.js:132-137 | Flattening a list keeps every field but the text. A token with text, or one that is not a list, is unchanged. |
| `Indexer.FlatText` | search.2.0.js:199-204 | A token's own text, when it has one, is what it contributes. A list without text contributes its raw markdown. |
| `Indexer.Step` | search.2.0.js:154-211 | One token never removes a key from the index, and afterwards the current slug, when set, names an entry. |
| `Indexer.Lead` | search.2.0.js:182-187 | The first non-heading token sets the slug to the page URL, whose entry then exists; keys, title and slugger calls are kept. |
| `Indexer.Run` | search.2.0.js:154-212 | After any number of tokens the current slug, when set, names an entry. |
| `Indexer.TableDataSettles` | search.1.10.13.js:77-87 | Once a table has text, flattening it again changes nothing. |
| `Indexer.EmptyTableFlattensTwice` | search.1.10.12.js:77-87 | A table with no header and no rows flattens to empty text, so a second flattening prepends the header again and yields ` \|\n `. |
| `Indexer.FlatTextOthers` | search.2.0.js:199-204 | A token that already has text, or is neither a table nor a list, contributes its own text. |
| `Indexer.GenIndex` | search.2.0.js:144-215 | The token loop builds exactly the index of the specification `Run` over all tokens, and leaves the slugger's history empty. |
| `Indexer.OpenSection` | search.2.0.js:155-180 | A heading within the depth limit performs the specification's step. It calls the slugger once, on the `id` directive when there is one and on the escaped heading text otherwise. |
| `Indexer.AddText` | search.2.0.js:182-210 | A non-heading token performs the specification's step. It opens the preamble, appends to the current entry, or is dropped when there is no slug. |
| `Indexer.StepShaped` | search.2.0.js:176-204 | Each step keeps the index's shape: every section entry sits under its own slug, a preamble entry only under the page URL, and the current slug, when set, names an entry. |
| `Indexer.RunValid` | search.2.0.js:176-204 | The index built is always a well-formed dictionary. |
| `Indexer.RunShaped` | search.2.0.js:144-215 | After any number of tokens the index keeps the same shape. |
| `Indexer.StepCursor` | search.2.0.js:172-174 | A heading with non-empty cleaned text sets the title; every other token keeps it. The slugger is called once per opening heading, on its `id` when it has one. |
| `Indexer.RunTitle` | search.2.0.js:172-174 | The running title is that of the last heading with non-empty cleaned text. |
| `Indexer.TitleStep` | search.2.0.js:172-174 | One token extends the title invariant. |
| `Indexer.NextTitle` | search.2.0.js:172-174 | One step takes the title invariant from n-1 tokens to n. |
| `Indexer.RunSlugCalls` | search.2.0.js:162-170 | The slugger has been called once per opening heading, in order: on the explicit `id` when given, otherwise on the escaped heading text. |
| `Indexer.SlugCallsStep` | search.2.0.js:162-170 | One token extends the slugger-call invariant. |
| `Indexer.NextSlugCalls` | search.2.0.js:162-170 | One step takes the slugger-call invariant from n-1 tokens to n. |
| `Indexer.RunCursor` | search.2.0.js:150-211 | The title and slugger-call invariants hold together. |
| `Indexer.LastTitleSnoc` | search.2.0.js:172-174 | The last title of a longer list is the new heading's title, if it has one. |
| `Indexer.SlugCallsSnoc` | search.2.0.js:162-170 | Slugger calls of a concatenation are concatenated. |
| `Indexer.OpenerEntry` | search.2.0.js:176-180 | A heading sets the slug to its anchor and creates an entry with the running title and an empty body. |
| `Indexer.TitleCarriesOver` | search.2.0.js:172-174 | A heading whose cleaned text is empty keeps the previous title. |
| `Indexer.ExplicitIdWins` | search.2.0.js:162-165 | For a heading whose config has an `id`, the slugger is called on that `id` (and not on the heading text), and the anchor is the page URL with the slug it returns. |
| `Indexer.IdHeading` | search.2.0.js:155-174 | A heading parsed to text and `{id: v}` gets the anchor slugged from `v`, and its text, when non-empty, becomes the title. |
| `Indexer.IdDirectiveParsed` | search.2.0.js:28-52 | `title :id=anchor` with a colon-free, unquoted title parses to the trimmed title and `{id: anchor}`. |
| `Indexer.DocsifyIdAnchor` | search.2.0.js:155-174 | A heading `title :id=anchor` is anchored by the slug of `anchor`, and its title is the trimmed title without ignore markers. |
| `Indexer.HeadingKeyedSnoc` | search.2.0.js:176-198 | A key is present after n tokens exactly when it was before, or the n-th token added it. |
| `Indexer.KeysOfMembers` | search.2.0.js:176-198 | A key is in the index exactly when it is the slug of some heading, or it is the page URL and the first token is not a heading. |
| `Indexer.RunKeys` | search.2.0.js:144-215 | The index built over n tokens has exactly those keys. |
| `Indexer.RunKeysTrack` | search.2.0.js:144-215 | The slug, slugger-call and key invariants hold together after any number of tokens. |
| `Indexer.NextKeys` | search.2.0.js:176-204 | One step takes the key invariant from n-1 tokens to n. |
| `Indexer.StepKeys` | search.2.0.js:176-204 | A step adds at most the heading's slug or the page URL to the keys. |
| `Indexer.Texts` | search.2.0.js:199-204 | Each token contributes its flattened text. |
| `Indexer.DropLeadingEmpty` | search.2.0.js:199-204 | Empty texts are skipped until the body is non-empty. |
| `Indexer.JoinSnoc` | search.2.0.js:202 | Appending to a non-empty body adds the separator and then the text. |
| `Indexer.JoinHead` | search.2.0.js:202 | A joined body is at least as long as its first piece. |
| `Indexer.DropLeadingEmptySnoc` | search.2.0.js:199-204 | Dropping leading empty texts commutes with appending one more. |
| `Indexer.SectionBodyExtend` | search.2.0.js:199-204 | A section's body grows by the next token's text under `AppendText`. |
| `Indexer.SectionBodySnoc` | search.2.0.js:199-204 | A section's body grows by the next token's text under `AppendText`. |
| `Indexer.SectionBodyRun` | search.2.0.js:199-204 | Within a section, the slug and title stay fixed and the entry's body is the section body of the tokens since the heading. |
| `Indexer.SectionGrows` | search.2.0.js:199-204 | The section invariant holds from the heading to any later point before the next heading. |
| `Indexer.SectionOpened` | search.2.0.js:176-180 | Right after a heading the section invariant holds with an empty body. |
| `Indexer.SectionBodyStep` | search.2.0.js:199-204 | One non-heading token extends the section invariant. |
| `Indexer.AbsorbSection` | search.2.0.js:199-204 | A non-heading token is appended to the current section. |
| `Indexer.AbsorbStep` | search.1.10.13.js:137-148 | The absorbing step changes only the current entry's body. |
| `Indexer.OrphansDropped` | search.2.0.js:189-191 | Tokens arriving while there is no slug change nothing. |
| `Indexer.OrphanStep` | search.1.10.13.js:132-134 | One token without a slug is a no-op. |
| `Indexer.PreambleFirst` | search.2.0.js:182-204 | A page that starts with a non-heading opens a preamble entry under the page URL, holding a newline and the token's text. A non-empty URL then has the token appended a second time, after another newline, in its flattened form. An empty URL keeps only the first copy. |
| `Indexer.PreambleRun` | search.1.10.13.js:125-131 | Before the first heading, every token is appended to the preamble with a newline. |
| `Indexer.PreambleStep` | search.2.0.js:199-204 | One more non-heading token extends the preamble by a newline and its text. |
| `QuerySplit.SeparatorFrom` | search.2.0.js:242 | Finds the first separator at or after a position. |
| `QuerySplit.RunEnd` | search.2.0.js:242 | Finds the end of a run of separators. |
| `QuerySplit.Split` | search.2.0.js:242 | `split` always yields at least one piece; `SplitInterleaves` and `SplitInteriorNonEmpty` fix where it cuts. |
| `QuerySplit.Runs` | search.2.0.js:242 | The separator runs that `split` cuts out are non-empty and made of separators only. |
| `QuerySplit.SplitInterleaves` | search.2.0.js:242 | The query is exactly its pieces with the separator runs put back between them, one run fewer than pieces. With `SplitPiecesClean` this means every cut is a maximal run of separators. |
| `QuerySplit.SplitInteriorNonEmpty` | search.2.0.js:242 | Only the first and the last piece can be empty, so separators next to each other never give an empty keyword in the middle. |
| `QuerySplit.Keywords` | search.2.0.js:241-245 | There is always at least one keyword. |
| `QuerySplit.WithoutSeparators` | search.2.0.js:242 | The reference for the split: the query with its separators deleted. |
| `QuerySplit.WithoutSeparatorsIdle` | search.2.0.js:242 | Text without separators is its own reference. |
| `QuerySplit.SplitPiecesClean` | search.2.0.js:242 | No piece holds a separator. |
| `QuerySplit.SplitConcat` | search.2.0.js:242 | The pieces put together are the query without its separators, so nothing else is lost or added. |
| `QuerySplit.WithoutSeparatorsRun` | search.2.0.js:242 | A piece followed by a separator run contributes only the piece. |
| `QuerySplit.SkipSeparators` | search.2.0.js:242 | A run of separators contributes nothing. |
| `QuerySplit.KeepPlain` | search.2.0.js:242 | A separator-free prefix is kept whole. |
| `QuerySplit.SplitSingle` | search.2.0.js:242-243 | There is one piece if and only if the query has no separator, and that piece is the query. |
| `QuerySplit.KeywordsFirst` | search.1.10.13.js:177-181 | The first keyword is the whole trimmed query. There is exactly one keyword if and only if the query has no separator; otherwise the pieces follow it. |
| `QuerySplit.BlankQuery` | search.2.0.js:241-245 | A blank query yields the single keyword `""`. |
| `QuerySplit.LeadingSeparator` | search.2.0.js:242-245 | A query starting with a separator yields an empty second keyword. |
| `Snippet.UnwrapPlain` | search.2.0.js:347-355 | Text without a tag start comes back unchanged from unwrapping. |
| `Snippet.Highlight` | search.2.0.js:351-354 | Highlighting never shortens the text. |
| `Snippet.SnippetStart` | search.2.0.js:339 | The window start is -1, 0 or a position in the body, and a positive start is a space. |
| `Snippet.SnippetEnd` | search.2.0.js:340-344 | A late window ends within the body, on a space unless it is the body's end. |
| `Snippet.UnwrapMark` | search.2.0.js:353 | Unwrapping a highlighted word gives the word back. |
| `Snippet.PrefixAt` | search.2.0.js:352 | A prefix occurs at position 0. |
| `Snippet.UnwrapHighlight` | search.2.0.js:351-354 | Highlighting only adds `<em>` tags: unwrapping them recovers the snippet exactly. |
| `Snippet.UnwrapHighlightEmpty` | search.1.10.13.js:232-237 | Highlighting with the empty keyword (an empty tag at every position) also only adds tags. |
| `Snippet.HighlightNoMatch` | search.2.0.js:351-354 | Text without a case-insensitive match is not changed. |
| `Snippet.HighlightLeadingMatch` | search.2.0.js:351-354 | A match at the front is wrapped in its original case, and highlighting goes on after it. |
| `Snippet.StartFacts` | search.2.0.js:339 | The window starts at 0 for a match before position 11. Otherwise it starts at the last space at or before ten positions ahead of the match, or at -1 when there is none. |
| `Snippet.EarlyWindowOnly` | search.2.0.js:339-340 | For a trimmed body the window starts at 0 exactly for early matches, and then ends at 70. |
| `Snippet.EndFacts` | search.2.0.js:340-344 | A late window ends at the first space at or after sixty positions past the keyword, or at the end of the body. |
| `Snippet.WindowOrdered` | search.1.10.13.js:227-231 | The window's start is never after its end, and its end is within 70 or the body's length. |
| `Ranking.InsertMultiset` | search.2.0.js:378-380 | Inserting adds exactly the one result. |
| `Ranking.SortByScore` | search.2.0.js:378-380 | Sorting keeps the number of results. |
| `Ranking.InsertDescending` | search.2.0.js:378-380 | Inserting keeps the order descending. |
| `Ranking.InsertBounded` | search.2.0.js:378-380 | Inserting keeps every score under a common bound. |
| `Ranking.WithScoreAppend` | search.2.0.js:378-380 | Filtering by score distributes over concatenation. |
| `Ranking.WithScoreBelow` | search.2.0.js:378-380 | No result has a score higher than all scores present. |
| `Ranking.InsertWithScore` | search.2.0.js:378-380 | Inserting places a result after the equal scores already present. |
| `Ranking.SortDescending` | search.2.0.js:378-380 | The sorted results descend by score. |
| `Ranking.SortPermutes` | search.1.10.13.js:253-255 | Sorting is a permutation. |
| `Ranking.SortStable` | search.2.0.js:378-380 | Results with the same score keep their original order, as the stable `Array.prototype.sort` does. |
| `Ranking.SortSortedIdle` | search.2.0.js:378-380 | Already-sorted results are not reordered. |
| `Ranking.InsertLast` | search.2.0.js:378-380 | A result scoring no higher than all others goes last. |
| `Query.IgnoreDiacriticalMarks` | search.2.0.js:218-223 | An empty string is returned as is. |
| `Query.Normalize` | search.2.0.js:323-324 | Escaped text never contains a tag start, and the empty string stays empty. |
| `Query.StripMarkdownAndHtml` | search.2.0.js:259-290 | The cleaned body is trimmed. |
| `Query.Search` | search.2.0.js:230-381 | The result is the specification `SearchResults`. It descends by score, is a permutation of the matching posts, and keeps the posts' order among equal scores. |
| `Query.CollectPosts` | search.2.0.js:232-239 | The loop collects the entries of every page, page by page in key order. |
| `Query.MatchPosts` | search.2.0.js:374-375 | The loop keeps, in order, every post that yields a result. |
| `Query.MatchingSnoc` | search.2.0.js:247-372 | One more post adds its result, if it has one, at the end. |
| `Query.EvaluatePost` | search.2.0.js:247-372 | One post yields the specification's result: none, or a scored and highlighted result. |
| `Query.MatchKeywords` | search.2.0.js:312-359 | The keyword loop sums the weights and concatenates the snippets. |
| `Query.ScoreSnoc` | search.2.0.js:329-357 | One more keyword adds its weight, and its snippet if it hits. |
| `Query.MatchKeyword` | search.2.0.js:313-357 | One keyword yields its weight, plus a snippet exactly when the weight is positive. |
| `Query.WeightMeaning` | search.2.0.js:329-330 | The weight is 3 exactly for a hit in the title, 2 exactly for a hit in the body only, and otherwise 0. |
| `Query.Weight` | search.2.0.js:329-330 | A keyword weighs at most 3, and it weighs something exactly when it hits the title or the body. |
| `Query.Score` | search.2.0.js:312-330 | The score is at most three per keyword. |
| `Query.KeywordSnippet` | search.2.0.js:347-355 | In release 2.0 an empty cleaned body gives an empty snippet; every other snippet ends with `...`. |
| `Query.Evaluate` | search.2.0.js:306-370 | A returned post has a title and no embed, a positive score of at most three per keyword, and the post's URL. |
| `Query.SearchResults` | search.2.0.js:230-381 | The results descend by score and are a permutation of the matching posts. |
| `Query.SumAppend` | search.2.0.js:330 | Scores add up over keyword lists. |
| `Query.SumAtMost` | search.2.0.js:330 | A sum is at most the bound times the count. |
| `Query.SumPositive` | search.2.0.js:361 | A sum is positive exactly when some term is. |
| `Query.ScoreAppend` | search.2.0.js:329-330 | The score over two keyword lists is the sum of their scores. |
| `Query.ScoreMonotone` | search.2.0.js:329-330 | More keywords never lower the score. |
| `Query.ScoreBounds` | search.1.10.13.js:224-226 | The score is at most three per keyword, and it is positive exactly when some keyword hits. |
| `Query.EmptyKeywordHitsTitle` | search.2.0.js:326 | The empty keyword hits every non-empty title with weight 3. |
| `Query.UntitledNeverReturned` | search.2.0.js:311 | A post without a title, or a preamble, never yields a result. |
| `Query.EmbeddedNeverReturned` | search.2.0.js:296-303 | A body with an iframe, a Font Awesome icon or an embedly card is never returned. |
| `Query.EvaluateSome` | search.2.0.js:306-370 | A post yields a result exactly when it has a title, is not embedded, and some keyword hits. The result carries the escaped title, the slug and the score. |
| `Query.CollectSound` | search.2.0.js:369 | Every collected result comes from some post. |
| `Query.CollectComplete` | search.2.0.js:369 | Every post's result is collected. |
| `Query.MatchingSound` | search.2.0.js:361-370 | Every matching result is the result of some post. |
| `Query.MatchingComplete` | search.2.0.js:361-370 | Every post with a result is among the matching results. |
| `Query.BlankQueryMatchesTitled` | search.2.0.js:241-330 | A blank query returns every titled, non-embedded section with score 3. |
| `Query.SnippetIsBodyPiece` | search.2.0.js:347-357 | A snippet without its tags and final `...` is a slice of the escaped body. Release 2.0 gives an empty body an empty snippet. |
| `Query.HighlightedPiece` | search.2.0.js:347-355 | Highlighting a substring and appending `...` unwraps to a slice of the text plus `...`. |
| `Query.EmptyBodySnippet` | search.1.10.13.js:232-237 | An empty body gives `""` in release 2.0 and `...` in release 1.10. |
| `Query.SingleKeyword` | search.1.10.13.js:222-237 | One keyword's score is its weight, and its snippet appears only on a hit. |
| `Query.EmptyBodyReleases` | search.2.0.js:347-364 | A title hit on an empty body is shown with empty content in 2.0, and with `...` in 1.10. |
| `Query.PostsMembership` | search.2.0.js:233-238 | An entry is searched exactly when it belongs to an indexed page. |
| `Query.SearchStable` | search.2.0.js:378-380 | The results with each score appear in the pages' order. |
| `Query.SearchSound` | search.2.0.js:230-381 | Every result is the evaluation of some indexed entry. |
| `IndexStore.NormalizePathFacts` | search.2.0.js:411-414 | A normalised path ends in `.md`. Normalising is idempotent, changes a path exactly when it lacks `.md`, and only appends. |
| `IndexStore.NormalizePath` | search.2.0.js:411-414 | The normalised path ends in `.md`, starts with the original path, and equals it when it already ends in `.md`. |
| `IndexStore.UniqueNormalized` | search.2.0.js:407-419 | The fetched paths are distinct and no more numerous than the inputs. |
| `IndexStore.UniqueNormalizedFacts` | search.2.0.js:407-419 | The fetched paths are distinct. They are exactly the normalised input paths, and there are never more of them than inputs. |
| `IndexStore.UniqueByDistinct` | search.2.0.js:416-419 | Skipping seen values leaves distinct values. |
| `IndexStore.UniqueByMember` | search.2.0.js:416-419 | A value is kept exactly when some path gives it. |
| `IndexStore.UniqueNormalizedCount` | search.2.0.js:403-419 | Every path is fetched if and only if no two normalise alike. |
| `IndexStore.UniqueByCount` | search.2.0.js:416-419 | Nothing is skipped exactly when no two values coincide. |
| `IndexStore.RepeatsSplit` | search.2.0.js:416-419 | A repeat lies in the shorter list, or its last path repeats an earlier one. |
| `IndexStore.IndexBuild.Start` | search.2.0.js:384-404 | A build starts with an empty index, count 0 and nothing saved. Release 2.0 fetches the de-duplicated normalised paths. Release 1.10 removes the stored index and fetches the paths as given. |
| `IndexStore.IndexBuild.Settle` | search.2.0.js:428-443 | A settled fetch stores its page on success. It counts in 2.0 always, in 1.10 only on success, and saves once the count reaches the number of paths. |
| `IndexStore.IndexBuild.SettleCounted` | search.2.0.js:440-452 | In release 2.0 every settled fetch counts, failed ones included. |
| `IndexStore.IndexBuild.SettleOnSuccess` | search.1.10.13.js:269-275 | In release 1.10 only a successful fetch counts and can trigger the save. |
| `IndexStore.IndexBuild.CheckComplete` | search.2.0.js:447-452 | The index and its expiry are saved exactly when the count equals the number of paths. |
| `IndexStore.IndexBuild.SaveData` | search.2.0.js:139-142 | Storage gets the expiry `now + maxAge` and the index snapshot under the two keys. |
| `IndexStore.StartFetches` | search.2.0.js:407-421 | The loop starts one fetch per distinct normalised path, in first-seen order. |
| `IndexStore.RepeatsNeverSave` | search.2.0.js:403-452 | In release 2.0, paths that normalise alike mean the count never reaches the raw length, so the index is never saved. |
| `IndexStore.SettledSaves` | search.2.0.js:440-452 | With distinct paths, release 2.0 has saved if and only if every fetch has settled, failures included. |
| `IndexStore.FailureNeverSaves` | search.1.10.13.js:269-275 | In release 1.10 a single failed fetch means the index is never saved. |
| `IndexStore.SuccessSaves` | search.1.10.13.js:269-275 | In release 1.10, when every fetch succeeded, the index is saved. |
| `IndexStore.NoPathsNeverSave` | search.2.0.js:403-452 | With no paths nothing is fetched, so no save happens. |
| `Pagination.PageWindow` | plugins.1.9.js:139-144 | The page buttons form a window within the pages of at most ten. It is exactly ten when there are that many pages, and every page when there are fewer. The current page always lies inside it. |
| `Pagination.ButtonsFacts` | plugins.1.9.js:146-148 | There is one button per page of the window, in order, and exactly the current page is marked active. |
| `Pagination.PaginationControls` | plugins.1.9.js:136-158 | With at least one page there are one to ten buttons, each for a page that exists, and a button is active exactly for the current page. |
| `Pagination.ControlsMeaning` | plugins.1.9.js:136-158 | For a valid current page, Previous is disabled exactly on page 1 and Next exactly on the last page. The ellipsis shows exactly when pages lie past the window. |
| `Pagination.GeneratePaginationControls` | plugins.1.9.js:136-158 | The button loop yields exactly the specified controls. |
| `Pagination.TotalPages` | plugins.1.9.js:162 | The page count is `ceil(count / 20)`: enough pages for all results, and no empty last page. |
| `Pagination.ClampPage` | plugins.1.9.js:166 | The current page is forced into 1 to the last page; pages already in range stay. |
| `Pagination.PageOf` | plugins.1.9.js:168-170 | A page holds one to twenty results: exactly the results at `(page-1)*20` onwards, and twenty on every page but the last. |
| `Pagination.PagesCover` | plugins.1.9.js:168-170 | The first p pages put together are the results' first `20*p`. |
| `Pagination.AllPages` | plugins.1.9.js:160-170 | All pages together are exactly the results, so none is lost or repeated. |
| `Pagination.SearchOverlay.constructor` | plugins.1.9.js:127-129 | The overlay starts on page 1, with no results, hidden. |
| `Pagination.SearchOverlay.UpdateSearchResults` | plugins.1.9.js:160-199 | With no results nothing changes. Otherwise the page is clamped, the view shows that page, the count and the controls, and the overlay becomes visible and active. |
| `Pagination.SearchOverlay.ShowPage` | plugins.1.9.js:202-207 | With results, the page clicked is clamped, and that page, the count and the controls are shown with the overlay visible and active. Without results, only the page number changes. |
| `Pagination.SearchOverlay.NextPage` | plugins.1.9.js:213-220 | With results, the page moves one on, clamped to the last page, and is shown with the overlay visible and active. Without results, only the page number changes. |
| `Pagination.SearchOverlay.PrevPage` | plugins.1.9.js:222-229 | With results, the page moves one back, clamped to page 1, and is shown with the overlay visible and active. Without results, only the page number changes. |
| `Pagination.SearchOverlay.ResultsChanged` | plugins.1.9.js:262-269 | New sidebar results replace the list and reset to page 1. With results the first page is shown and the overlay is visible and active; without, the view and visibility stay. |
| `Pagination.SearchOverlay.QueryInput` | plugins.1.9.js:276-283 | Typing resets to page 1, and a blank query hides the overlay. |
| `Pagination.SearchOverlay.CloseOverlay` | plugins.1.9.js:232-244 | The sidebar's clear button (lines 298-304) hides the overlay and deactivates search, keeping the results, the page and the view. |
| `Pagination.SearchOverlay.SidebarClick` | plugins.1.9.js:285-295 | A click on a sidebar link while search is active hides the overlay and deactivates search; any other click changes nothing. |

## Left out

- **Empty query.** Nothing special is done for it: a blank query becomes the single keyword `""`,
  which matches every non-empty title with weight 3 (`Query.BlankQueryMatchesTitled`). A query
  that starts with a separator such as `-` also yields an empty keyword
  (`QuerySplit.LeadingSeparator`).
- **Text normalisation.** Unicode NFD decomposition (`normalize("NFD")`) and the stripping of
  combining marks are a parameter (`TextOps.stripMarks`) on which the model places no constraint;
  it is applied only to non-empty text, as the `text && text.normalize` guard does. The
  markdown and HTML regular-expression cleanup of `stripMarkdownAndHTML` is likewise a parameter
  (`TextOps.stripMarkup`), followed by the modelled `trim`.
- **String encoding.** Strings are sequences of characters. The UTF-16 code-unit lengths that
  `indexOf`, `substring` and `length` use are not modelled, and case folding for the `i` flag is
  ASCII only.
- **Markdown lexer.** `marked.lexer` is not modelled; `GenIndex` takes the token sequence as input.
  Mutating a token in place (`token.text = …`) is modelled as using its flattened copy.
- **Router and slugger.** `router.toURL` is a parameter (`ToUrl`). The slugger is a function of its
  call history (`SlugFn`), so the duplicate-suffix numbering it applies is abstract.
- **Storage and time.** JSON serialisation of the index is abstracted as a `Snapshot` value.
  `Date.now()` is the `now` parameter. `console.log` and `console.warn` are left out.
- **Fetching.** Network fetches and `router.getFile` are not modelled. Each fetch settles through an
  explicit `Settle` call, in any order the caller chooses; this stands in for the promises'
  concurrency.
- **Automatic paths.** `getAllPaths`, which collects paths from the sidebar when `paths` is
  `"auto"`, is not part of this model; `init` takes its paths as given.
- **Dead code in release 2.0.**
  - `isExpired` is always `true` (search.2.0.js:391), so reading a stored index (396-400) never
    runs.
  - `INDEXS` is always empty when the fetch loop runs, so the shortcut for an already-indexed path
    (423-426) is dead as well.
- **Search-box wiring.** `doSearch`, the input debouncing and the sidebar rendering of the results
  are left out. `search` is modelled from the moment it is called with a query.
- **IndexStore.IndexBuild.Valid** ties the count to the settled fetches and the saved flag to the
  count. It does not state that pending fetches are a subset of the started ones.
- **Snippet.StartFacts / Snippet.EndFacts** describe the window in the coordinates of the cleaned
  body. `search` applies them to the escaped body, whose offsets differ once an entity is
  inserted, so the model does not prove that the window contains the match.
- **Pagination DOM.** The overlay's DOM is reduced to the `View` and `Controls` values. HTML
  string building, focus handling, clearing the input box and the `clear-button` styling are left
  out. `ShowPage` takes the page as an integer; the `parseInt` of `data-page` is not modelled.
- **Sidebar link clicks.** `SidebarClick` models the hiding; the navigation to the link's `href`
  is not modelled.
- **"Close results" button.** The overlay renders a `close-search-results` button
  (plugins.1.9.js:187), but no handler is ever attached to it, so clicking it does nothing; the
  model has no operation for it.
- **Dict key order.** `Object.keys` lists integer-like keys (such as `"1"`) first, in ascending
  order, before the others in insertion order. `Dict` keeps pure insertion order, which matches
  the source for the URL and slug keys the plugin uses.
- **Other plugins.** `plugins.1.4.js` and `plugins.1.8.js` are not part of this model.

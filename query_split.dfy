/**
 * Turning a search query into keywords: the query is trimmed and split on
 * every run of separators (white space, `-`, the full-width comma `，`,
 * `\` and `/`); when that gives more than one piece, the whole trimmed
 * query goes in front as an extra keyword.
 */
module QuerySplit {
  import opened JsString

  /** The characters of the class `[\s\-，\\/]`. */
  predicate IsSeparator(c: char) {
    IsSpace(c) || c == '-' || c == '\U{FF0C}' || c == '\\' || c == '/'
  }

  predicate NoSeparator(s: string) {
    forall k :: 0 <= k < |s| ==> !IsSeparator(s[k])
  }

  /** The first separator at or after `k`, or `|s|`. */
  function SeparatorFrom(s: string, k: nat): (r: nat)
    requires k <= |s|
    ensures k <= r <= |s|
    ensures r < |s| ==> IsSeparator(s[r])
    ensures forall j :: k <= j < r ==> !IsSeparator(s[j])
    decreases |s| - k
  {
    if k == |s| || IsSeparator(s[k]) then k else SeparatorFrom(s, k + 1)
  }

  /** The end of the run of separators starting at `k`. */
  function RunEnd(s: string, k: nat): (r: nat)
    requires k <= |s|
    ensures k <= r <= |s|
    ensures r < |s| ==> !IsSeparator(s[r])
    ensures forall j :: k <= j < r ==> IsSeparator(s[j])
    decreases |s| - k
  {
    if k == |s| || !IsSeparator(s[k]) then k else RunEnd(s, k + 1)
  }

  /**
   * `s.split(/[\s\-，\\/]+/)`: the pieces between maximal runs of
   * separators. A leading or trailing run gives an empty first or last
   * piece; the empty string gives one empty piece.
   */
  function Split(s: string): (r: seq<string>)
    ensures |r| >= 1
    decreases |s|
  {
    var i := SeparatorFrom(s, 0);
    if i == |s| then [s] else [s[..i]] + Split(s[RunEnd(s, i)..])
  }

  /** The keywords `search` looks for. */
  function Keywords(query: string): (r: seq<string>)
    ensures |r| >= 1
  {
    var q := Trim(query);
    var pieces := Split(q);
    if |pieces| != 1 then [q] + pieces else pieces
  }

  /** Concatenation of the pieces. */
  function Concat(xs: seq<string>): string
    decreases |xs|
  {
    if xs == [] then "" else xs[0] + Concat(xs[1..])
  }

  /** `s` with every separator removed. */
  function WithoutSeparators(s: string): (r: string)
    ensures NoSeparator(r)
    decreases |s|
  {
    if s == [] then ""
    else if IsSeparator(s[0]) then WithoutSeparators(s[1..])
    else [s[0]] + WithoutSeparators(s[1..])
  }

  lemma {:induction false} WithoutSeparatorsIdle(s: string)
    requires NoSeparator(s)
    ensures WithoutSeparators(s) == s
    decreases |s|
  {
    if s != [] {
      WithoutSeparatorsIdle(s[1..]);
    }
  }

  /** No piece holds a separator. */
  lemma {:induction false} SplitPiecesClean(s: string)
    ensures forall p :: p in Split(s) ==> NoSeparator(p)
    decreases |s|
  {
    var i := SeparatorFrom(s, 0);
    if i < |s| {
      var rest := s[RunEnd(s, i)..];
      SplitPiecesClean(rest);
      assert Split(s) == [s[..i]] + Split(rest);
    }
  }

  /** The pieces put together are `s` without its separators. */
  lemma {:induction false} SplitConcat(s: string)
    ensures Concat(Split(s)) == WithoutSeparators(s)
    decreases |s|
  {
    var i := SeparatorFrom(s, 0);
    if i == |s| {
      WithoutSeparatorsIdle(s);
      assert Concat([s]) == s + Concat([]);
    } else {
      var j := RunEnd(s, i);
      SplitConcat(s[j..]);
      ConcatCons(s[..i], Split(s[j..]));
      WithoutSeparatorsRun(s, i, j);
    }
  }

  lemma ConcatCons(x: string, xs: seq<string>)
    ensures Concat([x] + xs) == x + Concat(xs)
  {
    assert ([x] + xs)[1..] == xs;
  }

  /** A separator-free prefix followed by a run of separators: only the prefix survives of them. */
  lemma WithoutSeparatorsRun(s: string, i: nat, j: nat)
    requires i <= j <= |s|
    requires forall k :: 0 <= k < i ==> !IsSeparator(s[k])
    requires forall k :: i <= k < j ==> IsSeparator(s[k])
    ensures WithoutSeparators(s) == s[..i] + WithoutSeparators(s[j..])
  {
    KeepPlain(s, i);
    SkipSeparators(s, i, j);
  }

  /** A run of separators contributes nothing. */
  lemma {:induction false} SkipSeparators(s: string, i: nat, j: nat)
    requires i <= j <= |s|
    requires forall k :: i <= k < j ==> IsSeparator(s[k])
    ensures WithoutSeparators(s[i..]) == WithoutSeparators(s[j..])
    decreases j - i
  {
    if i < j {
      assert s[i..][1..] == s[i + 1..];
      SkipSeparators(s, i + 1, j);
    }
  }

  /** A separator-free prefix is kept as it is. */
  lemma {:induction false} KeepPlain(s: string, i: nat)
    requires i <= |s|
    requires forall k :: 0 <= k < i ==> !IsSeparator(s[k])
    ensures WithoutSeparators(s) == s[..i] + WithoutSeparators(s[i..])
    decreases i
  {
    if i == 0 {
      assert s[0..] == s;
    } else {
      KeepPlain(s, i - 1);
      assert WithoutSeparators(s[i - 1..]) == [s[i - 1]] + WithoutSeparators(s[i..]) by {
        assert s[i - 1..][1..] == s[i..];
      }
      AppendAssoc(s[..i - 1], [s[i - 1]], WithoutSeparators(s[i..]));
      assert s[..i - 1] + [s[i - 1]] == s[..i];
    }
  }

  lemma AppendAssoc(a: string, b: string, c: string)
    ensures (a + b) + c == a + (b + c)
  {}

  /** The split gives a single piece exactly when there is no separator, and that piece is the whole string. */
  lemma SplitSingle(s: string)
    ensures |Split(s)| == 1 <==> NoSeparator(s)
    ensures NoSeparator(s) ==> Split(s) == [s]
  {
    var i := SeparatorFrom(s, 0);
    if i < |s| {
      assert !NoSeparator(s) by { assert IsSeparator(s[i]); }
    }
  }

  /** Every character of `s` is a separator. */
  predicate AllSeparators(s: string) {
    forall k :: 0 <= k < |s| ==> IsSeparator(s[k])
  }

  /** The maximal runs of separators of `s`, in order: what `split` cuts out. */
  function Runs(s: string): (r: seq<string>)
    ensures forall k :: 0 <= k < |r| ==> r[k] != "" && AllSeparators(r[k])
    decreases |s|
  {
    var i := SeparatorFrom(s, 0);
    if i == |s| then [] else [s[i..RunEnd(s, i)]] + Runs(s[RunEnd(s, i)..])
  }

  /** `ps[0] + rs[0] + ps[1] + … + rs[n-1] + ps[n]`. */
  function Interleave(ps: seq<string>, rs: seq<string>): string
    requires |ps| == |rs| + 1
    decreases |rs|
  {
    if rs == [] then ps[0] else ps[0] + rs[0] + Interleave(ps[1..], rs[1..])
  }

  /**
   * The query is its pieces with the separator runs put back between
   * them: one run fewer than pieces, each run non-empty and made of
   * separators only.
   */
  lemma {:induction false} SplitInterleaves(s: string)
    ensures |Runs(s)| == |Split(s)| - 1
    ensures Interleave(Split(s), Runs(s)) == s
    decreases |s|
  {
    var i := SeparatorFrom(s, 0);
    if i < |s| {
      var j := RunEnd(s, i);
      SplitInterleaves(s[j..]);
      SplitRunsCons(s, i, j);
      InterleaveCons(s[..i], s[i..j], Split(s[j..]), Runs(s[j..]));
      CutThree(s, i, j);
    }
  }

  /** Where there is a separator, the split and the runs each start with what comes before the rest. */
  lemma SplitRunsCons(s: string, i: nat, j: nat)
    requires i == SeparatorFrom(s, 0) && i < |s| && j == RunEnd(s, i)
    ensures Split(s) == [s[..i]] + Split(s[j..])
    ensures Runs(s) == [s[i..j]] + Runs(s[j..])
  {}

  lemma InterleaveCons(p: string, r: string, ps: seq<string>, rs: seq<string>)
    requires |ps| == |rs| + 1
    ensures Interleave([p] + ps, [r] + rs) == p + r + Interleave(ps, rs)
  {
    assert ([p] + ps)[1..] == ps;
    assert ([r] + rs)[1..] == rs;
  }

  lemma CutThree(s: string, i: nat, j: nat)
    requires i <= j <= |s|
    ensures s[..i] + s[i..j] + s[j..] == s
  {}

  /** A piece of the split other than the first and the last is never empty: separators are cut as whole runs. */
  lemma {:induction false} SplitInteriorNonEmpty(s: string)
    ensures forall k :: 0 < k < |Split(s)| - 1 ==> Split(s)[k] != ""
    decreases |s|
  {
    var i := SeparatorFrom(s, 0);
    if i < |s| {
      var rest := s[RunEnd(s, i)..];
      SplitInteriorNonEmpty(rest);
      FirstPieceNonEmpty(rest);
      assert Split(s)[1..] == Split(rest);
    }
  }

  /** After a maximal run the next piece starts with a non-separator, so it is empty only at the end. */
  lemma FirstPieceNonEmpty(s: string)
    requires s == [] || !IsSeparator(s[0])
    ensures |Split(s)| > 1 ==> Split(s)[0] != ""
  {
  }

  /** The first keyword is always the whole trimmed query. */
  lemma KeywordsFirst(query: string)
    ensures Keywords(query)[0] == Trim(query)
    ensures |Keywords(query)| == 1 <==> NoSeparator(Trim(query))
    ensures |Keywords(query)| > 1 ==> Keywords(query)[1..] == Split(Trim(query))
  {
    SplitSingle(Trim(query));
  }

  /** An empty (or all-blank) query gives the single keyword `""`. */
  lemma BlankQuery(query: string)
    requires forall k :: 0 <= k < |query| ==> IsSpace(query[k])
    ensures Keywords(query) == [""]
  {
    TrimBlank(query);
    SplitSingle("");
  }

  /** A leading separator gives an empty keyword (after the whole query). */
  lemma LeadingSeparator(query: string)
    requires query != [] && IsSeparator(query[0]) && !IsSpace(query[0])
    requires Trim(query) == query
    ensures Keywords(query)[0] == query && Keywords(query)[1] == ""
  {
    SplitSingle(query);
    assert SeparatorFrom(query, 0) == 0;
  }
}

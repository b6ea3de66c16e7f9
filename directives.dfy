/**
 * Heading directives and ignore markers: `getAndRemoveConfig` turns the
 * `:key` / `:key=value` tokens of a heading into a configuration map and
 * removes them, and `removeDocsifyIgnoreTag` drops the
 * `{docsify-ignore}` / `{docsify-ignore-all}` markers.
 */
module Directives {
  import opened Wrappers
  import opened JsString

  /** A directive's value: `true` when it has none, else the value's text. */
  datatype ConfigValue = Flag | Text(s: string)

  type Config = map<string, ConfigValue>

  datatype Parsed = Parsed(str: string, config: Config)

  /** JavaScript's `\w` without the `u` flag. */
  predicate IsWordChar(c: char) {
    'a' <= c <= 'z' || 'A' <= c <= 'Z' || '0' <= c <= '9' || c == '_'
  }

  /** `[\w-]`, the characters of a directive key. */
  predicate IsKeyChar(c: char) {
    IsWordChar(c) || c == '-'
  }

  /** `[\w-%]`, the characters of a directive value. */
  predicate IsValueChar(c: char) {
    IsKeyChar(c) || c == '%'
  }

  /** A key that was recorded: a non-empty run of key characters. */
  predicate KeyOk(k: string) {
    k != [] && forall i :: 0 <= i < |k| ==> IsKeyChar(k[i])
  }

  /** Every key of the configuration is well formed. */
  predicate KeysOk(cfg: Config) {
    forall k :: k in cfg ==> KeyOk(k)
  }

  /** A recorded value: `true`, or a non-empty run of value characters. */
  predicate ValueOk(v: ConfigValue) {
    v.Text? ==> v.s != [] && forall i :: 0 <= i < |v.s| ==> IsValueChar(v.s[i])
  }

  /** The length of the longest run of key characters starting at `i`. */
  function KeyRun(s: string, i: nat): (n: nat)
    requires i <= |s|
    ensures i + n <= |s|
    ensures forall k :: i <= k < i + n ==> IsKeyChar(s[k])
    ensures i + n == |s| || !IsKeyChar(s[i + n])
    decreases |s| - i
  {
    if i < |s| && IsKeyChar(s[i]) then 1 + KeyRun(s, i + 1) else 0
  }

  /** The length of the longest run of value characters starting at `i`. */
  function ValueRun(s: string, i: nat): (n: nat)
    requires i <= |s|
    ensures i + n <= |s|
    ensures forall k :: i <= k < i + n ==> IsValueChar(s[k])
    ensures i + n == |s| || !IsValueChar(s[i + n])
    decreases |s| - i
  {
    if i < |s| && IsValueChar(s[i]) then 1 + ValueRun(s, i + 1) else 0
  }

  /** One match of `(?:^|\s):([\w-]+:?)=?([\w-%]+)?`, ending (exclusively) at `end`. */
  datatype Match = Match(key: string, value: Option<string>, end: nat)

  /**
   * The part of the pattern after the colon, matched at `q`. Every part
   * after the key is optional, so the greedy choice never backtracks.
   */
  function MatchBody(s: string, q: nat): (m: Option<Match>)
    requires q <= |s|
    ensures m.Some? ==> q < m.value.end <= |s| && m.value.key != []
    ensures m.Some? ==> forall i :: 0 <= i < |m.value.key| - 1 ==> IsKeyChar(m.value.key[i])
    ensures m.Some? && m.value.key[|m.value.key| - 1] != ':' ==> KeyOk(m.value.key)
    ensures m.Some? && m.value.value.Some? ==> ValueOk(Text(m.value.value.value))
  {
    var k := KeyRun(s, q);
    if k == 0 then None
    else
      var e1 := q + k;
      var e2 := if e1 < |s| && s[e1] == ':' then e1 + 1 else e1;
      var e3 := if e2 < |s| && s[e2] == '=' then e2 + 1 else e2;
      var v := ValueRun(s, e3);
      KeySlice(s, q, k, e2);
      if v == 0 then Some(Match(s[q..e2], None, e3))
      else ValueSlice(s, e3, v); Some(Match(s[q..e2], Some(s[e3..e3 + v]), e3 + v))
  }

  /** The key text: key characters, then possibly the colon that marks it as not recorded. */
  lemma KeySlice(s: string, q: nat, k: nat, e: nat)
    requires 0 < k && q + k <= |s| && forall j :: q <= j < q + k ==> IsKeyChar(s[j])
    requires e == q + k || (e == q + k + 1 && e <= |s| && s[q + k] == ':')
    ensures forall i :: 0 <= i < |s[q..e]| - 1 ==> IsKeyChar(s[q..e][i])
    ensures s[q..e][|s[q..e]| - 1] != ':' ==> KeyOk(s[q..e])
  {
    var key := s[q..e];
    forall i | 0 <= i < |key| - 1 ensures IsKeyChar(key[i]) {
      assert key[i] == s[q + i];
    }
    if key[|key| - 1] != ':' {
      assert e == q + k;
      forall i | 0 <= i < |key| ensures IsKeyChar(key[i]) {
        assert key[i] == s[q + i];
      }
    }
  }

  lemma ValueSlice(s: string, e: nat, v: nat)
    requires 0 < v && e + v <= |s| && forall j :: e <= j < e + v ==> IsValueChar(s[j])
    ensures ValueOk(Text(s[e..e + v]))
  {
    var x := s[e..e + v];
    forall i | 0 <= i < |x| ensures IsValueChar(x[i]) {
      assert x[i] == s[e + i];
    }
  }

  /**
   * The pattern tried at position `p`: the `^` alternative (a colon at
   * the very start) first, then a white-space character followed by a colon.
   */
  function MatchAt(s: string, p: nat): (m: Option<Match>)
    requires p < |s|
    ensures m.Some? ==> p + 2 <= m.value.end <= |s| && m.value.key != []
    ensures m.Some? && m.value.key[|m.value.key| - 1] != ':' ==> KeyOk(m.value.key)
    ensures m.Some? && m.value.value.Some? ==> ValueOk(Text(m.value.value.value))
  {
    if p == 0 && s[0] == ':' && MatchBody(s, 1).Some? then MatchBody(s, 1)
    else if p + 1 < |s| && IsSpace(s[p]) && s[p + 1] == ':' then MatchBody(s, p + 2)
    else None
  }

  /** `key.indexOf(":") === -1`: the directive is recorded and removed. */
  predicate Recorded(m: Match)
    requires m.key != []
  {
    m.key[|m.key| - 1] != ':'
  }

  /** `(value && value.replace(/&quot;/g, "")) || true`. */
  function ValueOf(v: Option<string>): (r: ConfigValue)
    ensures r.Text? ==> v.Some? && r.s != [] && |r.s| <= |v.value|
  {
    match v
    case None => Flag
    case Some(x) =>
      var y := RemoveAll(x, "&quot;");
      if y == [] then Flag else Text(y)
  }

  /**
   * The global `replace` from position `p`: a recorded directive is
   * replaced by nothing and written into the configuration (a later one
   * overrides an earlier one with the same key), any other match is
   * kept as it is, and the scan goes on after the match.
   */
  function Scan(s: string, p: nat, cfg: Config): (r: (string, Config))
    requires p <= |s|
    requires KeysOk(cfg)
    ensures KeysOk(r.1)
    ensures cfg.Keys <= r.1.Keys
    ensures |r.0| <= |s| - p
    ensures (r.0 == s[p..] && r.1 == cfg) || (|r.0| < |s| - p && r.1 != map[])
    decreases |s| - p
  {
    if p == |s| then ([], cfg)
    else match MatchAt(s, p)
      case Some(m) =>
        if Recorded(m) then
          var cfg' := cfg[m.key := ValueOf(m.value)];
          var r := Scan(s, m.end, cfg');
          assert m.key in r.1;
          r
        else
          var r := Scan(s, m.end, cfg);
          KeepSlice(s, p, m.end, r.0);
          (s[p..m.end] + r.0, r.1)
      case None =>
        var r := Scan(s, p + 1, cfg);
        KeepChar(s, p, r.0);
        ([s[p]] + r.0, r.1)
  }

  /** Text kept in front of an unchanged rest leaves the whole rest unchanged. */
  lemma KeepSlice(s: string, i: nat, j: nat, rest: string)
    requires i < j <= |s|
    ensures rest == s[j..] ==> s[i..j] + rest == s[i..]
    ensures |s[i..j] + rest| == j - i + |rest|
  {
    assert s[i..j] + s[j..] == s[i..];
  }

  lemma KeepChar(s: string, i: nat, rest: string)
    requires i < |s|
    ensures rest == s[i + 1..] ==> [s[i]] + rest == s[i..]
    ensures |[s[i]] + rest| == 1 + |rest|
  {
    assert [s[i]] + s[i + 1..] == s[i..];
  }

  /** Every value of the configuration is well formed. */
  predicate ValuesOk(cfg: Config) {
    forall k :: k in cfg ==> ValueOk(cfg[k])
  }

  /** Every value `Scan` records is `true` or a non-empty run of value characters. */
  lemma {:induction false} ScanValues(s: string, p: nat, cfg: Config)
    requires p <= |s| && KeysOk(cfg) && ValuesOk(cfg)
    ensures ValuesOk(Scan(s, p, cfg).1)
    decreases |s| - p, 1
  {
    if p < |s| {
      var m := MatchAt(s, p);
      if m.None? {
        ScanValuesUnmatched(s, p, cfg);
      } else if Recorded(m.value) {
        ScanValuesRecorded(s, p, cfg, m.value);
      } else {
        ScanValuesKept(s, p, cfg, m.value);
      }
    }
  }

  lemma {:induction false} ScanValuesUnmatched(s: string, p: nat, cfg: Config)
    requires p < |s| && MatchAt(s, p).None? && KeysOk(cfg) && ValuesOk(cfg)
    ensures ValuesOk(Scan(s, p, cfg).1)
    decreases |s| - p, 0
  {
    ScanUnmatched(s, p, cfg);
    ScanValues(s, p + 1, cfg);
  }

  lemma {:induction false} ScanValuesRecorded(s: string, p: nat, cfg: Config, m: Match)
    requires p < |s| && MatchAt(s, p) == Some(m) && Recorded(m) && KeysOk(cfg) && ValuesOk(cfg)
    ensures ValuesOk(Scan(s, p, cfg).1)
    decreases |s| - p, 0
  {
    RecordValue(cfg, m.key, m.value);
    ScanRecorded(s, p, cfg, m);
    ScanValues(s, m.end, cfg[m.key := ValueOf(m.value)]);
  }

  lemma {:induction false} ScanValuesKept(s: string, p: nat, cfg: Config, m: Match)
    requires p < |s| && MatchAt(s, p) == Some(m) && !Recorded(m) && KeysOk(cfg) && ValuesOk(cfg)
    ensures ValuesOk(Scan(s, p, cfg).1)
    decreases |s| - p, 0
  {
    ScanKept(s, p, cfg, m);
    ScanValues(s, m.end, cfg);
  }

  /** Recording a matched value keeps every value well formed. */
  lemma RecordValue(cfg: Config, key: string, v: Option<string>)
    requires ValuesOk(cfg) && (v.Some? ==> ValueOk(Text(v.value)))
    ensures ValuesOk(cfg[key := ValueOf(v)])
  {
    if v.Some? {
      QuotNeverInValue(v.value);
    }
  }

  /**
   * A matched value is made of `[\w-%]` characters, so it never holds
   * `&quot;`: the removal in `getAndRemoveConfig` never changes it.
   */
  lemma QuotNeverInValue(x: string)
    requires ValueOk(Text(x))
    ensures ValueOf(Some(x)) == Text(x)
  {
    forall k | 0 <= k < |x| ensures x[k] != "&quot;"[0] {
      assert IsValueChar(x[k]);
    }
    RemoveAllAbsent(x, "&quot;");
  }

  /** `str.replace(/^('|")/, "").replace(/('|")$/, "")`. */
  function Dequote(str: string): (r: string)
    ensures |r| <= |str|
  {
    var s1 := if str != [] && (str[0] == '\'' || str[0] == '"') then str[1..] else str;
    if s1 != [] && (s1[|s1| - 1] == '\'' || s1[|s1| - 1] == '"') then s1[..|s1| - 1] else s1
  }

  /**
   * `getAndRemoveConfig`: every key recorded is a run of `[\w-]`
   * characters and every value `true` or a run of `[\w-%]` characters;
   * with nothing recorded the text is only unquoted and trimmed, and
   * otherwise it is strictly shorter than the unquoted text. The text
   * returned is always trimmed.
   */
  function GetAndRemoveConfig(str: string): (r: Parsed)
    ensures forall k :: k in r.config ==> KeyOk(k) && ValueOk(r.config[k])
    ensures r.config == map[] ==> r.str == Trim(Dequote(str))
    ensures r.config != map[] ==> |r.str| < |Dequote(str)|
    ensures Trim(r.str) == r.str
  {
    if str == [] then Parsed([], map[])
    else
      var s := Dequote(str);
      ScanWhole(s);
      Finish(s, Scan(s, 0, map[]))
  }

  /** The scan of a whole string: well-formed entries, and either nothing recorded or something removed. */
  lemma ScanWhole(s: string)
    ensures var sc := Scan(s, 0, map[]);
      KeysOk(sc.1) && ValuesOk(sc.1) && |sc.0| <= |s| &&
      ((sc.0 == s && sc.1 == map[]) || (|sc.0| < |s| && sc.1 != map[]))
  {
    ScanValues(s, 0, map[]);
    assert s[0..] == s;
  }

  /** The last step of `getAndRemoveConfig`: the text left by the scan is trimmed. */
  function Finish(s: string, sc: (string, Config)): (r: Parsed)
    requires KeysOk(sc.1) && ValuesOk(sc.1) && |sc.0| <= |s|
    requires (sc.0 == s && sc.1 == map[]) || (|sc.0| < |s| && sc.1 != map[])
    ensures r.config == sc.1
    ensures r.config == map[] ==> r.str == Trim(s)
    ensures r.config != map[] ==> |r.str| < |s|
    ensures r.str == [] || (!IsSpace(r.str[0]) && !IsSpace(r.str[|r.str| - 1]))
    ensures Trim(r.str) == r.str
  {
    TrimIdempotent(sc.0);
    Parsed(Trim(sc.0), sc.1)
  }

  /** Text that neither starts nor ends with a quote is scanned as it is. */
  lemma UnquotedConfig(s: string, out: string, cfg: Config)
    requires s != [] && s[0] != '\'' && s[0] != '"' && s[|s| - 1] != '\'' && s[|s| - 1] != '"'
    requires Scan(s, 0, map[]) == (out, cfg)
    requires out == [] || (!IsSpace(out[0]) && !IsSpace(out[|out| - 1]))
    ensures GetAndRemoveConfig(s) == Parsed(out, cfg)
  {
    DequoteIdle(s);
    TrimIdle(out);
  }

  /** Text that neither starts nor ends with a quote has none to lose. */
  lemma DequoteIdle(s: string)
    requires s != [] && s[0] != '\'' && s[0] != '"' && s[|s| - 1] != '\'' && s[|s| - 1] != '"'
    ensures Dequote(s) == s
  {}

  /** Text without a colon holds no directive. */
  lemma {:induction false} ScanNoColon(s: string, p: nat, cfg: Config)
    requires p <= |s|
    requires KeysOk(cfg)
    requires forall k :: 0 <= k < |s| ==> s[k] != ':'
    ensures Scan(s, p, cfg) == (s[p..], cfg)
    decreases |s| - p
  {
    if p < |s| {
      assert MatchAt(s, p).None?;
      ScanNoColon(s, p + 1, cfg);
    }
  }

  /** A heading without a colon keeps its text (unquoted and trimmed) and has no directives. */
  lemma NoColonNoConfig(str: string)
    requires forall k :: 0 <= k < |str| ==> str[k] != ':'
    ensures GetAndRemoveConfig(str) == Parsed(Trim(Dequote(str)), map[])
  {
    if str != [] {
      var s := Dequote(str);
      assert forall k :: 0 <= k < |s| ==> s[k] != ':';
      ScanNoColon(s, 0, map[]);
    }
  }

  // ---------------------------------------------------------------------
  // Headings that end in directives

  /** A directive written after a heading: a key, and its value when it has one. */
  datatype Directive = Directive(key: string, value: Option<string>)

  /** ` :key=value`, or ` :key` for a directive without a value. */
  function DirectiveText(d: Directive): string {
    " :" + d.key + (if d.value.Some? then "=" + d.value.value else "")
  }

  function DirectivesText(ds: seq<Directive>): string {
    if ds == [] then "" else DirectiveText(ds[0]) + DirectivesText(ds[1..])
  }

  /** A key of `[\w-]` characters and, when present, a value of `[\w-%]` characters. */
  predicate DirectiveOk(d: Directive) {
    KeyOk(d.key) && (d.value.Some? ==> ValueOk(Text(d.value.value)))
  }

  predicate DirectivesOk(ds: seq<Directive>) {
    forall i :: 0 <= i < |ds| ==> DirectiveOk(ds[i])
  }

  /** What a directive sets its key to: its value, or `true` when it has none. */
  function Setting(v: Option<string>): ConfigValue {
    if v.Some? then Text(v.value) else Flag
  }

  /** The configuration after setting the directives' keys in order. */
  function RecordAll(cfg: Config, ds: seq<Directive>): Config
    decreases |ds|
  {
    if ds == [] then cfg else RecordAll(cfg[ds[0].key := Setting(ds[0].value)], ds[1..])
  }

  /** A run of key characters that stops at `i + n` is `n` long. */
  lemma KeyRunExact(s: string, i: nat, n: nat)
    requires i + n <= |s|
    requires forall k :: i <= k < i + n ==> IsKeyChar(s[k])
    requires i + n == |s| || !IsKeyChar(s[i + n])
    ensures KeyRun(s, i) == n
  {}

  lemma ValueRunExact(s: string, i: nat, n: nat)
    requires i + n <= |s|
    requires forall k :: i <= k < i + n ==> IsValueChar(s[k])
    requires i + n == |s| || !IsValueChar(s[i + n])
    ensures ValueRun(s, i) == n
  {}

  /** A key followed by `=` and a value. */
  lemma MatchBodyValue(s: string, q: nat, kn: nat, vn: nat)
    requires q + kn + 1 + vn <= |s| && 0 < kn && 0 < vn
    requires KeyRun(s, q) == kn && s[q + kn] == '=' && ValueRun(s, q + kn + 1) == vn
    ensures MatchBody(s, q) == Some(Match(s[q..q + kn], Some(s[q + kn + 1..q + kn + 1 + vn]), q + kn + 1 + vn))
  {}

  /** A key followed by a space or by the end of the text. */
  lemma MatchBodyFlag(s: string, q: nat, kn: nat)
    requires q + kn <= |s| && 0 < kn
    requires KeyRun(s, q) == kn && (q + kn == |s| || s[q + kn] == ' ')
    ensures MatchBody(s, q) == Some(Match(s[q..q + kn], None, q + kn))
  {
    ValueRunExact(s, q + kn, 0);
  }

  /** The parts of a directive's text. */
  lemma DirectiveParts(d: Directive)
    ensures DirectiveText(d)[..2] == " :"
    ensures DirectiveText(d)[2..2 + |d.key|] == d.key
    ensures d.value.None? ==> |DirectiveText(d)| == 2 + |d.key|
    ensures d.value.Some? ==> |DirectiveText(d)| == 3 + |d.key| + |d.value.value|
    ensures d.value.Some? ==> DirectiveText(d)[2 + |d.key|] == '='
    ensures d.value.Some? ==> DirectiveText(d)[3 + |d.key|..] == d.value.value
  {}

  /** Key characters copied from `x` into `s` at `q`. */
  lemma CopiedKey(s: string, q: nat, x: string)
    requires q + |x| <= |s| && s[q..q + |x|] == x
    requires KeyOk(x)
    ensures forall k :: q <= k < q + |x| ==> IsKeyChar(s[k])
  {
    forall k | q <= k < q + |x| ensures IsKeyChar(s[k]) {
      assert s[k] == s[q..q + |x|][k - q];
    }
  }

  /** Value characters copied from `x` into `s` at `q`. */
  lemma CopiedValue(s: string, q: nat, x: string)
    requires q + |x| <= |s| && s[q..q + |x|] == x
    requires ValueOk(Text(x))
    ensures forall k :: q <= k < q + |x| ==> IsValueChar(s[k])
  {
    forall k | q <= k < q + |x| ensures IsValueChar(s[k]) {
      assert s[k] == s[q..q + |x|][k - q];
    }
  }

  lemma SubSlice(s: string, a: nat, b: nat, c: nat, d: nat)
    requires a <= b <= |s| && c <= d <= b - a
    ensures s[a..b][c..d] == s[a + c..a + d]
  {
    assert forall i :: 0 <= i < d - c ==> s[a..b][c..d][i] == s[a + c + i];
  }

  /** A space and a colon: the pattern's second alternative, matched on after the colon. */
  lemma MatchAfterSpace(s: string, p: nat, m: Option<Match>)
    requires p + 1 < |s| && s[p] == ' ' && s[p + 1] == ':' && MatchBody(s, p + 2) == m
    ensures MatchAt(s, p) == m
  {}

  /** What a directive's text puts into `s` at `p`. */
  lemma DirectiveHead(s: string, p: nat, d: Directive)
    requires DirectiveOk(d)
    requires p + |DirectiveText(d)| <= |s| && s[p..p + |DirectiveText(d)|] == DirectiveText(d)
    ensures s[p] == ' ' && s[p + 1] == ':'
    ensures forall k :: p + 2 <= k < p + 2 + |d.key| ==> IsKeyChar(s[k])
    ensures s[p + 2..p + 2 + |d.key|] == d.key
    ensures d.value.None? ==> |DirectiveText(d)| == 2 + |d.key|
    ensures d.value.Some? ==> |DirectiveText(d)| == 3 + |d.key| + |d.value.value|
    ensures d.value.Some? ==> s[p + 2 + |d.key|] == '='
    ensures d.value.Some? ==> s[p + 3 + |d.key|..p + |DirectiveText(d)|] == d.value.value
    ensures d.value.Some? ==> forall k :: p + 3 + |d.key| <= k < p + |DirectiveText(d)| ==> IsValueChar(s[k])
  {
    var t := DirectiveText(d);
    var u := s[p..p + |t|];
    DirectiveParts(d);
    assert s[p] == ' ' && s[p + 1] == ':' by {
      assert u[..2] == " :";
      assert s[p] == u[0] && s[p + 1] == u[1];
    }
    SubSlice(s, p, p + |t|, 2, 2 + |d.key|);
    CopiedKey(s, p + 2, d.key);
    if d.value.Some? {
      assert s[p + 2 + |d.key|] == u[2 + |d.key|];
      SubSlice(s, p, p + |t|, 3 + |d.key|, |t|);
      CopiedValue(s, p + 3 + |d.key|, d.value.value);
    }
  }

  /** A directive followed by a space or by the end of the text is matched whole. */
  lemma DirectiveMatch(s: string, p: nat, d: Directive)
    requires DirectiveOk(d)
    requires p + |DirectiveText(d)| <= |s| && s[p..p + |DirectiveText(d)|] == DirectiveText(d)
    requires p + |DirectiveText(d)| == |s| || s[p + |DirectiveText(d)|] == ' '
    ensures MatchAt(s, p) == Some(Match(d.key, d.value, p + |DirectiveText(d)|))
  {
    DirectiveHead(s, p, d);
    MatchFromHead(s, p, d, p + |DirectiveText(d)|);
  }

  /** The directive's parts, laid out in `s` from `p` to `f`, make one match. */
  lemma MatchFromHead(s: string, p: nat, d: Directive, f: nat)
    requires DirectiveOk(d) && f <= |s| && (f == |s| || s[f] == ' ')
    requires p + 2 + |d.key| <= f && s[p] == ' ' && s[p + 1] == ':'
    requires forall k :: p + 2 <= k < p + 2 + |d.key| ==> IsKeyChar(s[k])
    requires s[p + 2..p + 2 + |d.key|] == d.key
    requires d.value.None? ==> f == p + 2 + |d.key|
    requires d.value.Some? ==> f == p + 3 + |d.key| + |d.value.value| && s[p + 2 + |d.key|] == '='
    requires d.value.Some? ==> s[p + 3 + |d.key|..f] == d.value.value
    requires d.value.Some? ==> forall k :: p + 3 + |d.key| <= k < f ==> IsValueChar(s[k])
    ensures MatchAt(s, p) == Some(Match(d.key, d.value, f))
  {
    if d.value.Some? {
      ValueBody(s, p + 2, d.key, d.value.value, f);
      MatchAfterSpace(s, p, Some(Match(d.key, d.value, f)));
    } else {
      FlagMatchAt(s, p, d.key, f);
    }
  }

  /** `key=value` after the colon at `q`, ending at `f`. */
  lemma ValueBody(s: string, q: nat, key: string, v: string, f: nat)
    requires key != [] && v != [] && f == q + 1 + |key| + |v| && f <= |s| && (f == |s| || s[f] == ' ')
    requires s[q + |key|] == '='
    requires forall k :: q <= k < q + |key| ==> IsKeyChar(s[k])
    requires forall k :: q + 1 + |key| <= k < f ==> IsValueChar(s[k])
    requires s[q..q + |key|] == key && s[q + 1 + |key|..f] == v
    ensures MatchBody(s, q) == Some(Match(key, Some(v), f))
  {
    ValueRuns(s, q, |key|, |v|);
    ValueMatch(s, q, key, v, f);
  }

  /** The match of a key and a value, named by the texts rather than by their positions. */
  lemma ValueMatch(s: string, q: nat, key: string, v: string, f: nat)
    requires key != [] && v != [] && f == q + |key| + 1 + |v| && f <= |s|
    requires KeyRun(s, q) == |key| && s[q + |key|] == '=' && ValueRun(s, q + |key| + 1) == |v|
    requires s[q..q + |key|] == key && s[q + |key| + 1..f] == v
    ensures MatchBody(s, q) == Some(Match(key, Some(v), f))
  {
    MatchBodyValue(s, q, |key|, |v|);
    var m := MatchBody(s, q);
    assert m.value.key == key;
    assert m.value.value == Some(v);
    assert m.value.end == f;
  }

  /** The key run stops at the `=`, and the value run at the space or the end after it. */
  lemma ValueRuns(s: string, q: nat, kn: nat, vn: nat)
    requires q + 1 + kn + vn <= |s| && (q + 1 + kn + vn == |s| || s[q + 1 + kn + vn] == ' ')
    requires s[q + kn] == '='
    requires forall k :: q <= k < q + kn ==> IsKeyChar(s[k])
    requires forall k :: q + 1 + kn <= k < q + 1 + kn + vn ==> IsValueChar(s[k])
    ensures KeyRun(s, q) == kn && ValueRun(s, q + kn + 1) == vn
  {
    KeyRunExact(s, q, kn);
    ValueRunExact(s, q + 1 + kn, vn);
  }

  /** ` :key` at `p`, ending at `f`. */
  lemma FlagMatchAt(s: string, p: nat, key: string, f: nat)
    requires key != [] && f == p + 2 + |key| && f <= |s| && (f == |s| || s[f] == ' ')
    requires s[p] == ' ' && s[p + 1] == ':'
    requires forall k :: p + 2 <= k < f ==> IsKeyChar(s[k])
    requires s[p + 2..f] == key
    ensures MatchAt(s, p) == Some(Match(key, None, f))
  {
    KeyRunExact(s, p + 2, |key|);
    MatchBodyFlag(s, p + 2, |key|);
    MatchAfterSpace(s, p, Some(Match(key, None, f)));
  }

  /** A matched directive is recorded with its setting, and the scan goes on after it. */
  lemma DirectiveRecorded(s: string, p: nat, cfg: Config, d: Directive, e: nat)
    requires p < |s| && KeysOk(cfg) && DirectiveOk(d)
    requires MatchAt(s, p) == Some(Match(d.key, d.value, e))
    ensures e <= |s| && KeysOk(cfg[d.key := Setting(d.value)])
    ensures Scan(s, p, cfg) == Scan(s, e, cfg[d.key := Setting(d.value)])
  {
    var m := Match(d.key, d.value, e);
    assert Recorded(m) by {
      assert IsKeyChar(d.key[|d.key| - 1]);
    }
    if d.value.Some? {
      QuotNeverInValue(d.value.value);
    }
    ScanRecorded(s, p, cfg, m);
  }

  /** The first directive of a list, and what follows it: the rest, which starts with a space if there is any. */
  lemma DirectivesSplit(s: string, p: nat, ds: seq<Directive>)
    requires ds != [] && p <= |s| && s[p..] == DirectivesText(ds)
    ensures p + |DirectiveText(ds[0])| <= |s|
    ensures s[p..p + |DirectiveText(ds[0])|] == DirectiveText(ds[0])
    ensures s[p + |DirectiveText(ds[0])|..] == DirectivesText(ds[1..])
    ensures p + |DirectiveText(ds[0])| == |s| || s[p + |DirectiveText(ds[0])|] == ' '
  {
    var n := |DirectiveText(ds[0])|;
    assert s[p..] == DirectiveText(ds[0]) + DirectivesText(ds[1..]);
    assert s[p..p + n] == s[p..][..n];
    assert s[p + n..] == s[p..][n..];
    if ds[1..] != [] {
      assert s[p + n] == s[p + n..][0] == DirectiveText(ds[1..][0])[0];
    }
  }

  /** The directives of a well-formed list, after the first, are well formed. */
  lemma DirectivesRest(ds: seq<Directive>)
    requires ds != [] && DirectivesOk(ds)
    ensures DirectiveOk(ds[0]) && DirectivesOk(ds[1..])
  {
    forall i | 0 <= i < |ds[1..]| ensures DirectiveOk(ds[1..][i]) {
      assert ds[1..][i] == ds[i + 1];
    }
  }

  /** The directives `ds` written one after another from `p` to the end of `s`. */
  predicate DirectivesAt(s: string, p: nat, ds: seq<Directive>)
    decreases ds
  {
    if ds == [] then p == |s|
    else
      var e := p + |DirectiveText(ds[0])|;
      e <= |s| && s[p..e] == DirectiveText(ds[0]) && (e == |s| || s[e] == ' ') && DirectivesAt(s, e, ds[1..])
  }

  /** Text ending in the directives' text holds them from where that text starts. */
  lemma {:induction false} DirectivesAtText(s: string, p: nat, ds: seq<Directive>)
    requires p <= |s| && s[p..] == DirectivesText(ds)
    ensures DirectivesAt(s, p, ds)
    decreases ds
  {
    if ds == [] {
      assert |s[p..]| == 0;
    } else {
      DirectivesSplit(s, p, ds);
      DirectivesAtText(s, p + |DirectiveText(ds[0])|, ds[1..]);
    }
  }

  /** Text made of directives only is scanned to nothing, every directive recorded in turn. */
  lemma {:induction false} ScanDirectives(s: string, p: nat, cfg: Config, ds: seq<Directive>)
    requires p <= |s| && s[p..] == DirectivesText(ds)
    requires KeysOk(cfg) && DirectivesOk(ds)
    ensures Scan(s, p, cfg) == ([], RecordAll(cfg, ds))
  {
    DirectivesAtText(s, p, ds);
    ScanDirectivesAt(s, p, cfg, ds);
  }

  lemma {:induction false} ScanDirectivesAt(s: string, p: nat, cfg: Config, ds: seq<Directive>)
    requires p <= |s| && DirectivesAt(s, p, ds)
    requires KeysOk(cfg) && DirectivesOk(ds)
    ensures Scan(s, p, cfg) == ([], RecordAll(cfg, ds))
    decreases ds
  {
    if ds != [] {
      var d := ds[0];
      var e := p + |DirectiveText(d)|;
      var cfg' := cfg[d.key := Setting(d.value)];
      DirectivesRest(ds);
      FirstDirective(s, p, cfg, d, e, RecordAll(cfg', ds[1..]));
      ScanDirectivesAt(s, e, cfg', ds[1..]);
    }
  }

  /** A directive at `p` is recorded, so the scan from `p` ends as the scan after it does. */
  lemma FirstDirective(s: string, p: nat, cfg: Config, d: Directive, e: nat, c: Config)
    requires e == p + |DirectiveText(d)| && e <= |s| && s[p..e] == DirectiveText(d)
    requires e == |s| || s[e] == ' '
    requires KeysOk(cfg) && DirectiveOk(d)
    ensures KeysOk(cfg[d.key := Setting(d.value)])
    ensures Scan(s, e, cfg[d.key := Setting(d.value)]) == ([], c) ==> Scan(s, p, cfg) == ([], c)
  {
    DirectiveMatch(s, p, d);
    DirectiveRecorded(s, p, cfg, d, e);
  }

  /** Directives end in a key or value character, never a quote. */
  lemma {:induction false} DirectivesEnd(ds: seq<Directive>)
    requires ds != [] && DirectivesOk(ds)
    ensures DirectivesText(ds) != [] && DirectivesText(ds)[0] == ' '
    ensures IsValueChar(DirectivesText(ds)[|DirectivesText(ds)| - 1])
    decreases ds
  {
    var d := ds[0];
    var t := DirectiveText(d);
    assert DirectiveOk(d);
    if |ds| == 1 {
      assert DirectivesText(ds) == t + "";
      if d.value.Some? {
        assert t[|t| - 1] == d.value.value[|d.value.value| - 1];
      } else {
        assert t[|t| - 1] == d.key[|d.key| - 1];
      }
    } else {
      DirectivesRest(ds);
      DirectivesEnd(ds[1..]);
    }
  }

  /** Unquoted text: the result is the scan's output, trimmed, and its configuration. */
  lemma UnquotedScan(s: string)
    requires s != [] && s[0] != '\'' && s[0] != '"' && s[|s| - 1] != '\'' && s[|s| - 1] != '"'
    ensures GetAndRemoveConfig(s) == Parsed(Trim(Scan(s, 0, map[]).0), Scan(s, 0, map[]).1)
  {
    DequoteIdle(s);
  }

  /** Text followed by directives: where the directives start and how the whole ends. */
  lemma TextThenDirectives(t: string, ds: seq<Directive>)
    requires ds != [] && DirectivesOk(ds)
    ensures var s := t + DirectivesText(ds);
      s[|t|] == ' ' && s[|t|..] == DirectivesText(ds) && s[..|t|] == t &&
      (t == [] ==> s[0] == ' ') && (t != [] ==> s[0] == t[0]) &&
      IsValueChar(s[|s| - 1])
  {
    DirectivesEnd(ds);
    var s := t + DirectivesText(ds);
    assert s[|s| - 1] == DirectivesText(ds)[|DirectivesText(ds)| - 1];
  }

  /** A colon-free stretch followed by directives only: the stretch is kept and the directives recorded. */
  lemma ScanTextThenDirectives(s: string, t: string, ds: seq<Directive>)
    requires |t| <= |s| && s[..|t|] == t && s[|t|..] == DirectivesText(ds)
    requires |t| < |s| ==> s[|t|] == ' '
    requires forall k :: 0 <= k < |t| ==> t[k] != ':'
    requires DirectivesOk(ds)
    ensures Scan(s, 0, map[]) == (t, RecordAll(map[], ds))
  {
    assert forall k :: 0 <= k <= |t| && k < |s| ==> s[k] != ':' by {
      forall k | 0 <= k < |t| ensures s[k] != ':' {
        assert s[k] == s[..|t|][k];
      }
    }
    ScanSkip(s, 0, |t|, map[]);
    ScanDirectives(s, |t|, map[], ds);
    assert s[0..|t|] + [] == t;
  }

  /**
   * A heading whose text has no colon and does not start with a quote,
   * followed by directives: the text comes back trimmed and the
   * configuration holds what the directives set, in order.
   */
  lemma TrailingDirectives(t: string, ds: seq<Directive>)
    requires forall k :: 0 <= k < |t| ==> t[k] != ':'
    requires t != [] ==> t[0] != '\'' && t[0] != '"'
    requires ds == [] && t != [] ==> t[|t| - 1] != '\'' && t[|t| - 1] != '"'
    requires DirectivesOk(ds)
    ensures GetAndRemoveConfig(t + DirectivesText(ds)) == Parsed(Trim(t), RecordAll(map[], ds))
  {
    if ds == [] {
      assert t + DirectivesText(ds) == t;
      NoDirectives(t);
    } else {
      SomeDirectives(t, ds);
    }
  }

  lemma NoDirectives(t: string)
    requires forall k :: 0 <= k < |t| ==> t[k] != ':'
    requires t != [] ==> t[0] != '\'' && t[0] != '"' && t[|t| - 1] != '\'' && t[|t| - 1] != '"'
    ensures GetAndRemoveConfig(t) == Parsed(Trim(t), map[])
  {
    NoColonNoConfig(t);
    if t != [] {
      DequoteIdle(t);
    }
  }

  lemma SomeDirectives(t: string, ds: seq<Directive>)
    requires forall k :: 0 <= k < |t| ==> t[k] != ':'
    requires t != [] ==> t[0] != '\'' && t[0] != '"'
    requires ds != [] && DirectivesOk(ds)
    ensures GetAndRemoveConfig(t + DirectivesText(ds)) == Parsed(Trim(t), RecordAll(map[], ds))
  {
    AppendedUnquoted(t, ds);
    AppendedScan(t, ds);
  }

  lemma AppendedUnquoted(t: string, ds: seq<Directive>)
    requires t != [] ==> t[0] != '\'' && t[0] != '"'
    requires ds != [] && DirectivesOk(ds)
    ensures var s := t + DirectivesText(ds);
      GetAndRemoveConfig(s) == Parsed(Trim(Scan(s, 0, map[]).0), Scan(s, 0, map[]).1)
  {
    TextThenDirectives(t, ds);
    UnquotedScan(t + DirectivesText(ds));
  }

  lemma AppendedScan(t: string, ds: seq<Directive>)
    requires forall k :: 0 <= k < |t| ==> t[k] != ':'
    requires ds != [] && DirectivesOk(ds)
    ensures Scan(t + DirectivesText(ds), 0, map[]) == (t, RecordAll(map[], ds))
  {
    TextThenDirectives(t, ds);
    ScanTextThenDirectives(t + DirectivesText(ds), t, ds);
  }

  /** A list of one directive: its text, and the configuration it records. */
  lemma OneDirective(d: Directive)
    ensures DirectivesText([d]) == DirectiveText(d)
    ensures RecordAll(map[], [d]) == map[d.key := Setting(d.value)]
  {
    assert DirectivesText([d]) == DirectiveText(d) + DirectivesText([d][1..]);
    assert [d][1..] == [];
  }

  lemma DirectiveAppended(t: string, d: Directive)
    ensures d.value.Some? ==> t + DirectiveText(d) == t + " :" + d.key + "=" + d.value.value
    ensures d.value.None? ==> t + DirectiveText(d) == t + " :" + d.key
  {
    if d.value.Some? {
      assert DirectiveText(d) == " :" + d.key + ("=" + d.value.value);
    } else {
      assert DirectiveText(d) == " :" + d.key + "";
    }
  }

  /** `"Title :key=value"`: the title, trimmed, with the key set to the value. */
  lemma ValueDirective(t: string, k: string, v: string)
    requires forall i :: 0 <= i < |t| ==> t[i] != ':'
    requires t != [] ==> t[0] != '\'' && t[0] != '"'
    requires KeyOk(k) && ValueOk(Text(v))
    ensures GetAndRemoveConfig(t + " :" + k + "=" + v) == Parsed(Trim(t), map[k := Text(v)])
  {
    var d := Directive(k, Some(v));
    OneDirective(d);
    assert DirectivesOk([d]);
    SomeDirectives(t, [d]);
    DirectiveAppended(t, d);
  }

  /** `"Title :key"`: the title, trimmed, with the key set to `true`. */
  lemma FlagDirective(t: string, k: string)
    requires forall i :: 0 <= i < |t| ==> t[i] != ':'
    requires t != [] ==> t[0] != '\'' && t[0] != '"'
    requires KeyOk(k)
    ensures GetAndRemoveConfig(t + " :" + k) == Parsed(Trim(t), map[k := Flag])
  {
    var d := Directive(k, None);
    OneDirective(d);
    assert DirectivesOk([d]);
    SomeDirectives(t, [d]);
    DirectiveAppended(t, d);
  }

  /** The keys recorded are those already there and those of the directives. */
  lemma {:induction false} RecordAllKeys(cfg: Config, ds: seq<Directive>)
    ensures RecordAll(cfg, ds).Keys == cfg.Keys + set i | 0 <= i < |ds| :: ds[i].key
    decreases ds
  {
    if ds != [] {
      var cfg' := cfg[ds[0].key := Setting(ds[0].value)];
      RecordAllKeys(cfg', ds[1..]);
      var rest := set i | 0 <= i < |ds[1..]| :: ds[1..][i].key;
      var all := set i | 0 <= i < |ds| :: ds[i].key;
      assert all == {ds[0].key} + rest by {
        forall x | x in all ensures x in {ds[0].key} + rest {
          var i :| 0 <= i < |ds| && ds[i].key == x;
          if i > 0 {
            assert ds[1..][i - 1].key == x;
          }
        }
        forall x | x in rest ensures x in all {
          var i :| 0 <= i < |ds[1..]| && ds[1..][i].key == x;
          assert ds[i + 1].key == x;
        }
      }
    }
  }

  /**
   * The configuration of a heading ending in directives has exactly the
   * directives' keys, each set by the last directive that names it.
   */
  lemma DirectivesConfig(t: string, ds: seq<Directive>)
    requires forall k :: 0 <= k < |t| ==> t[k] != ':'
    requires t != [] ==> t[0] != '\'' && t[0] != '"'
    requires ds == [] && t != [] ==> t[|t| - 1] != '\'' && t[|t| - 1] != '"'
    requires DirectivesOk(ds)
    ensures GetAndRemoveConfig(t + DirectivesText(ds)).str == Trim(t)
    ensures GetAndRemoveConfig(t + DirectivesText(ds)).config.Keys == set i | 0 <= i < |ds| :: ds[i].key
    ensures forall i :: 0 <= i < |ds| && (forall j :: i < j < |ds| ==> ds[j].key != ds[i].key) ==>
      GetAndRemoveConfig(t + DirectivesText(ds)).config[ds[i].key] == Setting(ds[i].value)
  {
    TrailingDirectives(t, ds);
    RecordAllFresh(ds);
  }

  /** Recorded from scratch: the directives' keys, each with the last setting given to it. */
  lemma RecordAllFresh(ds: seq<Directive>)
    ensures RecordAll(map[], ds).Keys == set i | 0 <= i < |ds| :: ds[i].key
    ensures forall i :: 0 <= i < |ds| && (forall j :: i < j < |ds| ==> ds[j].key != ds[i].key) ==>
      RecordAll(map[], ds)[ds[i].key] == Setting(ds[i].value)
  {
    RecordAllKeys(map[], ds);
    forall i | 0 <= i < |ds| && (forall j :: i < j < |ds| ==> ds[j].key != ds[i].key)
      ensures RecordAll(map[], ds)[ds[i].key] == Setting(ds[i].value)
    {
      RecordAllLastWins(map[], ds, i);
    }
  }

  /** A key no directive names keeps the value it had. */
  lemma {:induction false} RecordAllUntouched(cfg: Config, ds: seq<Directive>, k: string)
    requires k in cfg
    requires forall j :: 0 <= j < |ds| ==> ds[j].key != k
    ensures k in RecordAll(cfg, ds) && RecordAll(cfg, ds)[k] == cfg[k]
    decreases ds
  {
    if ds != [] {
      assert ds[0].key != k;
      RecordAllUntouched(cfg[ds[0].key := Setting(ds[0].value)], ds[1..], k);
    }
  }

  /** The last directive with a given key decides its value. */
  lemma {:induction false} RecordAllLastWins(cfg: Config, ds: seq<Directive>, i: nat)
    requires i < |ds|
    requires forall j :: i < j < |ds| ==> ds[j].key != ds[i].key
    ensures ds[i].key in RecordAll(cfg, ds) && RecordAll(cfg, ds)[ds[i].key] == Setting(ds[i].value)
    decreases ds
  {
    var cfg' := cfg[ds[0].key := Setting(ds[0].value)];
    if i == 0 {
      RecordAllUntouched(cfg', ds[1..], ds[0].key);
    } else {
      assert ds[1..][i - 1] == ds[i];
      RecordAllLastWins(cfg', ds[1..], i - 1);
    }
  }

  lemma ScanUnmatched(s: string, p: nat, cfg: Config)
    requires p < |s| && MatchAt(s, p).None?
    requires KeysOk(cfg)
    ensures Scan(s, p, cfg) == ([s[p]] + Scan(s, p + 1, cfg).0, Scan(s, p + 1, cfg).1)
  {}

  lemma ScanRecorded(s: string, p: nat, cfg: Config, m: Match)
    requires p < |s| && MatchAt(s, p) == Some(m) && Recorded(m)
    requires KeysOk(cfg)
    ensures Scan(s, p, cfg) == Scan(s, m.end, cfg[m.key := ValueOf(m.value)])
  {}

  lemma ScanKept(s: string, p: nat, cfg: Config, m: Match)
    requires p < |s| && MatchAt(s, p) == Some(m) && !Recorded(m)
    requires KeysOk(cfg)
    ensures Scan(s, p, cfg) == (s[p..m.end] + Scan(s, m.end, cfg).0, Scan(s, m.end, cfg).1)
  {}

  /** A stretch without a colon, up to and including position `q`, is copied as it is. */
  lemma {:induction false} ScanSkip(s: string, p: nat, q: nat, cfg: Config)
    requires p <= q <= |s|
    requires KeysOk(cfg)
    requires forall k :: p <= k <= q && k < |s| ==> s[k] != ':'
    ensures Scan(s, p, cfg) == (s[p..q] + Scan(s, q, cfg).0, Scan(s, q, cfg).1)
    decreases q - p
  {
    if p < q {
      ScanSkip(s, p + 1, q, cfg);
      ScanSkipStep(s, p, q, cfg);
    } else {
      EmptyPrefix(s[p..q], Scan(s, q, cfg));
    }
  }

  lemma EmptyPrefix(e: string, r: (string, Config))
    requires |e| == 0
    ensures r == (e + r.0, r.1)
  {
    assert e + r.0 == r.0;
  }

  lemma ScanSkipStep(s: string, p: nat, q: nat, cfg: Config)
    requires p < q <= |s|
    requires KeysOk(cfg)
    requires s[p] != ':' && (p + 1 < |s| ==> s[p + 1] != ':')
    requires Scan(s, p + 1, cfg) == (s[p + 1..q] + Scan(s, q, cfg).0, Scan(s, q, cfg).1)
    ensures Scan(s, p, cfg) == (s[p..q] + Scan(s, q, cfg).0, Scan(s, q, cfg).1)
  {
    var rq := Scan(s, q, cfg);
    var r1 := Scan(s, p + 1, cfg);
    assert Scan(s, p, cfg) == ([s[p]] + r1.0, r1.1) by {
      assert MatchAt(s, p).None?;
      ScanUnmatched(s, p, cfg);
    }
    PrependOutput(s, p, q, Scan(s, p, cfg), r1, rq);
  }

  /** One copied character in front of a copied run: the two copies make one. */
  lemma PrependOutput(s: string, p: nat, q: nat, x: (string, Config), r1: (string, Config), rq: (string, Config))
    requires p < q <= |s|
    requires x == ([s[p]] + r1.0, r1.1) && r1 == (s[p + 1..q] + rq.0, rq.1)
    ensures x == (s[p..q] + rq.0, rq.1)
  {
    assert [s[p]] + s[p + 1..q] == s[p..q];
    assert [s[p]] + (s[p + 1..q] + rq.0) == ([s[p]] + s[p + 1..q]) + rq.0;
  }

  lemma IdDirectiveMatch(s: string)
    requires s == "Install :id=setup"
    ensures MatchAt(s, 7) == Some(Match("id", Some("setup"), 17))
  {
    IdDirectiveRuns(s);
    assert s[9..11] == "id" && s[12..17] == "setup";
    assert IsSpace(s[7]) && s[8] == ':';
  }

  lemma IdDirectiveRuns(s: string)
    requires s == "Install :id=setup"
    ensures KeyRun(s, 9) == 2 && s[11] == '=' && ValueRun(s, 12) == 5
  {
    assert KeyRun(s, 11) == 0;
    assert ValueRun(s, 17) == 0;
  }

  lemma IdDirectivePrefix(s: string)
    requires s == "Install :id=setup"
    ensures Scan(s, 0, map[]) == (s[0..7] + Scan(s, 7, map[]).0, Scan(s, 7, map[]).1)
  {
    ScanSkip(s, 0, 7, map[]);
  }

  lemma IdDirectiveSuffix(s: string)
    requires s == "Install :id=setup"
    ensures Scan(s, 7, map[]) == ([], map["id" := Text("setup")])
  {
    var m := Match("id", Some("setup"), 17);
    IdDirectiveMatch(s);
    ScanRecorded(s, 7, map[], m);
    QuotNeverInValue("setup");
    assert Scan(s, 17, map["id" := Text("setup")]) == ([], map["id" := Text("setup")]);
  }

  lemma IdDirectiveScan(s: string)
    requires s == "Install :id=setup"
    ensures Scan(s, 0, map[]) == (s[..7], map["id" := Text("setup")])
  {
    var r0, r7 := Scan(s, 0, map[]), Scan(s, 7, map[]);
    IdDirectivePrefix(s);
    IdDirectiveSuffix(s);
    assert r7.0 == [];
    assert r0.0 == s[0..7] + [];
    assert s[0..7] + [] == s[..7];
  }

  /** `:id=setup` after a space is removed, with the space, and recorded. */
  lemma ExplicitIdExample(s: string)
    requires s == "Install :id=setup"
    ensures GetAndRemoveConfig(s) == Parsed("Install", map["id" := Text("setup")])
  {
    var w := s[..7];
    assert w == "Install";
    assert !IsSpace(w[0]) && !IsSpace(w[6]);
    IdDirectiveScan(s);
    UnquotedConfig(s, w, map["id" := Text("setup")]);
  }

  lemma ColonKeyMatch(s: string)
    requires s == "at :a:b"
    ensures MatchAt(s, 2) == Some(Match("a:", Some("b"), 7))
  {
    assert KeyRun(s, 4) == 1 by {
      assert KeyRun(s, 5) == 0;
    }
    assert ValueRun(s, 6) == 1 by {
      assert ValueRun(s, 7) == 0;
    }
    assert s[4..6] == "a:" && s[6..7] == "b" && s[5] == ':';
    assert IsSpace(s[2]) && s[3] == ':';
  }

  lemma ColonKeyScan(s: string)
    requires s == "at :a:b"
    ensures Scan(s, 0, map[]) == (s, map[])
  {
    var m := Match("a:", Some("b"), 7);
    ColonKeyMatch(s);
    ScanSkip(s, 0, 2, map[]);
    ScanKept(s, 2, map[], m);
    assert s[0..2] + s[2..7] == s;
  }

  /** `:a:b` has a colon inside its key, so it is neither recorded nor removed. */
  lemma ColonInKeyExample(s: string)
    requires s == "at :a:b"
    ensures GetAndRemoveConfig(s) == Parsed(s, map[])
  {
    ColonKeyScan(s);
    UnquotedConfig(s, s, map[]);
  }

  const IgnoreComment: string := "<!-- {docsify-ignore} -->"
  const IgnoreMarker: string := "{docsify-ignore}"
  const IgnoreAllComment: string := "<!-- {docsify-ignore-all} -->"
  const IgnoreAllMarker: string := "{docsify-ignore-all}"

  /**
   * `removeDocsifyIgnoreTag`: the first occurrence of each of the four
   * markers is removed, in this order, and the result is trimmed.
   */
  function RemoveDocsifyIgnoreTag(str: string): (r: string)
    ensures |r| <= |str|
    ensures r == [] || (!IsSpace(r[0]) && !IsSpace(r[|r| - 1]))
    ensures Trim(r) == r
  {
    var x := RemoveFirst(RemoveFirst(RemoveFirst(RemoveFirst(str, IgnoreComment), IgnoreMarker), IgnoreAllComment), IgnoreAllMarker);
    TrimIdempotent(x);
    Trim(x)
  }

  lemma AbsentCharNoMatch(s: string, pat: string, i: nat)
    requires i < |pat|
    requires forall k :: 0 <= k < |s| ==> s[k] != pat[i]
    ensures IndexOf(s, pat, 0) == -1
  {
    forall j | 0 <= j <= |s| ensures !At(s, pat, j) {
      if j + |pat| <= |s| {
        assert s[j..j + |pat|][i] != pat[i];
      }
    }
  }

  /** Text without a `{` holds no marker: it is only trimmed. */
  lemma NoBraceOnlyTrims(str: string)
    requires forall k :: 0 <= k < |str| ==> str[k] != '{'
    ensures RemoveDocsifyIgnoreTag(str) == Trim(str)
  {
    AbsentCharNoMatch(str, IgnoreComment, 5);
    AbsentCharNoMatch(str, IgnoreMarker, 0);
    AbsentCharNoMatch(str, IgnoreAllComment, 5);
    AbsentCharNoMatch(str, IgnoreAllMarker, 0);
  }

  lemma NoCommentInMarkers(s: string)
    requires s == IgnoreMarker + IgnoreMarker
    ensures RemoveFirst(s, IgnoreComment) == s
  {
    AbsentCharNoMatch(s, IgnoreComment, 0);
  }

  lemma FirstMarkerRemoved()
    ensures RemoveFirst(IgnoreMarker + IgnoreMarker, IgnoreMarker) == IgnoreMarker
  {
    var s := IgnoreMarker + IgnoreMarker;
    assert At(s, IgnoreMarker, 0);
    assert s[|IgnoreMarker|..] == IgnoreMarker;
  }

  lemma MarkerHoldsNoIgnoreAll()
    ensures RemoveFirst(IgnoreMarker, IgnoreAllComment) == IgnoreMarker
    ensures RemoveFirst(IgnoreMarker, IgnoreAllMarker) == IgnoreMarker
  {
    AbsentCharNoMatch(IgnoreMarker, IgnoreAllComment, 0);
    assert !At(IgnoreMarker, IgnoreAllMarker, 0);
  }

  /** Only the first bare marker is removed: a second one survives. */
  lemma SecondMarkerSurvives()
    ensures RemoveDocsifyIgnoreTag(IgnoreMarker + IgnoreMarker) == IgnoreMarker
  {
    var s := IgnoreMarker + IgnoreMarker;
    NoCommentInMarkers(s);
    FirstMarkerRemoved();
    MarkerHoldsNoIgnoreAll();
    TrimIdle(IgnoreMarker);
  }

  predicate Lacks(s: string, c: char) {
    forall k :: 0 <= k < |s| ==> s[k] != c
  }

  /**
   * When character `i` of `pat` occurs in `s` only at `x`, the only
   * place `pat` can start is `x - i`.
   */
  lemma MatchOnlyAt(s: string, pat: string, i: nat, x: int)
    requires i < |pat|
    requires forall k :: 0 <= k < |s| && k != x ==> s[k] != pat[i]
    ensures IndexOf(s, pat, 0) == if At(s, pat, x - i) then x - i else -1
  {
    forall j | 0 <= j <= |s| && j != x - i ensures !At(s, pat, j) {
      if j + |pat| <= |s| {
        assert s[j..j + |pat|][i] == s[j + i];
      }
    }
  }

  /** The one `{` of `m`, at `i`, is the one `{` of `a + m + b`. */
  lemma OneBrace(a: string, m: string, b: string, i: nat)
    requires Lacks(a, '{') && Lacks(b, '{')
    requires i < |m| && forall k :: 0 <= k < |m| && k != i ==> m[k] != '{'
    ensures forall k :: 0 <= k < |a + m + b| && k != |a| + i ==> (a + m + b)[k] != '{'
  {}

  lemma NoBrace(a: string, b: string)
    requires Lacks(a, '{') && Lacks(b, '{')
    ensures Lacks(a + b, '{')
  {}

  /** Where each marker has its one `{`. */
  lemma MarkerBraces()
    ensures forall k :: 0 <= k < |IgnoreComment| && k != 5 ==> IgnoreComment[k] != '{'
    ensures forall k :: 0 < k < |IgnoreMarker| ==> IgnoreMarker[k] != '{'
    ensures forall k :: 0 <= k < |IgnoreAllComment| && k != 5 ==> IgnoreAllComment[k] != '{'
    ensures forall k :: 0 < k < |IgnoreAllMarker| ==> IgnoreAllMarker[k] != '{'
  {}

  /** A marker not followed by the others: only trimming is left. */
  lemma RestIdle(s: string)
    requires Lacks(s, '{')
    ensures RemoveFirst(s, IgnoreMarker) == s
    ensures RemoveFirst(s, IgnoreAllComment) == s
    ensures RemoveFirst(s, IgnoreAllMarker) == s
  {
    AbsentCharNoMatch(s, IgnoreMarker, 0);
    AbsentCharNoMatch(s, IgnoreAllComment, 5);
    AbsentCharNoMatch(s, IgnoreAllMarker, 0);
  }

  /** `pat` found right after `a`: removing it leaves `a + b`. */
  lemma RemovedAfter(a: string, pat: string, b: string)
    requires IndexOf(a + pat + b, pat, 0) == |a|
    ensures RemoveFirst(a + pat + b, pat) == a + b
  {
    var s := a + pat + b;
    assert s[..|a|] == a;
    assert s[|a| + |pat|..] == b;
  }

  /** `<!-- {docsify-ignore} -->` in text otherwise free of `{`, and without `<` before it, is cut out. */
  lemma CommentRemoved(a: string, b: string)
    requires Lacks(a, '{') && Lacks(b, '{')
    ensures RemoveDocsifyIgnoreTag(a + IgnoreComment + b) == Trim(a + b)
  {
    var s := a + IgnoreComment + b;
    MarkerBraces();
    OneBrace(a, IgnoreComment, b, 5);
    assert s[|a|..|a| + |IgnoreComment|] == IgnoreComment;
    OnlyBraceAt(s, IgnoreComment, 5, |a| + 5);
    RemovedAfter(a, IgnoreComment, b);
    NoBrace(a, b);
    RestIdle(a + b);
  }

  /** A comment cannot start five characters before `a` ends when `a` holds no `<`. */
  lemma NoCommentBefore(a: string, b: string, pat: string)
    requires Lacks(a, '<') && pat != [] && pat[0] == '<'
    ensures !At(a + b, pat, |a| - 5)
  {}

  /** `{docsify-ignore}` in text otherwise free of `{`, without `<` before it, is cut out. */
  lemma MarkerCut(a: string, b: string)
    requires Lacks(a, '<') && Lacks(a, '{') && Lacks(b, '{')
    ensures RemoveDocsifyIgnoreTag(a + IgnoreMarker + b) == Trim(a + b)
  {
    var s := a + IgnoreMarker + b;
    MarkerBraces();
    OneBrace(a, IgnoreMarker, b, 0);
    NoCommentBefore(a, IgnoreMarker + b, IgnoreComment);
    assert s == a + (IgnoreMarker + b);
    OnlyBraceAt(s, IgnoreComment, 5, |a|);
    assert s[|a|..|a| + |IgnoreMarker|] == IgnoreMarker;
    OnlyBraceAt(s, IgnoreMarker, 0, |a|);
    RemovedAfter(a, IgnoreMarker, b);
    NoBrace(a, b);
    RestIdle(a + b);
  }

  /** `<!-- {docsify-ignore-all} -->` in text otherwise free of `{` is cut out; the shorter markers do not match inside it. */
  lemma AllCommentCut(a: string, b: string)
    requires Lacks(a, '{') && Lacks(b, '{')
    ensures RemoveDocsifyIgnoreTag(a + IgnoreAllComment + b) == Trim(a + b)
  {
    AllCommentFound(a, b);
    RemovedAfter(a, IgnoreAllComment, b);
    NoBrace(a, b);
    RestIdle(a + b);
  }

  /** Only the ignore-all comment is found in it: the shorter markers do not match inside it. */
  lemma AllCommentFound(a: string, b: string)
    requires Lacks(a, '{') && Lacks(b, '{')
    ensures IndexOf(a + IgnoreAllComment + b, IgnoreComment, 0) == -1
    ensures IndexOf(a + IgnoreAllComment + b, IgnoreMarker, 0) == -1
    ensures IndexOf(a + IgnoreAllComment + b, IgnoreAllComment, 0) == |a|
  {
    var s := a + IgnoreAllComment + b;
    AllCommentLaidOut(a, b);
    CommentNotAtAll(s, |a|);
    OnlyBraceAt(s, IgnoreComment, 5, |a| + 5);
    MarkerNotAtAll(s, |a|);
    OnlyBraceAt(s, IgnoreMarker, 0, |a| + 5);
    OnlyBraceAt(s, IgnoreAllComment, 5, |a| + 5);
  }

  /** A marker whose `{` is at `i` can only start `i` before the one `{` of `s`. */
  lemma OnlyBraceAt(s: string, pat: string, i: nat, x: int)
    requires i < |pat| && pat[i] == '{'
    requires forall k :: 0 <= k < |s| && k != x ==> s[k] != '{'
    ensures IndexOf(s, pat, 0) == if At(s, pat, x - i) then x - i else -1
  {
    MatchOnlyAt(s, pat, i, x);
  }

  /** `<!-- {docsify-ignore} -->` is not found where the ignore-all comment is. */
  lemma CommentNotAtAll(s: string, i: nat)
    requires i + |IgnoreAllComment| <= |s| && s[i..i + |IgnoreAllComment|] == IgnoreAllComment
    ensures !At(s, IgnoreComment, i)
  {
    assert s[i + 20] == s[i..i + |IgnoreAllComment|][20];
  }

  /** `{docsify-ignore}` is not found inside the ignore-all comment. */
  lemma MarkerNotAtAll(s: string, i: nat)
    requires i + |IgnoreAllComment| <= |s| && s[i..i + |IgnoreAllComment|] == IgnoreAllComment
    ensures !At(s, IgnoreMarker, i + 5)
  {
    assert s[i + 20] == s[i..i + |IgnoreAllComment|][20];
  }

  /** Where the ignore-all comment sits, and that its `{` is the only one. */
  lemma AllCommentLaidOut(a: string, b: string)
    requires Lacks(a, '{') && Lacks(b, '{')
    ensures var s := a + IgnoreAllComment + b;
      s[|a|..|a| + |IgnoreAllComment|] == IgnoreAllComment &&
      forall k :: 0 <= k < |s| && k != |a| + 5 ==> s[k] != '{'
  {
    var s := a + IgnoreAllComment + b;
    MarkerBraces();
    OneBrace(a, IgnoreAllComment, b, 5);
    assert s[|a|..|a| + |IgnoreAllComment|] == IgnoreAllComment;
  }

  /** `{docsify-ignore-all}` in text otherwise free of `{`, without `<` before it, is cut out. */
  lemma AllMarkerCut(a: string, b: string)
    requires Lacks(a, '<') && Lacks(a, '{') && Lacks(b, '{')
    ensures RemoveDocsifyIgnoreTag(a + IgnoreAllMarker + b) == Trim(a + b)
  {
    AllMarkerNoComment(a, b);
    AllMarkerFound(a, b);
    RemovedAfter(a, IgnoreAllMarker, b);
  }

  /** Neither comment is found around the ignore-all marker when no `<` comes before it. */
  lemma AllMarkerNoComment(a: string, b: string)
    requires Lacks(a, '<') && Lacks(a, '{') && Lacks(b, '{')
    ensures IndexOf(a + IgnoreAllMarker + b, IgnoreComment, 0) == -1
    ensures IndexOf(a + IgnoreAllMarker + b, IgnoreAllComment, 0) == -1
  {
    var s := a + IgnoreAllMarker + b;
    MarkerBraces();
    OneBrace(a, IgnoreAllMarker, b, 0);
    assert s == a + (IgnoreAllMarker + b);
    NoCommentBefore(a, IgnoreAllMarker + b, IgnoreComment);
    OnlyBraceAt(s, IgnoreComment, 5, |a|);
    NoCommentBefore(a, IgnoreAllMarker + b, IgnoreAllComment);
    OnlyBraceAt(s, IgnoreAllComment, 5, |a|);
  }

  /** Of the two markers, only the ignore-all one is found, right after `a`. */
  lemma AllMarkerFound(a: string, b: string)
    requires Lacks(a, '{') && Lacks(b, '{')
    ensures IndexOf(a + IgnoreAllMarker + b, IgnoreMarker, 0) == -1
    ensures IndexOf(a + IgnoreAllMarker + b, IgnoreAllMarker, 0) == |a|
  {
    var s := a + IgnoreAllMarker + b;
    MarkerBraces();
    OneBrace(a, IgnoreAllMarker, b, 0);
    assert s[|a|..|a| + |IgnoreAllMarker|] == IgnoreAllMarker;
    assert s[|a| + 15] == '-';
    assert !At(s, IgnoreMarker, |a|);
    OnlyBraceAt(s, IgnoreMarker, 0, |a|);
    OnlyBraceAt(s, IgnoreAllMarker, 0, |a|);
  }

  /**
   * One marker in a heading otherwise free of `{`, with no `<` before
   * it: the marker is cut out and the rest is trimmed.
   */
  lemma MarkerRemoved(a: string, m: string, b: string)
    requires m == IgnoreComment || m == IgnoreMarker || m == IgnoreAllComment || m == IgnoreAllMarker
    requires Lacks(a, '<') && Lacks(a, '{') && Lacks(b, '{')
    ensures RemoveDocsifyIgnoreTag(a + m + b) == Trim(a + b)
  {
    if m == IgnoreComment {
      CommentRemoved(a, b);
    } else if m == IgnoreMarker {
      MarkerCut(a, b);
    } else if m == IgnoreAllComment {
      AllCommentCut(a, b);
    } else {
      AllMarkerCut(a, b);
    }
  }
}

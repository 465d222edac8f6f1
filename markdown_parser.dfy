/** The text passes of `MarkdownParser` (scripts/utils/markdown_parser.py):
    front matter, the wikilink preprocessor, fenced code handed to the
    code-block styler, strikethrough, bare-URL autolinking, the table and
    URL-card rewrites on the rendered HTML, and the two title heuristics.
    Each regular expression is written as a scanner with Python's
    leftmost, non-overlapping `re.sub` semantics; most scanners look at the
    suffix of the text they stand on, so `Pass(s)` recurses on `s[1..]`
    after a character that starts no match. */
module MarkdownParser {
  import opened Wrappers
  import opened Text
  import CodeHighlighter

  // ---------------------------------------------------------------------
  // Front matter

  /** A front-matter value as the passes observe it: its `str()` and its
      truthiness. */
  datatype Value = Value(text: string, truthy: bool)

  type Metadata = map<string, Value>

  /** What `yaml.safe_load` produces: a mapping, some other value (only its
      truthiness is observed), or a raised `YAMLError`. */
  datatype Loaded = Mapping(entries: Metadata) | Scalar(truthy: bool) | YamlError

  datatype Frontmatter = Frontmatter(metadata: Metadata, body: string)

  /** `d` is exactly a match of `\n---\s*\n`. */
  predicate IsDelimiter(d: string) {
    && |d| >= 5 && d[..4] == "\n---" && d[|d| - 1] == '\n'
    && forall k :: 4 <= k < |d| - 1 ==> IsSpace(d[k])
  }

  /** Index of the last newline in `u`. */
  function LastNewline(u: string): (r: Option<nat>)
    ensures r.Some? ==> r.value < |u| && u[r.value] == '\n'
    ensures r.Some? ==> forall k :: r.value < k < |u| ==> u[k] != '\n'
    ensures r.None? ==> forall k :: 0 <= k < |u| ==> u[k] != '\n'
    decreases |u|
  {
    if |u| == 0 then None
    else if u[|u| - 1] == '\n' then Some(|u| - 1)
    else LastNewline(u[..|u| - 1])
  }

  /** Length of the match of `\n---\s*\n` at the start of `t`: `\s*` first
      takes the whole whitespace run, then gives characters back until a
      newline follows, so the match ends after the run's last newline. */
  function DelimiterLen(t: string): (r: Option<nat>)
    ensures r.Some? ==> r.value <= |t| && IsDelimiter(t[..r.value])
  {
    if !("\n---" <= t) then None
    else
      var w := SpanLen(t[4..], Whitespace);
      var j := LastNewline(t[4..4 + w]);
      if j.None? then None
      else
        assert t[..4 + j.value + 1][..4] == t[..4];
        Some(4 + j.value + 1)
  }

  /** `DelimiterLen` is the longest match: no longer prefix is a
      delimiter, and there is none when it finds none. */
  lemma DelimiterLenLongest(t: string)
    ensures DelimiterLen(t).Some? ==> forall k :: DelimiterLen(t).value < k <= |t| ==> !IsDelimiter(t[..k])
    ensures DelimiterLen(t).None? ==> forall k :: 0 <= k <= |t| ==> !IsDelimiter(t[..k])
  {
    if !("\n---" <= t) {
      assert forall k :: 0 <= k <= |t| && IsDelimiter(t[..k]) ==> t[..k][..4] == t[..4];
    } else {
      DelimiterBound(t, SpanLen(t[4..], Whitespace));
    }
  }

  /** A delimiter at the start of `t` ends inside the whitespace run after
      `\n---`, on a newline. */
  lemma DelimiterBound(t: string, w: nat)
    requires "\n---" <= t && w == SpanLen(t[4..], Whitespace)
    ensures forall k :: 0 <= k <= |t| && IsDelimiter(t[..k]) ==>
      k - 1 - 4 < w && t[4..4 + w][k - 1 - 4] == '\n'
  {
    forall k | 0 <= k <= |t| && IsDelimiter(t[..k])
      ensures k - 1 - 4 < w && t[4..4 + w][k - 1 - 4] == '\n'
    {
      var d := t[..k];
      assert forall m :: 4 <= m < k - 1 ==> t[4..][m - 4] == d[m];
    }
  }

  /** A delimiter starts at position `p` of `t`. */
  predicate DelimiterAt(t: string, p: nat)
    requires p <= |t|
  {
    DelimiterLen(t[p..]).Some?
  }

  /** `re.search(r'\n---\s*\n', t)` from position `q`: the first position
      where a delimiter starts. */
  function FindDelimiter(t: string, q: nat): (r: Option<nat>)
    requires q <= |t|
    ensures r.Some? ==> q <= r.value <= |t| && DelimiterAt(t, r.value)
    ensures r.Some? ==> forall p :: q <= p < r.value ==> !DelimiterAt(t, p)
    ensures r.None? ==> forall p :: q <= p <= |t| ==> !DelimiterAt(t, p)
    decreases |t| - q
  {
    if DelimiterAt(t, q) then Some(q)
    else if q == |t| then None
    else FindDelimiter(t, q + 1)
  }

  /** `parse_frontmatter`. `load` is `yaml.safe_load`; `None` is the
      `AttributeError` raised when YAML yields a truthy non-mapping, which
      the method does not catch. */
  function ParseFrontmatter(content: string, load: string -> Loaded): Option<Frontmatter> {
    if !("---" <= content) then Some(Frontmatter(map[], content))
    else AfterOpening(content, content[3..], load)
  }

  /** `parse_frontmatter` after the opening `---`; `t` is the rest. */
  function AfterOpening(content: string, t: string, load: string -> Loaded): Option<Frontmatter> {
    var start := FindDelimiter(t, 0);
    if start.None? then Some(Frontmatter(map[], content))
    else
      var end := start.value + DelimiterLen(t[start.value..]).value;
      LoadedFrontmatter(content, load(t[..start.value]), t[end..])
  }

  /** `parse_frontmatter` once the YAML text and the body are split. */
  function LoadedFrontmatter(content: string, loaded: Loaded, body: string): Option<Frontmatter> {
    match loaded
    case YamlError => Some(Frontmatter(map[], content))
    case Mapping(m) => Some(Frontmatter(m, body))
    case Scalar(truthy) => if truthy then None else Some(Frontmatter(map[], body))
  }

  /** The text is returned whole, with no metadata, when it does not start
      with `---`, when no closing delimiter follows, or when YAML fails. */
  lemma FrontmatterFallback(content: string, load: string -> Loaded)
    ensures !("---" <= content) ==> ParseFrontmatter(content, load) == Some(Frontmatter(map[], content))
    ensures "---" <= content && FindDelimiter(content[3..], 0).None? ==>
      ParseFrontmatter(content, load) == Some(Frontmatter(map[], content))
    ensures ("---" <= content && FindDelimiter(content[3..], 0).Some? &&
             load(content[3..][..FindDelimiter(content[3..], 0).value]).YamlError?) ==>
      ParseFrontmatter(content, load) == Some(Frontmatter(map[], content))
  {
  }

  /** Where the YAML text and the body lie once the first delimiter is
      found at `p`, `n` characters long. */
  lemma AfterOpeningAt(content: string, t: string, load: string -> Loaded, p: nat, n: nat)
    requires FindDelimiter(t, 0) == Some(p) && DelimiterLen(t[p..]) == Some(n)
    ensures AfterOpening(content, t, load) == LoadedFrontmatter(content, load(t[..p]), t[p + n..])
  {
  }

  lemma DelimiterLenBounds(u: string, n: nat)
    requires DelimiterLen(u) == Some(n)
    ensures 5 <= n <= |u|
  {
    assert IsDelimiter(u[..n]);
  }

  lemma OpenedParse(content: string, load: string -> Loaded)
    requires "---" <= content
    ensures ParseFrontmatter(content, load) == AfterOpening(content, content[3..], load)
  {
  }

  /** A result that is not the whole text carries the split body. */
  lemma LoadedBody(content: string, loaded: Loaded, body: string)
    requires LoadedFrontmatter(content, loaded, body).Some?
    requires LoadedFrontmatter(content, loaded, body).value.body != content
    ensures LoadedFrontmatter(content, loaded, body).value.body == body
  {
  }

  /** Whenever a delimiter is found, the body is what follows it: a proper
      suffix of the text that leaves out at least `---` and a
      five-character delimiter. */
  lemma FrontmatterBodySuffix(content: string, load: string -> Loaded)
    requires "---" <= content && FindDelimiter(content[3..], 0).Some?
    requires ParseFrontmatter(content, load).Some?
    requires ParseFrontmatter(content, load).value.body != content
    ensures var body := ParseFrontmatter(content, load).value.body;
      |body| + 8 <= |content| && body == content[|content| - |body|..]
  {
    var t := content[3..];
    var p := FindDelimiter(t, 0).value;
    assert DelimiterAt(t, p);
    var n := DelimiterLen(t[p..]).value;
    OpenedParse(content, load);
    AfterOpeningAt(content, t, load, p, n);
    DelimiterLenBounds(t[p..], n);
    LoadedBody(content, load(t[..p]), t[p + n..]);
    BodySuffixOf(content, p + n);
  }

  lemma BodySuffixOf(content: string, end: nat)
    requires 3 <= |content| && 5 <= end <= |content| - 3
    ensures var body := content[3..][end..];
      |body| + 8 <= |content| && body == content[|content| - |body|..]
  {
  }

  /** `"---" + yaml + d + body` splits at `d` when `d` is a delimiter, the
      YAML text holds no `\n---`, and the body does not start with
      whitespace (which the delimiter's `\s*` would swallow). */
  lemma FrontmatterSplit(yaml: string, d: string, body: string, load: string -> Loaded)
    requires IsDelimiter(d) && !Contains(yaml, "\n---")
    requires body == [] || !IsSpace(body[0])
    requires load(yaml).Mapping?
    ensures ParseFrontmatter("---" + yaml + d + body, load) == Some(Frontmatter(load(yaml).entries, body))
  {
    var content := "---" + yaml + d + body;
    var t := yaml + (d + body);
    assert "---" <= content && content[3..] == t;
    ClosingFound(yaml, d, body);
    AfterOpeningAt(content, t, load, |yaml|, |d|);
    assert t[..|yaml|] == yaml;
    assert t[|yaml| + |d|..] == body;
  }

  /** The first delimiter of `yaml + d + body` is `d`, matched whole. */
  lemma ClosingFound(yaml: string, d: string, body: string)
    requires IsDelimiter(d) && !Contains(yaml, "\n---")
    requires body == [] || !IsSpace(body[0])
    ensures FindDelimiter(yaml + (d + body), 0) == Some(|yaml|)
    ensures DelimiterLen((yaml + (d + body))[|yaml|..]) == Some(|d|)
  {
    var t := yaml + (d + body);
    NoDelimiterBefore(yaml, d + body);
    DelimiterLenExact(d, body);
    assert t[|yaml|..] == d + body;
    FindDelimiterAt(t, 0, |yaml|);
  }

  lemma {:induction false} FindDelimiterAt(t: string, q: nat, p: nat)
    requires q <= p <= |t|
    requires DelimiterAt(t, p)
    requires forall m :: q <= m < p ==> !DelimiterAt(t, m)
    ensures FindDelimiter(t, q) == Some(p)
    decreases p - q
  {
    if q < p {
      FindDelimiterAt(t, q + 1, p);
    }
  }

  /** No delimiter starts inside a YAML text without `\n---` when a
      delimiter follows it: the only newline of `\n---` is its first
      character. */
  lemma NoDelimiterBefore(yaml: string, rest: string)
    requires !Contains(yaml, "\n---") && "\n---" <= rest
    ensures forall m :: 0 <= m < |yaml| ==> !DelimiterAt(yaml + rest, m)
  {
    forall m | 0 <= m < |yaml|
      ensures !DelimiterAt(yaml + rest, m)
    {
      NoDelimiterInside(yaml, rest, m);
    }
  }

  lemma NoDelimiterInside(yaml: string, rest: string, m: nat)
    requires !Contains(yaml, "\n---") && "\n---" <= rest && m < |yaml|
    ensures !("\n---" <= (yaml + rest)[m..])
  {
    var t := yaml + rest;
    if m + 4 <= |yaml| {
      if "\n---" <= t[m..] {
        assert yaml[m..m + 4] == t[m..][..4];
        ContainsAt(yaml, "\n---", m);
      }
    } else {
      StraddleNotDelimiter(t, m, |yaml|);
    }
  }

  /** `\n---` cannot start at `m` when a newline sits at one of its three
      dashes. */
  lemma StraddleNotDelimiter(t: string, m: nat, j: nat)
    requires m < j < m + 4 && j < |t| && t[j] == '\n'
    ensures !("\n---" <= t[m..])
  {
    var k := j - m;
    assert t[m..][k] == '\n';
    assert "\n---"[k] == '-';
  }

  /** A delimiter followed by a non-space character is matched whole. */
  lemma DelimiterLenExact(d: string, body: string)
    requires IsDelimiter(d)
    requires body == [] || !IsSpace(body[0])
    ensures DelimiterLen(d + body) == Some(|d|)
  {
    var t := d + body;
    assert t[..|d|] == d;
    assert t[..4] == d[..4];
    var w := SpanLen(t[4..], Whitespace);
    assert forall k :: 0 <= k < |d| - 4 ==> t[4..][k] == d[4 + k];
    SpanLenAt(t[4..], Whitespace, |d| - 4);
    var u := t[4..4 + w];
    assert u[|d| - 5] == '\n';
    var j := LastNewline(u);
    assert j == Some(|d| - 5);
  }

  // ---------------------------------------------------------------------
  // Wikilinks

  /** A match of `\[\[([^\]|]+)(?:\|([^\]]+))?\]\]`: its length, the page
      (group 1) and the link text (group 2). */
  datatype WikiMatch = WikiMatch(len: nat, target: string, alias: Option<string>)

  /** The wikilink match at the start of `s`, if any. Both runs are greedy
      and the characters that end them are the only ones the pattern can
      continue with, so backtracking never finds a shorter match. */
  function WikiLen(s: string): (r: Option<WikiMatch>)
    ensures r.Some? ==> 5 <= r.value.len <= |s|
  {
    if !("[[" <= s) then None
    else WikiAfterPage(s, 2 + BreakLen(s[2..], {']', '|'}))
  }

  /** The match once group 1 has run up to `e1`. */
  function WikiAfterPage(s: string, e1: nat): (r: Option<WikiMatch>)
    requires 2 <= e1 <= |s|
    ensures r.Some? ==> 5 <= r.value.len <= |s|
  {
    if e1 == 2 || e1 == |s| then None
    else if s[e1] == '|' then WikiAfterText(s, e1, e1 + 1 + BreakLen(s[e1 + 1..], {']'}))
    else if "]]" <= s[e1..] then Some(WikiMatch(e1 + 2, s[2..e1], None))
    else None
  }

  /** The match once group 2, after the `|` at `e1`, has run up to `e2`. */
  function WikiAfterText(s: string, e1: nat, e2: nat): (r: Option<WikiMatch>)
    requires 2 < e1 && e1 + 1 <= e2 <= |s|
    ensures r.Some? ==> 5 <= r.value.len <= |s|
  {
    if e2 > e1 + 1 && "]]" <= s[e2..] then Some(WikiMatch(e2 + 2, s[2..e1], Some(s[e1 + 1..e2])))
    else None
  }

  /** A match starts with `[[`, ends with `]]`, and its page is the text
      after `[[`. */
  lemma WikiLenSound(s: string)
    requires WikiLen(s).Some?
    ensures var m := WikiLen(s).value;
      && "[[" <= s && s[m.len - 2..m.len] == "]]"
      && 0 < |m.target| && 2 + |m.target| <= |s| && s[2..2 + |m.target|] == m.target
  {
    var e1 := 2 + BreakLen(s[2..], {']', '|'});
    if s[e1] == '|' {
      var e2 := e1 + 1 + BreakLen(s[e1 + 1..], {']'});
      assert s[e2..][..2] == "]]";
    } else {
      assert s[e1..][..2] == "]]";
    }
  }

  /** The text and URL a wikilink becomes: group 2, or group 1 when there is
      no group 2, and the page's slug URL. */
  function WikiReplacement(m: WikiMatch): string {
    "[" + (if m.alias.Some? then m.alias.value else m.target) + "](" + WikiUrl(m.target) + ")"
  }

  /** `_wiki_to_url` */
  function WikiUrl(page: string): string {
    "/articles/" + Slug(page)
  }

  /** The wikilink substitution. With `excludeBang` the pattern carries the
      lookbehind `(?<!\!)`, and `afterBang` says whether the character before
      `s` was `!`. */
  function WikiLinks(s: string, afterBang: bool, excludeBang: bool): string
    decreases |s|
  {
    if s == [] then []
    else
      var m := if excludeBang && afterBang then None else WikiLen(s);
      if m.Some? then WikiReplacement(m.value) + WikiLinks(s[m.value.len..], false, excludeBang)
      else [s[0]] + WikiLinks(s[1..], s[0] == '!', excludeBang)
  }

  /** The substitution `ObsidianLinkPreprocessor.run` applies to one line. */
  function PreprocessLine(line: string): string {
    WikiLinks(line, false, true)
  }

  /** `ObsidianLinkPreprocessor.run`: one output line per input line. */
  method PreprocessLines(lines: seq<string>) returns (newLines: seq<string>)
    ensures |newLines| == |lines|
    ensures forall k :: 0 <= k < |lines| ==> newLines[k] == PreprocessLine(lines[k])
  {
    newLines := [];
    for i := 0 to |lines|
      invariant |newLines| == i
      invariant forall k :: 0 <= k < i ==> newLines[k] == PreprocessLine(lines[k])
    {
      var line := PreprocessLine(lines[i]);
      newLines := newLines + [line];
    }
  }

  /** Characters of `[^\]|]` and `[^\]]`. */
  predicate NoneIn(s: string, cs: set<char>) {
    forall k :: 0 <= k < |s| ==> s[k] !in cs
  }

  /** `[[page|text]]` is recognised with both groups. */
  lemma WikiLenAlias(s: string, page: string, text: string)
    requires |page| > 0 && NoneIn(page, {']', '|'})
    requires |text| > 0 && NoneIn(text, {']'})
    requires s == "[[" + page + "|" + text + "]]"
    ensures WikiLen(s) == Some(WikiMatch(|s|, page, Some(text)))
  {
    var e1 := 2 + |page|;
    AliasPageRun(s, page, text);
    AliasTextRun(s, page, text);
    assert s[2..e1] == page;
    assert s[e1 + 1..e1 + 1 + |text|] == text;
    assert s[e1 + 1 + |text|..] == "]]";
  }

  lemma AliasPageRun(s: string, page: string, text: string)
    requires |page| > 0 && NoneIn(page, {']', '|'})
    requires s == "[[" + page + "|" + text + "]]"
    ensures "[[" <= s && BreakLen(s[2..], {']', '|'}) == |page| && s[2 + |page|] == '|'
  {
    assert s[2..] == page + ("|" + text + "]]");
    BreakLenAt(s[2..], {']', '|'}, |page|);
  }

  lemma AliasTextRun(s: string, page: string, text: string)
    requires |text| > 0 && NoneIn(text, {']'})
    requires s == "[[" + page + "|" + text + "]]"
    ensures BreakLen(s[3 + |page|..], {']'}) == |text|
  {
    assert s[3 + |page|..] == text + "]]";
    BreakLenAt(s[3 + |page|..], {']'}, |text|);
  }

  /** `[[page]]` is recognised with no group 2. */
  lemma WikiLenPlain(s: string, page: string)
    requires |page| > 0 && NoneIn(page, {']', '|'})
    requires s == "[[" + page + "]]"
    ensures WikiLen(s) == Some(WikiMatch(|s|, page, None))
  {
    assert s[2..] == page + "]]";
    BreakLenAt(s[2..], {']', '|'}, |page|);
    assert s[2..2 + |page|] == page;
    assert s[2 + |page|..] == "]]";
  }

  /** A whole-text match is replaced and nothing follows it. */
  lemma WikiWhole(s: string, m: WikiMatch, excludeBang: bool)
    requires WikiLen(s) == Some(m) && m.len == |s|
    ensures WikiLinks(s, false, excludeBang) == WikiReplacement(m)
  {
    assert s[m.len..] == [];
  }

  /** `[[Foo Bar|Click]]` becomes `[Click](/articles/<slug of Foo Bar>)`. */
  lemma WikiAliasRewrite(page: string, text: string, excludeBang: bool)
    requires |page| > 0 && NoneIn(page, {']', '|'})
    requires |text| > 0 && NoneIn(text, {']'})
    ensures WikiLinks("[[" + page + "|" + text + "]]", false, excludeBang)
         == "[" + text + "](/articles/" + Slug(page) + ")"
  {
    var s := "[[" + page + "|" + text + "]]";
    WikiLenAlias(s, page, text);
    var m := WikiMatch(|s|, page, Some(text));
    WikiWhole(s, m, excludeBang);
    WikiLinkText(text, page);
    assert WikiReplacement(m) == "[" + text + "](" + WikiUrl(page) + ")";
  }

  /** The link a wikilink becomes, written out. */
  lemma WikiLinkText(shown: string, page: string)
    ensures "[" + shown + "](" + WikiUrl(page) + ")" == "[" + shown + "](/articles/" + Slug(page) + ")"
  {
    var u := Slug(page);
    assert "](" + "/articles/" == "](/articles/";
    RegroupMiddle("[", shown, "](", "/articles/" + u, ")");
    RegroupMiddle("[", shown, "](" + "/articles/", u, ")");
  }

  /** `[[Foo Bar]]` becomes `[Foo Bar](/articles/<slug of Foo Bar>)`. */
  lemma WikiPlainRewrite(page: string, excludeBang: bool)
    requires |page| > 0 && NoneIn(page, {']', '|'})
    ensures WikiLinks("[[" + page + "]]", false, excludeBang) == "[" + page + "](/articles/" + Slug(page) + ")"
  {
    var s := "[[" + page + "]]";
    WikiLenPlain(s, page);
    var m := WikiMatch(|s|, page, None);
    WikiWhole(s, m, excludeBang);
    WikiLinkText(page, page);
    assert WikiReplacement(m) == "[" + page + "](" + WikiUrl(page) + ")";
  }

  /** Text with no `[` is left alone. */
  lemma {:induction false} WikiLinksNoBracket(s: string, afterBang: bool, excludeBang: bool)
    requires '[' !in s
    ensures WikiLinks(s, afterBang, excludeBang) == s
    decreases |s|
  {
    if s != [] {
      assert !("[[" <= s) by { assert s[0] != '['; }
      assert s[1..] == s[1..];
      assert '[' !in s[1..] by {
        forall k | 0 <= k < |s[1..]| ensures s[1..][k] != '[' { assert s[1..][k] == s[k + 1]; }
      }
      WikiLinksNoBracket(s[1..], s[0] == '!', excludeBang);
    }
  }

  /** The preprocessor never rewrites an image directive `![[page]]`. */
  lemma ImageDirectiveKept(page: string)
    requires '[' !in page
    ensures PreprocessLine("![[" + page + "]]") == "![[" + page + "]]"
  {
    var s := "![[" + page + "]]";
    var u := "[" + page + "]]";
    var v := page + "]]";
    assert s == "!" + ("[" + u) && u == "[" + v;
    assert s[0] == '!' && s[1..] == "[" + u;
    WikiCopied(s, false, true);
    WikiCopied("[" + u, true, true);
    NoSecondBracket(u, page);
    WikiCopied(u, false, true);
    NoBracketAfter(page);
    WikiLinksNoBracket(v, false, true);
  }

  /** One character is copied where no wikilink starts (or the lookbehind
      rules one out). */
  lemma WikiCopied(s: string, afterBang: bool, excludeBang: bool)
    requires s != [] && ((excludeBang && afterBang) || !("[[" <= s))
    ensures WikiLinks(s, afterBang, excludeBang) == [s[0]] + WikiLinks(s[1..], s[0] == '!', excludeBang)
  {
  }

  lemma NoSecondBracket(u: string, page: string)
    requires '[' !in page && u == "[" + page + "]]"
    ensures !("[[" <= u) && u[0] == '[' && u[1..] == page + "]]"
  {
    if |page| > 0 { assert u[1] == page[0]; } else { assert u[1] == ']'; }
  }

  lemma NoBracketAfter(page: string)
    requires '[' !in page
    ensures '[' !in page + "]]"
  {
    forall k | 0 <= k < |page + "]]"| ensures (page + "]]")[k] != '[' {
      if k < |page| { assert (page + "]]")[k] == page[k]; }
    }
  }

  // ---------------------------------------------------------------------
  // Slugs

  predicate IsSlugSeparator(c: char) { IsSpace(c) || c == '_' || c == '-' }

  /** `re.sub(r'[^\w\s-]', '', s)` */
  function KeepSlugChars(s: string): (r: string)
    ensures forall k :: 0 <= k < |r| ==> IsWord(r[k]) || IsSpace(r[k]) || r[k] == '-'
    decreases |s|
  {
    if s == [] then []
    else if IsWord(s[0]) || IsSpace(s[0]) || s[0] == '-' then [s[0]] + KeepSlugChars(s[1..])
    else KeepSlugChars(s[1..])
  }

  /** Length of the run of separators at the start of `s`. */
  function SeparatorRun(s: string): (n: nat)
    ensures n <= |s| && (forall k :: 0 <= k < n ==> IsSlugSeparator(s[k]))
    ensures n < |s| ==> !IsSlugSeparator(s[n])
    decreases |s|
  {
    if |s| > 0 && IsSlugSeparator(s[0]) then 1 + SeparatorRun(s[1..]) else 0
  }

  /** `re.sub(r'[\s_-]+', '-', s)`: every run of separators becomes one `-`. */
  function Collapse(s: string): (r: string)
    ensures forall k :: 0 <= k < |r| ==> r[k] == '-' || !IsSlugSeparator(r[k])
    ensures forall k :: 0 <= k < |r| && r[k] != '-' ==> r[k] in s
    ensures forall k :: 0 <= k < |r| - 1 ==> !(r[k] == '-' && r[k + 1] == '-')
    ensures |r| > 0 ==> |s| > 0 && (r[0] == '-' <==> IsSlugSeparator(s[0]))
    decreases |s|
  {
    if s == [] then []
    else if IsSlugSeparator(s[0]) then
      var n := SeparatorRun(s);
      var rest := Collapse(s[n..]);
      assert forall k :: 0 <= k < |rest| && rest[k] != '-' ==> rest[k] in s by {
        forall k | 0 <= k < |rest| && rest[k] != '-' ensures rest[k] in s {
          assert rest[k] in s[n..];
        }
      }
      "-" + rest
    else
      var rest := Collapse(s[1..]);
      assert forall k :: 0 <= k < |rest| && rest[k] != '-' ==> rest[k] in s by {
        forall k | 0 <= k < |rest| && rest[k] != '-' ensures rest[k] in s {
          assert rest[k] in s[1..];
        }
      }
      [s[0]] + rest
  }

  predicate IsSlugChar(c: char) { 'a' <= c <= 'z' || IsDigit(c) || c == '-' }

  /** The slug of `_wiki_to_url`: drop characters other than word
      characters, whitespace and `-`, strip, collapse separator runs to
      `-`, lower-case. */
  function Slug(page: string): string {
    LowerStr(Collapse(Strip(KeepSlugChars(page))))
  }

  /** A slug is lower-case letters, digits and single `-`s: no whitespace,
      no `_`, no `--`. */
  lemma SlugShape(page: string)
    ensures forall k :: 0 <= k < |Slug(page)| ==> IsSlugChar(Slug(page)[k])
    ensures forall k :: 0 <= k < |Slug(page)| - 1 ==> !(Slug(page)[k] == '-' && Slug(page)[k + 1] == '-')
  {
    var kept := KeepSlugChars(page);
    var stripped := Strip(kept);
    var c := Collapse(stripped);
    forall k | 0 <= k < |c| && c[k] != '-'
      ensures IsLetter(c[k]) || IsDigit(c[k])
    {
      assert c[k] in stripped;
      var j :| 0 <= j < |stripped| && stripped[j] == c[k];
      StripIsSlice(kept);
      assert stripped[j] in kept;
    }
  }

  /** Every character of `Strip(s)` is a character of `s`. */
  lemma StripIsSlice(s: string)
    ensures forall k :: 0 <= k < |Strip(s)| ==> Strip(s)[k] in s
  {
    var a := TrimStartIn(s, Whitespace);
    var b := TrimEndIn(a, Whitespace);
    forall k | 0 <= k < |b| ensures b[k] in s {
      assert b[k] == a[k];
      assert a[k] == s[|s| - |a| + k];
    }
  }

  // ---------------------------------------------------------------------
  // Fenced code

  /** Length of the match of ```` ```[\s\S]*?``` ```` at the start of `s`:
      the lazy body stops at the first ```` ``` ```` after the opening one. */
  function FenceLen(s: string): (r: Option<nat>)
    ensures r.Some? ==> 6 <= r.value <= |s| && s[..3] == "```" && s[r.value - 3..r.value] == "```"
  {
    if !("```" <= s) then None
    else
      match FindFrom(s, "```", 3)
      case None => None
      case Some(k) => Some(k + 3)
  }

  /** `code_content` loses one final newline. */
  function DropFinalNewline(c: string): string {
    if |c| > 0 && c[|c| - 1] == '\n' then c[..|c| - 1] else c
  }

  /** The first newline of a fence lies between its two backtick runs. */
  lemma FenceNewline(full: string)
    requires 6 <= |full| && full[..3] == "```" && full[|full| - 3..] == "```" && '\n' in full
    ensures 3 <= IndexOf(full, '\n') < |full| - 3
  {
    var k := IndexOf(full, '\n');
    var n := |full|;
    assert full[0] == full[..3][0] && full[1] == full[..3][1] && full[2] == full[..3][2];
    assert full[n - 3] == full[n - 3..][0] && full[n - 2] == full[n - 3..][1] && full[n - 1] == full[n - 3..][2];
  }

  /** What `process_code_block` reads from a fence: nothing when the fence
      has no newline, otherwise the stripped text between the opening
      backticks and the first newline, and the code up to the closing
      backticks without one final newline. */
  datatype FenceParts = NoNewline | Parts(info: string, code: string)

  function SplitFence(full: string): FenceParts
    requires 6 <= |full| && full[..3] == "```" && full[|full| - 3..] == "```"
  {
    if '\n' !in full then NoNewline
    else
      var nl := IndexOf(full, '\n');
      FenceNewline(full);
      Parts(Strip(full[3..nl]), DropFinalNewline(full[nl + 1..|full| - 3]))
  }

  /** The replacement `_process_code_blocks_simple` computes for one fence
      `full`: unchanged when it has no newline, otherwise the styled block
      between blank lines. `None` is an exception from the styler. */
  function FenceBlock(full: string, styler: Styler): Option<string>
    requires 6 <= |full| && full[..3] == "```" && full[|full| - 3..] == "```"
  {
    match SplitFence(full)
    case NoNewline => Some(full)
    case Parts(info, code) => StyledBlock(info, code, styler)
  }

  /** The code-block styler: `CodeHighlighter.CodeBlock` when the parser
      runs (see `ToHtml`); `None` is an exception it raises. */
  type Styler = (string, string) -> Option<string>

  /** `'\n\n' + html + '\n\n'` for the styler's output. */
  function StyledBlock(info: string, code: string, styler: Styler): Option<string> {
    match styler(info, code)
    case None => None
    case Some(html) => Some("\n\n" + html + "\n\n")
  }

  /** `_process_code_blocks_simple`: every fence replaced, left to right. */
  function CodeBlocks(s: string, styler: Styler): Option<string>
    decreases |s|
  {
    if s == [] then Some([])
    else
      match FenceLen(s)
      case Some(n) => Concat(FenceBlock(s[..n], styler), CodeBlocks(s[n..], styler))
      case None => Concat(Some([s[0]]), CodeBlocks(s[1..], styler))
  }

  /** Two pieces of output joined, `None` when either raised. */
  function Concat(a: Option<string>, b: Option<string>): (r: Option<string>)
    ensures r.Some? <==> a.Some? && b.Some?
    ensures r.Some? ==> r.value == a.value + b.value
  {
    if a.Some? && b.Some? then Some(a.value + b.value) else None
  }

  /** A fence with no newline is left as it is. */
  lemma FenceBlockNoNewline(full: string, styler: Styler)
    requires 6 <= |full| && full[..3] == "```" && full[|full| - 3..] == "```" && '\n' !in full
    ensures FenceBlock(full, styler) == Some(full)
  {
  }

  /** A text without newlines keeps all its fences: it comes back whole. */
  lemma {:induction false} CodeBlocksNoNewline(s: string, styler: Styler)
    requires '\n' !in s
    ensures CodeBlocks(s, styler) == Some(s)
    decreases |s|
  {
    if s != [] {
      if FenceLen(s).Some? {
        var n := FenceLen(s).value;
        NoNewlineSplit(s, n);
        FenceBlockNoNewline(s[..n], styler);
        CodeBlocksNoNewline(s[n..], styler);
        CodeBlocksFenceStep(s, n, styler);
      } else {
        NoNewlineSplit(s, 1);
        CodeBlocksNoNewline(s[1..], styler);
        CodeBlocksCharStep(s, styler);
      }
    }
  }

  /** Both sides of a cut of a text without newlines have none. */
  lemma NoNewlineSplit(s: string, n: nat)
    requires '\n' !in s && n <= |s|
    ensures '\n' !in s[..n] && '\n' !in s[n..] && s[..n] + s[n..] == s
  {
    NotInParts(s[..n], s[n..], '\n');
  }

  /** One step of `CodeBlocks` where no fence starts. */
  lemma CodeBlocksCharStep(s: string, styler: Styler)
    requires s != [] && FenceLen(s).None?
    ensures CodeBlocks(s, styler) == Concat(Some(s[..1]), CodeBlocks(s[1..], styler))
  {
    assert s[..1] == [s[0]];
  }

  /** The text of a fence with an info line and code. */
  function Fence(info: string, code: string): string {
    "```" + info + "\n" + code + "\n```"
  }

  /** A fence without inner backticks is matched whole. */
  lemma FenceLenWhole(info: string, code: string)
    requires '`' !in info && '\n' !in info && '`' !in code
    ensures FenceLen(Fence(info, code)) == Some(|Fence(info, code)|)
  {
    var s := Fence(info, code);
    var k := |info| + |code| + 5;
    assert s[k..k + 3] == "```";
    assert forall j :: 3 <= j < k ==> s[j] != '`' by {
      forall j | 3 <= j < k ensures s[j] != '`' {
        if j < 3 + |info| { assert s[j] == info[j - 3]; }
        else if 4 + |info| <= j < k - 1 { assert s[j] == code[j - 4 - |info|]; }
      }
    }
    assert forall j :: 3 <= j < k ==> !("```" <= s[j..]) by {
      forall j | 3 <= j < k ensures !("```" <= s[j..]) { assert s[j..][0] == s[j]; }
    }
    FindFromAt(s, "```", 3, k);
  }

  /** Its info string is the stripped first line and its code loses the
      newline before the closing fence. */
  lemma FenceSplitParts(info: string, code: string)
    requires '\n' !in info
    ensures SplitFence(Fence(info, code)) == Parts(Strip(info), code)
  {
    var s := Fence(info, code);
    var nl := 3 + |info|;
    FenceFirstNewline(info, code);
    SplitFenceAt(s, nl);
    assert DropFinalNewline(code + "\n") == code;
  }

  lemma FenceFirstNewline(info: string, code: string)
    requires '\n' !in info
    ensures var s := Fence(info, code);
      && s[..3] == "```" && s[|s| - 3..] == "```"
      && s[3 + |info|] == '\n' && '\n' !in s[..3 + |info|]
      && s[3..3 + |info|] == info && s[3 + |info| + 1..|s| - 3] == code + "\n"
  {
    var s := Fence(info, code);
    var nl := 3 + |info|;
    assert '\n' !in s[..nl] by {
      forall j | 0 <= j < nl ensures s[..nl][j] != '\n' {
        if j >= 3 { assert s[j] == info[j - 3]; }
      }
    }
  }

  lemma SplitFenceAt(full: string, nl: nat)
    requires 6 <= |full| && full[..3] == "```" && full[|full| - 3..] == "```"
    requires nl < |full| && full[nl] == '\n' && '\n' !in full[..nl]
    ensures 3 <= nl < |full| - 3
    ensures SplitFence(full) == Parts(Strip(full[3..nl]), DropFinalNewline(full[nl + 1..|full| - 3]))
  {
    IndexOfAt(full, '\n', nl);
    FenceNewline(full);
  }

  /** A fence whose info line and code hold no backtick is replaced by the
      styled block of the stripped info string and the code without the
      newline before the closing fence, between blank lines. */
  lemma CodeBlocksFence(info: string, code: string, styler: Styler)
    requires '`' !in info && '\n' !in info && '`' !in code
    ensures CodeBlocks(Fence(info, code), styler) == StyledBlock(Strip(info), code, styler)
  {
    var s := Fence(info, code);
    FenceLenWhole(info, code);
    FenceSplitParts(info, code);
    CodeBlocksWhole(s, styler);
  }

  /** A text that is one fence is replaced as that fence. */
  lemma CodeBlocksWhole(s: string, styler: Styler)
    requires FenceLen(s) == Some(|s|)
    ensures CodeBlocks(s, styler) == FenceBlock(s, styler)
  {
    var n := |s|;
    assert s[..n] == s;
    assert s[n..] == [];
    CodeBlocksFenceStep(s, n, styler);
    var b := FenceBlock(s, styler);
    assert b.Some? ==> b.value + [] == b.value;
  }

  /** The unfolding of `CodeBlocks` at a fence of length `n`. */
  lemma CodeBlocksFenceStep(s: string, n: nat, styler: Styler)
    requires FenceLen(s) == Some(n)
    ensures CodeBlocks(s, styler) == Concat(FenceBlock(s[..n], styler), CodeBlocks(s[n..], styler))
  {
  }

  // ---------------------------------------------------------------------
  // Strikethrough

  /** Length of the match of `~~([^~\n]+)~~` at the start of `s`. The run is
      greedy and what stops it is the only thing that can follow, so there
      is no shorter match. */
  function StrikeLen(s: string): (r: Option<nat>)
    ensures r.Some? ==> 5 <= r.value <= |s|
  {
    if !("~~" <= s) then None
    else
      var n := BreakLen(s[2..], {'~', '\n'});
      if n > 0 && "~~" <= s[2 + n..] then Some(n + 4) else None
  }

  /** `_process_strikethrough` */
  function Strikethrough(s: string): string
    decreases |s|
  {
    if s == [] then []
    else
      match StrikeLen(s)
      case Some(n) => "<del>" + s[2..n - 2] + "</del>" + Strikethrough(s[n..])
      case None => [s[0]] + Strikethrough(s[1..])
  }

  /** Text before the first `~` is copied unchanged. */
  lemma {:induction false} StrikePlainPrefix(a: string, b: string)
    requires '~' !in a
    ensures Strikethrough(a + b) == a + Strikethrough(b)
    decreases |a|
  {
    if a != [] {
      var s := a + b;
      assert s[0] == a[0];
      assert s[1..] == a[1..] + b;
      StrikePlainPrefix(a[1..], b);
      assert a == [a[0]] + a[1..];
    } else {
      assert a + b == b;
    }
  }

  /** `~~t~~` becomes `<del>t</del>` when `t` has no `~` and no newline. */
  lemma StrikeWrap(a: string, t: string, b: string)
    requires '~' !in a
    requires |t| > 0 && '~' !in t && '\n' !in t
    ensures Strikethrough(a + "~~" + t + "~~" + b) == a + "<del>" + t + "</del>" + Strikethrough(b)
  {
    var s := "~~" + t + "~~" + b;
    StrikeLenWhole(t, b);
    StrikeParts(t, b);
    StrikeStep(s, |t| + 4);
    RegroupTail(a, "~~", t, "~~", b);
    StrikePlainPrefix(a, s);
    RegroupTail(a, "<del>", t, "</del>", Strikethrough(b));
  }

  /** `~~t~~` is matched whole. */
  lemma StrikeLenWhole(t: string, b: string)
    requires |t| > 0 && '~' !in t && '\n' !in t
    ensures StrikeLen("~~" + t + "~~" + b) == Some(|t| + 4)
  {
    var s := "~~" + t + "~~" + b;
    StrikeParts(t, b);
    BreakLenAt(s[2..], {'~', '\n'}, |t|);
  }

  /** Where the pieces of `~~t~~b` lie. */
  lemma StrikeParts(t: string, b: string)
    ensures var s := "~~" + t + "~~" + b;
      "~~" <= s && s[2..] == t + ("~~" + b) && s[2 + |t|..] == "~~" + b && s[2..|t| + 2] == t && s[|t| + 4..] == b
  {
    var s := "~~" + t + "~~" + b;
    assert s == "~~" + (t + ("~~" + b));
  }

  /** One step of `Strikethrough` over a match. */
  lemma StrikeStep(s: string, n: nat)
    requires StrikeLen(s) == Some(n)
    ensures Strikethrough(s) == "<del>" + s[2..n - 2] + "</del>" + Strikethrough(s[n..])
  {
  }

  /** A text without `~` is unchanged. */
  lemma StrikeNoTilde(s: string)
    requires '~' !in s
    ensures Strikethrough(s) == s
  {
    StrikePlainPrefix(s, []);
    assert s + [] == s;
  }

  // ---------------------------------------------------------------------
  // Bare URLs

  /** Length of the match of `` `[^`]+` `` at the start of `s`. */
  function InlineCodeLen(s: string): (r: Option<nat>)
    ensures r.Some? ==> 3 <= r.value <= |s|
  {
    if |s| == 0 || s[0] != '`' then None
    else
      var n := BreakLen(s[1..], {'`'});
      if n > 0 && 1 + n < |s| then Some(n + 2) else None
  }

  /** Characters that end a URL: `[\s<>"{}|\\^`\[\]]`. */
  const UrlStop: set<char> := Whitespace + {'<', '>', '"', '{', '}', '|', '\\', '^', '`', '[', ']'}

  /** Length of the match of `https?://[^\s<>"{}|\\^`\[\]]+` at the start of
      `s`; the run is greedy and ends the pattern. */
  function UrlLen(s: string): (r: Option<nat>)
    ensures r.Some? ==> 8 <= r.value <= |s|
  {
    var scheme := SchemeLength(s);
    if scheme == 0 then None
    else
      var n := BreakLen(s[scheme..], UrlStop);
      if n > 0 then Some(scheme + n) else None
  }

  /** The length of `https://` or `http://` at the start of `s`, 0 when
      neither is there. */
  function SchemeLength(s: string): (r: nat)
    ensures r == 0 || r == 7 || r == 8
    ensures r <= |s|
  {
    if "https://" <= s then 8 else if "http://" <= s then 7 else 0
  }

  /** `f'{prefix}[{url}]({url})'` without the prefix. */
  function Autolink(url: string): string {
    "[" + url + "](" + url + ")"
  }

  /** `re.sub(r'(?:^|\s)(https?://...)', ..., flags=re.MULTILINE)`.
      `lineStart` says whether `^` matches before `s`. The `^` alternative
      is tried first; otherwise one whitespace character, kept in the
      output, may precede the URL. */
  function Urls(s: string, lineStart: bool): string
    decreases |s|
  {
    if s == [] then []
    else if lineStart && UrlLen(s).Some? then
      var n := UrlLen(s).value;
      Autolink(s[..n]) + Urls(s[n..], false)
    else if IsSpace(s[0]) && UrlLen(s[1..]).Some? then
      var n := UrlLen(s[1..]).value;
      [s[0]] + Autolink(s[1..1 + n]) + Urls(s[1 + n..], false)
    else [s[0]] + Urls(s[1..], s[0] == '\n')
  }

  /** A URL match needs `://`. */
  lemma UrlLenScheme(s: string)
    requires UrlLen(s).Some?
    ensures Contains(s, "://")
  {
    if "https://" <= s {
      assert s[5..8] == "://";
      ContainsAt(s, "://", 5);
    } else {
      assert s[4..7] == "://";
      ContainsAt(s, "://", 4);
    }
  }

  /** Text without `://` has no URL to link. */
  lemma {:induction false} UrlsNoScheme(s: string, lineStart: bool)
    requires !Contains(s, "://")
    ensures Urls(s, lineStart) == s
    decreases |s|
  {
    if s != [] {
      if UrlLen(s).Some? {
        UrlLenScheme(s);
      }
      if UrlLen(s[1..]).Some? {
        UrlLenScheme(s[1..]);
      }
      UrlsNoScheme(s[1..], s[0] == '\n');
      assert [s[0]] + s[1..] == s;
    }
  }

  /** A whole bare URL: `http://` or `https://` and at least one URL
      character. */
  predicate IsBareUrl(u: string) {
    || ("https://" <= u && |u| > 8 && NoneIn(u[8..], UrlStop))
    || ("http://" <= u && !("https://" <= u) && |u| > 7 && NoneIn(u[7..], UrlStop))
  }

  lemma UrlLenWhole(u: string, rest: string)
    requires IsBareUrl(u) && (rest == [] || rest[0] in UrlStop)
    ensures UrlLen(u + rest) == Some(|u|)
  {
    var s := u + rest;
    var k := SchemeLength(u);
    BareUrlRun(u);
    SchemeOfPrefix(s, u, rest);
    DropConcat(u, rest, k);
    RunThenStop(u[k..], rest, UrlStop);
    UrlLenFrom(s, k, |u| - k);
  }

  /** A bare URL is its scheme and a run of URL characters. */
  lemma BareUrlRun(u: string)
    requires IsBareUrl(u)
    ensures 8 <= |u| && 0 < SchemeLength(u) < |u| && NoneIn(u[SchemeLength(u)..], UrlStop)
  {
  }

  lemma UrlLenFrom(s: string, k: nat, n: nat)
    requires 0 < k && SchemeLength(s) == k && 0 < n && BreakLen(s[k..], UrlStop) == n
    ensures UrlLen(s) == Some(k + n)
  {
  }

  /** The scheme of a text of at least eight characters is read off
      whatever follows it. */
  lemma SchemeOfPrefix(s: string, u: string, rest: string)
    requires 8 <= |u| && s == u + rest
    ensures SchemeLength(s) == SchemeLength(u)
  {
    assert s[..8] == u[..8];
    assert s[..7] == u[..7];
  }

  /** A run of characters outside `stop` followed by one in `stop` (or by
      nothing) is what `BreakLen` measures. */
  lemma RunThenStop(x: string, rest: string, stop: set<char>)
    requires NoneIn(x, stop) && (rest == [] || rest[0] in stop)
    ensures BreakLen(x + rest, stop) == |x|
  {
    var s := x + rest;
    forall k | 0 <= k < |x| ensures s[k] !in stop {
      assert s[k] == x[k];
    }
    if |x| < |s| {
      assert s[|x|] == rest[0];
    }
    BreakLenAt(s, stop, |x|);
  }

  /** At the start of a line a URL becomes `[url](url)`. */
  lemma UrlAtLineStart(u: string, rest: string)
    requires IsBareUrl(u) && (rest == [] || rest[0] in UrlStop)
    ensures Urls(u + rest, true) == Autolink(u) + Urls(rest, false)
  {
    UrlLenWhole(u, rest);
    var s := u + rest;
    assert s[..|u|] == u && s[|u|..] == rest;
  }

  /** After a whitespace character a URL becomes `[url](url)` and the
      whitespace is kept. */
  lemma UrlAfterSpace(w: char, u: string, rest: string, lineStart: bool)
    requires IsSpace(w) && IsBareUrl(u) && (rest == [] || rest[0] in UrlStop)
    ensures Urls([w] + u + rest, lineStart) == [w] + Autolink(u) + Urls(rest, false)
  {
    var s := [w] + u + rest;
    SpaceParts(w, u, rest);
    UrlLenNotH(s);
    UrlLenWhole(u, rest);
    UrlsSpaceStep(s, |u|, lineStart);
  }

  /** Where the pieces of `[w] + u + rest` lie. */
  lemma SpaceParts(w: char, u: string, rest: string)
    ensures var s := [w] + u + rest;
      s != [] && s[0] == w && s[1..] == u + rest && s[1..1 + |u|] == u && s[1 + |u|..] == rest
  {
    var s := [w] + u + rest;
    assert s == [w] + (u + rest);
  }

  /** No URL starts at a character other than `h`. */
  lemma UrlLenNotH(s: string)
    requires s != [] && s[0] != 'h'
    ensures UrlLen(s).None?
  {
    assert !("https://" <= s) && !("http://" <= s);
  }

  /** One step of `Urls` over a URL after whitespace. */
  lemma UrlsSpaceStep(s: string, n: nat, lineStart: bool)
    requires s != [] && UrlLen(s).None? && IsSpace(s[0]) && UrlLen(s[1..]) == Some(n)
    ensures Urls(s, lineStart) == [s[0]] + Autolink(s[1..1 + n]) + Urls(s[1 + n..], false)
  {
    assert !(lineStart && UrlLen(s).Some?);
    assert IsSpace(s[0]) && UrlLen(s[1..]).Some? && UrlLen(s[1..]).value == n;
  }

  /** The placeholder that stands for protected block `i`. */
  function Placeholder(i: nat): string {
    "%%%CODEBLOCK_" + IntToString(i) + "%%%"
  }

  /** The text with code spans replaced by placeholders, and the list of the
      spans that `save_code_block` appended. */
  datatype Protected = Protected(text: string, blocks: seq<string>)

  /** One protecting `re.sub`: of ```` ```...``` ```` fences when `fence`,
      of `` `...` `` spans otherwise; placeholder numbers continue from
      the blocks already saved. */
  function Protect(s: string, fence: bool, blocks: seq<string>): (r: Protected)
    ensures |blocks| <= |r.blocks| && r.blocks[..|blocks|] == blocks
    decreases |s|
  {
    if s == [] then Protected([], blocks)
    else
      var m := if fence then FenceLen(s) else InlineCodeLen(s);
      if m.Some? then
        var rest := Protect(s[m.value..], fence, blocks + [s[..m.value]]);
        assert rest.blocks[..|blocks|] == (blocks + [s[..m.value]])[..|blocks|];
        Protected(Placeholder(|blocks|) + rest.text, rest.blocks)
      else
        var rest := Protect(s[1..], fence, blocks);
        Protected([s[0]] + rest.text, rest.blocks)
  }

  /** The restore loop after `n` rounds: placeholders `0..n-1` replaced in
      order, each by its block. */
  function Restore(content: string, blocks: seq<string>, n: nat): string
    requires n <= |blocks|
  {
    if n == 0 then content
    else ReplaceAll(Restore(content, blocks, n - 1), Placeholder(n - 1), blocks[n - 1])
  }

  /** `_process_plain_urls`: protect fences, then inline code, link the
      URLs, restore. */
  function PlainUrls(content: string): string {
    var fenced := Protect(content, true, []);
    var coded := Protect(fenced.text, false, fenced.blocks);
    Restore(Urls(coded.text, true), coded.blocks, |coded.blocks|)
  }

  /** `_process_plain_urls` with its restore loop. */
  method ProcessPlainUrls(content: string) returns (r: string)
    ensures r == PlainUrls(content)
  {
    var fenced := Protect(content, true, []);
    var coded := Protect(fenced.text, false, fenced.blocks);
    var blocks := coded.blocks;
    var linked := Urls(coded.text, true);
    r := linked;
    for i := 0 to |blocks|
      invariant r == Restore(linked, blocks, i)
    {
      r := ReplaceAll(r, Placeholder(i), blocks[i]);
    }
  }

  /** Protecting text without backticks saves nothing. */
  lemma {:induction false} ProtectNoBacktick(s: string, fence: bool, blocks: seq<string>)
    requires '`' !in s
    ensures Protect(s, fence, blocks) == Protected(s, blocks)
    decreases |s|
  {
    if s != [] {
      assert s[0] != '`';
      assert !("```" <= s);
      assert '`' !in s[1..];
      ProtectNoBacktick(s[1..], fence, blocks);
      assert [s[0]] + s[1..] == s;
    }
  }

  /** Text with no backtick and no `://` comes back unchanged. */
  lemma PlainUrlsUnchanged(s: string)
    requires '`' !in s && !Contains(s, "://")
    ensures PlainUrls(s) == s
  {
    ProtectNoBacktick(s, true, []);
    ProtectNoBacktick(s, false, []);
    UrlsNoScheme(s, true);
  }

  /** A placeholder holds no backtick, colon or tilde. */
  lemma PlaceholderChars(i: nat)
    ensures '`' !in Placeholder(i) && ':' !in Placeholder(i) && '~' !in Placeholder(i)
  {
    var d := IntToString(i);
    assert forall k :: 0 <= k < |d| ==> d[k] != '`' && d[k] != ':' && d[k] != '~';
  }

  lemma NoColonNoScheme(s: string)
    requires ':' !in s
    ensures !Contains(s, "://")
  {
    NotContainsHead(s, "://");
  }

  /** Neither protecting pass matches at a character other than a
      backtick, nor the fence pass where no three backticks start: the
      character is copied. */
  lemma ProtectSkip(s: string, fence: bool, blocks: seq<string>)
    requires |s| > 0 && (s[0] != '`' || (fence && !("```" <= s)))
    ensures Protect(s, fence, blocks) ==
      Protected([s[0]] + Protect(s[1..], fence, blocks).text, Protect(s[1..], fence, blocks).blocks)
  {
    if s[0] != '`' {
      assert !("```" <= s);
    }
  }

  /** A lone backtick is copied by either pass. */
  lemma ProtectBacktick(fence: bool, blocks: seq<string>)
    ensures Protect("`", fence, blocks) == Protected("`", blocks)
  {
    assert !("```" <= "`");
    assert "`"[1..] == [];
  }

  /** Text before the first backtick is copied by either protecting pass. */
  lemma {:induction false} ProtectPlainPrefix(x: string, t: string, fence: bool, blocks: seq<string>)
    requires '`' !in x
    ensures Protect(x + t, fence, blocks) ==
      Protected(x + Protect(t, fence, blocks).text, Protect(t, fence, blocks).blocks)
    decreases |x|
  {
    if x != [] {
      var s := x + t;
      assert s[0] == x[0];
      ProtectSkip(s, fence, blocks);
      DropConcat(x, t, 1);
      ProtectPlainPrefix(x[1..], t, fence, blocks);
      ConsConcat(x, Protect(t, fence, blocks).text);
    } else {
      assert x + t == t;
    }
  }

  /** A text that is one match of the pass is saved whole. */
  lemma ProtectWhole(s: string, fence: bool, blocks: seq<string>)
    requires s != [] && (if fence then FenceLen(s) else InlineCodeLen(s)) == Some(|s|)
    ensures Protect(s, fence, blocks) == Protected(Placeholder(|blocks|), blocks + [s])
  {
    ProtectAt(s, fence, blocks, |s|);
    assert s[..|s|] == s && s[|s|..] == [];
    assert Placeholder(|blocks|) + [] == Placeholder(|blocks|);
  }

  /** The unfolding of `Protect` at a match of length `n`. */
  lemma ProtectAt(s: string, fence: bool, blocks: seq<string>, n: nat)
    requires s != [] && (if fence then FenceLen(s) else InlineCodeLen(s)) == Some(n)
    ensures Protect(s, fence, blocks) ==
      Protected(Placeholder(|blocks|) + Protect(s[n..], fence, blocks + [s[..n]]).text,
                Protect(s[n..], fence, blocks + [s[..n]]).blocks)
  {
  }

  /** An inline code span is saved whole. */
  lemma InlineCodeWhole(u: string)
    requires |u| > 0 && '`' !in u
    ensures InlineCodeLen("`" + u + "`") == Some(|u| + 2)
  {
    var s := "`" + u + "`";
    assert s[1..] == u + "`";
    BreakLenAt(s[1..], {'`'}, |u|);
  }

  /** The fence pass leaves an inline code span alone. */
  lemma FencePassSkipsInlineCode(u: string, blocks: seq<string>)
    requires |u| > 0 && '`' !in u
    ensures Protect("`" + u + "`", true, blocks) == Protected("`" + u + "`", blocks)
  {
    var s := "`" + (u + "`");
    assert "`" + u + "`" == s;
    DropHead('`', u + "`");
    assert s[1] == u[0];
    assert !("```" <= s) by { assert s[1] != '`'; }
    ProtectSkip(s, true, blocks);
    ProtectPlainPrefix(u, "`", true, blocks);
    ProtectBacktick(true, blocks);
  }

  /** Restoring a lone placeholder gives its block back. */
  lemma RestoreLone(block: string)
    ensures Restore(Placeholder(0), [block], 1) == block
  {
    var p := Placeholder(0);
    assert p <= p;
    assert p[|p|..] == [];
    assert ReplaceAll(p, p, block) == block + ReplaceAll([], p, block);
  }

  /** A URL inside an inline code span is left alone. */
  lemma InlineCodeKept(u: string)
    requires |u| > 0 && '`' !in u
    ensures PlainUrls("`" + u + "`") == "`" + u + "`"
  {
    var s := "`" + u + "`";
    FencePassSkipsInlineCode(u, []);
    InlineCodeWhole(u);
    ProtectWhole(s, false, []);
    assert [] + [s] == [s];
    PlaceholderChars(0);
    NoColonNoScheme(Placeholder(0));
    UrlsNoScheme(Placeholder(0), true);
    RestoreLone(s);
  }

  /** A fence without inner backticks is matched whole, whatever follows it. */
  lemma FenceWhole(u: string, rest: string)
    requires '`' !in u
    ensures FenceLen("```" + u + "```" + rest) == Some(|u| + 6)
  {
    var s := "```" + u + "```" + rest;
    var k := |u| + 3;
    assert s[k..k + 3] == "```";
    assert forall j :: 3 <= j < k ==> !("```" <= s[j..]) by {
      forall j | 3 <= j < k ensures !("```" <= s[j..]) {
        assert s[j..][0] == s[j] == u[j - 3];
      }
    }
    FindFromAt(s, "```", 3, k);
  }

  /** A URL inside a fence is left alone. */
  lemma FencedCodeKept(u: string)
    requires '`' !in u
    ensures PlainUrls("```" + u + "```") == "```" + u + "```"
  {
    var s := "```" + u + "```";
    FenceWhole(u, []);
    assert s + [] == s;
    assert s[|s|..] == [] && s[..|s|] == s;
    assert Protect(s, true, []) == Protected(Placeholder(0), [s]);
    PlaceholderChars(0);
    ProtectNoBacktick(Placeholder(0), false, [s]);
    NoColonNoScheme(Placeholder(0));
    UrlsNoScheme(Placeholder(0), true);
    RestoreLone(s);
  }

  /** The first two placeholders differ in their digit, so neither occurs in the other. */
  lemma SecondPlaceholderClean()
    ensures !Contains(Placeholder(1), Placeholder(0))
  {
    var p0, p1 := Placeholder(0), Placeholder(1);
    assert IntToString(0) == "0" && IntToString(1) == "1";
    assert |p0| == |p1| == 17;
    assert p0[13] != p1[13];
    assert !(p0 <= p1);
    ContainsLonger(p1[1..], p0);
  }

  /** The fence pass saves a leading fence and copies plain text after it. */
  lemma FencePassLeading(b: string, c: string)
    requires '`' !in b && '`' !in c
    ensures Protect("```" + b + "```" + (c + "`"), true, []) ==
      Protected(Placeholder(0) + (c + "`"), ["```" + b + "```"])
  {
    var f := "```" + b + "```";
    var t := f + (c + "`");
    FenceWhole(b, c + "`");
    ProtectAt(t, true, [], |f|);
    ConcatParts(f, c + "`");
    ProtectPlainPrefix(c, "`", true, [f]);
    ProtectBacktick(true, [f]);
    assert [] + [f] == [f];
  }

  /** The fence pass saves a fence that sits inside an inline code span. */
  lemma FencePassNested(a: string, b: string, c: string)
    requires |a| > 0 && '`' !in a + b + c
    ensures Protect("`" + a + ("```" + b + "```") + c + "`", true, []) ==
      Protected("`" + a + Placeholder(0) + c + "`", ["```" + b + "```"])
  {
    var f := "```" + b + "```";
    var tail := f + (c + "`");
    var s := "`" + (a + tail);
    NotInParts(a + b, c, '`');
    NotInParts(a, b, '`');
    RegroupFive("`", a, f, c, "`");
    RegroupFive("`", a, Placeholder(0), c, "`");
    DropHead('`', a + tail);
    assert s[1] == a[0];
    assert !("```" <= s) by { assert s[1] != '`'; }
    ProtectSkip(s, true, []);
    ProtectPlainPrefix(a, tail, true, []);
    FencePassLeading(b, c);
  }

  /** The inline pass then saves the whole span, placeholder included. */
  lemma InlinePassNested(a: string, c: string, blocks: seq<string>)
    requires |blocks| == 1 && '`' !in a + c
    ensures Protect("`" + a + Placeholder(0) + c + "`", false, blocks) ==
      Protected(Placeholder(1), blocks + ["`" + a + Placeholder(0) + c + "`"])
  {
    var p := Placeholder(0);
    PlaceholderChars(0);
    NotInParts(a, c, '`');
    var u := a + p + c;
    assert '`' !in a + p;
    RegroupMiddle("`", a, p, c, "`");
    InlineCodeWhole(u);
    ProtectWhole("`" + u + "`", false, blocks);
  }

  /** Restoring in forward order puts the outer span back but leaves the
      inner placeholder, which only the earlier round could have replaced. */
  lemma ForwardRestoreLeaves(f: string, x: string)
    ensures Restore(Placeholder(1), [f, x], 2) == x
  {
    var p := Placeholder(1);
    SecondPlaceholderClean();
    ReplaceAbsent(p, Placeholder(0), f);
    assert Restore(p, [f, x], 1) == p;
    assert p <= p && p[|p|..] == [];
    assert ReplaceAll(p, p, x) == x + ReplaceAll([], p, x);
  }

  /** A fence written inside an inline code span comes out of the URL pass
      as its placeholder: the span is restored after the fence it holds. */
  lemma NestedFenceLeaksPlaceholder(a: string, b: string, c: string)
    requires |a| > 0 && '`' !in a + b + c
    ensures PlainUrls("`" + a + "```" + b + "```" + c + "`") == "`" + a + Placeholder(0) + c + "`"
  {
    var f := "```" + b + "```";
    var x := "`" + a + Placeholder(0) + c + "`";
    var s := "`" + a + "```" + b + "```" + c + "`";
    assert s == "`" + a + f + c + "`";
    FencePassNested(a, b, c);
    var fenced := Protect(s, true, []);
    assert fenced == Protected(x, [f]);
    assert forall ch :: ch in a + c ==> ch in a + b + c;
    InlinePassNested(a, c, [f]);
    var coded := Protect(fenced.text, false, fenced.blocks);
    assert coded == Protected(Placeholder(1), [f, x]);
    PlaceholderChars(1);
    NoColonNoScheme(Placeholder(1));
    UrlsNoScheme(Placeholder(1), true);
    ForwardRestoreLeaves(f, x);
  }

  // ---------------------------------------------------------------------
  // Restoring code in reverse order

  /** Restore placeholders `n-1` down to `0`: a block saved later (an inline
      span) is put back before the blocks saved earlier (fences), so a
      placeholder that a later block carries inside it is still replaced. */
  function RestoreReverse(content: string, blocks: seq<string>, n: nat): string
    requires n <= |blocks|
    decreases n
  {
    if n == 0 then content
    else RestoreReverse(ReplaceAll(content, Placeholder(n - 1), blocks[n - 1]), blocks, n - 1)
  }

  /** `_process_plain_urls` with the restore loop run from the last block
      to the first. */
  function PlainUrlsCorrected(content: string): string {
    var fenced := Protect(content, true, []);
    var coded := Protect(fenced.text, false, fenced.blocks);
    RestoreReverse(Urls(coded.text, true), coded.blocks, |coded.blocks|)
  }

  /** With at most one saved block the two restore orders agree. */
  lemma PlainUrlsAgree(content: string)
    requires |Protect(Protect(content, true, []).text, false, Protect(content, true, []).blocks).blocks| <= 1
    ensures PlainUrlsCorrected(content) == PlainUrls(content)
  {
    var fenced := Protect(content, true, []);
    var coded := Protect(fenced.text, false, fenced.blocks);
    var u := Urls(coded.text, true);
    if |coded.blocks| == 1 {
      var r := ReplaceAll(u, Placeholder(0), coded.blocks[0]);
      assert RestoreReverse(u, coded.blocks, 1) == r;
      assert Restore(u, coded.blocks, 1) == r;
    }
  }

  /** Putting the inner fence back into the restored span. */
  lemma InnerFenceRestored(a: string, f: string, c: string)
    requires '%' !in a + c
    ensures ReplaceAll("`" + a + Placeholder(0) + c + "`", Placeholder(0), f) == "`" + a + f + c + "`"
  {
    var p := Placeholder(0);
    PlaceholderHead(0);
    NotInParts(a, c, '%');
    NotInJoined("`", a, '%');
    NotInJoined(c, "`", '%');
    RegroupAfterTwo("`", a, p, c, "`");
    RegroupAfterTwo("`", a, f, c, "`");
    ReplaceSkip("`" + a, p + (c + "`"), p, f);
    ReplaceHere(p, c + "`", f);
    ReplaceNoHead(c + "`", p, f);
  }

  /** A placeholder opens with `%`. */
  lemma PlaceholderHead(i: nat)
    ensures |Placeholder(i)| > 0 && Placeholder(i)[0] == '%'
  {
  }

  /** Restoring in reverse order gives both blocks back. */
  lemma ReverseRestoreNested(a: string, b: string, c: string)
    requires '%' !in a + c
    ensures RestoreReverse(Placeholder(1), ["```" + b + "```", "`" + a + Placeholder(0) + c + "`"], 2) ==
      "`" + a + ("```" + b + "```") + c + "`"
  {
    var f := "```" + b + "```";
    var x := "`" + a + Placeholder(0) + c + "`";
    var p := Placeholder(1);
    assert p <= p && p[|p|..] == [];
    assert ReplaceAll(p, p, x) == x + ReplaceAll([], p, x);
    InnerFenceRestored(a, f, c);
    var bl := [f, x];
    assert |p| > 0 && ReplaceAll([], p, x) == [];
    assert ReplaceAll(p, p, x) == x;
    assert bl[1] == x;
    assert RestoreReverse(p, bl, 2) == RestoreReverse(x, bl, 1);
    assert RestoreReverse(x, bl, 1) == RestoreReverse(ReplaceAll(x, Placeholder(0), f), bl, 0);
  }

  /** With the corrected order a fence inside an inline code span comes back
      verbatim. */
  lemma NestedFenceRestored(a: string, b: string, c: string)
    requires |a| > 0 && '`' !in a + b + c && '%' !in a + c
    ensures PlainUrlsCorrected("`" + a + "```" + b + "```" + c + "`") == "`" + a + "```" + b + "```" + c + "`"
  {
    var f := "```" + b + "```";
    var x := "`" + a + Placeholder(0) + c + "`";
    var s := "`" + a + "```" + b + "```" + c + "`";
    assert s == "`" + a + f + c + "`";
    FencePassNested(a, b, c);
    var fenced := Protect(s, true, []);
    assert fenced == Protected(x, [f]);
    assert forall ch :: ch in a + c ==> ch in a + b + c;
    InlinePassNested(a, c, [f]);
    var coded := Protect(fenced.text, false, fenced.blocks);
    assert coded == Protected(Placeholder(1), [f, x]);
    PlaceholderChars(1);
    NoColonNoScheme(Placeholder(1));
    UrlsNoScheme(Placeholder(1), true);
    ReverseRestoreNested(a, b, c);
  }

  // ---------------------------------------------------------------------
  // Table styling

  /** An inline `style` attribute: each declaration closed by `;`, the
      declarations separated by a space. */
  function StyleAttr(decls: seq<string>): string {
    "style=\"" + Join(decls, "; ") + ";\""
  }

  const TableDecls: seq<string> := [
    "width: 100%", "margin: 1.5rem 0", "border-collapse: collapse",
    "border-radius: 8px", "overflow: hidden", "box-shadow: 0 2px 8px rgba(0, 0, 0, 0.05)"]
  const HeaderCellDecls: seq<string> := [
    "padding: 12px 16px", "text-align: left", "font-weight: 600", "color: #1f2937",
    "font-size: 0.9rem", "background: #f8fafc", "border-bottom: 2px solid #e5e7eb"]
  const CellDecls: seq<string> := [
    "padding: 12px 16px", "border-bottom: 1px solid #f3f4f6", "font-size: 0.95rem"]
  const HeadDecls: seq<string> := ["background: #f8fafc"]

  /** An opening tag carrying a style attribute. */
  function StyledTag(name: string, decls: seq<string>): string {
    "<" + name + " " + StyleAttr(decls) + ">"
  }

  /** The styled tags that `_enhance_tables` writes in place of the bare ones. */
  const TableName: string := "table class=\"wp-table\""
  function TableTag(): string { StyledTag(TableName, TableDecls) }
  function HeaderCellTag(): string { StyledTag("th", HeaderCellDecls) }
  function CellTag(): string { StyledTag("td", CellDecls) }
  function HeadTag(): string { StyledTag("thead", HeadDecls) }

  /** The four styled opening tags, one per bare tag. */
  datatype TagStyles = TagStyles(table: string, headerCell: string, cell: string, head: string)

  function PageStyles(): TagStyles {
    TagStyles(TableTag(), HeaderCellTag(), CellTag(), HeadTag())
  }

  /** The four literal substitutions of `_enhance_tables`, in this order,
      for any choice of styled tags. */
  function Restyle(html: string, st: TagStyles): string {
    var t := ReplaceAll(html, "<table>", st.table);
    var h := ReplaceAll(t, "<th>", st.headerCell);
    var d := ReplaceAll(h, "<td>", st.cell);
    ReplaceAll(d, "<thead>", st.head)
  }

  /** `_enhance_tables`. */
  function EnhanceTables(html: string): string {
    Restyle(html, PageStyles())
  }

  /** The tags the pass leaves no trace of. */
  predicate NoBareTags(html: string) {
    !Contains(html, "<table>") && !Contains(html, "<th>") && !Contains(html, "<td>") && !Contains(html, "<thead>")
  }

  lemma TableDeclsClean()
    ensures forall i :: 0 <= i < |TableDecls| ==> '<' !in TableDecls[i]
  {
  }

  lemma HeaderCellDeclsClean()
    ensures forall i :: 0 <= i < |HeaderCellDecls| ==> '<' !in HeaderCellDecls[i]
  {
  }

  lemma CellDeclsClean()
    ensures forall i :: 0 <= i < |CellDecls| ==> '<' !in CellDecls[i]
  {
  }

  /** With a single `<` in the text, a tag occurs only where that `<` is. */
  lemma SingleOpen(x: string, b: string, q: string)
    requires '<' !in x && '<' !in b && |q| > 0 && q[0] == '<' && !(q <= "<" + b)
    ensures !Contains(x + ("<" + b), q)
  {
    NotContainsHead(b, q);
    assert ("<" + b)[1..] == b;
    forall k | 0 <= k < |x|
      ensures !(q <= (x + ("<" + b))[k..])
    {
      assert (x + ("<" + b))[k..][0] == x[k];
    }
    NotContainsConcat(x, "<" + b, q);
  }

  /** A bare tag `<qn>` is not a prefix of `<name ...`: its `>` meets a
      character of the name or the space after it, unless a character of
      the two names differs first. */
  lemma BareNotPrefix(name: string, rest: string, q: string)
    requires '>' !in name && |q| >= 2 && q[0] == '<' && q[|q| - 1] == '>' && ' ' !in q
    ensures !(q <= "<" + name + " " + rest)
  {
    var qn := q[1..|q| - 1];
    var t := "<" + name + " " + rest;
    var k: nat;
    if |qn| <= |name| && qn != name[..|qn|] {
      var j :| 0 <= j < |qn| && qn[j] != name[..|qn|][j];
      k := 1 + j;
    } else if |qn| < |name| {
      k := 1 + |qn|;
      assert name[|qn|] in name;
    } else if qn[..|name|] != name {
      var j :| 0 <= j < |name| && qn[..|name|][j] != name[j];
      k := 1 + j;
    } else {
      k := 1 + |name|;
      assert q[k] in q;
    }
    assert k < |q| && k < |t| && q[k] != t[k];
  }

  /** The style attribute holds no `<` when no declaration does. */
  lemma StyleAttrClean(decls: seq<string>)
    requires forall i :: 0 <= i < |decls| ==> '<' !in decls[i]
    ensures '<' !in StyleAttr(decls)
  {
    JoinExcludes(decls, "; ", '<');
  }

  /** A tag `<name rest` with no other `<` holds no bare tag, its own included. */
  lemma TagNoBare(name: string, rest: string, q: string)
    requires '<' !in name && '>' !in name && '<' !in rest
    requires |q| >= 2 && q[0] == '<' && q[|q| - 1] == '>' && ' ' !in q
    ensures !Contains("<" + name + " " + rest, q)
  {
    var b := name + " " + rest;
    BareNotPrefix(name, rest, q);
    RegroupFour("<", name, " ", rest);
    SingleOpen([], b, q);
    assert [] + ("<" + b) == "<" + b;
  }

  /** A styled tag opens with `<`, holds no other, and holds no bare tag. */
  lemma StyledTagClean(name: string, decls: seq<string>)
    requires '<' !in name && '>' !in name && '<' !in StyleAttr(decls)
    ensures var tag := StyledTag(name, decls);
      |tag| >= |name| + 3 && tag[0] == '<' && '<' !in tag[1..] && NoBareTags(tag)
  {
    var rest := StyleAttr(decls) + ">";
    var tag := StyledTag(name, decls);
    assert tag == "<" + name + " " + rest;
    assert tag[1..] == name + " " + rest;
    TagNoBare(name, rest, "<table>");
    TagNoBare(name, rest, "<th>");
    TagNoBare(name, rest, "<td>");
    TagNoBare(name, rest, "<thead>");
  }

  /** Each styled tag opens with `<`, holds no other `<` and no bare tag. */
  lemma TableTagClean()
    ensures |TableTag()| >= 7 && TableTag()[0] == '<' && '<' !in TableTag()[1..] && NoBareTags(TableTag())
  {
    TableDeclsClean();
    StyleAttrClean(TableDecls);
    TableNameOpenFree();
    TableNameCloseFree();
    StyledTagClean(TableName, TableDecls);
  }

  lemma TableNameOpenFree()
    ensures '<' !in TableName
  {
  }

  lemma TableNameCloseFree()
    ensures '>' !in TableName
  {
  }

  lemma HeaderCellTagClean()
    ensures |HeaderCellTag()| >= 7 && HeaderCellTag()[0] == '<' && '<' !in HeaderCellTag()[1..] && NoBareTags(HeaderCellTag())
  {
    HeaderCellDeclsClean();
    StyleAttrClean(HeaderCellDecls);
    StyledTagClean("th", HeaderCellDecls);
  }

  lemma CellTagClean()
    ensures |CellTag()| >= 7 && CellTag()[0] == '<' && '<' !in CellTag()[1..] && NoBareTags(CellTag())
  {
    CellDeclsClean();
    StyleAttrClean(CellDecls);
    StyledTagClean("td", CellDecls);
  }

  lemma HeadTagClean()
    ensures |HeadTag()| >= 7 && HeadTag()[0] == '<' && '<' !in HeadTag()[1..] && NoBareTags(HeadTag())
  {
    StyleAttrClean(HeadDecls);
    StyledTagClean("thead", HeadDecls);
  }

  /** A styled tag opens with `<`, holds no other and holds no bare tag. */
  predicate CleanTag(tag: string) {
    |tag| >= 7 && tag[0] == '<' && '<' !in tag[1..] && NoBareTags(tag)
  }

  predicate CleanStyles(st: TagStyles) {
    CleanTag(st.table) && CleanTag(st.headerCell) && CleanTag(st.cell) && CleanTag(st.head)
  }

  lemma PageStylesClean()
    ensures CleanStyles(PageStyles())
  {
    TableTagClean();
    HeaderCellTagClean();
    CellTagClean();
    HeadTagClean();
  }

  /** A clean tag does not start with a bare tag, whatever follows it. */
  lemma CleanTagNoBarePrefix(tag: string, rest: string)
    requires CleanTag(tag)
    ensures !("<table>" <= tag + rest) && !("<th>" <= tag + rest)
    ensures !("<td>" <= tag + rest) && !("<thead>" <= tag + rest)
  {
    assert (tag + rest)[..7] == tag[..7];
  }

  /** One substitution pass with a clean tag keeps `q` absent, or removes
      it when `q` is the pattern. */
  lemma PassClean(s: string, p: string, tag: string, q: string)
    requires CleanTag(tag) && q in ["<table>", "<th>", "<td>", "<thead>"] && p in ["<table>", "<th>", "<td>", "<thead>"]
    requires q == p || !Contains(s, q)
    ensures !Contains(ReplaceAll(s, p, tag), q)
  {
    ReplaceClean(s, p, tag, q, '<');
  }

  /** After the passes no bare table tag is left. */
  lemma {:induction false} RestyleClean(html: string, st: TagStyles)
    requires CleanStyles(st)
    ensures NoBareTags(Restyle(html, st))
  {
    var t := ReplaceAll(html, "<table>", st.table);
    PassClean(html, "<table>", st.table, "<table>");
    var h := ReplaceAll(t, "<th>", st.headerCell);
    PassClean(t, "<th>", st.headerCell, "<table>");
    PassClean(t, "<th>", st.headerCell, "<th>");
    var d := ReplaceAll(h, "<td>", st.cell);
    PassClean(h, "<td>", st.cell, "<table>");
    PassClean(h, "<td>", st.cell, "<th>");
    PassClean(h, "<td>", st.cell, "<td>");
    PassClean(d, "<thead>", st.head, "<table>");
    PassClean(d, "<thead>", st.head, "<th>");
    PassClean(d, "<thead>", st.head, "<td>");
    PassClean(d, "<thead>", st.head, "<thead>");
  }

  /** A document without bare table tags is left as it is. */
  lemma {:induction false} RestyleUnchanged(html: string, st: TagStyles)
    requires NoBareTags(html)
    ensures Restyle(html, st) == html
  {
    ReplaceAbsent(html, "<table>", st.table);
    ReplaceAbsent(html, "<th>", st.headerCell);
    ReplaceAbsent(html, "<td>", st.cell);
    ReplaceAbsent(html, "<thead>", st.head);
  }

  /** After `_enhance_tables` no bare table tag is left. */
  lemma EnhanceTablesClean(html: string)
    ensures NoBareTags(EnhanceTables(html))
  {
    PageStylesClean();
    RestyleClean(html, PageStyles());
  }

  /** A document without bare table tags is left as it is. */
  lemma EnhanceTablesUnchanged(html: string)
    requires NoBareTags(html)
    ensures EnhanceTables(html) == html
  {
    RestyleUnchanged(html, PageStyles());
  }

  /** Styling twice is styling once. */
  lemma EnhanceTablesIdempotent(html: string)
    ensures EnhanceTables(EnhanceTables(html)) == EnhanceTables(html)
  {
    EnhanceTablesClean(html);
    EnhanceTablesUnchanged(EnhanceTables(html));
  }

  /** Text without `<` is left as it is. */
  lemma EnhanceTablesPlain(x: string)
    requires '<' !in x
    ensures EnhanceTables(x) == x
  {
    NotContainsHead(x, "<table>");
    NotContainsHead(x, "<th>");
    NotContainsHead(x, "<td>");
    NotContainsHead(x, "<thead>");
    EnhanceTablesUnchanged(x);
  }

  /** A bare `<table>` after text without `<` becomes its styled tag; the
      rest of the document is restyled on its own. */
  lemma {:induction false} RestyleTable(x: string, t: string, st: TagStyles)
    requires '<' !in x && CleanStyles(st)
    ensures Restyle(x + "<table>" + t, st) == x + st.table + Restyle(t, st)
  {
    var r0 := t;
    var r1 := ReplaceAll(r0, "<table>", st.table);
    var r2 := ReplaceAll(r1, "<th>", st.headerCell);
    var r3 := ReplaceAll(r2, "<td>", st.cell);
    var r4 := ReplaceAll(r3, "<thead>", st.head);
    ReplacesWord(x, r0, "<table>", st.table);
    CleanTagNoBarePrefix(st.table, r1);
    ReplacePassesWordAfter(x, st.table, r1, "<th>", st.headerCell);
    CleanTagNoBarePrefix(st.table, r2);
    ReplacePassesWordAfter(x, st.table, r2, "<td>", st.cell);
    CleanTagNoBarePrefix(st.table, r3);
    ReplacePassesWordAfter(x, st.table, r3, "<thead>", st.head);
  }

  /** A bare `<th>` after text without `<` becomes its styled tag; the
      rest of the document is restyled on its own. */
  lemma {:induction false} RestyleHeaderCell(x: string, t: string, st: TagStyles)
    requires '<' !in x && CleanStyles(st)
    ensures Restyle(x + "<th>" + t, st) == x + st.headerCell + Restyle(t, st)
  {
    var r0 := t;
    var r1 := ReplaceAll(r0, "<table>", st.table);
    var r2 := ReplaceAll(r1, "<th>", st.headerCell);
    var r3 := ReplaceAll(r2, "<td>", st.cell);
    var r4 := ReplaceAll(r3, "<thead>", st.head);
    MismatchNotPrefix("<th>", r0, "<table>", 2);
    ReplacePassesWordAfter(x, "<th>", r0, "<table>", st.table);
    ReplacesWord(x, r1, "<th>", st.headerCell);
    CleanTagNoBarePrefix(st.headerCell, r2);
    ReplacePassesWordAfter(x, st.headerCell, r2, "<td>", st.cell);
    CleanTagNoBarePrefix(st.headerCell, r3);
    ReplacePassesWordAfter(x, st.headerCell, r3, "<thead>", st.head);
  }

  /** A bare `<td>` after text without `<` becomes its styled tag; the
      rest of the document is restyled on its own. */
  lemma {:induction false} RestyleCell(x: string, t: string, st: TagStyles)
    requires '<' !in x && CleanStyles(st)
    ensures Restyle(x + "<td>" + t, st) == x + st.cell + Restyle(t, st)
  {
    var r0 := t;
    var r1 := ReplaceAll(r0, "<table>", st.table);
    var r2 := ReplaceAll(r1, "<th>", st.headerCell);
    var r3 := ReplaceAll(r2, "<td>", st.cell);
    var r4 := ReplaceAll(r3, "<thead>", st.head);
    MismatchNotPrefix("<td>", r0, "<table>", 2);
    ReplacePassesWordAfter(x, "<td>", r0, "<table>", st.table);
    MismatchNotPrefix("<td>", r1, "<th>", 2);
    ReplacePassesWordAfter(x, "<td>", r1, "<th>", st.headerCell);
    ReplacesWord(x, r2, "<td>", st.cell);
    CleanTagNoBarePrefix(st.cell, r3);
    ReplacePassesWordAfter(x, st.cell, r3, "<thead>", st.head);
  }

  /** A bare `<thead>` after text without `<` becomes its styled tag; the
      rest of the document is restyled on its own. */
  lemma {:induction false} RestyleHead(x: string, t: string, st: TagStyles)
    requires '<' !in x && CleanStyles(st)
    ensures Restyle(x + "<thead>" + t, st) == x + st.head + Restyle(t, st)
  {
    var r0 := t;
    var r1 := ReplaceAll(r0, "<table>", st.table);
    var r2 := ReplaceAll(r1, "<th>", st.headerCell);
    var r3 := ReplaceAll(r2, "<td>", st.cell);
    var r4 := ReplaceAll(r3, "<thead>", st.head);
    MismatchNotPrefix("<thead>", r0, "<table>", 2);
    ReplacePassesWordAfter(x, "<thead>", r0, "<table>", st.table);
    MismatchNotPrefix("<thead>", r1, "<th>", 3);
    ReplacePassesWordAfter(x, "<thead>", r1, "<th>", st.headerCell);
    MismatchNotPrefix("<thead>", r2, "<td>", 2);
    ReplacePassesWordAfter(x, "<thead>", r2, "<td>", st.cell);
    ReplacesWord(x, r3, "<thead>", st.head);
  }

  /** Page-wide forms of the four rewrites: a bare tag after text without
      `<` becomes the styled tag of `_enhance_tables`. */
  lemma EnhanceTablesTable(x: string, t: string)
    requires '<' !in x
    ensures EnhanceTables(x + "<table>" + t) == x + TableTag() + EnhanceTables(t)
  {
    PageStylesClean();
    RestyleTable(x, t, PageStyles());
  }

  lemma EnhanceTablesHeaderCell(x: string, t: string)
    requires '<' !in x
    ensures EnhanceTables(x + "<th>" + t) == x + HeaderCellTag() + EnhanceTables(t)
  {
    PageStylesClean();
    RestyleHeaderCell(x, t, PageStyles());
  }

  lemma EnhanceTablesCell(x: string, t: string)
    requires '<' !in x
    ensures EnhanceTables(x + "<td>" + t) == x + CellTag() + EnhanceTables(t)
  {
    PageStylesClean();
    RestyleCell(x, t, PageStyles());
  }

  lemma EnhanceTablesHead(x: string, t: string)
    requires '<' !in x
    ensures EnhanceTables(x + "<thead>" + t) == x + HeadTag() + EnhanceTables(t)
  {
    PageStylesClean();
    RestyleHead(x, t, PageStyles());
  }

  // ---------------------------------------------------------------------
  // URL cards

  /** The text `<p><a href="` that opens a card candidate. */
  const CardOpen: string := "<p><a href=\""

  /** The paragraph `<p><a href="url">text</a></p>`. */
  function LinkParagraph(url: string, text: string): string {
    CardOpen + url + "\">" + text + "</a></p>"
  }

  /** A group-1 match of `https?://[^"]+`. */
  predicate IsCardUrl(u: string) {
    '"' !in u && (("https://" <= u && |u| > 8) || ("http://" <= u && |u| > 7))
  }

  /** A group-2 match of `[^<]+`. */
  predicate IsCardText(t: string) {
    |t| > 0 && '<' !in t
  }

  datatype CardMatch = CardMatch(len: nat, url: string, text: string)

  /** Length of the match of `https?://[^"]+` at the start of `u`. */
  function CardUrlLen(u: string): (r: Option<nat>)
    ensures r.Some? ==> 8 <= r.value <= |u|
  {
    var scheme := SchemeLength(u);
    if scheme == 0 then None
    else
      var n := BreakLen(u[scheme..], {'"'});
      if n == 0 then None else Some(scheme + n)
  }

  /** Length of the match of `([^<]+)</a></p>` at the start of `b`,
      without the closing tags. */
  function CardTextLen(b: string): (r: Option<nat>)
    ensures r.Some? ==> 0 < r.value && r.value + 8 <= |b|
  {
    var m := BreakLen(b, {'<'});
    if m == 0 || !("</a></p>" <= b[m..]) then None else Some(m)
  }

  /** The match of `<p><a href="(https?://[^"]+)">([^<]+)</a></p>` at the
      start of `s`. Both runs are greedy and are followed by the character
      that stops them, so backtracking finds nothing shorter. */
  function CardLen(s: string): (r: Option<CardMatch>)
    ensures r.Some? ==> 0 < r.value.len <= |s|
  {
    if !(CardOpen <= s) then None else CardRest(s[12..])
  }

  /** The rest of a card match after `<p><a href="`; the length counts
      the opening text too. */
  function CardRest(u: string): (r: Option<CardMatch>)
    ensures r.Some? ==> 12 < r.value.len <= |u| + 12
  {
    match CardUrlLen(u)
    case None => None
    case Some(k) => CardAfterUrl(u, k)
  }

  /** The rest of a card match once group 1 has run up to `k`. */
  function CardAfterUrl(u: string, k: nat): (r: Option<CardMatch>)
    requires 8 <= k <= |u|
    ensures r.Some? ==> 12 < r.value.len <= |u| + 12
  {
    if !("\">" <= u[k..]) then None
    else CardAfterQuote(u[..k], u[k + 2..])
  }

  /** The rest of a card match after `url` and `">`; `b` is what follows. */
  function CardAfterQuote(url: string, b: string): (r: Option<CardMatch>)
    ensures r.Some? ==> r.value.len == 12 + |url| + 2 + |r.value.text| + 8 && |r.value.text| + 8 <= |b|
  {
    match CardTextLen(b)
    case None => None
    case Some(m) => Some(CardMatch(12 + |url| + 2 + m + 8, url, b[..m]))
  }

  /** Declarations of the card anchor's `style`. */
  const CardDecls: seq<string> := [
    "display: flex", "align-items: center", "gap: 12px", "margin: 1.5rem 0",
    "padding: 12px", "background: #f8fafc", "border: 1px solid #e2e8f0",
    "border-radius: 8px", "text-decoration: none", "color: #374151",
    "transition: all 0.2s ease"]
  const CardImageDecls: seq<string> := [
    "width: 48px", "height: 48px", "background: #e5e7eb", "border-radius: 6px",
    "flex-shrink: 0", "display: flex", "align-items: center", "justify-content: center"]
  const CardIconDecls: seq<string> := ["color: #9ca3af", "font-size: 1.2rem"]
  const CardContentDecls: seq<string> := ["flex: 1", "min-width: 0"]
  const CardTitleDecls: seq<string> := [
    "font-weight: 600", "color: #1f2937", "margin-bottom: 4px", "overflow: hidden",
    "text-overflow: ellipsis", "white-space: nowrap"]
  const CardUrlDecls: seq<string> := [
    "color: #6b7280", "font-size: 0.8rem", "overflow: hidden",
    "text-overflow: ellipsis", "white-space: nowrap"]

  /** The parts of a card around its URL and text: the anchor's
      attributes after `href`, the lines between the anchor and the title,
      and the opening tags of the title and URL lines. */
  datatype CardStyle = CardStyle(anchor: string, prelude: string, titleOpen: string, urlOpen: string)

  /** A card laid out line by line as in `create_url_card`. */
  function Card(url: string, text: string, cs: CardStyle): string {
    CardHead(url, cs) + text + CardTail(url, cs)
  }

  /** Everything up to the link text: the anchor, the image box and the
      opening of the title line. */
  function CardHead(url: string, cs: CardStyle): string {
    ("<a href=\"" + url + "\"") + (cs.anchor + "\n" + cs.prelude + "\n" + cs.titleOpen)
  }

  /** Everything after the link text: the URL line and the closing tags. */
  function CardTail(url: string, cs: CardStyle): string {
    "</div>" + "\n" + cs.urlOpen + url + "</div>" + "\n" + "    </div>" + "\n" + "</a>"
  }

  /** The attributes and boxes `create_url_card` writes. */
  function PageCard(): CardStyle {
    CardStyle(
      " class=\"url-card\" target=\"_blank\" rel=\"noopener noreferrer\" " + StyleAttr(CardDecls) + ">",
      Join([
        "    " + StyledTag("div class=\"url-card-image\"", CardImageDecls),
        "        " + StyledTag("span", CardIconDecls) + "\U{1F517}</span>",
        "    </div>",
        "    " + StyledTag("div class=\"url-card-content\"", CardContentDecls)], "\n"),
      "        " + StyledTag("div class=\"url-card-title\"", CardTitleDecls),
      "        " + StyledTag("div class=\"url-card-url\"", CardUrlDecls))
  }

  /** `card_html` of `create_url_card`. */
  /** `_process_url_cards`: a paragraph holding only a link becomes a card
      when its text is its URL, and is kept otherwise. */
  function UrlCards(s: string, cs: CardStyle): string
    decreases |s|
  {
    if s == [] then []
    else
      match CardLen(s)
      case Some(m) =>
        (if m.url == m.text then Card(m.url, m.text, cs) else s[..m.len]) + UrlCards(s[m.len..], cs)
      case None => [s[0]] + UrlCards(s[1..], cs)
  }

  lemma {:induction false} CardUrlLenSound(u: string)
    requires CardUrlLen(u).Some?
    ensures IsCardUrl(u[..CardUrlLen(u).value])
    ensures CardUrlLen(u).value < |u| ==> u[CardUrlLen(u).value] == '"'
  {
    var k := CardUrlLen(u).value;
    var scheme := SchemeLength(u);
    var w := u[..k];
    assert w[..scheme] == u[..scheme];
    assert forall i :: scheme <= i < k ==> w[i] == u[scheme..][i - scheme];
    assert forall i :: 0 <= i < scheme ==> w[i] != '"';
  }

  lemma {:induction false} CardUrlLenWhole(w: string, u: string, rest: string)
    requires IsCardUrl(u) && (rest == [] || rest[0] == '"') && w == u + rest
    ensures CardUrlLen(w) == Some(|u|)
  {
    var k := SchemeLength(u);
    CardUrlRun(u);
    SchemeOfPrefix(w, u, rest);
    DropConcat(u, rest, k);
    RunThenStop(u[k..], rest, {'"'});
  }

  /** A card URL is its scheme and a run without `"`. */
  lemma CardUrlRun(u: string)
    requires IsCardUrl(u)
    ensures 8 <= |u| && 0 < SchemeLength(u) < |u| && NoneIn(u[SchemeLength(u)..], {'"'})
  {
    if "http://" <= u {
      assert u[4] == ':';
    }
    var k := SchemeLength(u);
    forall i | 0 <= i < |u[k..]| ensures u[k..][i] != '"' {
      assert u[k..][i] == u[k + i];
    }
  }

  lemma {:induction false} CardTextLenSound(b: string)
    requires CardTextLen(b).Some?
    ensures IsCardText(b[..CardTextLen(b).value])
    ensures b[CardTextLen(b).value..CardTextLen(b).value + 8] == "</a></p>"
  {
  }

  lemma {:induction false} CardTextLenWhole(b: string, t: string, rest: string)
    requires IsCardText(t) && b == t + "</a></p>" + rest
    ensures CardTextLen(b) == Some(|t|)
  {
    assert b == t + ("</a></p>" + rest);
    BreakLenAt(b, {'<'}, |t|);
    assert b[|t|..] == "</a></p>" + rest;
  }

  lemma {:induction false} CardRestSound(u: string)
    requires CardRest(u).Some?
    ensures var m := CardRest(u).value;
      u[..m.len - 12] == m.url + "\">" + m.text + "</a></p>" && IsCardUrl(m.url) && IsCardText(m.text)
  {
    var k := CardUrlLen(u).value;
    CardRestAt(u, k);
    assert "\">" <= u[k..];
    CardAfterUrlAt(u, k);
    var b := u[k + 2..];
    var n := CardTextLen(b).value;
    CardAfterQuoteAt(u[..k], b, n);
    CardTextLenSound(b);
    CardUrlLenSound(u);
    CardPieces(u, k, n);
  }

  /** The matched prefix is the URL, `">`, the text and the closing tags. */
  lemma CardPieces(u: string, k: nat, n: nat)
    requires k + 2 + n + 8 <= |u| && "\">" <= u[k..] && u[k + 2..][n..n + 8] == "</a></p>"
    ensures u[..k + 2 + n + 8] == u[..k] + "\">" + u[k + 2..][..n] + "</a></p>"
  {
    JoinSlices(u, k, k + 2, k + 2 + n, k + 2 + n + 8);
    assert u[k..k + 2] == u[k..][..2];
    SliceOfDrop(u, k + 2, 0, n);
    SliceOfDrop(u, k + 2, n, n + 8);
  }

  /** The unfoldings of `CardRest`, `CardAfterUrl` and `CardAfterQuote`. */
  lemma CardRestAt(u: string, k: nat)
    requires CardUrlLen(u) == Some(k)
    ensures CardRest(u) == CardAfterUrl(u, k)
  {
  }

  lemma CardAfterUrlAt(u: string, k: nat)
    requires 8 <= k <= |u| && "\">" <= u[k..]
    ensures CardAfterUrl(u, k) == CardAfterQuote(u[..k], u[k + 2..])
  {
  }

  lemma CardAfterQuoteAt(url: string, b: string, m: nat)
    requires CardTextLen(b) == Some(m)
    ensures CardAfterQuote(url, b) == Some(CardMatch(12 + |url| + 2 + m + 8, url, b[..m]))
  {
  }

  lemma LinkParagraphSplit(url: string, text: string)
    ensures LinkParagraph(url, text) == CardOpen + (url + "\">" + text + "</a></p>")
  {
  }

  lemma SliceAfterOpen(s: string, n: nat)
    requires 12 <= n <= |s|
    ensures s[..n] == s[..12] + s[12..][..n - 12]
  {
  }

  /** A card match is exactly a link paragraph whose URL and text have the
      shapes of the two groups. */
  lemma {:induction false} CardLenSound(s: string)
    requires CardLen(s).Some?
    ensures var m := CardLen(s).value;
      s[..m.len] == LinkParagraph(m.url, m.text) && IsCardUrl(m.url) && IsCardText(m.text)
  {
    var u := s[12..];
    CardLenAt(s);
    var m := CardRest(u).value;
    assert CardOpen == s[..12];
    CardRestSound(u);
    SliceAfterOpen(s, m.len);
    LinkParagraphSplit(m.url, m.text);
  }

  /** Where the pieces of a paragraph's tail lie. */
  lemma ParagraphRestParts(v: string, u: string, t: string, rest: string, b: string)
    requires v == u + "\">" + t + "</a></p>" + rest && b == t + "</a></p>" + rest
    ensures v[..|u|] == u && v == u + ("\">" + b) && v[|u|..] == "\">" + b && v[|u| + 2..] == b
  {
    assert v == u + ("\">" + b);
  }

  lemma ParagraphParts(u: string, t: string, rest: string)
    ensures var s := LinkParagraph(u, t) + rest;
      CardOpen <= s && s[12..] == u + "\">" + t + "</a></p>" + rest
  {
    var s := LinkParagraph(u, t) + rest;
    assert s == CardOpen + (u + "\">" + t + "</a></p>" + rest);
  }

  lemma {:induction false} CardRestWhole(v: string, u: string, t: string, rest: string)
    requires IsCardUrl(u) && IsCardText(t)
    requires v == u + "\">" + t + "</a></p>" + rest
    ensures CardRest(v) == Some(CardMatch(12 + |u| + 2 + |t| + 8, u, t))
  {
    var b := t + "</a></p>" + rest;
    ParagraphRestParts(v, u, t, rest, b);
    CardRestQuote(v, u, b);
    CardQuoteWhole(u, b, t, rest);
  }

  /** Group 1 stops at the `">` after a card URL. */
  lemma CardRestQuote(v: string, u: string, b: string)
    requires IsCardUrl(u) && v == u + ("\">" + b) && v[..|u|] == u && v[|u|..] == "\">" + b && v[|u| + 2..] == b
    ensures CardRest(v) == CardAfterQuote(u, b)
  {
    CardUrlLenWhole(v, u, "\">" + b);
    CardRestAt(v, |u|);
    CardAfterUrlAt(v, |u|);
  }

  /** Group 2 is the link text before `</a></p>`. */
  lemma CardQuoteWhole(u: string, b: string, t: string, rest: string)
    requires IsCardText(t) && b == t + "</a></p>" + rest
    ensures CardAfterQuote(u, b) == Some(CardMatch(12 + |u| + 2 + |t| + 8, u, t))
  {
    CardTextLenWhole(b, t, rest);
    CardAfterQuoteAt(u, b, |t|);
    TakeConcat(t, "</a></p>", |t|);
    TakeConcat(t + "</a></p>", rest, |t|);
  }

  /** A link paragraph is a card match with its own URL and text. */
  lemma {:induction false} CardLenWhole(u: string, t: string, rest: string)
    requires IsCardUrl(u) && IsCardText(t)
    ensures CardLen(LinkParagraph(u, t) + rest) == Some(CardMatch(12 + |u| + 2 + |t| + 8, u, t))
  {
    var v := u + "\">" + t + "</a></p>" + rest;
    CardLenOpen(u, t, rest, v);
    CardRestWhole(v, u, t, rest);
  }

  lemma CardLenOpen(u: string, t: string, rest: string, v: string)
    requires v == u + "\">" + t + "</a></p>" + rest
    ensures CardLen(LinkParagraph(u, t) + rest) == CardRest(v)
  {
    ParagraphParts(u, t, rest);
    CardLenAt(LinkParagraph(u, t) + rest);
  }

  lemma LinkParagraphLen(u: string, t: string)
    ensures |LinkParagraph(u, t)| == 12 + |u| + 2 + |t| + 8
  {
  }

  lemma CardLenAt(s: string)
    requires CardOpen <= s
    ensures CardLen(s) == CardRest(s[12..])
  {
  }

  /** A paragraph whose link text is its URL becomes a card. */
  lemma {:induction false} UrlCardMade(u: string, rest: string, cs: CardStyle)
    requires IsCardUrl(u) && IsCardText(u)
    ensures UrlCards(LinkParagraph(u, u) + rest, cs) == Card(u, u, cs) + UrlCards(rest, cs)
  {
    CardLenLink(u, u, rest);
    UrlCardsCard(LinkParagraph(u, u), rest, u, cs);
  }

  /** A paragraph whose link text differs from its URL is kept. */
  lemma {:induction false} UrlCardLinkKept(u: string, t: string, rest: string, cs: CardStyle)
    requires IsCardUrl(u) && IsCardText(t) && u != t
    ensures UrlCards(LinkParagraph(u, t) + rest, cs) == LinkParagraph(u, t) + UrlCards(rest, cs)
  {
    CardLenLink(u, t, rest);
    UrlCardsLink(LinkParagraph(u, t), rest, u, t, cs);
  }

  lemma CardLenLink(u: string, t: string, rest: string)
    requires IsCardUrl(u) && IsCardText(t)
    ensures CardLen(LinkParagraph(u, t) + rest) == Some(CardMatch(|LinkParagraph(u, t)|, u, t))
  {
    CardLenWhole(u, t, rest);
    LinkParagraphLen(u, t);
    assert CardMatch(12 + |u| + 2 + |t| + 8, u, t) == CardMatch(|LinkParagraph(u, t)|, u, t);
  }

  /** One step of `UrlCards` over a card match `p`. */
  lemma UrlCardsCard(p: string, rest: string, u: string, cs: CardStyle)
    requires CardLen(p + rest) == Some(CardMatch(|p|, u, u))
    ensures UrlCards(p + rest, cs) == Card(u, u, cs) + UrlCards(rest, cs)
  {
    ConcatParts(p, rest);
  }

  /** One step of `UrlCards` over a match `p` whose text is not its URL. */
  lemma UrlCardsLink(p: string, rest: string, u: string, t: string, cs: CardStyle)
    requires CardLen(p + rest) == Some(CardMatch(|p|, u, t)) && u != t
    ensures UrlCards(p + rest, cs) == p + UrlCards(rest, cs)
  {
    ConcatParts(p, rest);
  }

  /** Text before the first `<` is copied unchanged. */
  lemma {:induction false} UrlCardsPlainPrefix(a: string, b: string, cs: CardStyle)
    requires '<' !in a
    ensures UrlCards(a + b, cs) == a + UrlCards(b, cs)
    decreases |a|
  {
    if a != [] {
      var s := a + b;
      assert s[0] == a[0] && s[0] != '<';
      assert !(CardOpen <= s);
      assert s[1..] == a[1..] + b;
      UrlCardsPlainPrefix(a[1..], b, cs);
      assert a == [a[0]] + a[1..];
    } else {
      assert a + b == b;
    }
  }

  /** Without a `<p><a href="` there is nothing to turn into a card. */
  lemma {:induction false} UrlCardsNoOpen(s: string, cs: CardStyle)
    requires !Contains(s, CardOpen)
    ensures UrlCards(s, cs) == s
    decreases |s|
  {
    if s != [] {
      PrefixContains(s, CardOpen);
      NotContainsDrop(s, CardOpen, 1);
      UrlCardsNoOpen(s[1..], cs);
      assert [s[0]] + s[1..] == s;
    }
  }

  /** A card is an anchor to the URL and shows the link text. */
  lemma {:induction false} CardShape(url: string, text: string, cs: CardStyle)
    ensures "<a href=\"" + url + "\"" <= Card(url, text, cs)
    ensures Contains(Card(url, text, cs), text)
  {
    var head := CardHead(url, cs);
    var card := Card(url, text, cs);
    assert card[|head|..|head| + |text|] == text;
    ContainsAt(card, text, |head|);
  }

  // ---------------------------------------------------------------------
  // Titles

  /** Length of the match of `<[^>]+>` at the start of `s`. */
  function TagLen(s: string): (r: Option<nat>)
    ensures r.Some? ==> 3 <= r.value <= |s|
  {
    if s == [] || s[0] != '<' then None
    else
      var k := BreakLen(s[1..], {'>'});
      if k == 0 || k == |s| - 1 then None else Some(k + 2)
  }

  /** `re.sub(r'<[^>]+>', '', s)` */
  function StripTags(s: string): string
    decreases |s|
  {
    if s == [] then []
    else
      match TagLen(s)
      case Some(n) => StripTags(s[n..])
      case None => [s[0]] + StripTags(s[1..])
  }

  /** Text without `<` keeps all of itself. */
  lemma {:induction false} StripTagsPlainPrefix(a: string, b: string)
    requires '<' !in a
    ensures StripTags(a + b) == a + StripTags(b)
    decreases |a|
  {
    if a != [] {
      DropHeadConcat(a, b);
      assert '<' !in a[1..] by { NotInDrop(a, '<'); }
      StripTagsPlainPrefix(a[1..], b);
      ConsConcat(a, StripTags(b));
    } else {
      assert a + b == b && a + StripTags(b) == StripTags(b);
    }
  }

  lemma NotInDrop(a: string, c: char)
    requires a != [] && c !in a
    ensures c !in a[1..]
  {
    forall i | 0 <= i < |a| - 1 ensures a[1..][i] != c {
      assert a[1..][i] == a[i + 1];
    }
  }

  /** One step of `StripTags` where no tag starts. */
  lemma DropHeadConcat(a: string, b: string)
    requires a != [] && a[0] != '<'
    ensures StripTags(a + b) == [a[0]] + StripTags(a[1..] + b)
  {
    DropConcat(a, b, 1);
    assert (a + b)[0] == a[0];
  }

  /** A tag `<t>` is removed with nothing of what follows it. */
  lemma StripTagsTag(t: string, b: string)
    requires |t| > 0 && '>' !in t
    ensures StripTags("<" + t + ">" + b) == StripTags(b)
  {
    var s := "<" + t + ">" + b;
    TagParts(t, b);
    BreakLenAt(s[1..], {'>'}, |t|);
  }

  /** Where the pieces of `<t>b` lie. */
  lemma TagParts(t: string, b: string)
    ensures var s := "<" + t + ">" + b;
      s[0] == '<' && s[1..] == t + (">" + b) && s[1..][|t|] == '>' && s[|t| + 2..] == b
  {
    var s := "<" + t + ">" + b;
    assert s == "<" + (t + (">" + b));
  }

  /** The group of `<h1[^>]*>(.*?)</h1>` matched at the start of `s`: the
      attribute run stops at the first `>`, and the lazy group ends at the
      first `</h1>`, which must come before any newline. */
  function H1At(s: string): Option<string> {
    if !("<h1" <= s) then None
    else
      var t := s[3..];
      var k := BreakLen(t, {'>'});
      if k == |t| then None else H1Body(t[k + 1..])
  }

  function H1Body(u: string): Option<string> {
    match FindFrom(u, "</h1>", 0)
    case None => None
    case Some(j) => if '\n' in u[..j] then None else Some(u[..j])
  }

  /** `re.search`: the match at the leftmost position that has one. */
  function FindH1(s: string): Option<string>
    decreases |s|
  {
    if s == [] then None
    else
      match H1At(s)
      case Some(c) => Some(c)
      case None => FindH1(s[1..])
  }

  /** `extract_title_from_html` */
  function ExtractTitle(html: string): string {
    match FindH1(html)
    case None => "Untitled"
    case Some(c) => Strip(StripTags(c))
  }

  /** Without `<h1` there is no heading and the title is `Untitled`. */
  lemma {:induction false} FindH1Absent(s: string)
    requires !Contains(s, "<h1")
    ensures FindH1(s) == None
    decreases |s|
  {
    if s != [] {
      PrefixContains(s, "<h1");
      NotContainsDrop(s, "<h1", 1);
      FindH1Absent(s[1..]);
    }
  }

  lemma UntitledWithoutH1(html: string)
    requires !Contains(html, "<h1")
    ensures ExtractTitle(html) == "Untitled"
  {
    FindH1Absent(html);
  }

  /** Text before the first `<` is skipped by the search. */
  lemma {:induction false} FindH1Skip(a: string, b: string)
    requires '<' !in a
    ensures FindH1(a + b) == FindH1(b)
    decreases |a|
  {
    if a != [] {
      DropConcat(a, b, 1);
      assert (a + b)[0] == a[0] && a[0] != "<h1"[0];
      assert H1At(a + b) == None;
      assert '<' !in a[1..] by { NotInDrop(a, '<'); }
      FindH1Skip(a[1..], b);
    } else {
      assert a + b == b;
    }
  }

  /** A one-line `<h1 ...>c</h1>` gives `c`. */
  lemma H1AtWhole(attrs: string, c: string, rest: string)
    requires '>' !in attrs && '\n' !in c && !Contains(c, "</h1>")
    ensures H1At("<h1" + attrs + ">" + c + "</h1>" + rest) == Some(c)
  {
    var u := c + "</h1>" + rest;
    H1BodyWhole(c, rest);
    H1AtOpening(attrs, u);
    RegroupLastThree("<h1", attrs, ">", c, "</h1>", rest);
  }

  /** After a `<h1 ...>` opening tag the search goes on in the body. */
  lemma H1AtOpening(attrs: string, u: string)
    requires '>' !in attrs
    ensures H1At("<h1" + attrs + ">" + u) == H1Body(u)
  {
    var s := "<h1" + attrs + ">" + u;
    H1Parts(attrs, u);
    BreakLenAt(s[3..], {'>'}, |attrs|);
  }

  lemma H1Parts(attrs: string, u: string)
    ensures var s := "<h1" + attrs + ">" + u;
      "<h1" <= s && s[3..] == attrs + (">" + u) && s[3..][|attrs|] == '>' && s[3..][|attrs| + 1..] == u
  {
    var s := "<h1" + attrs + ">" + u;
    assert s == "<h1" + (attrs + (">" + u));
  }

  lemma H1BodyWhole(c: string, rest: string)
    requires '\n' !in c && !Contains(c, "</h1>")
    ensures H1Body(c + "</h1>" + rest) == Some(c)
  {
    var u := c + "</h1>" + rest;
    assert "</h1>"[1..] == "/h1>";
    FirstOccurrence(c, "</h1>", rest);
    TakeConcat(c + "</h1>", rest, |c|);
    TakeConcat(c, "</h1>", |c|);
  }

  /** The title is the first one-line `<h1>`'s text, tags removed and
      trimmed. */
  lemma ExtractTitleH1(pre: string, attrs: string, c: string, post: string)
    requires '<' !in pre && '>' !in attrs && '\n' !in c && !Contains(c, "</h1>")
    ensures ExtractTitle(pre + ("<h1" + attrs + ">" + c + "</h1>" + post)) == Strip(StripTags(c))
  {
    var h := "<h1" + attrs + ">" + c + "</h1>" + post;
    FindH1Skip(pre, h);
    H1AtWhole(attrs, c, post);
    assert h != [];
  }

  /** `str.capitalize()`: the first character upper-case, the rest lower-case. */
  function Capitalize(w: string): (r: string)
    ensures |r| == |w|
  {
    if w == [] then [] else [Upper(w[0])] + LowerStr(w[1..])
  }

  /** The file stem with `-` and `_` replaced by spaces: the two
      one-character `str.replace` calls. */
  function Spaced(stem: string): (r: string)
    ensures |r| == |stem|
  {
    seq(|stem|, i requires 0 <= i < |stem| => if stem[i] == '-' || stem[i] == '_' then ' ' else stem[i])
  }

  /** `' '.join(word.capitalize() for word in title.split())` */
  function StemTitle(stem: string): string {
    var ws := Words(Spaced(stem));
    Join(seq(|ws|, i requires 0 <= i < |ws| => Capitalize(ws[i])), " ")
  }

  /** Stems that do not name the article. */
  const PlaceholderStems: set<string> := {"untitled", "new", "draft"}

  /** Whether the file stem is used: non-empty and not a placeholder stem
      in any letter case. */
  predicate UsableStem(fileStem: Option<string>) {
    fileStem.Some? && fileStem.value != [] && LowerStr(fileStem.value) !in PlaceholderStems
  }

  /** The group of `#\s+(.+)` after the `#` at the start of `t`. The
      whitespace run is greedy and may cross lines; when it reaches the end
      of the text, it gives back characters until one that is not a newline
      can start the group. */
  function HeadingAfterHash(t: string): Option<string> {
    var w := SpanLen(t, Whitespace);
    if w == 0 then None
    else if w < |t| then Some(LineRun(t[w..]))
    else
      match LastNonNewline(t, w - 1)
      case None => None
      case Some(j) => Some(LineRun(t[j..]))
  }

  /** The text up to the next newline (a greedy `.+` once it has started). */
  function LineRun(x: string): string {
    x[..BreakLen(x, {'\n'})]
  }

  /** The largest `j` with `1 <= j <= i` and `t[j] != '\n'`. */
  function LastNonNewline(t: string, i: nat): (r: Option<nat>)
    requires i < |t|
    ensures r.Some? ==> 1 <= r.value <= i && t[r.value] != '\n'
    decreases i
  {
    if i == 0 then None
    else if t[i] != '\n' then Some(i)
    else LastNonNewline(t, i - 1)
  }

  /** `re.search(r'^#\s+(.+)', content, re.MULTILINE)`: the first line
      start where a match exists. */
  function FirstHeading(s: string, lineStart: bool): Option<string>
    decreases |s|
  {
    if s == [] then None
    else if lineStart && s[0] == '#' && HeadingAfterHash(s[1..]).Some? then HeadingAfterHash(s[1..])
    else FirstHeading(s[1..], s[0] == '\n')
  }

  /** `suggest_title_from_content` */
  function SuggestTitle(markdownContent: string, fileStem: Option<string>): string {
    if UsableStem(fileStem) then StemTitle(fileStem.value)
    else
      match FirstHeading(markdownContent, true)
      case Some(g) => Strip(g)
      case None => "Untitled"
  }

  /** A usable file stem wins over any heading. */
  lemma SuggestFromStem(markdownContent: string, stem: string)
    requires stem != [] && LowerStr(stem) !in PlaceholderStems
    ensures SuggestTitle(markdownContent, Some(stem)) == StemTitle(stem)
  {
  }

  /** A title made from a stem has no `-` or `_` and its words start
      upper-case. */
  lemma StemTitleShape(stem: string)
    ensures '-' !in StemTitle(stem) && '_' !in StemTitle(stem)
  {
    var sp := Spaced(stem);
    var ws := Words(sp);
    var caps := seq(|ws|, i requires 0 <= i < |ws| => Capitalize(ws[i]));
    SpacedExcludes(stem);
    WordsExclude(sp, '-');
    WordsExclude(sp, '_');
    forall i | 0 <= i < |ws| ensures '-' !in caps[i] && '_' !in caps[i] {
      CapitalizeExcludes(ws[i], '-');
      CapitalizeExcludes(ws[i], '_');
    }
    JoinExcludes(caps, " ", '-');
    JoinExcludes(caps, " ", '_');
  }

  lemma SpacedExcludes(stem: string)
    ensures '-' !in Spaced(stem) && '_' !in Spaced(stem)
  {
    var sp := Spaced(stem);
    forall i | 0 <= i < |sp| ensures sp[i] != '-' && sp[i] != '_' {
    }
  }

  /** Changing letter case leaves other characters where they are. */
  lemma CapitalizeExcludes(w: string, c: char)
    requires c !in w && !IsLetter(c)
    ensures c !in Capitalize(w)
  {
    var r := Capitalize(w);
    forall i | 0 <= i < |r| ensures r[i] != c {
      assert w[i] in w;
    }
  }

  /** With a placeholder stem the first `# ` heading gives the title. */
  lemma SuggestFromHeading(title: string, rest: string, fileStem: Option<string>)
    requires !UsableStem(fileStem)
    requires title != [] && !IsSpace(title[0]) && '\n' !in title
    ensures SuggestTitle("# " + title + "\n" + rest, fileStem) == Strip(title)
  {
    var s := "# " + title + "\n" + rest;
    HeadingParts(title, rest);
    HeadingAfterHashAt(s[1..], title, rest);
  }

  lemma HeadingParts(title: string, rest: string)
    ensures var s := "# " + title + "\n" + rest;
      s != [] && s[0] == '#' && s[1..] == " " + (title + "\n" + rest)
  {
    var s := "# " + title + "\n" + rest;
    assert s == "#" + (" " + (title + "\n" + rest));
  }

  lemma HeadingAfterHashAt(t: string, title: string, rest: string)
    requires t == " " + (title + "\n" + rest)
    requires title != [] && !IsSpace(title[0]) && '\n' !in title
    ensures HeadingAfterHash(t) == Some(title)
  {
    var x := title + "\n" + rest;
    assert t[1..] == x && t[0] == ' ' && t[1] == title[0];
    SpanLenAt(t, Whitespace, 1);
    BreakLenAt(x, {'\n'}, |title|);
    TakeConcat(title + "\n", rest, |title|);
    TakeConcat(title, "\n", |title|);
  }

  /** Without a usable stem and without `#`, the title is `Untitled`. */
  lemma {:induction false} NoHeadingAbsent(s: string, lineStart: bool)
    requires '#' !in s
    ensures FirstHeading(s, lineStart) == None
    decreases |s|
  {
    if s != [] {
      assert s[0] != '#';
      assert '#' !in s[1..];
      NoHeadingAbsent(s[1..], s[0] == '\n');
    }
  }

  lemma SuggestUntitled(markdownContent: string, fileStem: Option<string>)
    requires !UsableStem(fileStem) && '#' !in markdownContent
    ensures SuggestTitle(markdownContent, fileStem) == "Untitled"
  {
    NoHeadingAbsent(markdownContent, true);
  }

  // ---------------------------------------------------------------------
  // The conversion pipeline

  /** Text without backticks holds no fence. */
  lemma {:induction false} CodeBlocksNoBacktick(s: string, styler: Styler)
    requires '`' !in s
    ensures CodeBlocks(s, styler) == Some(s)
    decreases |s|
  {
    if s != [] {
      assert s[0] != '`';
      assert FenceLen(s).None?;
      NotInDrop(s, '`');
      CodeBlocksNoBacktick(s[1..], styler);
      CodeBlocksCharStep(s, styler);
      assert s[..1] + s[1..] == s;
    }
  }

  /** The restore loop of `_process_plain_urls` run from the last saved
      block down to the first, so that a block saved inside another is
      restored after it. */
  method ProcessPlainUrlsCorrected(content: string) returns (r: string)
    ensures r == PlainUrlsCorrected(content)
  {
    var fenced := Protect(content, true, []);
    var coded := Protect(fenced.text, false, fenced.blocks);
    var blocks := coded.blocks;
    var linked := Urls(coded.text, true);
    r := linked;
    var i := |blocks|;
    while i > 0
      invariant 0 <= i <= |blocks|
      invariant RestoreReverse(r, blocks, i) == RestoreReverse(linked, blocks, |blocks|)
    {
      r := ReplaceAll(r, Placeholder(i - 1), blocks[i - 1]);
      i := i - 1;
    }
  }

  /** Without backticks and `://` the corrected pass changes nothing. */
  lemma PlainUrlsCorrectedUnchanged(s: string)
    requires '`' !in s && !Contains(s, "://")
    ensures PlainUrlsCorrected(s) == s
  {
    ProtectNoBacktick(s, true, []);
    ProtectNoBacktick(s, false, []);
    UrlsNoScheme(s, true);
  }

  const StartMarker: string := "%%%CODEBLOCK_START%%%"
  const EndMarker: string := "%%%CODEBLOCK_END%%%"

  /** The two marker removals at the end of `to_html`. */
  function RemoveMarkers(html: string): string {
    ReplaceAll(ReplaceAll(html, StartMarker, ""), EndMarker, "")
  }

  /** HTML without `%` holds no marker and is kept. */
  lemma RemoveMarkersPlain(html: string)
    requires '%' !in html
    ensures RemoveMarkers(html) == html
  {
    assert StartMarker[0] == '%' && EndMarker[0] == '%';
    ReplaceNoHead(html, StartMarker, "");
    ReplaceNoHead(html, EndMarker, "");
  }

  /** A marker between marker-free texts is removed and nothing else is. */
  lemma RemoveMarkersAround(a: string, b: string)
    requires '%' !in a && '%' !in b
    ensures RemoveMarkers(a + StartMarker + b) == a + b
  {
    assert StartMarker[0] == '%' && EndMarker[0] == '%';
    ReplaceSkip(a, StartMarker + b, StartMarker, "");
    assert a + StartMarker + b == a + (StartMarker + b);
    ReplaceHere(StartMarker, b, "");
    ReplaceNoHead(b, StartMarker, "");
    assert a + ("" + b) == a + b;
    NotInParts(a, b, '%');
    ReplaceNoHead(a + b, EndMarker, "");
  }

  /** The Markdown handed to the converter: styled code blocks, then
      strikethrough, then bare URLs linked by `_process_plain_urls`, which
      restores the saved code in the order it was saved. */
  function Prepared(styled: string): string {
    PlainUrls(Strikethrough(styled))
  }

  /** The passes over the converter's HTML: tables, URL cards in the
      style `cs`, markers. */
  function Finished(html: string, cs: CardStyle): string {
    RemoveMarkers(UrlCards(EnhanceTables(html), cs))
  }

  /** `to_html` with the code-block styler and the card style as
      parameters. `convert` stands for python-markdown's `convert` with
      its extensions and the wikilink preprocessor; the result is `None`
      when the styler raises. */
  function Convert(markdownContent: string, styler: Styler, cs: CardStyle, convert: string -> string): (html: Option<string>)
    ensures html.Some? <==> CodeBlocks(markdownContent, styler).Some?
  {
    match CodeBlocks(markdownContent, styler)
    case None => None
    case Some(styled) => Some(Finished(convert(Prepared(styled)), cs))
  }

  /** `to_html`: fenced code through the highlighter, cards in the page's
      style. */
  function ToHtml(markdownContent: string, convert: string -> string): Option<string> {
    Convert(markdownContent, CodeHighlighter.CodeBlock, PageCard(), convert)
  }

  /** Only a fenced block can make the conversion raise. */
  lemma ConvertNoFence(markdownContent: string, styler: Styler, cs: CardStyle, convert: string -> string)
    requires '`' !in markdownContent
    ensures Convert(markdownContent, styler, cs, convert) == Some(Finished(convert(Prepared(markdownContent)), cs))
  {
    CodeBlocksNoBacktick(markdownContent, styler);
  }

  /** Markdown with no code, no tilde and no URL reaches the converter as
      written. */
  lemma PreparedPlain(s: string)
    requires '`' !in s && '~' !in s && !Contains(s, "://")
    ensures Prepared(s) == s
  {
    StrikeNoTilde(s);
    PlainUrlsUnchanged(s);
  }

  /** HTML with no tag and no `%` leaves the post-passes as it came. */
  lemma FinishedPlain(html: string, cs: CardStyle)
    requires '<' !in html && '%' !in html
    ensures Finished(html, cs) == html
  {
    EnhanceTablesPlain(html);
    assert CardOpen[0] == '<';
    NotContainsHead(html, CardOpen);
    UrlCardsNoOpen(html, cs);
    RemoveMarkersPlain(html);
  }

  /** For plain text the whole conversion is the converter's. */
  lemma ConvertPlain(markdownContent: string, styler: Styler, cs: CardStyle, convert: string -> string)
    requires '`' !in markdownContent && '~' !in markdownContent && !Contains(markdownContent, "://")
    requires '<' !in convert(markdownContent) && '%' !in convert(markdownContent)
    ensures Convert(markdownContent, styler, cs, convert) == Some(convert(markdownContent))
  {
    ConvertNoFence(markdownContent, styler, cs, convert);
    PreparedPlain(markdownContent);
    FinishedPlain(convert(markdownContent), cs);
  }

  /** The nested input in one line: inline code holding a fence. */
  function NestedLine(a: string, b: string, c: string): string {
    "`" + a + "```" + b + "```" + c + "`"
  }

  /** A one-line nested input without `~` reaches the URL pass unchanged. */
  lemma NestedLineStyled(a: string, b: string, c: string, styler: Styler)
    requires '\n' !in a + b + c && '~' !in a + b + c
    ensures CodeBlocks(NestedLine(a, b, c), styler) == Some(NestedLine(a, b, c))
    ensures Strikethrough(NestedLine(a, b, c)) == NestedLine(a, b, c)
  {
    var s := NestedLine(a, b, c);
    assert forall ch :: ch in s ==> ch == '`' || ch in a + b + c;
    CodeBlocksNoNewline(s, styler);
    StrikeNoTilde(s);
  }

  /** `to_html` as written hands the converter the placeholder of the fence
      instead of the fence when the fence sits in a one-line code span. */
  lemma ConvertLeaksPlaceholder(a: string, b: string, c: string, styler: Styler, cs: CardStyle, convert: string -> string)
    requires |a| > 0 && '`' !in a + b + c && '\n' !in a + b + c && '~' !in a + b + c
    ensures Convert(NestedLine(a, b, c), styler, cs, convert)
      == Some(Finished(convert("`" + a + Placeholder(0) + c + "`"), cs))
  {
    NestedLineStyled(a, b, c, styler);
    NestedFenceLeaksPlaceholder(a, b, c);
  }

  /** The Markdown handed to the converter once the saved code is restored
      from the last block to the first. */
  function PreparedCorrected(styled: string): string {
    PlainUrlsCorrected(Strikethrough(styled))
  }

  /** `to_html` with the corrected restore order. */
  function ConvertCorrected(markdownContent: string, styler: Styler, cs: CardStyle, convert: string -> string): (html: Option<string>)
    ensures html.Some? <==> CodeBlocks(markdownContent, styler).Some?
  {
    match CodeBlocks(markdownContent, styler)
    case None => None
    case Some(styled) => Some(Finished(convert(PreparedCorrected(styled)), cs))
  }

  /** With the corrected order the nested input reaches the converter as
      written. */
  lemma ConvertCorrectedKeepsFence(a: string, b: string, c: string, styler: Styler, cs: CardStyle, convert: string -> string)
    requires |a| > 0 && '`' !in a + b + c && '%' !in a + c && '\n' !in a + b + c && '~' !in a + b + c
    ensures ConvertCorrected(NestedLine(a, b, c), styler, cs, convert)
      == Some(Finished(convert(NestedLine(a, b, c)), cs))
  {
    NestedLineStyled(a, b, c, styler);
    NestedFenceRestored(a, b, c);
  }
}

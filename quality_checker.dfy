/** The article checks of `QualityChecker` (scripts/quality_checker.py):
    metadata presence and date prefix, the heading and blank-line format
    checks, the link counts, and the reading time. */
module QualityChecker {
  import opened Wrappers
  import opened Text
  import MarkdownParser

  /** The front matter as `parse_frontmatter` returns it; a value is seen
      through its `str()` and its truth value. */
  type Metadata = MarkdownParser.Metadata

  /** The outcome of a check: `passed` and its list of issues. */
  datatype CheckResult = CheckResult(passed: bool, issues: seq<string>)

  // ---------------------------------------------------------------------
  // Metadata

  const RequiredFields: seq<string> := ["param_category", "param_tags"]
  const CreatedField: string := "param_created"

  function MissingFieldIssue(field: string): string {
    "必須フィールド '" + field + "' が未設定"
  }

  const DateIssue: string := "日付フォーマットが不正（YYYY-MM-DD形式を使用）"

  /** The field is present and its value is truthy. */
  predicate FieldSet(metadata: Metadata, field: string) {
    field in metadata && metadata[field].truthy
  }

  /** One issue for each field of `fields` that is missing or falsy, in
      order. */
  function FieldIssues(fields: seq<string>, metadata: Metadata): seq<string>
    decreases |fields|
  {
    if fields == [] then []
    else
      var last := fields[|fields| - 1];
      FieldIssues(fields[..|fields| - 1], metadata)
        + (if FieldSet(metadata, last) then [] else [MissingFieldIssue(last)])
  }

  /** A creation date is there and `str()` of it does not start with
      `\d{4}-\d{2}-\d{2}`. */
  predicate BadCreated(metadata: Metadata) {
    CreatedField in metadata && !DashedDateAt(metadata[CreatedField].text)
  }

  function MetadataIssues(metadata: Metadata): seq<string> {
    FieldIssues(RequiredFields, metadata) + (if BadCreated(metadata) then [DateIssue] else [])
  }

  /** `_check_metadata` */
  method CheckMetadata(metadata: Metadata) returns (result: CheckResult)
    ensures result.issues == MetadataIssues(metadata)
    ensures result.passed <==> result.issues == []
  {
    var issues: seq<string> := [];
    for i := 0 to |RequiredFields|
      invariant issues == FieldIssues(RequiredFields[..i], metadata)
    {
      var field := RequiredFields[i];
      assert RequiredFields[..i + 1][..i] == RequiredFields[..i];
      if field !in metadata || !metadata[field].truthy {
        issues := issues + [MissingFieldIssue(field)];
      }
    }
    assert RequiredFields[..|RequiredFields|] == RequiredFields;
    if CreatedField in metadata {
      if !DashedDateAt(metadata[CreatedField].text) {
        issues := issues + [DateIssue];
      }
    }
    result := CheckResult(|issues| == 0, issues);
  }

  /** The two field issues and the date issue are told apart by their
      first characters and by the field name. */
  lemma IssuesDistinct()
    ensures MissingFieldIssue("param_category") != MissingFieldIssue("param_tags")
    ensures MissingFieldIssue("param_category") != DateIssue
    ensures MissingFieldIssue("param_tags") != DateIssue
  {
    var a := MissingFieldIssue("param_category");
    var b := MissingFieldIssue("param_tags");
    assert a[0] == '必' && DateIssue[0] == '日';
    assert b[0] == '必';
    assert a[15] == 'c' && b[15] == 't';
  }

  lemma MetadataIssuesShape(metadata: Metadata)
    ensures MetadataIssues(metadata)
      == (if FieldSet(metadata, "param_category") then [] else [MissingFieldIssue("param_category")])
       + (if FieldSet(metadata, "param_tags") then [] else [MissingFieldIssue("param_tags")])
       + (if BadCreated(metadata) then [DateIssue] else [])
  {
    var cat := if FieldSet(metadata, "param_category") then [] else [MissingFieldIssue("param_category")];
    var tags := if FieldSet(metadata, "param_tags") then [] else [MissingFieldIssue("param_tags")];
    assert RequiredFields[..1] == ["param_category"];
    assert RequiredFields[..1][..0] == [];
    assert FieldIssues(RequiredFields[..1], metadata) == cat;
    assert FieldIssues(RequiredFields, metadata) == cat + tags;
  }

  /** The metadata check passes exactly when both fields are set and a
      creation date, if any, starts with a dashed date. */
  lemma MetadataPassedIff(metadata: Metadata)
    ensures MetadataIssues(metadata) == []
      <==> (FieldSet(metadata, "param_category") && FieldSet(metadata, "param_tags")
            && (CreatedField in metadata ==> DashedDateAt(metadata[CreatedField].text)))
  {
    MetadataIssuesShape(metadata);
  }

  /** A field gets its issue exactly when it is missing or falsy. */
  lemma FieldIssueIff(metadata: Metadata, field: string)
    requires field in RequiredFields
    ensures MissingFieldIssue(field) in MetadataIssues(metadata) <==> !FieldSet(metadata, field)
  {
    MetadataIssuesShape(metadata);
    IssuesDistinct();
  }

  /** The date issue is there exactly when the date is bad. */
  lemma DateIssueIff(metadata: Metadata)
    ensures DateIssue in MetadataIssues(metadata) <==> BadCreated(metadata)
  {
    MetadataIssuesShape(metadata);
    IssuesDistinct();
  }

  /** Only the prefix of the date is checked: anything may follow it. */
  lemma DatePrefixOnly(date: string, rest: string)
    requires DashedDateAt(date)
    ensures DashedDateAt(date + rest)
  {
    var s := date + rest;
    assert s[..4] == date[..4] && s[5..7] == date[5..7] && s[8..10] == date[8..10];
  }

  // ---------------------------------------------------------------------
  // Format

  const HeadingIssue: string := "最初の見出しはH1（#）を使用してください"
  const BlankLinesIssue: string := "3行以上の連続空行があります"

  /** Where `^` of a multi-line pattern matches. */
  predicate LineStart(s: string, i: nat)
    requires i <= |s|
  {
    i == 0 || s[i - 1] == '\n'
  }

  /** `(#+)\s+` at `i`: the level of the heading (the length of the `#`
      run, which must be followed by whitespace; a shorter run would be
      followed by `#`). */
  function HeadingAt(s: string, i: nat): (r: Option<nat>)
    requires i <= |s|
    ensures r.Some? ==> r.value >= 1
  {
    var e := Span(s, i, {'#'});
    if e > i && e < |s| && IsSpace(s[e]) then Some(e - i) else None
  }

  /** The level of the first heading at or after `i`: the first element of
      `re.findall(r'^(#+)\s+', content, re.MULTILINE)`. */
  function FirstHeadingFrom(s: string, i: nat): Option<nat>
    requires i <= |s|
    decreases |s| - i
  {
    if i == |s| then None
    else if LineStart(s, i) && HeadingAt(s, i).Some? then HeadingAt(s, i)
    else FirstHeadingFrom(s, i + 1)
  }

  function FirstHeading(content: string): Option<nat> {
    FirstHeadingFrom(content, 0)
  }

  /** The first heading exists and is not `#`. */
  predicate WrongFirstHeading(content: string) {
    FirstHeading(content).Some? && FirstHeading(content).value != 1
  }

  function FormatIssues(content: string): seq<string> {
    (if WrongFirstHeading(content) then [HeadingIssue] else [])
      + (if Contains(content, "\n\n\n") then [BlankLinesIssue] else [])
  }

  /** `_check_format` */
  method CheckFormat(content: string) returns (result: CheckResult)
    ensures result.issues == FormatIssues(content)
    ensures result.passed <==> result.issues == []
  {
    var issues: seq<string> := [];
    var first := FirstHeading(content);
    if first.Some? && first.value != 1 {
      issues := issues + [HeadingIssue];
    }
    if Contains(content, "\n\n\n") {
      issues := issues + [BlankLinesIssue];
    }
    result := CheckResult(|issues| == 0, issues);
  }

  /** The format check passes exactly when there is no heading or the
      first is `#`, and there is no run of three newlines. */
  lemma FormatPassedIff(content: string)
    ensures FormatIssues(content) == []
      <==> ((FirstHeading(content).None? || FirstHeading(content) == Some(1))
            && !Contains(content, "\n\n\n"))
  {
  }

  /** Without `#` there is no heading, so no heading issue. */
  lemma {:induction false} NoHashNoHeading(s: string, i: nat)
    requires i <= |s| && '#' !in s
    ensures FirstHeadingFrom(s, i) == None
    decreases |s| - i
  {
    if i < |s| {
      assert Span(s, i, {'#'}) == i;
      NoHashNoHeading(s, i + 1);
    }
  }

  /** Text that opens with `n` hashes and whitespace has a first heading
      of level `n`. */
  lemma OpeningHeading(s: string, n: nat)
    requires 1 <= n < |s| && IsSpace(s[n])
    requires forall k :: 0 <= k < n ==> s[k] == '#'
    ensures FirstHeading(s) == Some(n)
  {
    SpanAt(s, 0, n, {'#'});
  }

  /** A hash run glued to a word (`#tag`) is no heading. */
  lemma TagNoHeading(s: string, i: nat)
    requires i <= |s|
    requires var e := Span(s, i, {'#'}); e < |s| && !IsSpace(s[e])
    ensures HeadingAt(s, i) == None
  {
  }

  /** A later `#` heading does not excuse a first `##` one. */
  lemma LaterHeadingIgnored(a: string, b: string)
    requires |a| >= 2 && a[0] == '#' && a[1] == '#' && |a| > 2 && IsSpace(a[2])
    ensures WrongFirstHeading(a + b)
  {
    var s := a + b;
    assert s[0] == '#' && s[1] == '#' && IsSpace(s[2]);
    OpeningHeading(s, 2);
  }

  // ---------------------------------------------------------------------
  // Links

  /** The counts `_check_links` reports; it always passes. */
  datatype LinkReport = LinkReport(passed: bool, externalLinks: nat, internalLinks: nat, issues: seq<string>)

  const UrlStops: set<char> := Whitespace + {')', '"'}

  /** `https?://[^\s\)"]+` at `i`: where the match ends. The `s` is taken
      when present; giving it back cannot help, since `:` must follow. */
  function UrlAt(s: string, i: nat): (r: Option<nat>)
    requires i <= |s|
    ensures r.Some? ==> i < r.value <= |s|
  {
    if i + 4 > |s| || s[i..i + 4] != "http" then None
    else
      var p := if i + 4 < |s| && s[i + 4] == 's' then i + 5 else i + 4;
      if p + 3 > |s| || s[p..p + 3] != "://" then None
      else
        var e := Break(s, p + 3, UrlStops);
        if e == p + 3 then None else Some(e)
  }

  /** `len(re.findall(pattern, s[i:]))` for a pattern whose matches are
      found by `at`: leftmost, not overlapping. */
  function UrlsFrom(s: string, i: nat): nat
    requires i <= |s|
    decreases |s| - i
  {
    if i == |s| then 0
    else
      match UrlAt(s, i)
      case Some(e) => 1 + UrlsFrom(s, e)
      case None => UrlsFrom(s, i + 1)
  }

  const WikiStops: set<char> := {']', '|'}

  /** `\[\[([^\]|]+)` at `i`: where the match ends. */
  function WikiAt(s: string, i: nat): (r: Option<nat>)
    requires i <= |s|
    ensures r.Some? ==> i < r.value <= |s|
  {
    if i + 2 > |s| || s[i] != '[' || s[i + 1] != '[' then None
    else
      var e := Break(s, i + 2, WikiStops);
      if e == i + 2 then None else Some(e)
  }

  function WikisFrom(s: string, i: nat): nat
    requires i <= |s|
    decreases |s| - i
  {
    if i == |s| then 0
    else
      match WikiAt(s, i)
      case Some(e) => 1 + WikisFrom(s, e)
      case None => WikisFrom(s, i + 1)
  }

  /** `_check_links` */
  function CheckLinks(content: string): (r: LinkReport)
    ensures r.passed && r.issues == []
  {
    LinkReport(true, UrlsFrom(content, 0), WikisFrom(content, 0), [])
  }

  /** The counts never exceed the text length. */
  lemma {:induction false} CountsBounded(s: string, i: nat)
    requires i <= |s|
    ensures UrlsFrom(s, i) <= |s| - i && WikisFrom(s, i) <= |s| - i
    decreases |s| - i
  {
    if i < |s| {
      CountsBounded(s, i + 1);
      match UrlAt(s, i) {
        case Some(e) => CountsBounded(s, e);
        case None =>
      }
      match WikiAt(s, i) {
        case Some(e) => CountsBounded(s, e);
        case None =>
      }
    }
  }

  /** Text without `[` has no internal link. */
  lemma {:induction false} NoBracketNoWiki(s: string, i: nat)
    requires i <= |s| && '[' !in s
    ensures WikisFrom(s, i) == 0
    decreases |s| - i
  {
    if i < |s| {
      NoBracketNoWiki(s, i + 1);
    }
  }

  /** An image directive `![[name]]` counts as one internal link. */
  lemma DirectiveCounted(name: string)
    requires |name| > 0 && '[' !in name && ']' !in name && '|' !in name
    ensures WikisFrom("![[" + name + "]]", 0) == 1
  {
    var s := "![[" + name + "]]";
    var e := 3 + |name|;
    assert s[1] == '[' && s[2] == '[' && s[e] == ']';
    assert forall k :: 3 <= k < e ==> s[k] == name[k - 3];
    BreakAt(s, 3, e, WikiStops);
    assert WikiAt(s, 0) == None;
    assert WikiAt(s, 1) == Some(e);
    NoBracketNoWikiAt(s, e);
  }

  /** From `i` on there is no `[`, so no internal link. */
  lemma {:induction false} NoBracketNoWikiAt(s: string, i: nat)
    requires i <= |s| && forall k :: i <= k < |s| ==> s[k] != '['
    ensures WikisFrom(s, i) == 0
    decreases |s| - i
  {
    if i < |s| {
      NoBracketNoWikiAt(s, i + 1);
    }
  }

  // ---------------------------------------------------------------------
  // Reading time

  /** Python's `round(n / d)` for naturals: to the nearest integer, halves
      to the even neighbour. */
  function RoundHalfEven(n: nat, d: nat): (r: nat)
    requires d > 0
  {
    var q := n / d;
    var rem := n % d;
    if 2 * rem < d then q
    else if 2 * rem > d then q + 1
    else if q % 2 == 0 then q
    else q + 1
  }

  /** `max(1, round(char_count / 400))` */
  function ReadingTime(charCount: nat): (r: nat)
    ensures r >= 1
  {
    var m := RoundHalfEven(charCount, 400);
    if m < 1 then 1 else m
  }

  /** The rounding is within half a unit, and a tie goes to an even value. */
  lemma RoundNearest(n: nat, d: nat)
    requires d > 0
    ensures 2 * n - d <= 2 * d * RoundHalfEven(n, d) <= 2 * n + d
    ensures 2 * (n % d) == d ==> RoundHalfEven(n, d) % 2 == 0
  {
    var q := n / d;
    assert n == d * q + n % d;
  }

  /** Reading time grows with the text. */
  lemma ReadingTimeMonotone(a: nat, b: nat)
    requires a <= b
    ensures ReadingTime(a) <= ReadingTime(b)
  {
    RoundNearest(a, 400);
    RoundNearest(b, 400);
  }

  /** Below 600 characters the reading time is one minute; at 600 it is
      two (1.5 rounds to 2), and at 1000 still two (2.5 rounds to 2). */
  lemma ReadingTimeSmall(c: nat)
    ensures c < 600 ==> ReadingTime(c) == 1
    ensures ReadingTime(600) == 2 && ReadingTime(1000) == 2
  {
  }

  /** Beyond the minimum, the minutes are the characters over 400, rounded. */
  lemma ReadingTimeNear(c: nat)
    requires c >= 200
    ensures 400 * ReadingTime(c) - 200 <= c <= 400 * ReadingTime(c) + 200
  {
    RoundNearest(c, 400);
  }
}

/** The fenced-code styler (scripts/utils/code_highlighter.py): parses the
    fence's info string (a language, then `style:ranges` tokens), escapes the
    code, and wraps every line in a span that carries at most one style. */
module CodeHighlighter {
  import opened Wrappers
  import opened Text

  /** The keys of `LINE_STYLES`, in the dictionary's order, with the
      presentation attached to each. */
  datatype Style = Error | Warning | Success | Info | Highlight | Add | Remove
  {
    function Name(): string {
      match this
      case Error => "error"
      case Warning => "warning"
      case Success => "success"
      case Info => "info"
      case Highlight => "highlight"
      case Add => "add"
      case Remove => "remove"
    }

    function Background(): string {
      match this
      case Error => "#fee"
      case Warning => "#fffbdd"
      case Success => "#e6ffed"
      case Info => "#e3f2fd"
      case Highlight => "#fff3cd"
      case Add => "#e6ffed"
      case Remove => "#ffeef0"
    }

    function BorderLeft(): string {
      match this
      case Error => "3px solid #f44336"
      case Warning => "3px solid #ff9800"
      case Success => "3px solid #4caf50"
      case Info => "3px solid #2196f3"
      case Highlight => "3px solid #ffc107"
      case Add => "3px solid #28a745"
      case Remove => "3px solid #dc3545"
    }

    function CssClass(): string {
      match this
      case Error => "line-error"
      case Warning => "line-warning"
      case Success => "line-success"
      case Info => "line-info"
      case Highlight => "line-highlight"
      case Add => "line-add"
      case Remove => "line-remove"
    }
  }

  /** `name in LINE_STYLES`, returning the style the key names. */
  function StyleNamed(name: string): (r: Option<Style>)
    ensures r.Some? ==> r.value.Name() == name
    ensures r.None? ==> forall st: Style :: st.Name() != name
  {
    if name == "error" then Some(Error)
    else if name == "warning" then Some(Warning)
    else if name == "success" then Some(Style.Success)
    else if name == "info" then Some(Info)
    else if name == "highlight" then Some(Highlight)
    else if name == "add" then Some(Add)
    else if name == "remove" then Some(Remove)
    else None
  }

  /** `LANGUAGE_MAP`: fence language (lower-cased) to Prism.js language. */
  const LanguageMap: map<string, string> := map[
    "python" := "python", "py" := "python",
    "javascript" := "javascript", "js" := "javascript",
    "typescript" := "typescript", "ts" := "typescript",
    "java" := "java", "c" := "c", "cpp" := "cpp", "c++" := "cpp",
    "csharp" := "csharp", "cs" := "csharp", "php" := "php",
    "ruby" := "ruby", "rb" := "ruby", "go" := "go",
    "rust" := "rust", "rs" := "rust", "kotlin" := "kotlin", "swift" := "swift",
    "r" := "r", "sql" := "sql",
    "bash" := "bash", "shell" := "bash", "sh" := "bash",
    "powershell" := "powershell", "ps1" := "powershell",
    "html" := "html", "xml" := "xml", "css" := "css", "scss" := "scss", "sass" := "sass",
    "json" := "json", "yaml" := "yaml", "yml" := "yaml",
    "markdown" := "markdown", "md" := "markdown",
    "dockerfile" := "dockerfile", "docker" := "dockerfile", "makefile" := "makefile",
    "nginx" := "nginx", "apache" := "apache", "ini" := "ini", "toml" := "toml", "diff" := "diff",
    "plaintext" := "plaintext", "text" := "plaintext", "txt" := "plaintext"
  ]

  /** `LANGUAGE_MAP.get(language.lower(), language)` */
  function PrismLanguage(language: string): (r: string)
    ensures LowerStr(language) in LanguageMap ==> r == LanguageMap[LowerStr(language)]
    ensures LowerStr(language) !in LanguageMap ==> r == language
  {
    var key := LowerStr(language);
    if key in LanguageMap then LanguageMap[key] else language
  }

  // ---------------------------------------------------------------------
  // Line ranges: "1-3,5,7-9"

  /** `range(start, end + 1)` */
  function Range(start: int, end: int): (r: seq<int>)
    ensures forall n :: n in r <==> start <= n <= end
    decreases end - start
  {
    if start > end then [] else [start] + Range(start + 1, end)
  }

  /** The lines one comma-separated token contributes: `N-M` (split at the
      first `-`, inclusive) or `N`. `None` is the `ValueError` that `int()`
      raises on a malformed token. */
  function TokenLines(token: string): Option<seq<int>> {
    if '-' in token then
      var k := IndexOf(token, '-');
      var start := PyInt(token[..k]);
      var end := PyInt(token[k + 1..]);
      if start.Some? && end.Some? then Some(Range(start.value, end.value)) else None
    else
      var v := PyInt(token);
      if v.Some? then Some([v.value]) else None
  }

  function RangesOf(tokens: seq<string>): Option<seq<int>>
    decreases |tokens|
  {
    if tokens == [] then Some([])
    else
      var head := TokenLines(tokens[0]);
      var tail := RangesOf(tokens[1..]);
      if head.Some? && tail.Some? then Some(head.value + tail.value) else None
  }

  /** What `_parse_line_ranges` returns (`None` where it raises). */
  function LineRanges(rangesStr: string): Option<seq<int>> {
    RangesOf(SplitOn(rangesStr, ','))
  }

  /** `prefix` followed by a parse result, failing when it fails. */
  function Extend(prefix: seq<int>, o: Option<seq<int>>): Option<seq<int>> {
    if o.Some? then Some(prefix + o.value) else None
  }

  lemma {:induction false} RangesOfStep(parts: seq<string>, i: nat)
    requires i < |parts|
    ensures RangesOf(parts[i..]) ==
      if TokenLines(parts[i]).Some? then Extend(TokenLines(parts[i]).value, RangesOf(parts[i + 1..])) else None
  {
    assert parts[i..][1..] == parts[i + 1..];
  }

  /** `_parse_line_ranges`: extends `lines` token by token. */
  method ParseLineRanges(rangesStr: string) returns (r: Option<seq<int>>)
    ensures r == LineRanges(rangesStr)
  {
    var parts := SplitOn(rangesStr, ',');
    var lines: seq<int> := [];
    var i := 0;
    assert parts[i..] == parts;
    assert Extend(lines, RangesOf(parts)) == RangesOf(parts) by {
      if RangesOf(parts).Some? {
        assert lines + RangesOf(parts).value == RangesOf(parts).value;
      }
    }
    while i < |parts|
      invariant 0 <= i <= |parts|
      invariant RangesOf(parts) == Extend(lines, RangesOf(parts[i..]))
    {
      var rangePart := parts[i];
      RangesOfStep(parts, i);
      var parsed := TokenLines(rangePart);
      if parsed.None? {
        return None;
      }
      var added := parsed.value;
      var rest := RangesOf(parts[i + 1..]);
      if rest.Some? {
        assert lines + (added + rest.value) == (lines + added) + rest.value;
      }
      lines := lines + added;
      i := i + 1;
    }
    assert parts[i..] == [];
    assert lines + [] == lines;
    return Some(lines);
  }

  /** A line is in the parsed list exactly when some token's range covers it. */
  lemma {:induction false} RangesOfMembers(tokens: seq<string>, n: int)
    requires RangesOf(tokens).Some?
    ensures n in RangesOf(tokens).value <==>
      exists j :: 0 <= j < |tokens| && TokenLines(tokens[j]).Some? && n in TokenLines(tokens[j]).value
    decreases |tokens|
  {
    if tokens != [] {
      RangesOfMembers(tokens[1..], n);
      var head := TokenLines(tokens[0]).value;
      if n in RangesOf(tokens).value && n !in head {
        var j :| 0 <= j < |tokens[1..]| && TokenLines(tokens[1..][j]).Some? && n in TokenLines(tokens[1..][j]).value;
        assert tokens[1..][j] == tokens[j + 1];
      }
      if exists j :: 0 <= j < |tokens| && TokenLines(tokens[j]).Some? && n in TokenLines(tokens[j]).value {
        var j :| 0 <= j < |tokens| && TokenLines(tokens[j]).Some? && n in TokenLines(tokens[j]).value;
        if j > 0 {
          assert tokens[1..][j - 1] == tokens[j];
        }
      }
    }
  }

  /** The parse fails exactly when one token is malformed. */
  lemma {:induction false} RangesOfFails(tokens: seq<string>)
    ensures RangesOf(tokens).None? <==> exists j :: 0 <= j < |tokens| && TokenLines(tokens[j]).None?
    decreases |tokens|
  {
    if tokens != [] {
      RangesOfFails(tokens[1..]);
      if exists j :: 0 <= j < |tokens| && TokenLines(tokens[j]).None? {
        var j :| 0 <= j < |tokens| && TokenLines(tokens[j]).None?;
        if j > 0 {
          assert tokens[1..][j - 1] == tokens[j];
        }
      }
      if RangesOf(tokens[1..]).None? {
        var j :| 0 <= j < |tokens[1..]| && TokenLines(tokens[1..][j]).None?;
        assert tokens[1..][j] == tokens[j + 1];
      }
    }
  }

  /** A `D-E` token of two digits covers the lines from `D` to `E`. */
  lemma {:induction false} DigitRangeToken(t: string, d: char, e: char)
    requires t == [d, '-', e] && IsDigit(d) && IsDigit(e)
    ensures TokenLines(t) == Some(Range(DigitValue(d), DigitValue(e))) && ',' !in t
  {
    DashSplit(t, d, e);
    PyIntDigit(d);
    PyIntDigit(e);
    RangeTokenAt(t, 1, DigitValue(d), DigitValue(e));
  }

  lemma {:induction false} DashSplit(t: string, d: char, e: char)
    requires t == [d, '-', e] && IsDigit(d)
    ensures t[1] == '-' && '-' !in t[..1] && t[..1] == [d] && t[2..] == [e]
  {
  }

  /** A token whose first `-` is at `k` with numbers on both sides. */
  lemma {:induction false} RangeTokenAt(t: string, k: nat, a: int, b: int)
    requires k < |t| && t[k] == '-' && '-' !in t[..k]
    requires PyInt(t[..k]) == Some(a) && PyInt(t[k + 1..]) == Some(b)
    ensures TokenLines(t) == Some(Range(a, b))
  {
    IndexOfAt(t, '-', k);
  }

  /** A one-digit token is that line. */
  lemma {:induction false} DigitToken(d: char)
    requires IsDigit(d)
    ensures TokenLines([d]) == Some([DigitValue(d)])
  {
    PyIntDigit(d);
  }

  lemma {:induction false} RangesOfCons(t: string, rest: seq<string>)
    ensures RangesOf([t] + rest) ==
      if TokenLines(t).Some? then Extend(TokenLines(t).value, RangesOf(rest)) else None
  {
    assert ([t] + rest)[1..] == rest;
  }

  /** Where the pieces of `x,t` lie. */
  lemma {:induction false} CommaParts(s: string, x: string, t: string)
    requires s == x + "," + t
    ensures |x| < |s| && s[|x|] == ',' && s[..|x|] == x && s[|x| + 1..] == t
  {
  }

  lemma {:induction false} CommaAssoc(x: string, y: string, z: string)
    ensures x + "," + y + "," + z == x + "," + (y + "," + z)
  {
  }

  /** Three comma-free tokens joined by commas split back into those tokens. */
  lemma {:induction false} SplitThree(s: string, x: string, y: string, z: string)
    requires ',' !in x && ',' !in y && ',' !in z
    requires s == x + "," + y + "," + z
    ensures SplitOn(s, ',') == [x, y, z]
  {
    var s2 := y + "," + z;
    CommaAssoc(x, y, z);
    SplitAtComma(s, x, s2);
    SplitAtComma(s2, y, z);
    NoCommaSplit(z);
    assert [x] + ([y] + [z]) == [x, y, z];
  }

  /** Splitting at a first comma. */
  lemma {:induction false} SplitAtComma(s: string, x: string, t: string)
    requires s == x + "," + t && ',' !in x
    ensures SplitOn(s, ',') == [x] + SplitOn(t, ',')
  {
    CommaParts(s, x, t);
    SplitOnAt(s, ',', |x|);
  }

  /** `D-E,F,G-H` with single digits: the first range, the line, the second
      range, in order. */
  lemma {:induction false} RangeLineRange(s: string, a: char, b: char, c: char, d: char, e: char)
    requires IsDigit(a) && IsDigit(b) && IsDigit(c) && IsDigit(d) && IsDigit(e)
    requires s == [a, '-', b, ',', c, ',', d, '-', e]
    ensures LineRanges(s) ==
      Some(Range(DigitValue(a), DigitValue(b)) + [DigitValue(c)] + Range(DigitValue(d), DigitValue(e)))
  {
    var x, y, z := [a, '-', b], [c], [d, '-', e];
    NineParts(s, x, y, z, a, b, c, d, e);
    DigitRangeToken(x, a, b);
    DigitToken(c);
    DigitRangeToken(z, d, e);
    SplitThree(s, x, y, z);
    RangesOfThree(x, y, z, Range(DigitValue(a), DigitValue(b)), [DigitValue(c)], Range(DigitValue(d), DigitValue(e)));
  }

  lemma {:induction false} NineParts(s: string, x: string, y: string, z: string, a: char, b: char, c: char, d: char, e: char)
    requires IsDigit(c)
    requires s == [a, '-', b, ',', c, ',', d, '-', e] && x == [a, '-', b] && y == [c] && z == [d, '-', e]
    ensures s == x + "," + y + "," + z && ',' !in y
  {
  }

  /** Three well-formed tokens contribute their lines in order. */
  lemma {:induction false} RangesOfThree(x: string, y: string, z: string, u: seq<int>, v: seq<int>, w: seq<int>)
    requires TokenLines(x) == Some(u) && TokenLines(y) == Some(v) && TokenLines(z) == Some(w)
    ensures RangesOf([x, y, z]) == Some(u + v + w)
  {
    var none: seq<int> := [];
    RangesOfConsSome(z, [], w, none);
    assert [z] + [] == [z];
    assert w + none == w;
    RangesOfConsSome(y, [z], v, w);
    assert [y] + [z] == [y, z];
    RangesOfConsSome(x, [y, z], u, v + w);
    assert [x] + [y, z] == [x, y, z];
    AppendAssoc(u, v, w);
  }

  lemma {:induction false} RangesOfConsSome(t: string, rest: seq<string>, v: seq<int>, w: seq<int>)
    requires TokenLines(t) == Some(v) && RangesOf(rest) == Some(w)
    ensures RangesOf([t] + rest) == Some(v + w)
  {
    assert ([t] + rest)[1..] == rest;
  }

  lemma {:induction false} AppendAssoc(a: seq<int>, b: seq<int>, c: seq<int>)
    ensures a + (b + c) == a + b + c
  {
  }

  /** `_parse_line_ranges("1-3,5,7-9") == [1, 2, 3, 5, 7, 8, 9]` */
  lemma {:induction false} LineRangesExample(s: string)
    requires s == ['1', '-', '3', ',', '5', ',', '7', '-', '9']
    ensures LineRanges(s) == Some([1, 2, 3, 5, 7, 8, 9])
  {
    RangeLineRange(s, '1', '3', '5', '7', '9');
    ExampleLines();
  }

  lemma {:induction false} ExampleLines()
    ensures Range(1, 3) + [5] + Range(7, 9) == [1, 2, 3, 5, 7, 8, 9]
  {
    assert Range(1, 3) == [1, 2, 3];
    assert Range(7, 9) == [7, 8, 9];
  }

  /** The range list `D-E` on its own. */
  lemma {:induction false} SingleRange(d: char, e: char)
    requires IsDigit(d) && IsDigit(e)
    ensures LineRanges([d, '-', e]) == Some(Range(DigitValue(d), DigitValue(e)))
  {
    SingleRangeAt([d, '-', e], d, e);
  }

  lemma {:induction false} SingleRangeAt(t: string, d: char, e: char)
    requires t == [d, '-', e] && IsDigit(d) && IsDigit(e)
    ensures LineRanges(t) == Some(Range(DigitValue(d), DigitValue(e)))
  {
    DigitRangeToken(t, d, e);
    OneTokenRanges(t, Range(DigitValue(d), DigitValue(e)));
  }

  /** A range list without commas is one token. */
  lemma {:induction false} OneTokenRanges(t: string, lines: seq<int>)
    requires ',' !in t && TokenLines(t) == Some(lines)
    ensures LineRanges(t) == Some(lines)
  {
    NoCommaSplit(t);
    var none: seq<int> := [];
    RangesOfConsSome(t, [], lines, none);
    assert [t] + [] == [t];
    assert lines + none == lines;
  }

  /** A `D-E` token with `D > E` contributes nothing rather than failing. */
  lemma {:induction false} InvertedRange(d: char, e: char)
    requires IsDigit(d) && IsDigit(e) && d > e
    ensures LineRanges([d, '-', e]) == Some([])
  {
    SingleRange(d, e);
  }

  /** A letter is not a number: the token raises. */
  lemma {:induction false} WordTokenFails(t: string, c: char)
    requires t == [c] && IsLetter(c)
    ensures LineRanges(t) == None
  {
    LetterNotInt(t, c);
    NoCommaSplit(t);
    RangesOfFails([t]);
    assert [t][0] == t;
  }

  lemma {:induction false} LetterNotInt(t: string, c: char)
    requires t == [c] && IsLetter(c)
    ensures PyInt(t) == None && TokenLines(t) == None
  {
    LetterStrip(t, c);
    LetterNotDecimal(t, c);
    NotDecimalFails(t);
    PyIntStripped(t);
    NoDashToken(t);
  }

  lemma {:induction false} LetterStrip(t: string, c: char)
    requires t == [c] && IsLetter(c)
    ensures Strip(t) == t
  {
    assert !IsSpace(c);
    StripNoSpace(t);
  }

  lemma {:induction false} LetterNotDecimal(t: string, c: char)
    requires t == [c] && IsLetter(c)
    ensures |t| > 0 && t[0] != '+' && t[0] != '-' && !IsDecimal(t) && '-' !in t
  {
  }

  /** Unsigned text that is not a decimal raises. */
  lemma {:induction false} NotDecimalFails(s: string)
    requires |s| > 0 && s[0] != '+' && s[0] != '-' && !IsDecimal(s)
    ensures SignedDecimal(s) == None
  {
  }

  lemma {:induction false} PyIntStripped(s: string)
    requires Strip(s) == s
    ensures PyInt(s) == SignedDecimal(s)
  {
  }

  lemma {:induction false} NoDashToken(t: string)
    requires '-' !in t
    ensures TokenLines(t) == if PyInt(t).Some? then Some([PyInt(t).value]) else None
  {
  }

  lemma {:induction false} NoCommaSplit(t: string)
    requires ',' !in t
    ensures SplitOn(t, ',') == [t]
  {
  }

  /** The tokens of `1,,2`. */
  lemma {:induction false} DoubleCommaTokens(t: string)
    requires t == "1,,2"
    ensures SplitOn(t, ',') == ["1", "", "2"]
  {
    SplitOnAt(t, ',', 1);
    assert t[..1] == "1" && t[2..] == ",2";
    SplitOnAt(",2", ',', 0);
    assert ",2"[..0] == "" && ",2"[1..] == "2";
  }

  /** An empty token (as in `1,,2`) raises. */
  lemma {:induction false} EmptyTokenFails(t: string)
    requires t == "1,,2"
    ensures LineRanges(t) == None
  {
    DoubleCommaTokens(t);
    var parts := SplitOn(t, ',');
    assert PyInt("") == None;
    assert TokenLines(parts[1]) == None;
    RangesOfFails(parts);
  }

  /** An empty range list raises: `"".split(',')` is `['']`. */
  lemma {:induction false} EmptyRangesFail()
    ensures LineRanges("") == None
  {
    assert SplitOn("", ',') == [""];
    assert PyInt("") == None;
    RangesOfFails([""]);
  }

  /** A token that starts with `-` (such as `-1`) splits off an empty start
      and raises. */
  lemma {:induction false} LeadingDashFails(token: string)
    requires |token| > 0 && token[0] == '-'
    ensures TokenLines(token) == None
  {
    IndexOfAt(token, '-', 0);
    assert token[..0] == "";
    assert PyInt("") == None;
  }


  // ---------------------------------------------------------------------
  // Info string: "python error:1-3,5 warning:7"

  /** `line_highlights`: a dictionary from style to line list, kept in
      insertion order. */
  type Highlights = seq<(Style, seq<int>)>

  predicate DistinctStyles(h: Highlights) {
    forall i, j :: 0 <= i < j < |h| ==> h[i].0 != h[j].0
  }

  /** Position of the key `st` in the dictionary, if present. */
  function StyleIndex(h: Highlights, st: Style): (r: Option<nat>)
    ensures r.Some? ==> r.value < |h| && h[r.value].0 == st
    ensures r.None? ==> forall k :: 0 <= k < |h| ==> h[k].0 != st
    decreases |h|
  {
    if h == [] then None
    else if h[0].0 == st then Some(0)
    else
      match StyleIndex(h[1..], st)
      case None => None
      case Some(k) => Some(k + 1)
  }

  /** `h[st] = v` on a dictionary: an existing key keeps its position and
      gets the new value; a new key goes last. */
  function Put(h: Highlights, st: Style, v: seq<int>): (r: Highlights)
    requires DistinctStyles(h)
    ensures DistinctStyles(r)
    ensures forall k :: 0 <= k < |h| && h[k].0 == st ==> r == h[k := (st, v)]
    ensures (forall k :: 0 <= k < |h| ==> h[k].0 != st) ==> r == h + [(st, v)]
  {
    match StyleIndex(h, st)
    case Some(k) =>
      var r := h[k := (st, v)];
      assert forall i :: 0 <= i < |h| ==> r[i].0 == h[i].0;
      r
    case None =>
      var r := h + [(st, v)];
      assert forall i :: 0 <= i < |h| ==> r[i] == h[i];
      r
  }

  /** Assigning a style twice keeps the first position and the last list. */
  lemma {:induction false} PutOverwrite(h: Highlights, st: Style, v1: seq<int>, v2: seq<int>)
    requires DistinctStyles(h)
    ensures Put(Put(h, st, v1), st, v2) == Put(h, st, v2)
  {
    var h1 := Put(h, st, v1);
    if k :| 0 <= k < |h| && h[k].0 == st {
      assert h1 == h[k := (st, v1)];
      assert h1[k].0 == st;
      assert Put(h1, st, v2) == h1[k := (st, v2)];
      assert h1[k := (st, v2)] == h[k := (st, v2)];
    } else {
      assert h1 == h + [(st, v1)];
      assert h1[|h|].0 == st;
      assert Put(h1, st, v2) == h1[|h| := (st, v2)];
      assert h1[|h| := (st, v2)] == h + [(st, v2)];
    }
  }

  /** `"py error:1 warning:2 error:3"` builds its dictionary by these three
      assignments; line 1 then belongs to no list. */
  lemma {:induction false} OverwrittenLineUnstyled(h1: Highlights, h2: Highlights, h3: Highlights)
    requires h1 == Put([], Error, [1]) && h2 == Put(h1, Warning, [2]) && h3 == Put(h2, Error, [3])
    ensures |h3| == 2 && h3[0] == (Error, [3]) && h3[1] == (Warning, [2])
    ensures SelectedStyle(1, h3) == None
  {
    assert h1 == [(Error, [1])];
    assert h2 == h1 + [(Warning, [2])];
    assert h2[0].0 == Error;
    UnlistedLineUnstyled(1, h3);
  }

  /** What one token after the language does: nothing (no `:`, or a
      style name `LINE_STYLES` does not have), records a style's lines, or
      raises because its range list is malformed. */
  datatype TokenEffect = Ignored | Raises | Sets(style: Style, lines: seq<int>)

  function EffectOf(part: string): TokenEffect {
    if ':' in part then
      var k := IndexOf(part, ':');
      var style := StyleNamed(part[..k]);
      if style.Some? then
        var lines := LineRanges(part[k + 1..]);
        if lines.Some? then Sets(style.value, lines.value) else Raises
      else Ignored
    else Ignored
  }

  /** The style tokens after the language, folded into the dictionary left to
      right; `None` where a range list raises. */
  function AddTokens(tokens: seq<string>, h: Highlights): Option<Highlights>
    requires DistinctStyles(h)
    decreases |tokens|
  {
    if tokens == [] then Some(h)
    else
      match EffectOf(tokens[0])
      case Ignored => AddTokens(tokens[1..], h)
      case Raises => None
      case Sets(st, lines) => AddTokens(tokens[1..], Put(h, st, lines))
  }

  lemma {:induction false} AddTokensDistinct(tokens: seq<string>, h: Highlights)
    requires DistinctStyles(h)
    ensures AddTokens(tokens, h).Some? ==> DistinctStyles(AddTokens(tokens, h).value)
    decreases |tokens|
  {
    if tokens != [] {
      match EffectOf(tokens[0])
      case Ignored => AddTokensDistinct(tokens[1..], h);
      case Raises =>
      case Sets(st, lines) => AddTokensDistinct(tokens[1..], Put(h, st, lines));
    }
  }


  /** What `_parse_info_string` returns: the language and the highlights
      (`None` where it raises). `split()` already discards the surrounding
      whitespace that `strip()` removes first. */
  function InfoString(info: string): Option<(string, Highlights)> {
    var parts := Words(info);
    if parts == [] then Some(("", []))
    else
      var h := AddTokens(parts[1..], []);
      if h.Some? then Some((parts[0], h.value)) else None
  }

  lemma {:induction false} AddTokensStep(tokens: seq<string>, i: nat, h: Highlights, effect: TokenEffect)
    requires DistinctStyles(h) && i < |tokens| && effect == EffectOf(tokens[i])
    ensures effect.Raises? ==> AddTokens(tokens[i..], h) == None
    ensures effect.Ignored? ==> AddTokens(tokens[i..], h) == AddTokens(tokens[i + 1..], h)
    ensures effect.Sets? ==> AddTokens(tokens[i..], h) == AddTokens(tokens[i + 1..], Put(h, effect.style, effect.lines))
  {
    assert tokens[i..][1..] == tokens[i + 1..];
  }


  /** One round of the loop of `_parse_info_string`. */
  method ParseStyleToken(part: string) returns (effect: TokenEffect)
    ensures effect == EffectOf(part)
  {
    effect := Ignored;
    if ':' in part {
      var k := IndexOf(part, ':');
      var style := StyleNamed(part[..k]);
      if style.Some? {
        var lines := ParseLineRanges(part[k + 1..]);
        effect := if lines.Some? then Sets(style.value, lines.value) else Raises;
      }
    }
  }

  /** `_parse_info_string` */
  method ParseInfoString(info: string) returns (r: Option<(string, Highlights)>)
    ensures r == InfoString(info)
  {
    var parts := Words(info);
    if |parts| == 0 {
      return Some(("", []));
    }
    var lineHighlights := ParseStyleTokens(parts[1..]);
    if lineHighlights.None? {
      return None;
    }
    return Some((parts[0], lineHighlights.value));
  }

  /** The loop of `_parse_info_string` over the tokens after the language. */
  method ParseStyleTokens(tokens: seq<string>) returns (r: Option<Highlights>)
    ensures r == AddTokens(tokens, [])
  {
    var lineHighlights: Highlights := [];
    var i := 0;
    while i < |tokens|
      invariant 0 <= i <= |tokens|
      invariant DistinctStyles(lineHighlights)
      invariant AddTokens(tokens, []) == AddTokens(tokens[i..], lineHighlights)
    {
      var effect := ParseStyleToken(tokens[i]);
      AddTokensStep(tokens, i, lineHighlights, effect);
      if effect.Raises? {
        return None;
      }
      if effect.Sets? {
        lineHighlights := Put(lineHighlights, effect.style, effect.lines);
      }
      i := i + 1;
    }
    assert tokens[i..] == [];
    return Some(lineHighlights);
  }


  /** The first token is the language whatever it looks like, and the
      dictionary never holds a style twice. */
  lemma {:induction false} InfoStringShape(info: string)
    requires InfoString(info).Some?
    ensures var (language, h) := InfoString(info).value;
      && (Words(info) == [] ==> language == "" && h == [])
      && (Words(info) != [] ==> language == Words(info)[0])
      && DistinctStyles(h)
  {
    if Words(info) != [] {
      AddTokensDistinct(Words(info)[1..], []);
    }
  }

  // ---------------------------------------------------------------------
  // Choosing a line's style

  /** The style `_create_line_html` picks for line `n`: the first entry, in
      dictionary order, whose list holds `n`. */
  function SelectedStyle(n: int, h: Highlights): Option<Style>
    decreases |h|
  {
    if h == [] then None
    else if n in h[0].1 then Some(h[0].0)
    else SelectedStyle(n, h[1..])
  }

  /** The first listed style whose lines contain `n` wins over later ones. */
  lemma {:induction false} FirstListedStyleWins(n: int, h: Highlights, k: nat)
    requires k < |h| && n in h[k].1
    requires forall j :: 0 <= j < k ==> n !in h[j].1
    ensures SelectedStyle(n, h) == Some(h[k].0)
    decreases k
  {
    if k > 0 {
      assert n !in h[0].1;
      FirstListedStyleWins(n, h[1..], k - 1);
    }
  }

  /** A line that no list contains is left unstyled. */
  lemma {:induction false} UnlistedLineUnstyled(n: int, h: Highlights)
    requires forall k :: 0 <= k < |h| ==> n !in h[k].1
    ensures SelectedStyle(n, h) == None
    decreases |h|
  {
    if h != [] {
      assert n !in h[0].1;
      UnlistedLineUnstyled(n, h[1..]);
    }
  }

  /** The `for ... else` search of `_create_line_html`. */
  method SelectStyle(n: int, h: Highlights) returns (selected: Option<Style>)
    ensures selected.Some? ==>
      exists k :: 0 <= k < |h| && h[k].0 == selected.value && n in h[k].1 && (forall j :: 0 <= j < k ==> n !in h[j].1)
    ensures selected.None? ==> forall k :: 0 <= k < |h| ==> n !in h[k].1
  {
    var i := 0;
    while i < |h|
      invariant 0 <= i <= |h|
      invariant forall j :: 0 <= j < i ==> n !in h[j].1
    {
      if n in h[i].1 {
        return Some(h[i].0);
      }
      i := i + 1;
    }
    return None;
  }

  const LineNumberStyle: string :=
    "display: inline-block; width: 3em; color: #999; text-align: right; padding-right: 1em; user-select: none;"

  function LineNumberSpan(n: nat): string {
    "<span class=\"line-number\" style=\"" + LineNumberStyle + "\">" + IntToString(n) + "</span>"
  }

  /** The span for one line, styled by `selected` when there is one. */
  function LineHtml(n: nat, content: string, selected: Option<Style>): string {
    match selected
    case Some(st) =>
      "<span class=\"code-line " + st.CssClass() + "\" style=\"display: block; background: " + st.Background()
      + "; border-left: " + st.BorderLeft()
      + "; padding-left: 1rem; margin-left: -1rem; margin-right: -1rem; padding-right: 1rem;\">"
      + LineNumberSpan(n) + content + "</span>"
    case None =>
      "<span class=\"code-line\" style=\"display: block;\">" + LineNumberSpan(n) + content + "</span>"
  }

  /** `_create_line_html` */
  method CreateLineHtml(lineNumber: nat, lineContent: string, h: Highlights) returns (r: string)
    ensures r == LineHtml(lineNumber, lineContent, SelectedStyle(lineNumber, h))
  {
    var selected: Option<Style> := None;
    if h != [] {
      selected := SelectStyle(lineNumber, h);
    }
    if selected.Some? {
      var k :| 0 <= k < |h| && h[k].0 == selected.value && lineNumber in h[k].1 &&
        forall j :: 0 <= j < k ==> lineNumber !in h[j].1;
      FirstListedStyleWins(lineNumber, h, k);
    } else {
      UnlistedLineUnstyled(lineNumber, h);
    }
    r := LineHtml(lineNumber, lineContent, selected);
  }

  // ---------------------------------------------------------------------
  // Escaping

  /** `html.escape(s)` with `quote=True`; the five sequential replacements
      act on disjoint characters, so they equal this per-character map. */
  function EscapeChar(c: char): string {
    if c == '&' then "&amp;"
    else if c == '<' then "&lt;"
    else if c == '>' then "&gt;"
    else if c == '"' then "&quot;"
    else if c == '\'' then "&#x27;"
    else [c]
  }

  function HtmlEscape(s: string): string
    decreases |s|
  {
    if s == [] then [] else EscapeChar(s[0]) + HtmlEscape(s[1..])
  }

  /** The entity decode of `enhance_code_blocks_with_styler`. */
  function DecodeEntities(s: string): string {
    ReplaceAll(ReplaceAll(ReplaceAll(s, "&lt;", "<"), "&gt;", ">"), "&amp;", "&")
  }

  /** What one escaped character reads as once `&lt;` is decoded. */
  function LtHead(c: char): string {
    if c == '<' then "<" else if c == '>' then "&gt;" else if c == '&' then "&amp;" else [c]
  }

  /** What one escaped character reads as once `&gt;` is decoded too. */
  function GtHead(c: char): string {
    if c == '&' then "&amp;" else [c]
  }

  /** Escape with `<` already decoded. */
  function LtDecoded(s: string): string
    decreases |s|
  {
    if s == [] then [] else LtHead(s[0]) + LtDecoded(s[1..])
  }

  /** Escape with `<` and `>` already decoded. */
  function GtDecoded(s: string): string
    decreases |s|
  {
    if s == [] then [] else GtHead(s[0]) + GtDecoded(s[1..])
  }

  /** Decoding `&lt;` acts on one escaped character at a time. */
  lemma {:induction false} EscapeCharLt(c: char, rest: string)
    requires c != '"' && c != '\''
    ensures ReplaceAll(EscapeChar(c) + rest, "&lt;", "<") == LtHead(c) + ReplaceAll(rest, "&lt;", "<")
  {
    if c == '<' {
      ReplaceHead(rest, "&lt;", "<");
    } else if c == '&' {
      MismatchNotPrefix("&amp;", rest, "&lt;", 1);
      ReplacePassesWord("&amp;", rest, "&lt;", "<");
    } else if c == '>' {
      MismatchNotPrefix("&gt;", rest, "&lt;", 1);
      ReplacePassesWord("&gt;", rest, "&lt;", "<");
    } else {
      MismatchNotPrefix([c], rest, "&lt;", 0);
      ReplacePassesWord([c], rest, "&lt;", "<");
    }
  }

  lemma {:induction false} DecodeLt(s: string)
    requires '"' !in s && '\'' !in s
    ensures ReplaceAll(HtmlEscape(s), "&lt;", "<") == LtDecoded(s)
    decreases |s|
  {
    if s != [] {
      DecodeLt(s[1..]);
      EscapeCharLt(s[0], HtmlEscape(s[1..]));
    }
  }

  /** Decoding `&gt;` acts on one character at a time. */
  lemma {:induction false} LtHeadGt(c: char, rest: string)
    ensures ReplaceAll(LtHead(c) + rest, "&gt;", ">") == GtHead(c) + ReplaceAll(rest, "&gt;", ">")
  {
    if c == '>' {
      ReplaceHead(rest, "&gt;", ">");
    } else if c == '&' {
      MismatchNotPrefix("&amp;", rest, "&gt;", 1);
      ReplacePassesWord("&amp;", rest, "&gt;", ">");
    } else if c == '<' {
      MismatchNotPrefix("<", rest, "&gt;", 0);
      ReplacePassesWord("<", rest, "&gt;", ">");
    } else {
      MismatchNotPrefix([c], rest, "&gt;", 0);
      ReplacePassesWord([c], rest, "&gt;", ">");
    }
  }

  lemma {:induction false} DecodeGt(s: string)
    ensures ReplaceAll(LtDecoded(s), "&gt;", ">") == GtDecoded(s)
    decreases |s|
  {
    if s != [] {
      DecodeGt(s[1..]);
      LtHeadGt(s[0], LtDecoded(s[1..]));
    }
  }

  /** Decoding `&amp;` gives each character back. */
  lemma {:induction false} GtHeadAmp(c: char, rest: string)
    ensures ReplaceAll(GtHead(c) + rest, "&amp;", "&") == [c] + ReplaceAll(rest, "&amp;", "&")
  {
    if c == '&' {
      ReplaceHead(rest, "&amp;", "&");
    } else {
      MismatchNotPrefix([c], rest, "&amp;", 0);
      ReplacePassesWord([c], rest, "&amp;", "&");
    }
  }

  lemma {:induction false} DecodeAmp(s: string)
    ensures ReplaceAll(GtDecoded(s), "&amp;", "&") == s
    decreases |s|
  {
    if s != [] {
      DecodeAmp(s[1..]);
      GtHeadAmp(s[0], GtDecoded(s[1..]));
      assert s == [s[0]] + s[1..];
    }
  }

  /** For code without quote characters, the decode inverts `html.escape`. */
  lemma {:induction false} DecodeInvertsEscape(s: string)
    requires '"' !in s && '\'' !in s
    ensures DecodeEntities(HtmlEscape(s)) == s
  {
    DecodeLt(s);
    DecodeGt(s);
    DecodeAmp(s);
  }

  // ---------------------------------------------------------------------
  // The whole block

  /** `lines[:-1]` when the last line is blank, else `lines`. */
  function DropTrailingBlank(lines: seq<string>): seq<string>
    requires |lines| > 0
  {
    if Strip(lines[|lines| - 1]) == "" then lines[..|lines| - 1] else lines
  }

  /** The escaped code split at newlines, with one trailing whitespace-only
      line dropped. */
  function CodeLines(code: string): seq<string> {
    DropTrailingBlank(SplitOn(HtmlEscape(code), '\n'))
  }

  lemma {:induction false} TrimEndKeepsFirst(t: string, cs: set<char>)
    requires |t| > 0 && t[0] !in cs
    ensures |TrimEndIn(t, cs)| > 0
    decreases |t|
  {
    if t[|t| - 1] in cs {
      assert |t| > 1;
      TrimEndKeepsFirst(t[..|t| - 1], cs);
    }
  }

  /** `s.strip() == ""` exactly when `s` is all whitespace. */
  lemma {:induction false} StripEmptyAllSpace(s: string)
    ensures Strip(s) == "" <==> AllIn(s, Whitespace)
  {
    var t := TrimStartIn(s, Whitespace);
    if t != [] {
      TrimEndKeepsFirst(t, Whitespace);
      assert s[|s| - |t|] == t[0];
    }
  }

  /** Splitting at newlines and dropping a blank last line loses only
      whitespace at the end, and none of it after a newline. */
  lemma {:induction false} DropTrailingBlankLine(e: string)
    ensures var j := Join(DropTrailingBlank(SplitOn(e, '\n')), "\n");
      && j <= e
      && AllIn(e[|j|..], Whitespace)
      && (|e| > |j| ==> '\n' !in e[|j|..][1..])
  {
    var lines := SplitOn(e, '\n');
    JoinSplitOn(e, '\n');
    var last := lines[|lines| - 1];
    if Strip(last) == "" {
      StripEmptyAllSpace(last);
      if |lines| == 1 {
        DropOnlyLine(e, lines);
      } else {
        DropLastLine(e, lines);
      }
    } else {
      assert e[|e|..] == [];
    }
  }

  /** The one line of the code is blank: nothing is kept. */
  lemma {:induction false} DropOnlyLine(e: string, lines: seq<string>)
    requires lines == SplitOn(e, '\n') && |lines| == 1 && Join(lines, "\n") == e
    requires AllIn(lines[0], Whitespace) && Strip(lines[0]) == ""
    ensures var j := Join(DropTrailingBlank(lines), "\n");
      && j <= e && AllIn(e[|j|..], Whitespace) && (|e| > |j| ==> '\n' !in e[|j|..][1..])
  {
    assert DropTrailingBlank(lines) == [];
    assert Join(lines, "\n") == lines[0];
    assert '\n' !in lines[0];
    BlankOnly(e, lines[0]);
  }

  /** The last of several lines is blank: it and its newline are dropped. */
  lemma {:induction false} DropLastLine(e: string, lines: seq<string>)
    requires lines == SplitOn(e, '\n') && |lines| > 1 && Join(lines, "\n") == e
    requires AllIn(lines[|lines| - 1], Whitespace) && Strip(lines[|lines| - 1]) == ""
    ensures var j := Join(DropTrailingBlank(lines), "\n");
      && j <= e && AllIn(e[|j|..], Whitespace) && (|e| > |j| ==> '\n' !in e[|j|..][1..])
  {
    var last := lines[|lines| - 1];
    var init := lines[..|lines| - 1];
    assert DropTrailingBlank(lines) == init;
    JoinLast(lines, init, last, e);
    assert '\n' !in last;
    BlankAfter(e, Join(init, "\n"), last);
  }

  /** Joining all lines is joining all but the last, a newline, and the last. */
  lemma {:induction false} JoinLast(lines: seq<string>, init: seq<string>, last: string, e: string)
    requires |lines| > 1 && init == lines[..|lines| - 1] && last == lines[|lines| - 1]
    requires Join(lines, "\n") == e
    ensures e == Join(init, "\n") + ("\n" + last)
  {
    assert lines == init + [last];
    JoinSnoc(init, last, "\n");
  }

  lemma {:induction false} BlankAfter(e: string, j: string, last: string)
    requires e == j + ("\n" + last) && AllIn(last, Whitespace) && '\n' !in last
    ensures j <= e && AllIn(e[|j|..], Whitespace) && '\n' !in e[|j|..][1..]
  {
    assert e[|j|..] == "\n" + last;
    assert e[|j|..][1..] == last;
  }

  lemma {:induction false} BlankOnly(e: string, last: string)
    requires e == last && AllIn(last, Whitespace) && '\n' !in last
    ensures AllIn(e[0..], Whitespace) && (|e| > 0 ==> '\n' !in e[0..][1..])
  {
    assert e[0..] == e;
  }

  /** The rendered lines are the escaped code less at most one trailing
      line, and that line holds only whitespace. */
  lemma {:induction false} CodeLinesDropAtMostOneBlankLine(code: string)
    ensures var e := HtmlEscape(code);
      var j := Join(CodeLines(code), "\n");
      && j <= e
      && AllIn(e[|j|..], Whitespace)
      && (|e| > |j| ==> '\n' !in e[|j|..][1..])
  {
    DropTrailingBlankLine(HtmlEscape(code));
  }

  const WrapperOpen: string := "<div class=\"code-block-wrapper\">"
  const LabelOpen: string := "<div" + " class=\"code-language-label\""

  /** The wrapper returned for plaintext without highlights. */
  function SimpleCodeHtml(lines: seq<string>): string {
    WrapperOpen + SimpleBody(lines)
  }

  function SimpleBody(lines: seq<string>): string {
    "<pre>" + ("<code class=\"language-plaintext\">" + Join(lines, "\n") + "</code></pre></div>")
  }

  /** The inline presentation of the block: the `pre` style, the label's
      style attribute and the hover rule. */
  datatype BlockStyle = BlockStyle(preStyle: string, labelStyle: string, hoverRule: string)

  /** The hover rule opens a `<style>` element. */
  predicate HoverIsTag(bs: BlockStyle) {
    |bs.hoverRule| > 1 && bs.hoverRule[1] == 's'
  }

  /** The presentation `_create_code_block_html` writes out. */
  function PageBlockStyle(): (bs: BlockStyle)
    ensures HoverIsTag(bs)
  {
    assert HoverCss[1] == 's';
    BlockStyle(PreStyle, LabelStyle, HoverCss)
  }

  const PreStyle: string :=
    "background: #1e293b; color: #e2e8f0; padding: 1.5rem; border-radius: 8px; overflow-x: auto; "
    + "margin: 1.5rem 0; position: relative; font-family: \"Consolas\", \"Monaco\", \"Courier New\", monospace; "
    + "font-size: 0.9rem; line-height: 1.6;"

  /** The rest of the label's opening tag: its inline style. */
  const LabelStyle: string :=
    " style=\"position: absolute; top: 0; right: 0; background: rgba(255,255,255,0.1); "
    + "padding: 0.25rem 0.75rem; border-radius: 0 8px 0 8px; font-size: 0.75rem; color: #94a3b8; "
    + "text-transform: uppercase;\">"

  /** The label `div` naming the language, with the given inline style. */
  function LabelDiv(style: string, originalLanguage: string): string {
    LabelOpen + (style + originalLanguage + "</div>")
  }

  function LanguageLabel(originalLanguage: string, bs: BlockStyle): string {
    if originalLanguage != "" && originalLanguage != "plaintext" then LabelDiv(bs.labelStyle, originalLanguage)
    else ""
  }

  const HoverCss: string := "<style>" + ".code-line:hover .line-number { color: #e2e8f0 !important; }" + "</style>"

  /** The opening `pre` and `code` tags for a Prism language. */
  function PreOpen(prismLanguage: string, bs: BlockStyle): string {
    "<pre" + " class=\"language-" + prismLanguage + "\" style=\"" + bs.preStyle + "\">"
    + "<code class=\"language-" + prismLanguage + "\" style=\"display: block; padding: 0;\">"
  }

  /** Everything after the language label: the hover rule when some line is
      styled, then the `pre`/`code` pair around the joined lines. */
  function BlockBody(prismLanguage: string, htmlLines: seq<string>, hasLineHighlights: bool, bs: BlockStyle): string {
    (if hasLineHighlights then bs.hoverRule else "") + PreOpen(prismLanguage, bs) + Concat(htmlLines) + "</code></pre></div>"
  }

  /** `_create_code_block_html` */
  function CodeBlockHtml(prismLanguage: string, htmlLines: seq<string>, originalLanguage: string,
                         hasLineHighlights: bool, bs: BlockStyle): string
  {
    WrapperOpen + (LanguageLabel(originalLanguage, bs) + BlockBody(prismLanguage, htmlLines, hasLineHighlights, bs))
  }

  lemma {:induction false} BodyStart(prismLanguage: string, htmlLines: seq<string>, hasLineHighlights: bool,
                                     bs: BlockStyle)
    requires HoverIsTag(bs)
    ensures var body := BlockBody(prismLanguage, htmlLines, hasLineHighlights, bs);
      |body| > 1 && body[1] != LabelOpen[1]
  {
    var pre := PreOpen(prismLanguage, bs);
    assert pre[1] == 'p';
    var rest := pre + Concat(htmlLines) + "</code></pre></div>";
    assert rest[1] == 'p';
    if hasLineHighlights {
      assert (bs.hoverRule + rest)[1] == 's';
    } else {
      assert "" + rest == rest;
    }
  }

  lemma {:induction false} LabelStart(originalLanguage: string, bs: BlockStyle)
    requires originalLanguage != "" && originalLanguage != "plaintext"
    ensures LabelOpen <= LanguageLabel(originalLanguage, bs)
  {
    LabelDivStart(bs.labelStyle, originalLanguage);
  }

  lemma {:induction false} LabelDivStart(style: string, originalLanguage: string)
    ensures LabelOpen <= LabelDiv(style, originalLanguage)
  {
    PrefixOfAppend(LabelOpen, LabelOpen, style + originalLanguage + "</div>");
  }

  /** The label follows the wrapper exactly when an original language other
      than `plaintext` is passed. */
  lemma {:induction false} LabelShownIff(prismLanguage: string, htmlLines: seq<string>, originalLanguage: string,
                      hasLineHighlights: bool, bs: BlockStyle)
    requires HoverIsTag(bs)
    ensures var html := CodeBlockHtml(prismLanguage, htmlLines, originalLanguage, hasLineHighlights, bs);
      && WrapperOpen <= html
      && (LabelOpen <= html[|WrapperOpen|..] <==> originalLanguage != "" && originalLanguage != "plaintext")
  {
    var shown := originalLanguage != "" && originalLanguage != "plaintext";
    if shown {
      LabelStart(originalLanguage, bs);
    }
    BodyStart(prismLanguage, htmlLines, hasLineHighlights, bs);
    LabelAfterWrapper(CodeBlockHtml(prismLanguage, htmlLines, originalLanguage, hasLineHighlights, bs),
      LanguageLabel(originalLanguage, bs), BlockBody(prismLanguage, htmlLines, hasLineHighlights, bs), shown);
  }

  /** A wrapper, then a label that is either empty or opens with the label
      tag, then a body that does not. */
  lemma {:induction false} LabelAfterWrapper(html: string, tag: string, body: string, shown: bool)
    requires html == WrapperOpen + (tag + body)
    requires shown ==> LabelOpen <= tag
    requires !shown ==> tag == ""
    requires |body| > 1 && body[1] != LabelOpen[1]
    ensures WrapperOpen <= html && (LabelOpen <= html[|WrapperOpen|..] <==> shown)
  {
    var rest := tag + body;
    PrefixOfAppend(WrapperOpen, WrapperOpen, rest);
    assert html[|WrapperOpen|..] == rest;
    if shown {
      PrefixOfAppend(LabelOpen, tag, body);
    } else {
      assert rest == body;
      NotPrefixAt(LabelOpen, body, 1);
    }
  }

  lemma {:induction false} PrefixOfAppend(p: string, a: string, b: string)
    requires p <= a
    ensures p <= a + b
  {
    assert (a + b)[..|p|] == a[..|p|];
  }

  lemma {:induction false} NotPrefixAt(p: string, s: string, k: nat)
    requires k < |p| && k < |s| && s[k] != p[k]
    ensures !(p <= s)
  {
  }

  /** One span per line, numbered from 1 in order. */
  function LinesHtml(lines: seq<string>, h: Highlights): seq<string> {
    seq(|lines|, i requires 0 <= i < |lines| => LineAt(lines, h, i))
  }

  /** The span for the line at index `i`, whose number is `i + 1`. */
  function LineAt(lines: seq<string>, h: Highlights, i: nat): string
    requires i < |lines|
  {
    LineHtml(i + 1, lines[i], SelectedStyle(i + 1, h))
  }

  /** A list holding each line's span in order is `LinesHtml`. */
  lemma {:induction false} LinesHtmlAt(lines: seq<string>, h: Highlights, htmlLines: seq<string>)
    requires |htmlLines| == |lines|
    requires forall k :: 0 <= k < |lines| ==> htmlLines[k] == LineAt(lines, h, k)
    ensures htmlLines == LinesHtml(lines, h)
  {
  }


  /** The language after the `'plaintext'` default. */
  function EffectiveLanguage(language: string): string {
    if language == "" then "plaintext" else language
  }

  /** What `process_code_block` returns (`None` where it raises). */
  function CodeBlock(info: string, code: string): Option<string> {
    var parsed := InfoString(info);
    if parsed.None? then None
    else
      Some(BlockFor(EffectiveLanguage(parsed.value.0), parsed.value.1, CodeLines(code), PageBlockStyle()))
  }

  /** The HTML for the language (after the default), highlights and lines. */
  function BlockFor(language: string, h: Highlights, lines: seq<string>, bs: BlockStyle): string {
    if language == "plaintext" && h == [] then SimpleCodeHtml(lines)
    else CodeBlockHtml(PrismLanguage(language), LinesHtml(lines, h),
                       if language != "plaintext" then language else "", h != [], bs)
  }

  /** `process_code_block`: builds `html_lines` one line at a time. */
  method ProcessCodeBlock(info: string, code: string) returns (r: Option<string>)
    ensures r == CodeBlock(info, code)
  {
    var parsed := ParseInfoString(info);
    if parsed.None? {
      return None;
    }
    var language := parsed.value.0;
    if language == "" {
      language := "plaintext";
    }
    var html := RenderBlock(language, parsed.value.1, CodeLines(code));
    return Some(html);
  }

  /** The part of `process_code_block` after the language default. */
  method RenderBlock(language: string, lineHighlights: Highlights, lines: seq<string>) returns (html: string)
    ensures html == BlockFor(language, lineHighlights, lines, PageBlockStyle())
  {
    if language == "plaintext" && lineHighlights == [] {
      return SimpleCodeHtml(lines);
    }
    var htmlLines := RenderLines(lines, lineHighlights);
    return CodeBlockHtml(PrismLanguage(language), htmlLines, if language != "plaintext" then language else "",
                         lineHighlights != [], PageBlockStyle());
  }


  /** The loop of `process_code_block` that builds `html_lines`. */
  method RenderLines(lines: seq<string>, h: Highlights) returns (htmlLines: seq<string>)
    ensures htmlLines == LinesHtml(lines, h)
  {
    htmlLines := [];
    var i := 0;
    while i < |lines|
      invariant 0 <= i <= |lines|
      invariant |htmlLines| == i
      invariant forall k :: 0 <= k < i ==> htmlLines[k] == LineAt(lines, h, k)
    {
      var lineHtml := CreateLineHtml(i + 1, lines[i], h);
      assert lineHtml == LineAt(lines, h, i);
      htmlLines := htmlLines + [lineHtml];
      i := i + 1;
    }
    LinesHtmlAt(lines, h, htmlLines);
  }

  /** The block shows a language label exactly when the language is not
      `plaintext` (a missing language counts as `plaintext`). */
  lemma {:induction false} LanguageLabelIff(info: string, code: string)
    requires CodeBlock(info, code).Some?
    ensures var html := CodeBlock(info, code).value;
      var language := EffectiveLanguage(InfoString(info).value.0);
      && WrapperOpen <= html
      && (LabelOpen <= html[|WrapperOpen|..] <==> language != "plaintext")
  {
    BlockLabel(EffectiveLanguage(InfoString(info).value.0), InfoString(info).value.1, CodeLines(code), PageBlockStyle());
  }

  lemma {:induction false} BlockLabel(language: string, h: Highlights, lines: seq<string>, bs: BlockStyle)
    requires language != "" && HoverIsTag(bs)
    ensures var html := BlockFor(language, h, lines, bs);
      && WrapperOpen <= html
      && (LabelOpen <= html[|WrapperOpen|..] <==> language != "plaintext")
  {
    if language == "plaintext" && h == [] {
      SimpleBlockLabel(lines);
    } else {
      StyledBlockLabel(language, h, LinesHtml(lines, h), bs);
    }
  }

  lemma {:induction false} SimpleBlockLabel(lines: seq<string>)
    ensures WrapperOpen <= SimpleCodeHtml(lines) && !(LabelOpen <= SimpleCodeHtml(lines)[|WrapperOpen|..])
  {
    SimpleBodyStart(lines);
    SimpleNoLabel(lines);
    LabelAfterWrapper(SimpleCodeHtml(lines), "", SimpleBody(lines), false);
  }

  lemma {:induction false} StyledBlockLabel(language: string, h: Highlights, htmlLines: seq<string>, bs: BlockStyle)
    requires language != "" && HoverIsTag(bs)
    ensures var html := CodeBlockHtml(PrismLanguage(language), htmlLines,
                                      if language != "plaintext" then language else "", h != [], bs);
      && WrapperOpen <= html
      && (LabelOpen <= html[|WrapperOpen|..] <==> language != "plaintext")
  {
    LabelShownIff(PrismLanguage(language), htmlLines, if language != "plaintext" then language else "", h != [], bs);
  }

  lemma {:induction false} SimpleNoLabel(lines: seq<string>)
    ensures SimpleCodeHtml(lines) == WrapperOpen + ("" + SimpleBody(lines))
  {
    assert "" + SimpleBody(lines) == SimpleBody(lines);
  }

  lemma {:induction false} SimpleBodyStart(lines: seq<string>)
    ensures |SimpleBody(lines)| > 1 && SimpleBody(lines)[1] != LabelOpen[1]
  {
    var rest := "<code class=\"language-plaintext\">" + Join(lines, "\n") + "</code></pre></div>";
    assert SimpleBody(lines) == "<pre>" + rest;
    assert ("<pre>" + rest)[1] == 'p';
  }


  /** A `style:D-E` token after the language. */
  lemma {:induction false} StyleRangeToken(tok: string, name: string, st: Style, d: char, e: char)
    requires tok == name + ":" + [d, '-', e] && ':' !in name && StyleNamed(name) == Some(st)
    requires IsDigit(d) && IsDigit(e)
    ensures ':' in tok && IndexOf(tok, ':') == |name|
    ensures StyleNamed(tok[..|name|]) == Some(st)
    ensures LineRanges(tok[|name| + 1..]) == Some(Range(DigitValue(d), DigitValue(e)))
  {
    TokenColon(tok, name, [d, '-', e]);
    SingleRangeAt(tok[|name| + 1..], d, e);
  }

  /** Where the name and the rest of a `name:rest` token lie. */
  lemma {:induction false} TokenColon(tok: string, name: string, rest: string)
    requires tok == name + ":" + rest && ':' !in name
    ensures ':' in tok && IndexOf(tok, ':') == |name| && tok[..|name|] == name && tok[|name| + 1..] == rest
  {
    assert tok[..|name|] == name;
    IndexOfAt(tok, ':', |name|);
  }

  /** An info string of a language and one `style:D-E` token. */
  lemma {:induction false} InfoOneRangeToken(language: string, tok: string, name: string, st: Style, d: char, e: char)
    requires |language| > 0 && forall k :: 0 <= k < |language| ==> !IsSpace(language[k])
    requires tok == name + ":" + [d, '-', e] && ':' !in name && StyleNamed(name) == Some(st)
    requires forall k :: 0 <= k < |name| ==> !IsSpace(name[k])
    requires IsDigit(d) && IsDigit(e)
    ensures InfoString(language + " " + tok) == Some((language, [(st, Range(DigitValue(d), DigitValue(e)))]))
  {
    var info := language + " " + tok;
    StyleTokenNoSpace(tok, name, d, e);
    WordsTwo(language, tok);
    StyleRangeToken(tok, name, st, d, e);
    var lines := Range(DigitValue(d), DigitValue(e));
    AddOneStyleToken(tok, |name|, st, lines);
    InfoOfWords(info, language, tok, [(st, lines)]);
  }

  lemma {:induction false} StyleTokenNoSpace(tok: string, name: string, d: char, e: char)
    requires tok == name + ":" + [d, '-', e]
    requires forall k :: 0 <= k < |name| ==> !IsSpace(name[k])
    requires IsDigit(d) && IsDigit(e)
    ensures |tok| > 0 && forall k :: 0 <= k < |tok| ==> !IsSpace(tok[k])
  {
    forall k | 0 <= k < |tok|
      ensures !IsSpace(tok[k])
    {
      if k < |name| {
        assert tok[k] == name[k];
      }
    }
  }

  /** One known `style:lines` token after the language. */
  lemma {:induction false} AddOneStyleToken(tok: string, k: nat, st: Style, lines: seq<int>)
    requires ':' in tok && IndexOf(tok, ':') == k
    requires StyleNamed(tok[..k]) == Some(st) && LineRanges(tok[k + 1..]) == Some(lines)
    ensures AddTokens([tok], []) == Some([(st, lines)])
  {
    var tokens := [tok];
    AddStyleToken(tokens, [], k, st, lines);
    assert tokens[1..] == [];
    PutEmpty(st, lines);
  }

  /** A first token naming a known style with well-formed lines records them. */
  lemma {:induction false} AddStyleToken(tokens: seq<string>, h: Highlights, k: nat, st: Style, lines: seq<int>)
    requires DistinctStyles(h) && |tokens| > 0
    requires ':' in tokens[0] && IndexOf(tokens[0], ':') == k
    requires StyleNamed(tokens[0][..k]) == Some(st) && LineRanges(tokens[0][k + 1..]) == Some(lines)
    ensures AddTokens(tokens, h) == AddTokens(tokens[1..], Put(h, st, lines))
  {
    StyleTokenEffect(tokens[0], k, st, lines);
  }

  lemma {:induction false} StyleTokenEffect(tok: string, k: nat, st: Style, lines: seq<int>)
    requires ':' in tok && IndexOf(tok, ':') == k
    requires StyleNamed(tok[..k]) == Some(st) && LineRanges(tok[k + 1..]) == Some(lines)
    ensures EffectOf(tok) == Sets(st, lines)
  {
  }

  lemma {:induction false} PutEmpty(st: Style, lines: seq<int>)
    ensures Put([], st, lines) == [(st, lines)]
  {
  }

  lemma {:induction false} InfoOfWords(info: string, language: string, tok: string, h: Highlights)
    requires Words(info) == [language, tok] && AddTokens([tok], []) == Some(h)
    ensures InfoString(info) == Some((language, h))
  {
    assert [language, tok][1..] == [tok];
  }
}

/** The Obsidian passes of `ObsidianProcessor`
    (scripts/utils/obsidian_processor.py): image directives and the files
    they name, alt text, the wikilink and checkbox rewrite, and the figure
    HTML that replaces a directive once its image is uploaded. The
    filesystem is a set of regular files together with the listing that
    `rglob` returns. */
module ObsidianProcessor {
  import opened Wrappers
  import opened Text
  import MarkdownParser

  // ---------------------------------------------------------------------
  // Image directives

  /** The characters that end groups 1 and 2 (`[^|\]]`). */
  const GroupStops: set<char> := {'|', ']'}

  /** `![[` at `i`. */
  predicate OpensAt(s: string, i: nat) {
    i + 3 <= |s| && s[i] == '!' && s[i + 1] == '[' && s[i + 2] == '['
  }

  /** `]]` at `j`. */
  predicate ClosesAt(s: string, j: nat) {
    j + 2 <= |s| && s[j] == ']' && s[j + 1] == ']'
  }

  /** A match of `!\[\[([^|\]]+)(?:\s*\|\s*([^|\]]+))?(?:\s*\|\s*(\d+))?\]\]`:
      where it ends and groups 1 to 3. */
  datatype DirectiveMatch = DirectiveMatch(end: nat, target: string, caption: Option<string>, width: Option<string>)

  /** The directive match that starts at `i`. Group 1 runs greedily up to
      the first `|` or `]`; a shorter group 1 only moves whitespace into the
      `\s*` before the same `|`, so backtracking finds no other outcome.
      The caption group is tried before the width group, so a lone number
      after the bar is a caption. */
  function DirectiveAt(s: string, i: nat): (r: Option<DirectiveMatch>)
    requires i <= |s|
    ensures r.Some? ==> OpensAt(s, i) && i + 6 <= r.value.end <= |s|
  {
    if !OpensAt(s, i) then None
    else
      var e1 := Break(s, i + 3, GroupStops);
      if e1 == i + 3 || e1 == |s| then None
      else if s[e1] == ']' then
        if ClosesAt(s, e1) then Some(DirectiveMatch(e1 + 2, s[i + 3..e1], None, None)) else None
      else AfterBar(s, i, e1)
  }

  /** After the `|` at `e1`: the caption group runs up to the next `|` or
      `]`. */
  function AfterBar(s: string, i: nat, e1: nat): (r: Option<DirectiveMatch>)
    requires i + 3 < e1 < |s|
    ensures r.Some? ==> i + 6 <= r.value.end <= |s|
  {
    AfterCaption(s, i, e1, Break(s, e1 + 1, GroupStops))
  }

  /** The caption group spans `s[e1 + 1..e2]`; its `\s*` takes the leading
      whitespace but leaves the group at least one character. Then `]]`
      ends the match, or a `|` starts the width. */
  function AfterCaption(s: string, i: nat, e1: nat, e2: nat): (r: Option<DirectiveMatch>)
    requires i + 3 < e1 < e2 <= |s|
    ensures r.Some? ==> i + 6 <= r.value.end <= |s|
  {
    if e2 == e1 + 1 || e2 == |s| then None
    else
      var caption := CaptionGroup(s, e1 + 1, e2);
      if s[e2] == ']' then
        if ClosesAt(s, e2) then Some(DirectiveMatch(e2 + 2, s[i + 3..e1], Some(caption), None)) else None
      else WidthAfter(s, i, e1, e2, caption)
  }

  /** Group 2 on `s[p..e2]`: without its leading whitespace, or its last
      character when it is all whitespace (`s[e2]` is `|` or `]`, so the
      whitespace run stops by `e2`). */
  function CaptionGroup(s: string, p: nat, e2: nat): string
    requires p < e2 <= |s|
  {
    var w := Span(s, p, Whitespace);
    if w < e2 then s[w..e2] else s[e2 - 1..e2]
  }

  /** After the `|` at `e2`: optional whitespace, the digits of the width,
      then `]]`. */
  function WidthAfter(s: string, i: nat, e1: nat, e2: nat, caption: string): (r: Option<DirectiveMatch>)
    requires i + 3 < e1 < e2 < |s|
    ensures r.Some? ==> i + 6 <= r.value.end <= |s|
  {
    var b := Span(s, e2 + 1, Whitespace);
    var d := Span(s, b, Digits);
    if d == b || !ClosesAt(s, d) then None
    else Some(DirectiveMatch(d + 2, s[i + 3..e1], Some(caption), Some(s[b..d])))
  }

  /** A match found by `re.finditer`: where it starts, its text
      (`match.group(0)`) and its groups. */
  datatype Directive = Directive(at: nat, matchText: string, m: DirectiveMatch)

  /** `re.finditer` from position `i`: leftmost matches, in text order, not
      overlapping. */
  function DirectivesFrom(s: string, i: nat): (r: seq<Directive>)
    requires i <= |s|
    ensures forall k :: 0 <= k < |r| ==> Found(s, i, r[k])
    ensures forall k :: 0 <= k < |r| - 1 ==> r[k].at + |r[k].matchText| <= r[k + 1].at
    decreases |s| - i
  {
    if i == |s| then []
    else
      match DirectiveAt(s, i)
      case Some(m) =>
        var d := Directive(i, s[i..m.end], m);
        FoundHere(s, i, m);
        var rest := DirectivesFrom(s, m.end);
        var r := [d] + rest;
        assert forall k :: 1 <= k < |r| ==> r[k] == rest[k - 1];
        r
      case None => DirectivesFrom(s, i + 1)
  }

  /** `d` is a directive of `s` at or after `i`: its text is the slice of
      `s` where it stands, and it starts with `![[`. */
  predicate Found(s: string, i: nat, d: Directive) {
    && i <= d.at && d.at + |d.matchText| <= |s|
    && s[d.at..d.at + |d.matchText|] == d.matchText && "![[" <= d.matchText
  }

  lemma FoundHere(s: string, i: nat, m: DirectiveMatch)
    requires i < |s| && DirectiveAt(s, i) == Some(m)
    ensures Found(s, i, Directive(i, s[i..m.end], m))
  {
    var t := s[i..m.end];
    assert t[0] == '!' && t[1] == '[' && t[2] == '[';
  }

  function Directives(content: string): seq<Directive> {
    DirectivesFrom(content, 0)
  }

  /** No `|` or `]` in `s[a..b]`. */
  predicate Plain(s: string, a: nat, b: nat)
    requires a <= b <= |s|
  {
    forall k :: a <= k < b ==> s[k] !in GroupStops
  }

  /** A piece `t` without `|` or `]` placed at `a`. */
  lemma PlainPiece(s: string, a: nat, t: string)
    requires a + |t| <= |s| && s[a..a + |t|] == t && '|' !in t && ']' !in t
    ensures Plain(s, a, a + |t|)
  {
    forall k | a <= k < a + |t| ensures s[k] !in GroupStops {
      assert s[k] == t[k - a];
    }
  }

  /** The steps of `DirectiveAt`, each on its own. */
  lemma OpenToBar(s: string, i: nat, e1: nat)
    requires OpensAt(s, i) && i + 3 < e1 < |s| && s[e1] == '|' && Plain(s, i + 3, e1)
    ensures DirectiveAt(s, i) == AfterBar(s, i, e1)
  {
    BreakAt(s, i + 3, e1, GroupStops);
  }

  lemma OpenToClose(s: string, i: nat, e1: nat)
    requires OpensAt(s, i) && i + 3 < e1 && ClosesAt(s, e1) && Plain(s, i + 3, e1)
    ensures DirectiveAt(s, i) == Some(DirectiveMatch(e1 + 2, s[i + 3..e1], None, None))
  {
    BreakAt(s, i + 3, e1, GroupStops);
  }

  lemma BarToWidth(s: string, i: nat, e1: nat, e2: nat, c: string)
    requires i + 3 < e1 && e1 + 1 < e2 < |s| && s[e2] == '|' && !IsSpace(s[e1 + 1])
    requires Plain(s, e1 + 1, e2) && s[e1 + 1..e2] == c
    ensures AfterBar(s, i, e1) == WidthAfter(s, i, e1, e2, c)
  {
    BreakAt(s, e1 + 1, e2, GroupStops);
    SpanAt(s, e1 + 1, e1 + 1, Whitespace);
  }

  lemma BarToClose(s: string, i: nat, e1: nat, e2: nat)
    requires i + 3 < e1 && e1 + 1 < e2 && ClosesAt(s, e2) && !IsSpace(s[e1 + 1])
    requires Plain(s, e1 + 1, e2)
    ensures AfterBar(s, i, e1) == Some(DirectiveMatch(e2 + 2, s[i + 3..e1], Some(s[e1 + 1..e2]), None))
  {
    BreakAt(s, e1 + 1, e2, GroupStops);
    SpanAt(s, e1 + 1, e1 + 1, Whitespace);
  }

  lemma WidthToClose(s: string, i: nat, e1: nat, e2: nat, c: string, w: string)
    requires i + 3 < e1 < e2 && |w| > 0 && AllDigits(w)
    requires e2 + 1 + |w| <= |s| && s[e2 + 1..e2 + 1 + |w|] == w && ClosesAt(s, e2 + 1 + |w|)
    ensures WidthAfter(s, i, e1, e2, c) == Some(DirectiveMatch(e2 + 3 + |w|, s[i + 3..e1], Some(c), Some(w)))
  {
    var d := e2 + 1 + |w|;
    assert s[e2 + 1] == w[0];
    SpanAt(s, e2 + 1, e2 + 1, Whitespace);
    forall k | e2 + 1 <= k < d ensures s[k] in Digits {
      assert IsDigit(w[k - (e2 + 1)]);
    }
    SpanAt(s, e2 + 1, d, Digits);
  }

  lemma WidthNotNumber(s: string, i: nat, e1: nat, e2: nat, c: string)
    requires i + 3 < e1 < e2 && e2 + 1 < |s| && !IsSpace(s[e2 + 1]) && !IsDigit(s[e2 + 1])
    ensures WidthAfter(s, i, e1, e2, c) == None
  {
    SpanAt(s, e2 + 1, e2 + 1, Whitespace);
    SpanAt(s, e2 + 1, e2 + 1, Digits);
  }

  /** `![[f|c|w]]` gives all three groups. */
  lemma DirectiveFull(s: string, f: string, c: string, w: string)
    requires |f| > 0 && '|' !in f && ']' !in f
    requires |c| > 0 && '|' !in c && ']' !in c && !IsSpace(c[0])
    requires |w| > 0 && AllDigits(w)
    requires s == "![[" + f + "|" + c + "|" + w + "]]"
    ensures DirectiveAt(s, 0) == Some(DirectiveMatch(|s|, f, Some(c), Some(w)))
  {
    FullPieces(s, f, c, w);
    FullFromPieces(s, f, c, w, 3 + |f|, 4 + |f| + |c|);
  }

  lemma FullFromPieces(s: string, f: string, c: string, w: string, e1: nat, e2: nat)
    requires |f| > 0 && '|' !in f && ']' !in f
    requires |c| > 0 && '|' !in c && ']' !in c && !IsSpace(c[0])
    requires |w| > 0 && AllDigits(w)
    requires e1 == 3 + |f| && e2 == e1 + 1 + |c| && |s| == e2 + 3 + |w|
    requires OpensAt(s, 0) && s[3..e1] == f && s[e1] == '|' && s[e1 + 1..e2] == c && s[e2] == '|'
    requires s[e2 + 1..e2 + 1 + |w|] == w && ClosesAt(s, e2 + 1 + |w|)
    ensures DirectiveAt(s, 0) == Some(DirectiveMatch(|s|, f, Some(c), Some(w)))
  {
    PlainPiece(s, 3, f);
    PlainPiece(s, e1 + 1, c);
    OpenToBar(s, 0, e1);
    BarToWidth(s, 0, e1, e2, c);
    WidthToClose(s, 0, e1, e2, c, w);
    assert e2 + 3 + |w| == |s| && s[0 + 3..e1] == f;
    var m := DirectiveMatch(|s|, f, Some(c), Some(w));
    assert WidthAfter(s, 0, e1, e2, c) == Some(m);
  }

  lemma FullPieces(s: string, f: string, c: string, w: string)
    requires s == "![[" + f + "|" + c + "|" + w + "]]"
    ensures OpensAt(s, 0) && |s| == 3 + |f| + 1 + |c| + 1 + |w| + 2
    ensures var e1 := 3 + |f|; var e2 := e1 + 1 + |c|;
      && s[3..e1] == f && s[e1] == '|' && s[e1 + 1..e2] == c && s[e2] == '|'
      && s[e2 + 1..e2 + 1 + |w|] == w && ClosesAt(s, e2 + 1 + |w|)
  {
    assert s == "![[" + f + "|" + c + "|" + w + "]]";
  }

  /** `![[f|300]]`: the number is taken by the caption group and there is
      no width. */
  lemma DirectiveNumberIsCaption(s: string, f: string, w: string)
    requires |f| > 0 && '|' !in f && ']' !in f
    requires |w| > 0 && AllDigits(w)
    requires s == "![[" + f + "|" + w + "]]"
    ensures DirectiveAt(s, 0) == Some(DirectiveMatch(|s|, f, Some(w), None))
  {
    var e1 := 3 + |f|;
    CaptionPieces(s, f, w);
    assert !IsSpace(w[0]);
    NoBarsInDigits(w);
    PlainPiece(s, 3, f);
    PlainPiece(s, e1 + 1, w);
    OpenToBar(s, 0, e1);
    BarToClose(s, 0, e1, e1 + 1 + |w|);
  }

  lemma NoBarsInDigits(w: string)
    requires AllDigits(w)
    ensures '|' !in w && ']' !in w
  {
    forall k | 0 <= k < |w| ensures w[k] != '|' && w[k] != ']' {
      assert IsDigit(w[k]);
    }
  }

  lemma CaptionPieces(s: string, f: string, c: string)
    requires s == "![[" + f + "|" + c + "]]"
    ensures OpensAt(s, 0) && |s| == 3 + |f| + 1 + |c| + 2
    ensures var e1 := 3 + |f|; var e2 := e1 + 1 + |c|;
      && s[3..e1] == f && s[e1] == '|' && s[e1 + 1..e2] == c && ClosesAt(s, e2)
  {
    assert s == "![[" + f + "|" + c + "]]";
  }

  /** `![[f|a|b]]` with a `b` that is not a number is no directive. */
  lemma DirectiveTwoTexts(s: string, f: string, c: string, x: string)
    requires |f| > 0 && '|' !in f && ']' !in f
    requires |c| > 0 && '|' !in c && ']' !in c && !IsSpace(c[0])
    requires |x| > 0 && !IsDigit(x[0]) && !IsSpace(x[0])
    requires s == "![[" + f + "|" + c + "|" + x + "]]"
    ensures DirectiveAt(s, 0) == None
  {
    var e1 := 3 + |f|;
    var e2 := e1 + 1 + |c|;
    FullPieces(s, f, c, x);
    assert s[e2 + 1] == x[0];
    PlainPiece(s, 3, f);
    PlainPiece(s, e1 + 1, c);
    OpenToBar(s, 0, e1);
    BarToWidth(s, 0, e1, e2, c);
    WidthNotNumber(s, 0, e1, e2, c);
  }

  // ---------------------------------------------------------------------
  // Paths and the filesystem

  /** `dir / name`, for a relative `name`. */
  function PathJoin(dir: string, name: string): string {
    dir + "/" + name
  }

  /** `Path(p).name`: trailing `/` are dropped, then the text after the
      last `/` is the name. */
  function BaseName(p: string): (r: string)
    ensures '/' !in r
    decreases |p|
  {
    if p != [] && p[|p| - 1] == '/' then BaseName(p[..|p| - 1])
    else if '/' in p then BaseName(p[IndexOf(p, '/') + 1..])
    else p
  }

  /** A trailing `/` does not change the name. */
  lemma BaseNameTrailingSlash(p: string)
    ensures BaseName(p + "/") == BaseName(p)
  {
    assert (p + "/")[..|p|] == p;
  }

  /** The name of `dir / name` is `name` when `name` is a single
      component. */
  lemma BaseNameOfJoin(dir: string, name: string)
    requires name != [] && '/' !in name
    ensures BaseName(PathJoin(dir, name)) == name
  {
    var s := PathJoin(dir, name);
    assert s[|dir|] == '/';
    DropConcat(dir + "/", name, |dir| + 1);
    BaseNameAfterLast(s, |dir|);
  }

  /** A path whose last `/` is at `k`, followed by a non-empty text, is
      named by that text. */
  lemma {:induction false} BaseNameAfterLast(s: string, k: nat)
    requires k + 1 < |s| && s[k] == '/' && '/' !in s[k + 1..]
    ensures BaseName(s) == s[k + 1..]
    decreases k
  {
    var t := s[k + 1..];
    assert s[|s| - 1] == t[|t| - 1] && t[|t| - 1] in t;
    var j := IndexOf(s, '/');
    IndexOfBefore(s, '/', k);
    BaseNameStepAt(s, j);
    var r := s[j + 1..];
    if j < k {
      assert r[k - j - 1] == '/' && r[k - j..] == t;
      BaseNameAfterLast(r, k - j - 1);
    } else {
      assert r == t;
      BaseNameNoSlash(t);
    }
  }

  /** A path whose first `/` is at `j`, with no trailing `/`, is named by
      what follows `j`. */
  lemma BaseNameStepAt(s: string, j: nat)
    requires s != [] && s[|s| - 1] != '/' && j < |s| && s[j] == '/' && '/' !in s[..j]
    ensures BaseName(s) == BaseName(s[j + 1..])
  {
    IndexOfAt(s, '/', j);
  }

  lemma BaseNameNoSlash(s: string)
    requires '/' !in s
    ensures BaseName(s) == s
  {
    if s != [] { assert s[|s| - 1] in s; }
  }

  /** Index of the last `.` in `s` (`s.rfind('.')`). */
  function LastDot(s: string): (r: Option<nat>)
    ensures r.Some? ==> r.value < |s| && s[r.value] == '.' && '.' !in s[r.value + 1..]
    ensures r.None? ==> '.' !in s
    decreases |s|
  {
    if s == [] then None
    else if s[|s| - 1] == '.' then Some(|s| - 1)
    else
      var r := LastDot(s[..|s| - 1]);
      assert forall k :: 0 <= k < |s| - 1 ==> s[..|s| - 1][k] == s[k];
      r
  }

  /** `Path(p).stem`: the name without its last suffix; a leading dot or a
      trailing dot starts no suffix. */
  function Stem(p: string): string {
    var name := BaseName(p);
    match LastDot(name)
    case Some(i) => if 0 < i < |name| - 1 then name[..i] else name
    case None => name
  }

  /** The files and directories the resolver can see: the regular files
      (`exists() and is_file()`), and what `rglob(name)` lists under a
      directory, in an order the model leaves open. */
  datatype Disk = Disk(files: set<string>, rglob: (string, string) -> seq<string>)

  function AssetsDir(repoRoot: string): string {
    PathJoin(PathJoin(repoRoot, "assets"), "images")
  }

  /** The four fixed places searched first, in order. */
  function Candidates(filename: string, baseDir: string, repoRoot: string): seq<string> {
    [ PathJoin(baseDir, filename),
      PathJoin(AssetsDir(repoRoot), filename),
      PathJoin(PathJoin(PathJoin(AssetsDir(repoRoot), "2025"), "07"), filename),
      PathJoin(PathJoin(baseDir, Stem(baseDir) + "_assets"), filename) ]
  }

  /** A path the search accepts: a regular file, and with `skipGit` one
      whose text does not start with `.git`. */
  predicate Accepted(p: string, files: set<string>, skipGit: bool) {
    p in files && !(skipGit && ".git" <= p)
  }

  /** The first accepted path of `paths`. */
  function FirstAccepted(paths: seq<string>, files: set<string>, skipGit: bool): (r: Option<string>)
    ensures r.Some? ==> r.value in paths && Accepted(r.value, files, skipGit)
    ensures r.None? <==> forall k :: 0 <= k < |paths| ==> !Accepted(paths[k], files, skipGit)
    decreases |paths|
  {
    if paths == [] then None
    else if Accepted(paths[0], files, skipGit) then Some(paths[0])
    else
      var r := FirstAccepted(paths[1..], files, skipGit);
      assert forall k :: 1 <= k < |paths| ==> paths[k] == paths[1..][k - 1];
      r
  }

  /** The path at `i` is taken when none before it is accepted. */
  lemma {:induction false} FirstAcceptedAt(paths: seq<string>, files: set<string>, skipGit: bool, i: nat)
    requires i < |paths| && Accepted(paths[i], files, skipGit)
    requires forall k :: 0 <= k < i ==> !Accepted(paths[k], files, skipGit)
    ensures FirstAccepted(paths, files, skipGit) == Some(paths[i])
    decreases i
  {
    if i > 0 {
      assert paths[1..][i - 1] == paths[i];
      assert forall k :: 0 <= k < i - 1 ==> paths[1..][k] == paths[k + 1];
      FirstAcceptedAt(paths[1..], files, skipGit, i - 1);
    }
  }

  /** `_resolve_image_path`: the four candidates, then the recursive
      listing of the assets directory, then that of the repository root
      without `.git` paths; `None` when all three find nothing. */
  function Resolved(filename: string, baseDir: string, repoRoot: string, disk: Disk): (r: Option<string>)
    ensures r.Some? ==> r.value in disk.files
  {
    var fixed := FirstAccepted(Candidates(filename, baseDir, repoRoot), disk.files, false);
    if fixed.Some? then fixed
    else
      var assets := FirstAccepted(disk.rglob(AssetsDir(repoRoot), filename), disk.files, false);
      if assets.Some? then assets
      else FirstAccepted(disk.rglob(repoRoot, filename), disk.files, true)
  }

  /** One search loop with its early return. */
  method FindFirst(paths: seq<string>, files: set<string>, skipGit: bool) returns (r: Option<string>)
    ensures r == FirstAccepted(paths, files, skipGit)
  {
    for i := 0 to |paths|
      invariant forall k :: 0 <= k < i ==> !Accepted(paths[k], files, skipGit)
    {
      if paths[i] in files && !(skipGit && ".git" <= paths[i]) {
        FirstAcceptedAt(paths, files, skipGit, i);
        return Some(paths[i]);
      }
    }
    return None;
  }

  /** `_resolve_image_path` with its three loops. */
  method ResolveImagePath(filename: string, baseDir: string, repoRoot: string, disk: Disk) returns (r: Option<string>)
    ensures r == Resolved(filename, baseDir, repoRoot, disk)
  {
    r := FindFirst(Candidates(filename, baseDir, repoRoot), disk.files, false);
    if r.Some? {
      return;
    }
    r := FindFirst(disk.rglob(AssetsDir(repoRoot), filename), disk.files, false);
    if r.Some? {
      return;
    }
    r := FindFirst(disk.rglob(repoRoot, filename), disk.files, true);
  }

  /** A candidate wins over every later candidate and over both listings. */
  lemma ResolvedCandidate(filename: string, baseDir: string, repoRoot: string, disk: Disk, i: nat)
    requires i < 4
    requires Candidates(filename, baseDir, repoRoot)[i] in disk.files
    requires forall k :: 0 <= k < i ==> Candidates(filename, baseDir, repoRoot)[k] !in disk.files
    ensures Resolved(filename, baseDir, repoRoot, disk) == Some(Candidates(filename, baseDir, repoRoot)[i])
  {
    FirstAcceptedAt(Candidates(filename, baseDir, repoRoot), disk.files, false, i);
  }

  /** Nothing found anywhere: no candidate and no listed path is a file
      (the root listing counts only paths outside `.git`). */
  lemma ResolvedNone(filename: string, baseDir: string, repoRoot: string, disk: Disk)
    ensures Resolved(filename, baseDir, repoRoot, disk).None? <==>
      && (forall p :: p in Candidates(filename, baseDir, repoRoot) ==> p !in disk.files)
      && (forall p :: p in disk.rglob(AssetsDir(repoRoot), filename) ==> p !in disk.files)
      && (forall p :: p in disk.rglob(repoRoot, filename) ==> !Accepted(p, disk.files, true))
  {
    var c := Candidates(filename, baseDir, repoRoot);
    var a := disk.rglob(AssetsDir(repoRoot), filename);
    var g := disk.rglob(repoRoot, filename);
    assert (forall p :: p in c ==> p !in disk.files) <==> (forall k :: 0 <= k < |c| ==> !Accepted(c[k], disk.files, false));
    assert (forall p :: p in a ==> p !in disk.files) <==> (forall k :: 0 <= k < |a| ==> !Accepted(a[k], disk.files, false));
    assert (forall p :: p in g ==> !Accepted(p, disk.files, true)) <==> (forall k :: 0 <= k < |g| ==> !Accepted(g[k], disk.files, true));
  }

  // ---------------------------------------------------------------------
  // Extraction

  /** One entry of the list `extract_images` returns. */
  datatype Image = Image(originalFilename: string, localPath: string, caption: string,
                         width: Option<nat>, matchText: string, altText: string)

  /** The entry a directive yields once its file is found at `path`: the
      stripped file name, the stripped caption or `""`, the width as a
      number, the matched text and the alt text. */
  function Entry(d: Directive, path: string): (r: Image)
    ensures r.localPath == path && r.matchText == d.matchText
  {
    var filename := Strip(d.m.target);
    var caption := if d.m.caption.Some? then Strip(d.m.caption.value) else "";
    var width := if d.m.width.Some? then Some(DecimalValue(d.m.width.value)) else None;
    Image(filename, path, caption, width, d.matchText, AltText(filename, caption))
  }

  /** Extraction keeps the source's alt text: a file named by a dashed
      date, with no caption, is described by its spaced date. */
  lemma EntryKeepsDashedDate(dv: Directive, path: string, d: string)
    requires dv.m.caption.None? && Stem(Strip(dv.m.target)) == d && |d| == 10 && DashedDateAt(d)
    ensures Entry(dv, path).altText == MarkdownParser.Spaced(d)
  {
    AltTextKeepsDashedDate(Strip(dv.m.target), d);
  }

  /** The entry of a directive, or `None` when its file is not found. */
  function ImageOf(d: Directive, baseDir: string, repoRoot: string, disk: Disk): (r: Option<Image>)
    ensures r.Some? <==> Resolved(Strip(d.m.target), baseDir, repoRoot, disk).Some?
    ensures r.Some? ==> r.value.localPath in disk.files && r.value.matchText == d.matchText
  {
    match Resolved(Strip(d.m.target), baseDir, repoRoot, disk)
    case Some(p) => Some(Entry(d, p))
    case None => None
  }

  /** The values present in `xs`, in order. */
  function Present<T>(xs: seq<Option<T>>): (r: seq<T>)
    ensures |r| <= |xs|
    ensures forall k :: 0 <= k < |r| ==> r[k] in Values(xs)
    decreases |xs|
  {
    if xs == [] then []
    else
      var front := xs[..|xs| - 1];
      forall k | 0 <= k < |front| && front[k].Some? ensures front[k].value in Values(xs) {
        assert front[k] == xs[k];
      }
      if xs[|xs| - 1].Some? then Present(front) + [xs[|xs| - 1].value] else Present(front)
  }

  function Values<T>(xs: seq<Option<T>>): set<T> {
    set k | 0 <= k < |xs| && xs[k].Some? :: xs[k].value
  }

  lemma PresentSnoc<T>(xs: seq<Option<T>>, x: Option<T>)
    ensures Present(xs + [x]) == if x.Some? then Present(xs) + [x.value] else Present(xs)
  {
    assert (xs + [x])[..|xs|] == xs;
  }

  /** Every value present, in order, when none is missing. */
  lemma {:induction false} PresentAll<T>(xs: seq<Option<T>>)
    requires forall k :: 0 <= k < |xs| ==> xs[k].Some?
    ensures |Present(xs)| == |xs|
    ensures forall k :: 0 <= k < |xs| ==> Present(xs)[k] == xs[k].value
    decreases |xs|
  {
    if xs != [] {
      var front := xs[..|xs| - 1];
      assert forall k :: 0 <= k < |front| ==> front[k] == xs[k];
      PresentAll(front);
    }
  }

  lemma {:induction false} PresentNone<T>(xs: seq<Option<T>>)
    requires forall k :: 0 <= k < |xs| ==> xs[k].None?
    ensures Present(xs) == []
    decreases |xs|
  {
    if xs != [] {
      var front := xs[..|xs| - 1];
      assert forall k :: 0 <= k < |front| ==> front[k] == xs[k];
      PresentNone(front);
    }
  }

  /** `f` applied to each element of `xs`. */
  function Map<A, B>(xs: seq<A>, f: A -> B): (r: seq<B>)
    ensures |r| == |xs| && forall k :: 0 <= k < |xs| ==> r[k] == f(xs[k])
  {
    seq(|xs|, k requires 0 <= k < |xs| => f(xs[k]))
  }

  lemma MapStep<A, B>(xs: seq<A>, i: nat, f: A -> B)
    requires i < |xs|
    ensures Map(xs[..i + 1], f) == Map(xs[..i], f) + [f(xs[i])]
  {
  }

  /** What each directive yields, in order. */
  function Lookups(ds: seq<Directive>, baseDir: string, repoRoot: string, disk: Disk): seq<Option<Image>> {
    Map(ds, d => ImageOf(d, baseDir, repoRoot, disk))
  }

  /** The entries for `ds`, in order, without the directives whose file is
      not found; every entry names a file that exists. */
  function Extracted(ds: seq<Directive>, baseDir: string, repoRoot: string, disk: Disk): (r: seq<Image>)
    ensures |r| <= |ds|
    ensures forall k :: 0 <= k < |r| ==> r[k].localPath in disk.files
  {
    Present(Lookups(ds, baseDir, repoRoot, disk))
  }

  /** `extract_images`: one pass over the directives of `content`. */
  method ExtractImages(content: string, baseDir: string, repoRoot: string, disk: Disk) returns (images: seq<Image>)
    ensures images == Extracted(Directives(content), baseDir, repoRoot, disk)
  {
    images := ExtractFrom(Directives(content), baseDir, repoRoot, disk);
  }

  /** The loop of `extract_images` over the directives found. */
  method ExtractFrom(ds: seq<Directive>, baseDir: string, repoRoot: string, disk: Disk) returns (images: seq<Image>)
    ensures images == Extracted(ds, baseDir, repoRoot, disk)
  {
    images := [];
    for i := 0 to |ds|
      invariant images == Present(Lookups(ds[..i], baseDir, repoRoot, disk))
    {
      var d := ds[i];
      var path := ResolveImagePath(Strip(d.m.target), baseDir, repoRoot, disk);
      LookupsStep(ds, i, baseDir, repoRoot, disk);
      if path.Some? {
        images := images + [Entry(d, path.value)];
      }
    }
    assert ds[..|ds|] == ds;
  }

  lemma LookupsStep(ds: seq<Directive>, i: nat, baseDir: string, repoRoot: string, disk: Disk)
    requires i < |ds|
    ensures var x := ImageOf(ds[i], baseDir, repoRoot, disk);
      Present(Lookups(ds[..i + 1], baseDir, repoRoot, disk)) ==
        if x.Some? then Present(Lookups(ds[..i], baseDir, repoRoot, disk)) + [x.value]
        else Present(Lookups(ds[..i], baseDir, repoRoot, disk))
  {
    var f := d => ImageOf(d, baseDir, repoRoot, disk);
    MapStep(ds, i, f);
    PresentSnoc(Map(ds[..i], f), f(ds[i]));
  }

  /** When every file is found, there is one entry per directive, in
      directive order, carrying that directive's text. */
  lemma ExtractedAll(ds: seq<Directive>, baseDir: string, repoRoot: string, disk: Disk)
    requires forall k :: 0 <= k < |ds| ==> ImageOf(ds[k], baseDir, repoRoot, disk).Some?
    ensures |Extracted(ds, baseDir, repoRoot, disk)| == |ds|
    ensures forall k :: 0 <= k < |ds| ==> Extracted(ds, baseDir, repoRoot, disk)[k].matchText == ds[k].matchText
  {
    PresentAll(Lookups(ds, baseDir, repoRoot, disk));
  }

  /** When no file is found, nothing is extracted (and nothing fails). */
  lemma ExtractedNone(ds: seq<Directive>, baseDir: string, repoRoot: string, disk: Disk)
    requires forall k :: 0 <= k < |ds| ==> ImageOf(ds[k], baseDir, repoRoot, disk).None?
    ensures Extracted(ds, baseDir, repoRoot, disk) == []
  {
    PresentNone(Lookups(ds, baseDir, repoRoot, disk));
  }

  /** The text of every directive is the very slice of `content` it was
      found at, and starts with `![[`. */
  lemma DirectivesInContent(content: string)
    ensures forall k :: 0 <= k < |Directives(content)| ==>
      "![[" <= Directives(content)[k].matchText && Contains(content, Directives(content)[k].matchText)
  {
    var ds := Directives(content);
    forall k | 0 <= k < |ds| ensures Contains(content, ds[k].matchText) {
      ContainsAt(content, ds[k].matchText, ds[k].at);
    }
  }

  // ---------------------------------------------------------------------
  // Alt text

  /** `re.sub(r'\d{8}|\d{4}-\d{2}-\d{2}', '', s)`: from left to right,
      eight digits are removed, else a dashed date, else one character is
      kept. */
  function RemoveDates(s: string): (r: string)
    ensures |r| <= |s|
    decreases |s|
  {
    if s == [] then []
    else if EightDigitsAt(s, 0) then RemoveDates(s[8..])
    else if DashedDateAt(s) then RemoveDates(s[10..])
    else [s[0]] + RemoveDates(s[1..])
  }

  /** Eight digits start at `i`. */
  predicate EightDigitsAt(s: string, i: nat) {
    i + 8 <= |s| && AllDigits(s[i..i + 8])
  }

  /** The caption with `<...>` tags removed, then `<br>` turned into a
      space, then stripped. */
  function CaptionAlt(caption: string): string {
    Strip(ReplaceAll(MarkdownParser.StripTags(caption), "<br>", " "))
  }

  /** `_generate_alt_text` (the second definition, the one in effect): the
      caption, else the stem with `-` and `_` turned into spaces and the
      dates removed, else `image`. */
  function AltText(filename: string, caption: string): (r: string)
    ensures caption == [] ==> r != []
  {
    if caption != [] then CaptionAlt(caption)
    else
      var alt := Strip(RemoveDates(MarkdownParser.Spaced(Stem(filename))));
      if alt == [] then "image" else alt
  }

  /** The alt text with the dates removed before `-` and `_` become spaces,
      so that the dashed-date alternative can match. */
  function AltTextCorrected(filename: string, caption: string): (r: string)
    ensures caption == [] ==> r != []
  {
    if caption != [] then CaptionAlt(caption)
    else
      var alt := Strip(MarkdownParser.Spaced(RemoveDates(Stem(filename))));
      if alt == [] then "image" else alt
  }

  /** A caption without tags is the alt text, stripped. */
  lemma AltTextCaption(filename: string, caption: string)
    requires caption != [] && '<' !in caption
    ensures AltText(filename, caption) == Strip(caption)
    ensures AltTextCorrected(filename, caption) == Strip(caption)
  {
    MarkdownParser.StripTagsPlainPrefix(caption, []);
    assert caption + [] == caption;
    ReplaceNoHead(caption, "<br>", " ");
  }

  /** Eight digits in a row are removed. */
  lemma RemoveDatesEight(d: string, t: string)
    requires |d| == 8 && AllDigits(d)
    ensures RemoveDates(d + t) == RemoveDates(t)
  {
    assert (d + t)[0..8] == d && (d + t)[8..] == t;
  }

  /** A dashed date `dddd-dd-dd` is removed. */
  lemma RemoveDatesDashed(d: string, t: string)
    requires |d| == 10 && DashedDateAt(d)
    ensures RemoveDates(d + t) == RemoveDates(t)
  {
    var s := d + t;
    assert s[..10] == d && s[10..] == t;
    assert !EightDigitsAt(s, 0) by { assert !IsDigit(s[0..8][4]); }
    assert DashedDateAt(s) by {
      assert s[..4] == d[..4] && s[5..7] == d[5..7] && s[8..10] == d[8..10];
    }
  }

  /** Text with no `-` and no eight digits in a row is kept whole. */
  lemma {:induction false} RemoveDatesKeeps(s: string)
    requires '-' !in s
    requires forall i :: 0 <= i < |s| ==> !EightDigitsAt(s, i)
    ensures RemoveDates(s) == s
    decreases |s|
  {
    if s != [] {
      assert !DashedDateAt(s) by {
        if |s| >= 10 { assert s[4] in s; }
      }
      var t := s[1..];
      forall i | 0 <= i < |t| ensures !EightDigitsAt(t, i) {
        assert !EightDigitsAt(s, i + 1);
        if i + 8 <= |t| && AllDigits(t[i..i + 8]) {
          var u := s[i + 1..i + 9];
          var v := t[i..i + 8];
          forall k | 0 <= k < 8 ensures IsDigit(u[k]) {
            assert u[k] == v[k];
          }
        }
      }
      assert '-' !in t by {
        forall k | 0 <= k < |t| ensures t[k] != '-' { assert t[k] == s[k + 1]; }
      }
      RemoveDatesKeeps(t);
      assert s == [s[0]] + t;
    }
  }

  /** A dashed date spaced out: the bars become spaces at 4 and 7. */
  lemma SpacedDate(d: string)
    requires |d| == 10 && DashedDateAt(d)
    ensures var x := MarkdownParser.Spaced(d);
      && '-' !in x && x[4] == ' ' && x[7] == ' ' && IsDigit(x[0]) && IsDigit(x[9])
  {
    var x := MarkdownParser.Spaced(d);
    assert IsDigit(d[..4][0]) && IsDigit(d[8..10][1]);
    forall k | 0 <= k < 10 ensures x[k] != '-' {
      if k < 4 { assert IsDigit(d[..4][k]); }
      else if 4 < k < 7 { assert IsDigit(d[5..7][k - 5]); }
      else if 7 < k { assert IsDigit(d[8..10][k - 8]); }
    }
  }

  /** As written, a file named by a dashed date keeps the date in its alt
      text: `-` has become a space before the date pattern runs, so only
      the eight-digit alternative can match, and it does not. */
  lemma AltTextKeepsDashedDate(filename: string, d: string)
    requires Stem(filename) == d && |d| == 10 && DashedDateAt(d)
    ensures AltText(filename, "") == MarkdownParser.Spaced(d)
  {
    var x := MarkdownParser.Spaced(d);
    SpacedDate(d);
    forall i | 0 <= i < |x| ensures !EightDigitsAt(x, i) {
      if i + 8 <= |x| { assert x[i..i + 8][4 - i] == ' '; }
    }
    RemoveDatesKeeps(x);
    DigitNotSpace(x[0]);
    DigitNotSpace(x[9]);
    StripEnds(x);
  }

  /** With the dates removed first, a file named by a dashed date gets the
      fallback alt text. */
  lemma AltTextDropsDashedDate(filename: string, d: string)
    requires Stem(filename) == d && |d| == 10 && DashedDateAt(d)
    ensures AltTextCorrected(filename, "") == "image"
  {
    RemoveDatesDashed(d, []);
    assert d + [] == d;
    assert MarkdownParser.Spaced([]) == [];
  }

  // ---------------------------------------------------------------------
  // Wikilinks and checkboxes

  /** `- [ ]` becomes a ballot box, then `- [x]` a checked one. */
  function Checkboxes(s: string): string {
    ReplaceAll(ReplaceAll(s, "- [ ]", "\U{2610}"), "- [x]", "\U{2611}")
  }

  /** `process_obsidian_syntax`: every `[[page|text]]` becomes a link to the
      page's slug URL, with no exception for the `[[` of an image
      directive, then the checkboxes are replaced. */
  function ProcessObsidianSyntax(content: string): string {
    Checkboxes(MarkdownParser.WikiLinks(content, false, false))
  }

  /** The rewrite with the lookbehind `(?<!!)` that the Markdown
      preprocessor uses, so that image directives are left for the image
      substitution. */
  function ProcessObsidianSyntaxCorrected(content: string): string {
    Checkboxes(MarkdownParser.WikiLinks(content, false, true))
  }

  /** Without the lookbehind, whether a `!` came before does not matter. */
  lemma WikiNoBangRule(s: string, a: bool, b: bool)
    ensures MarkdownParser.WikiLinks(s, a, false) == MarkdownParser.WikiLinks(s, b, false)
  {
  }

  /** Text without a `[` has no checkbox. */
  lemma CheckboxesPlain(s: string)
    requires '[' !in s
    ensures Checkboxes(s) == s
  {
    NotContainsChar(s, "- [ ]", 2);
    ReplaceAbsent(s, "- [ ]", "\U{2610}");
    NotContainsChar(s, "- [x]", 2);
    ReplaceAbsent(s, "- [x]", "\U{2611}");
  }

  /** Text whose only `[`s stand before index 2 of a prefix without `-`
      has no checkbox. */
  lemma CheckboxesKept(x: string, y: string)
    requires 0 < |x| <= 3 && '-' !in x && '[' !in y
    ensures Checkboxes(x + y) == x + y
  {
    NoCheckboxIn(x, y, "- [ ]");
    ReplaceAbsent(x + y, "- [ ]", "\U{2610}");
    NoCheckboxIn(x, y, "- [x]");
    ReplaceAbsent(x + y, "- [x]", "\U{2611}");
  }

  lemma NoCheckboxIn(x: string, y: string, p: string)
    requires 0 < |x| <= 3 && '-' !in x && '[' !in y && |p| == 5 && p[0] == '-' && p[2] == '['
    ensures !Contains(x + y, p)
  {
    NotContainsChar(y, p, 2);
    forall k | 0 <= k < |x| ensures !(p <= (x + y)[k..]) {
      assert (x + y)[k] == x[k];
    }
    NotContainsConcat(x, y, p);
  }

  /** `- [ ]` at the start becomes a ballot box. */
  lemma CheckboxUnchecked(t: string)
    ensures Checkboxes("- [ ]" + t) == "\U{2610}" + Checkboxes(t)
  {
    ReplaceHead(t, "- [ ]", "\U{2610}");
    ReplaceSkip("\U{2610}", ReplaceAll(t, "- [ ]", "\U{2610}"), "- [x]", "\U{2611}");
  }

  /** `- [x]` at the start becomes a checked box. */
  lemma CheckboxChecked(t: string)
    ensures Checkboxes("- [x]" + t) == "\U{2611}" + Checkboxes(t)
  {
    CheckedPasses(t);
    ReplaceHead(ReplaceAll(t, "- [ ]", "\U{2610}"), "- [x]", "\U{2611}");
  }

  lemma CheckedPasses(t: string)
    ensures ReplaceAll("- [x]" + t, "- [ ]", "\U{2610}") == "- [x]" + ReplaceAll(t, "- [ ]", "\U{2610}")
  {
    var w := "- [x]";
    assert w[1..] == " [x]";
    MismatchNotPrefix(w, t, "- [ ]", 3);
    ReplacePassesWord(w, t, "- [ ]", "\U{2610}");
  }

  /** `![[page]]` loses its first `[` to the wikilink rewrite: it becomes a
      Markdown image of the page's article URL. */
  lemma DirectiveRewritten(page: string)
    requires |page| > 0 && MarkdownParser.NoneIn(page, {']', '|'}) && '[' !in page
    ensures ProcessObsidianSyntax("![[" + page + "]]") == "![" + page + "](/articles/" + MarkdownParser.Slug(page) + ")"
  {
    var slug := MarkdownParser.Slug(page);
    var rest := page + "](/articles/" + slug + ")";
    DirectiveLinked(page, slug, rest);
    SlugNoBracket(page);
    RestNoBracket(page, slug, rest);
    CheckboxesAfterBang(rest);
    RegroupLink("![", page, "](/articles/", slug, ")");
  }

  lemma DirectiveLinked(page: string, slug: string, rest: string)
    requires |page| > 0 && MarkdownParser.NoneIn(page, {']', '|'})
    requires slug == MarkdownParser.Slug(page) && rest == page + "](/articles/" + slug + ")"
    ensures MarkdownParser.WikiLinks("![[" + page + "]]", false, false) == "![" + rest
  {
    var u := "[[" + page + "]]";
    BangThenLink("![[" + page + "]]", u, page);
    MarkdownParser.WikiPlainRewrite(page, false);
    RegroupLink("[", page, "](/articles/", slug, ")");
    BangBracket(rest);
  }

  lemma BangBracket(rest: string)
    ensures "!" + ("[" + rest) == "![" + rest
  {
  }

  lemma CheckboxesAfterBang(rest: string)
    requires '[' !in rest
    ensures Checkboxes("![" + rest) == "![" + rest
  {
    CheckboxesKept("![", rest);
  }

  lemma RegroupLink(h: string, a: string, b: string, c: string, t: string)
    ensures h + a + b + c + t == h + (a + b + c + t)
  {
  }

  /** The `!` is copied and the link after it is rewritten as if alone. */
  lemma BangThenLink(s: string, u: string, page: string)
    requires u == "[[" + page + "]]" && s == "![[" + page + "]]"
    ensures MarkdownParser.WikiLinks(s, false, false) == "!" + MarkdownParser.WikiLinks(u, false, false)
  {
    assert s[0] == '!' && s[1..] == u;
    MarkdownParser.WikiCopied(s, false, false);
    WikiNoBangRule(u, true, false);
  }

  lemma RestNoBracket(page: string, slug: string, rest: string)
    requires '[' !in page && '[' !in slug && rest == page + "](/articles/" + slug + ")"
    ensures '[' !in rest
  {
  }

  /** A `![` followed by no `[` holds no `![[`. */
  lemma NotReopened(rest: string, d: string)
    requires '[' !in rest && |d| >= 3 && d[0] == '!' && d[1] == '[' && d[2] == '['
    ensures !Contains("![" + rest, d)
  {
    var out := "![" + rest;
    NotContainsChar(rest, d, 1);
    assert !(d <= out) by {
      if |out| >= 3 { assert out[2] == rest[0]; }
    }
    assert !(d <= out[1..]) by { assert out[1..][0] == '['; }
    NotContainsAfterTwo("![", rest, d);
  }

  lemma SlugNoBracket(page: string)
    ensures '[' !in MarkdownParser.Slug(page)
  {
    MarkdownParser.SlugShape(page);
  }

  // ---------------------------------------------------------------------
  // Figures

  /** What the image substitution knows of an uploaded image. A width that
      is absent from the record is `None`. */
  datatype WpInfo = WpInfo(url: string, altText: string, caption: string, width: Option<nat>)

  /** `wp_info.get('width')` is truthy: present and not zero. */
  predicate WidthSet(info: WpInfo) {
    info.width.Some? && info.width.value != 0
  }

  const FigureOpen: string := "<figure class=\"wp-block-image\">\n    "
  const CaptionOpen: string := "\n    <figcaption class=\"wp-element-caption\">"
  const FigureClose: string := "</figcaption>\n</figure>"

  function SrcAttr(info: WpInfo): string {
    "src=\"" + info.url + "\""
  }

  function AltAttr(info: WpInfo): string {
    "alt=\"" + info.altText + "\""
  }

  function WidthPair(info: WpInfo): string
    requires WidthSet(info)
  {
    "width=\"" + IntToString(info.width.value) + "\""
  }

  /** The `width` attribute with its leading space, or nothing. */
  function WidthAttr(info: WpInfo): string {
    if WidthSet(info) then " " + WidthPair(info) else ""
  }

  /** The `<img />` tag: `src`, `alt`, and the width when it is set. */
  function ImgTag(info: WpInfo): string {
    "<img " + SrcAttr(info) + " " + AltAttr(info) + WidthAttr(info) + " />"
  }

  /** The figure HTML: the tag inside a `<figure>` with its caption, or the
      bare tag when there is no caption. */
  function Figure(info: WpInfo): string {
    if info.caption != [] then FigureOpen + ImgTag(info) + CaptionOpen + info.caption + FigureClose
    else ImgTag(info)
  }

  /** `_create_figure_html`: the attribute list, joined by spaces. */
  method CreateFigureHtml(info: WpInfo) returns (html: string)
    ensures html == Figure(info)
  {
    var imgAttrs := ["src=\"" + info.url + "\"", "alt=\"" + info.altText + "\""];
    if info.width.Some? && info.width.value != 0 {
      imgAttrs := imgAttrs + ["width=\"" + IntToString(info.width.value) + "\""];
    }
    var imgTag := "<img " + Join(imgAttrs, " ") + " />";
    ImgTagJoined(info, imgAttrs);
    if info.caption != [] {
      html := FigureOpen + imgTag + CaptionOpen + info.caption + FigureClose;
    } else {
      html := imgTag;
    }
  }

  lemma ImgTagJoined(info: WpInfo, attrs: seq<string>)
    requires WidthSet(info) ==> attrs == [SrcAttr(info), AltAttr(info), WidthPair(info)]
    requires !WidthSet(info) ==> attrs == [SrcAttr(info), AltAttr(info)]
    ensures "<img " + Join(attrs, " ") + " />" == ImgTag(info)
  {
    var a, b := SrcAttr(info), AltAttr(info);
    if WidthSet(info) {
      var c := WidthPair(info);
      assert attrs[1..][1..] == [c];
      assert Join([c], " ") == c;
      assert attrs[1..] == [b, c];
      assert Join([b, c], " ") == b + " " + c;
      assert Join(attrs, " ") == a + " " + (b + " " + c);
      RegroupJoinThree("<img ", a, b, c, " ", " />");
    } else {
      assert attrs[1..] == [b];
      assert Join([b], " ") == b;
      assert Join(attrs, " ") == a + " " + b;
      RegroupJoinTwo("<img ", a, b, " ", " />");
    }
  }

  lemma RegroupJoinThree(h: string, a: string, b: string, c: string, sep: string, t: string)
    ensures h + (a + sep + (b + sep + c)) + t == h + a + sep + b + (sep + c) + t
  {
  }

  lemma RegroupJoinTwo(h: string, a: string, b: string, sep: string, t: string)
    ensures h + (a + sep + b) + t == h + a + sep + b + "" + t
  {
  }

  /** The tag is wrapped in a `<figure>` exactly when there is a caption. */
  lemma FigureIffCaption(info: WpInfo)
    ensures "<figure" <= Figure(info) <==> info.caption != []
  {
    if info.caption != [] {
      assert "<figure" <= FigureOpen;
    } else {
      assert Figure(info)[1] == 'i';
    }
  }

  /** A set width shows as a `width` attribute of the tag. */
  lemma WidthShown(info: WpInfo)
    requires WidthSet(info)
    ensures Contains(ImgTag(info), " width=\"" + IntToString(info.width.value) + "\"")
  {
    var head := "<img " + SrcAttr(info) + " " + AltAttr(info);
    var w := WidthAttr(info);
    var t := " />";
    WidthAttrText(info);
    assert ImgTag(info) == head + w + t;
    PrefixContains(w + t, w);
    ContainsPrepend(head, w + t, w);
    assert head + (w + t) == head + w + t;
  }

  lemma WidthAttrText(info: WpInfo)
    requires WidthSet(info)
    ensures WidthAttr(info) == " width=\"" + IntToString(info.width.value) + "\""
  {
    var n := IntToString(info.width.value);
    assert " " + ("width=\"" + n + "\"") == " width=\"" + n + "\"";
  }

  /** No width, or width zero: no `width=` in the tag (for a URL and alt
      text without `w`). */
  lemma WidthHidden(info: WpInfo)
    requires !WidthSet(info) && 'w' !in info.url && 'w' !in info.altText
    ensures !Contains(ImgTag(info), "width=")
  {
    assert 'w' !in ImgTag(info);
    NotContainsChar(ImgTag(info), "width=", 0);
  }

  // ---------------------------------------------------------------------
  // Image references

  /** The substitutions in mapping order: each key, wherever it occurs,
      becomes the figure HTML of its image. */
  function ApplyReferences(content: string, mapping: seq<(string, WpInfo)>): string
    decreases |mapping|
  {
    if mapping == [] then content
    else
      var last := mapping[|mapping| - 1];
      ReplaceAll(ApplyReferences(content, mapping[..|mapping| - 1]), last.0, Figure(last.1))
  }

  /** `update_image_references` */
  method UpdateImageReferences(content: string, mapping: seq<(string, WpInfo)>) returns (result: string)
    ensures result == ApplyReferences(content, mapping)
  {
    result := content;
    for i := 0 to |mapping|
      invariant result == ApplyReferences(content, mapping[..i])
    {
      var figureHtml := CreateFigureHtml(mapping[i].1);
      assert mapping[..i + 1][..i] == mapping[..i];
      result := ReplaceAll(result, mapping[i].0, figureHtml);
    }
    assert mapping[..|mapping|] == mapping;
  }

  /** Keys that do not occur change nothing. */
  lemma {:induction false} ReferencesAbsent(content: string, mapping: seq<(string, WpInfo)>)
    requires forall k :: 0 <= k < |mapping| ==> mapping[k].0 != [] && !Contains(content, mapping[k].0)
    ensures ApplyReferences(content, mapping) == content
    decreases |mapping|
  {
    if mapping != [] {
      var front := mapping[..|mapping| - 1];
      assert forall k :: 0 <= k < |front| ==> front[k] == mapping[k];
      ReferencesAbsent(content, front);
      ReplaceAbsent(content, mapping[|mapping| - 1].0, Figure(mapping[|mapping| - 1].1));
    }
  }

  /** A key that occurs once is replaced by the figure, in place. */
  lemma ReferenceReplaced(a: string, b: string, key: string, info: WpInfo)
    requires key != [] && key[0] !in a && !Contains(b, key)
    ensures ApplyReferences(a + key + b, [(key, info)]) == a + Figure(info) + b
  {
    assert [(key, info)][..0] == [];
    ReplacesWord(a, b, key, Figure(info));
    ReplaceAbsent(b, key, Figure(info));
  }

  // ---------------------------------------------------------------------
  // Order of the passes in `process_article`

  /** The article body as `process_article` builds it: the images are
      found in the original text, the Obsidian syntax is rewritten, and
      then the directive texts are substituted. */
  function ArticleBody(content: string, mapping: seq<(string, WpInfo)>): string {
    ApplyReferences(ProcessObsidianSyntax(content), mapping)
  }

  /** The same with the lookbehind that spares image directives. */
  function ArticleBodyCorrected(content: string, mapping: seq<(string, WpInfo)>): string {
    ApplyReferences(ProcessObsidianSyntaxCorrected(content), mapping)
  }

  /** As written, the directive `![[page]]` has already been rewritten when
      its key is looked up, so its figure never appears. */
  lemma DirectiveLostAsWritten(page: string, info: WpInfo)
    requires |page| > 0 && MarkdownParser.NoneIn(page, {']', '|'}) && '[' !in page
    ensures var d := "![[" + page + "]]";
      ArticleBody(d, [(d, info)]) == ProcessObsidianSyntax(d)
  {
    var d := "![[" + page + "]]";
    var slug := MarkdownParser.Slug(page);
    var rest := page + "](/articles/" + slug + ")";
    var out := ProcessObsidianSyntax(d);
    DirectiveRewritten(page);
    RegroupLink("![", page, "](/articles/", slug, ")");
    assert out == "![" + rest;
    SlugNoBracket(page);
    RestNoBracket(page, slug, rest);
    NotReopened(rest, d);
    assert [(d, info)][..0] == [];
    assert ApplyReferences(out, [(d, info)]) == ReplaceAll(out, d, Figure(info));
    ReplaceAbsent(out, d, Figure(info));
  }

  /** With the lookbehind, the directive survives the syntax pass and is
      replaced by its figure. */
  lemma DirectiveReplaced(page: string, info: WpInfo)
    requires '[' !in page
    ensures var d := "![[" + page + "]]";
      ArticleBodyCorrected(d, [(d, info)]) == Figure(info)
  {
    var d := "![[" + page + "]]";
    var tail := page + "]]";
    assert d == "![[" + tail;
    MarkdownParser.ImageDirectiveKept(page);
    assert MarkdownParser.WikiLinks(d, false, true) == d;
    MarkdownParser.NoBracketAfter(page);
    CheckboxesKept("![[", tail);
    assert ProcessObsidianSyntaxCorrected(d) == d;
    assert [(d, info)][..0] == [];
    assert ApplyReferences(d, [(d, info)]) == ReplaceAll(d, d, Figure(info));
    ReplaceHere(d, [], Figure(info));
    assert d + [] == d;
    assert ReplaceAll([], d, Figure(info)) == [];
  }
}

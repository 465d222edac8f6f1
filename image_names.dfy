/** The file-name normaliser `_normalize_filename`, which both image
    optimisers use (scripts/batch_image_optimizer.py and
    scripts/utils/obsidian_processor.py), and the status that
    `optimize_images` records for each file it is given. */
module ImageNames {
  import opened Wrappers
  import opened Text
  import MarkdownParser

  // ---------------------------------------------------------------------
  // Splitting off the extension

  /** Index of the last `c` in `s` (`s.rfind(c)`). */
  function LastIndex(s: string, c: char): (r: Option<nat>)
    ensures r.Some? ==> r.value < |s| && s[r.value] == c && c !in s[r.value + 1..]
    ensures r.None? ==> c !in s
    decreases |s|
  {
    if s == [] then None
    else if s[|s| - 1] == c then Some(|s| - 1)
    else
      var r := LastIndex(s[..|s| - 1], c);
      assert forall k :: 0 <= k < |s| - 1 ==> s[..|s| - 1][k] == s[k];
      r
  }

  /** `os.path.splitext` on a POSIX path: the extension runs from the last
      `.` of the last path component, unless that component has only dots
      before it (a leading-dot name has no extension). */
  function SplitExt(p: string): (r: (string, string))
    ensures r.0 + r.1 == p
    ensures r.1 == [] || (r.1[0] == '.' && '.' !in r.1[1..] && '/' !in r.1)
  {
    match LastIndex(p, '.')
    case None => (p, [])
    case Some(dot) =>
      if '/' in p[dot + 1..] then (p, [])
      else
        var start := match LastIndex(p[..dot], '/') case None => 0 case Some(k) => k + 1;
        if AllIn(p[start..dot], {'.'}) then (p, [])
        else
          assert p[..dot] + p[dot..] == p;
          assert p[dot..][1..] == p[dot + 1..];
          (p[..dot], p[dot..])
  }

  // ---------------------------------------------------------------------
  // The passes over the name

  /** `re.sub(r'\s+', '-', s)`: every run of whitespace becomes one `-`. */
  function DashSpaces(s: string): string
    decreases |s|
  {
    if s == [] then []
    else if IsSpace(s[0]) then
      if |s| > 1 && IsSpace(s[1]) then DashSpaces(s[1..]) else "-" + DashSpaces(s[1..])
    else [s[0]] + DashSpaces(s[1..])
  }

  const Separators: set<char> := {'-', '_'}

  /** A match of `(\d{4})[-_]?(\d{2})[-_]?(\d{2})`: its length and the
      replacement `\1\2\3`. */
  datatype DateMatch = DateMatch(digits: string, len: nat)

  /** Four digits at `i`. */
  predicate FourDigitsAt(s: string, i: nat) {
    i + 4 <= |s| && IsDigit(s[i]) && IsDigit(s[i + 1]) && IsDigit(s[i + 2]) && IsDigit(s[i + 3])
  }

  /** Two digits at `i`. */
  predicate TwoDigitsAt(s: string, i: nat) {
    i + 2 <= |s| && IsDigit(s[i]) && IsDigit(s[i + 1])
  }

  /** The match at `i`. An optional separator that is present is taken;
      giving it back cannot help, since a separator is no digit. */
  function DateAt(s: string, i: nat): (r: Option<DateMatch>)
    requires i <= |s|
    ensures r.Some? ==> i + 8 <= r.value.len <= |s| && |r.value.digits| == 8 && AllDigits(r.value.digits)
  {
    if !FourDigitsAt(s, i) then None
    else
      var j := if i + 4 < |s| && s[i + 4] in Separators then i + 5 else i + 4;
      if !TwoDigitsAt(s, j) then None
      else
        var k := if j + 2 < |s| && s[j + 2] in Separators then j + 3 else j + 2;
        if !TwoDigitsAt(s, k) then None
        else Some(DateMatch([s[i], s[i + 1], s[i + 2], s[i + 3], s[j], s[j + 1], s[k], s[k + 1]], k + 2))
  }

  /** `re.sub(r'(\d{4})[-_]?(\d{2})[-_]?(\d{2})', r'\1\2\3', s)` from
      `i`: leftmost matches, left to right, not overlapping. */
  function DatesFrom(s: string, i: nat): string
    requires i <= |s|
    decreases |s| - i
  {
    if i == |s| then []
    else
      match DateAt(s, i)
      case Some(m) => m.digits + DatesFrom(s, m.len)
      case None => [s[i]] + DatesFrom(s, i + 1)
  }

  function Dates(s: string): string {
    DatesFrom(s, 0)
  }

  /** `re.sub(r'-+', '-', s)`: every run of `-` becomes one. */
  function CollapseDashes(s: string): string
    decreases |s|
  {
    if s == [] then []
    else if |s| > 1 && s[0] == '-' && s[1] == '-' then CollapseDashes(s[1..])
    else [s[0]] + CollapseDashes(s[1..])
  }

  /** The name part: drop what is not a word character, whitespace or `-`,
      strip, turn whitespace runs into `-`, lower-case, collapse dates,
      collapse `-` runs and strip `-` from both ends. */
  function NormalizedName(stem: string): string {
    var kept := Strip(MarkdownParser.KeepSlugChars(stem));
    var lowered := LowerStr(DashSpaces(kept));
    StripIn(CollapseDashes(Dates(lowered)), {'-'})
  }

  /** `_normalize_filename(filename, keep_extension)`: the normalised name,
      then `.webp`, or the original extension lower-cased. The optimiser
      of scripts/utils/obsidian_processor.py is the case
      `keepExtension == false`. */
  function NormalizeFilename(filename: string, keepExtension: bool): (r: string)
    ensures !keepExtension ==> |r| >= 5 && r[|r| - 5..] == ".webp"
    ensures keepExtension ==> var ext := SplitExt(filename).1;
      |r| >= |ext| && r[|r| - |ext|..] == LowerStr(ext)
  {
    var parts := SplitExt(filename);
    var name := NormalizedName(parts.0);
    if keepExtension then
      var r := name + LowerStr(parts.1);
      assert r[|name|..] == LowerStr(parts.1);
      r
    else
      var r := name + ".webp";
      assert r[|name|..] == ".webp";
      r
  }

  // ---------------------------------------------------------------------
  // The shape of a normalised name

  /** Word characters, whitespace and `-`: what survives the first pass. */
  predicate SlugText(s: string) {
    forall k :: 0 <= k < |s| ==> IsWord(s[k]) || IsSpace(s[k]) || s[k] == '-'
  }

  /** Word characters and `-`. */
  predicate WordText(s: string) {
    forall k :: 0 <= k < |s| ==> IsWord(s[k]) || s[k] == '-'
  }

  /** The characters a normalised name is made of: `[a-z0-9_-]`. */
  predicate NameChar(c: char) {
    'a' <= c <= 'z' || IsDigit(c) || c == '_' || c == '-'
  }

  predicate NameText(s: string) {
    forall k :: 0 <= k < |s| ==> NameChar(s[k])
  }

  predicate NoDoubleDash(s: string) {
    forall k :: 0 <= k < |s| - 1 ==> !(s[k] == '-' && s[k + 1] == '-')
  }

  /** What `strip` leaves is a window of its input. */
  lemma StripInOffset(s: string, cs: set<char>) returns (a: nat)
    ensures a + |StripIn(s, cs)| <= |s|
    ensures forall k :: 0 <= k < |StripIn(s, cs)| ==> StripIn(s, cs)[k] == s[a + k]
  {
    var t := TrimStartIn(s, cs);
    var r := TrimEndIn(t, cs);
    a := |s| - |t|;
    forall k | 0 <= k < |r| ensures r[k] == s[a + k] {
      assert r[k] == t[k];
    }
  }

  lemma StripSlugText(s: string)
    requires SlugText(s)
    ensures SlugText(Strip(s))
  {
    var a := StripInOffset(s, Whitespace);
    var r := Strip(s);
    forall k | 0 <= k < |r| ensures IsWord(r[k]) || IsSpace(r[k]) || r[k] == '-' {
      assert r[k] == s[a + k];
    }
  }

  lemma StripNameText(s: string, cs: set<char>)
    requires NameText(s)
    ensures NameText(StripIn(s, cs))
  {
    var a := StripInOffset(s, cs);
    var r := StripIn(s, cs);
    forall k | 0 <= k < |r| ensures NameChar(r[k]) {
      assert r[k] == s[a + k];
    }
  }

  lemma StripNoDoubleDash(s: string, cs: set<char>)
    requires NoDoubleDash(s)
    ensures NoDoubleDash(StripIn(s, cs))
  {
    var a := StripInOffset(s, cs);
    var r := StripIn(s, cs);
    forall k | 0 <= k < |r| - 1 ensures !(r[k] == '-' && r[k + 1] == '-') {
      assert r[k] == s[a + k] && r[k + 1] == s[a + k + 1];
    }
  }

  lemma {:induction false} DashSpacesShape(s: string)
    requires SlugText(s)
    ensures WordText(DashSpaces(s))
    decreases |s|
  {
    if s != [] {
      DashSpacesShape(s[1..]);
    }
  }

  lemma LowerShape(s: string)
    requires WordText(s)
    ensures NameText(LowerStr(s))
  {
  }

  lemma {:induction false} DatesShape(s: string, i: nat)
    requires i <= |s| && NameText(s)
    ensures NameText(DatesFrom(s, i))
    decreases |s| - i
  {
    if i < |s| {
      match DateAt(s, i)
      case Some(m) =>
        DatesShape(s, m.len);
      case None =>
        DatesShape(s, i + 1);
    }
  }

  lemma {:induction false} CollapseShape(s: string)
    ensures NameText(s) ==> NameText(CollapseDashes(s))
    ensures NoDoubleDash(CollapseDashes(s))
    ensures |s| > 0 ==> |CollapseDashes(s)| > 0 && CollapseDashes(s)[0] == s[0]
    decreases |s|
  {
    if s != [] {
      CollapseShape(s[1..]);
    }
  }

  /** The name part is `[a-z0-9_-]*`, has no `--`, and neither starts nor
      ends with `-`. */
  lemma NameShape(stem: string)
    ensures var n := NormalizedName(stem);
      NameText(n) && NoDoubleDash(n) && (|n| > 0 ==> n[0] != '-' && n[|n| - 1] != '-')
  {
    var k0 := MarkdownParser.KeepSlugChars(stem);
    assert SlugText(k0);
    StripSlugText(k0);
    var kept := Strip(k0);
    DashSpacesShape(kept);
    var lowered := LowerStr(DashSpaces(kept));
    LowerShape(DashSpaces(kept));
    var dated := Dates(lowered);
    DatesShape(lowered, 0);
    var collapsed := CollapseDashes(dated);
    CollapseShape(dated);
    StripNameText(collapsed, {'-'});
    StripNoDoubleDash(collapsed, {'-'});
  }

  // ---------------------------------------------------------------------
  // Dates and a dated name

  /** `YYYY[-_]MM[-_]DD` at `i` collapses to `YYYYMMDD`, and the pass goes
      on after it. The text reads `y` at `i`, `m` at `j` and `d` at `k`;
      what lies between them, if anything, is one separator. */
  lemma DateCollapses(s: string, i: nat, j: nat, k: nat, y: string, m: string, d: string)
    requires |y| == 4 && |m| == 2 && |d| == 2 && AllDigits(y) && AllDigits(m) && AllDigits(d)
    requires i + 4 <= j <= i + 5 && j + 2 <= k <= j + 3 && k + 2 <= |s|
    requires s[i..i + 4] == y && s[j..j + 2] == m && s[k..k + 2] == d
    requires j == i + 5 ==> s[i + 4] in Separators
    requires k == j + 3 ==> s[j + 2] in Separators
    ensures DatesFrom(s, i) == y + m + d + DatesFrom(s, k + 2)
  {
    assert j == (if i + 4 < |s| && s[i + 4] in Separators then i + 5 else i + 4) by {
      if j == i + 4 { assert s[i + 4] == m[0]; }
    }
    assert k == (if j + 2 < |s| && s[j + 2] in Separators then j + 3 else j + 2) by {
      if k == j + 2 { assert s[j + 2] == d[0]; }
    }
    DateDigits(s, i, j, k, y, m, d);
  }

  /** The match made of the three windows. */
  lemma DateDigits(s: string, i: nat, j: nat, k: nat, y: string, m: string, d: string)
    requires |y| == 4 && |m| == 2 && |d| == 2 && AllDigits(y) && AllDigits(m) && AllDigits(d)
    requires i + 4 <= j && j + 2 <= k && k + 2 <= |s|
    requires s[i..i + 4] == y && s[j..j + 2] == m && s[k..k + 2] == d
    requires j == (if i + 4 < |s| && s[i + 4] in Separators then i + 5 else i + 4)
    requires k == (if j + 2 < |s| && s[j + 2] in Separators then j + 3 else j + 2)
    ensures DateAt(s, i) == Some(DateMatch(y + m + d, k + 2))
  {
    assert s[i] == y[0] && s[i + 1] == y[1] && s[i + 2] == y[2] && s[i + 3] == y[3];
    assert s[j] == m[0] && s[j + 1] == m[1] && s[k] == d[0] && s[k + 1] == d[1];
    assert [s[i], s[i + 1], s[i + 2], s[i + 3], s[j], s[j + 1], s[k], s[k + 1]] == y + m + d;
  }

  /** Text without digits before `e` is copied as it is, up to `e`. */
  lemma {:induction false} PlainPrefixDates(s: string, i: nat, e: nat)
    requires i <= e <= |s| && NoDigits(s, i, e)
    ensures DatesFrom(s, i) == s[i..e] + DatesFrom(s, e)
    decreases e - i
  {
    if i < e {
      var rest := DatesFrom(s, e);
      DatesSkip(s, i);
      PlainPrefixDates(s, i + 1, e);
      SliceCons(s, i, e);
      ConsAssoc(s[i], s[i + 1..e], rest);
    }
  }

  predicate NoDigits(s: string, i: nat, e: nat)
    requires i <= e <= |s|
  {
    forall k :: i <= k < e ==> !IsDigit(s[k])
  }

  lemma SliceCons(s: string, i: nat, e: nat)
    requires i < e <= |s|
    ensures s[i..e] == [s[i]] + s[i + 1..e]
  {
  }

  lemma ConsAssoc(c: char, t: string, r: string)
    ensures [c] + (t + r) == [c] + t + r
  {
  }

  /** One step of the date pass past a character that is no digit. */
  lemma DatesSkip(s: string, i: nat)
    requires i < |s| && !IsDigit(s[i])
    ensures DatesFrom(s, i) == [s[i]] + DatesFrom(s, i + 1)
  {
  }

  /** A word, a space and a dashed date, with an extension:
      `"Photo 2025-07-01.PNG"` becomes `"photo-20250701.webp"`. */
  lemma DatedName(w: string, y: string, m: string, d: string, e: string)
    requires |w| > 0 && forall k :: 0 <= k < |w| ==> IsLetter(w[k])
    requires |y| == 4 && |m| == 2 && |d| == 2 && AllDigits(y) && AllDigits(m) && AllDigits(d)
    requires |e| > 1 && e[0] == '.' && '.' !in e[1..] && '/' !in e
    ensures NormalizeFilename(w + " " + y + "-" + m + "-" + d + e, false)
      == LowerStr(w) + "-" + y + m + d + ".webp"
  {
    var date := y + "-" + m + "-" + d;
    var stem := w + " " + date;
    DatedStem(w, date, y, m, d);
    DatedSplit(stem, e);
    assert w + " " + y + "-" + m + "-" + d + e == stem + e;
    DatedNormalized(w, date, y, m, d);
  }

  /** The characters of a dashed date. */
  lemma DateChars(date: string, y: string, m: string, d: string)
    requires |y| == 4 && |m| == 2 && |d| == 2 && AllDigits(y) && AllDigits(m) && AllDigits(d)
    requires date == y + "-" + m + "-" + d
    ensures |date| == 10 && IsDigit(date[9])
    ensures forall i :: 0 <= i < |date| ==> IsDigit(date[i]) || date[i] == '-'
  {
    forall i | 0 <= i < 10 ensures IsDigit(date[i]) || date[i] == '-' {
      if i < 4 { assert date[i] == y[i]; }
      else if 5 <= i < 7 { assert date[i] == m[i - 5]; }
      else if 8 <= i { assert date[i] == d[i - 8]; }
    }
  }

  lemma DatedStem(w: string, date: string, y: string, m: string, d: string)
    requires |w| > 0 && forall k :: 0 <= k < |w| ==> IsLetter(w[k])
    requires |y| == 4 && |m| == 2 && |d| == 2 && AllDigits(y) && AllDigits(m) && AllDigits(d)
    requires date == y + "-" + m + "-" + d
    ensures var stem := w + " " + date;
      && IsLetter(stem[0]) && IsDigit(stem[|stem| - 1]) && SlugText(stem)
      && '.' !in stem && '/' !in stem
  {
    var stem := w + " " + date;
    DateChars(date, y, m, d);
    forall k | 0 <= k < |stem|
      ensures IsLetter(stem[k]) || IsDigit(stem[k]) || stem[k] == ' ' || stem[k] == '-'
    {
      if k < |w| { assert stem[k] == w[k]; }
      else if k > |w| { assert stem[k] == date[k - |w| - 1]; }
    }
    assert stem[|stem| - 1] == date[9];
  }

  /** The last `.` of a name whose extension has no other `.`. */
  lemma LastIndexAt(s: string, i: nat, c: char)
    requires i < |s| && s[i] == c && c !in s[i + 1..]
    ensures LastIndex(s, c) == Some(i)
  {
    assert s[i] in s;
  }

  lemma DatedSplit(stem: string, e: string)
    requires |stem| > 0 && IsLetter(stem[0]) && '.' !in stem && '/' !in stem
    requires |e| > 1 && e[0] == '.' && '.' !in e[1..] && '/' !in e
    ensures SplitExt(stem + e) == (stem, e)
  {
    var f := stem + e;
    var n := |stem|;
    assert f[n + 1..] == e[1..];
    LastIndexAt(f, n, '.');
    assert f[..n] == stem && f[n..] == e;
    assert LastIndex(stem, '/') == None;
    assert stem[0] !in {'.'};
  }

  lemma DatedNormalized(w: string, date: string, y: string, m: string, d: string)
    requires |w| > 0 && forall k :: 0 <= k < |w| ==> IsLetter(w[k])
    requires |y| == 4 && |m| == 2 && |d| == 2 && AllDigits(y) && AllDigits(m) && AllDigits(d)
    requires date == y + "-" + m + "-" + d
    ensures NormalizedName(w + " " + date) == LowerStr(w) + "-" + y + m + d
  {
    var stem := w + " " + date;
    var lw := LowerStr(w);
    var lowered := LowerStr(DashSpaces(Strip(MarkdownParser.KeepSlugChars(stem))));
    DatedLowered(w, date, y, m, d);
    assert lowered == lw + "-" + date;
    var out := lw + "-" + (y + m + d);
    LowerLetters(w);
    DatesAfterWord(lw, date, y, m, d);
    assert Dates(lowered) == out;
    DigitsConcat(y, m, d);
    DatedTail(lw, y + m + d);
    assert NormalizedName(stem) == out;
    RegroupDigits(lw, "-", y, m, d);
  }

  /** A non-empty run of lower-case letters. */
  predicate LowerWord(s: string) {
    |s| > 0 && forall k :: 0 <= k < |s| ==> 'a' <= s[k] <= 'z'
  }

  lemma LowerLetters(w: string)
    requires |w| > 0 && forall k :: 0 <= k < |w| ==> IsLetter(w[k])
    ensures LowerWord(LowerStr(w))
  {
  }

  lemma DigitsConcat(y: string, m: string, d: string)
    requires |y| == 4 && AllDigits(y) && AllDigits(m) && AllDigits(d)
    ensures |y + m + d| > 0 && AllDigits(y + m + d)
  {
    var t := y + m + d;
    forall k | 0 <= k < |t| ensures IsDigit(t[k]) {
      if k < |y| { assert t[k] == y[k]; }
      else if k < |y| + |m| { assert t[k] == m[k - |y|]; }
      else { assert t[k] == d[k - |y| - |m|]; }
    }
  }

  lemma RegroupDigits(a: string, b: string, y: string, m: string, d: string)
    ensures a + b + (y + m + d) == a + b + y + m + d
  {
  }

  /** The passes before the date pass. */
  lemma DatedLowered(w: string, date: string, y: string, m: string, d: string)
    requires |w| > 0 && forall k :: 0 <= k < |w| ==> IsLetter(w[k])
    requires |y| == 4 && |m| == 2 && |d| == 2 && AllDigits(y) && AllDigits(m) && AllDigits(d)
    requires date == y + "-" + m + "-" + d
    ensures LowerStr(DashSpaces(Strip(MarkdownParser.KeepSlugChars(w + " " + date)))) == LowerStr(w) + "-" + date
  {
    var stem := w + " " + date;
    DatedStem(w, date, y, m, d);
    DatedKept(stem);
    DateChars(date, y, m, d);
    DatedDashed(w, date);
    LowerDated(w, date);
  }

  lemma DatedKept(stem: string)
    requires |stem| > 0 && IsLetter(stem[0]) && IsDigit(stem[|stem| - 1]) && SlugText(stem)
    ensures Strip(MarkdownParser.KeepSlugChars(stem)) == stem
  {
    KeepAll(stem);
    StripWordEnds(stem);
  }

  lemma DatedDashed(w: string, date: string)
    requires |w| > 0 && forall k :: 0 <= k < |w| ==> IsLetter(w[k])
    requires |date| > 0 && forall k :: 0 <= k < |date| ==> IsDigit(date[k]) || date[k] == '-'
    ensures DashSpaces(w + " " + date) == w + "-" + date
  {
    assert NoSpace(w) by {
      forall k | 0 <= k < |w| ensures !IsSpace(w[k]) { LetterNotSpace(w[k]); }
    }
    assert NoSpace(date) by {
      forall k | 0 <= k < |date| ensures !IsSpace(date[k]) { DigitOrDashNotSpace(date[k]); }
    }
    DashSpacesOne(w, date);
  }

  lemma LetterNotSpace(c: char)
    requires IsLetter(c)
    ensures !IsSpace(c)
  {
  }

  lemma DigitOrDashNotSpace(c: char)
    requires IsDigit(c) || c == '-'
    ensures !IsSpace(c)
  {
  }

  /** The passes after the date pass leave `word-digits` alone. */
  lemma DatedTail(lw: string, digits: string)
    requires LowerWord(lw)
    requires |digits| > 0 && AllDigits(digits)
    ensures StripIn(CollapseDashes(lw + "-" + digits), {'-'}) == lw + "-" + digits
  {
    var out := lw + "-" + digits;
    DatedNoDoubleDash(lw, digits);
    CollapseNoDoubleDash(out);
    assert out[0] == lw[0] && out[|out| - 1] == digits[|digits| - 1];
    StripDashEnds(out);
  }

  lemma LowerDated(w: string, date: string)
    requires forall k :: 0 <= k < |date| ==> IsDigit(date[k]) || date[k] == '-'
    ensures LowerStr(w + "-" + date) == LowerStr(w) + "-" + date
  {
  }

  lemma DatesAfterWord(lw: string, date: string, y: string, m: string, d: string)
    requires LowerWord(lw)
    requires |y| == 4 && |m| == 2 && |d| == 2 && AllDigits(y) && AllDigits(m) && AllDigits(d)
    requires date == y + "-" + m + "-" + d
    ensures Dates(lw + "-" + date) == lw + "-" + (y + m + d)
  {
    var s := lw + "-" + date;
    var n := |lw| + 1;
    assert NoDigits(s, 0, n) by {
      forall k | 0 <= k < n ensures !IsDigit(s[k]) {
        if k < |lw| { assert s[k] == lw[k]; }
      }
    }
    PlainPrefixDates(s, 0, n);
    assert s[n..] == date && s[..n] == lw + "-";
    DashedDateWindows(s, n, date, y, m, d);
    DateCollapses(s, n, n + 5, n + 8, y, m, d);
    assert DatesFrom(s, n + 10) == [];
  }

  /** Where the pieces of a dashed date stand. */
  lemma DashedDateWindows(s: string, n: nat, date: string, y: string, m: string, d: string)
    requires |y| == 4 && |m| == 2 && |d| == 2
    requires date == y + "-" + m + "-" + d && n <= |s| && s[n..] == date
    ensures |s| == n + 10
    ensures s[n..n + 4] == y && s[n + 4] == '-' && s[n + 5..n + 7] == m && s[n + 7] == '-' && s[n + 8..n + 10] == d
  {
    assert date[..4] == y && date[4] == '-' && date[5..7] == m && date[7] == '-' && date[8..] == d;
    assert s[n..n + 4] == date[..4];
    assert s[n + 5..n + 7] == date[5..7];
    assert s[n + 8..n + 10] == date[8..];
  }

  lemma DatedNoDoubleDash(lw: string, digits: string)
    requires forall k :: 0 <= k < |lw| ==> lw[k] != '-'
    requires AllDigits(digits)
    ensures NoDoubleDash(lw + "-" + digits)
  {
    var out := lw + "-" + digits;
    forall k | 0 <= k < |out| - 1 ensures !(out[k] == '-' && out[k + 1] == '-') {
      if k < |lw| { assert out[k] == lw[k]; }
      else if k == |lw| { if |digits| > 0 { assert out[k + 1] == digits[0]; } }
      else { assert out[k] == digits[k - |lw| - 1]; }
    }
  }

  lemma StripWordEnds(s: string)
    requires |s| > 0 && IsLetter(s[0]) && IsDigit(s[|s| - 1])
    ensures Strip(s) == s
  {
    LetterNotSpace(s[0]);
    DigitNotSpace(s[|s| - 1]);
    StripEnds(s);
  }

  lemma StripDashEnds(s: string)
    requires |s| > 0 && s[0] != '-' && s[|s| - 1] != '-'
    ensures StripIn(s, {'-'}) == s
  {
    assert TrimStartIn(s, {'-'}) == s;
  }

  /** Text of word characters, whitespace and `-` keeps every character. */
  lemma {:induction false} KeepAll(s: string)
    requires SlugText(s)
    ensures MarkdownParser.KeepSlugChars(s) == s
    decreases |s|
  {
    if s != [] {
      KeepAll(s[1..]);
      assert [s[0]] + s[1..] == s;
    }
  }

  /** Text without whitespace passes the whitespace pass unchanged. */
  lemma {:induction false} DashSpacesNone(s: string)
    requires NoSpace(s)
    ensures DashSpaces(s) == s
    decreases |s|
  {
    if s != [] {
      DashSpacesNone(s[1..]);
      assert [s[0]] + s[1..] == s;
    }
  }

  predicate NoSpace(s: string) {
    forall k :: 0 <= k < |s| ==> !IsSpace(s[k])
  }

  /** A single space between two words becomes `-`. */
  lemma {:induction false} DashSpacesOne(a: string, b: string)
    requires NoSpace(a) && |b| > 0 && NoSpace(b)
    ensures DashSpaces(a + " " + b) == a + "-" + b
    decreases |a|
  {
    if a == [] {
      assert ([] + " " + b)[1..] == b;
      DashSpacesNone(b);
    } else {
      assert (a + " " + b)[1..] == a[1..] + " " + b;
      DashSpacesOne(a[1..], b);
    }
  }

  /** Text free of `--` passes the dash pass unchanged. */
  lemma {:induction false} CollapseNoDoubleDash(s: string)
    requires NoDoubleDash(s)
    ensures CollapseDashes(s) == s
    decreases |s|
  {
    if s != [] {
      CollapseNoDoubleDash(s[1..]);
      assert [s[0]] + s[1..] == s;
    }
  }

  // ---------------------------------------------------------------------
  // The status of each file in `optimize_images`

  /** What happened to one file: it did not exist; an exception reached
      the handler (raised by `optimize`, or by the renames that replace the
      original); or `optimize` returned, with or without `is_gif` set and
      with or without an `error` entry. */
  datatype Attempt = Missing | Raised | Returned(isGif: bool, hasError: bool)

  datatype Status = Optimized | Skipped | Error

  /** The entry of `results` for one file. */
  datatype Report = Report(file: string, status: Status)

  /** The status a file gets, or `None` when it is skipped without an entry. */
  function Classify(a: Attempt): Option<Status> {
    match a
    case Missing => None
    case Raised => Some(Error)
    case Returned(isGif, hasError) =>
      if !isGif && !hasError then Some(Optimized)
      else if isGif then Some(Skipped)
      else Some(Error)
  }

  /** The `results` list for `files`, one entry per file that exists. */
  function Reports(files: seq<string>, attempt: string -> Attempt): seq<Report>
    decreases |files|
  {
    if files == [] then []
    else
      var f := files[|files| - 1];
      var front := Reports(files[..|files| - 1], attempt);
      match Classify(attempt(f))
      case Some(st) => front + [Report(f, st)]
      case None => front
  }

  /** `optimize_images`: the outcome of each file is given by `attempt`;
      the file operations themselves are not modelled. */
  method OptimizeImages(files: seq<string>, attempt: string -> Attempt) returns (results: seq<Report>)
    ensures results == Reports(files, attempt)
  {
    results := [];
    for i := 0 to |files|
      invariant results == Reports(files[..i], attempt)
    {
      var f := files[i];
      assert files[..i + 1][..i] == files[..i];
      var a := attempt(f);
      if a.Missing? {
        continue;
      }
      if a.Raised? {
        results := results + [Report(f, Error)];
      } else if !a.isGif && !a.hasError {
        results := results + [Report(f, Optimized)];
      } else {
        results := results + [Report(f, if a.isGif then Skipped else Error)];
      }
    }
    assert files[..|files|] == files;
  }

  lemma OptimizedIff(a: Attempt)
    ensures Classify(a) == Some(Optimized) <==> a.Returned? && !a.isGif && !a.hasError
  {
  }

  lemma SkippedIff(a: Attempt)
    ensures Classify(a) == Some(Skipped) <==> a.Returned? && a.isGif
  {
  }

  lemma ErrorIff(a: Attempt)
    ensures Classify(a) == Some(Error) <==> a.Raised? || (a.Returned? && !a.isGif && a.hasError)
  {
  }

  /** The files of the report, in order, are the files that exist. */
  function Existing(files: seq<string>, attempt: string -> Attempt): seq<string>
    decreases |files|
  {
    if files == [] then []
    else if attempt(files[0]).Missing? then Existing(files[1..], attempt)
    else [files[0]] + Existing(files[1..], attempt)
  }

  function FilesOf(rs: seq<Report>): seq<string> {
    seq(|rs|, k requires 0 <= k < |rs| => rs[k].file)
  }

  lemma {:induction false} ReportsFiles(files: seq<string>, attempt: string -> Attempt)
    ensures FilesOf(Reports(files, attempt)) == Existing(files, attempt)
    decreases |files|
  {
    if files != [] {
      var n := |files| - 1;
      var front := files[..n];
      ReportsFiles(front, attempt);
      ExistingSnoc(front, files[n], attempt);
      assert front + [files[n]] == files;
    }
  }

  lemma {:induction false} ExistingSnoc(front: seq<string>, f: string, attempt: string -> Attempt)
    ensures Existing(front + [f], attempt)
      == Existing(front, attempt) + (if attempt(f).Missing? then [] else [f])
    decreases |front|
  {
    if front == [] {
      assert [] + [f] == [f];
    } else {
      assert (front + [f])[1..] == front[1..] + [f];
      ExistingSnoc(front[1..], f, attempt);
    }
  }

  /** How many entries have status `st`. */
  function CountStatus(rs: seq<Report>, st: Status): nat
    decreases |rs|
  {
    if rs == [] then 0
    else (if rs[0].status == st then 1 else 0) + CountStatus(rs[1..], st)
  }

  /** The summary counts of optimised, skipped and failed files add up to
      the number of entries. */
  lemma {:induction false} SummaryAddsUp(rs: seq<Report>)
    ensures CountStatus(rs, Optimized) + CountStatus(rs, Skipped) + CountStatus(rs, Error) == |rs|
    decreases |rs|
  {
    if rs != [] {
      SummaryAddsUp(rs[1..]);
    }
  }
}

/** Character classes and the handful of Python string primitives the passes
    are built from (`strip`, `split`, `join`, `lower`, `str.replace`, `int`),
    restricted to ASCII. */
module Text {
  import opened Wrappers

  /** Python's whitespace (`str.isspace`, regex `\s`, `str.split()`), ASCII part. */
  const Whitespace: set<char> :=
    {' ', '\t', '\n', '\r', '\U{000B}', '\U{000C}', '\U{001C}', '\U{001D}', '\U{001E}', '\U{001F}'}

  predicate IsSpace(c: char) { c in Whitespace }
  predicate IsDigit(c: char) { '0' <= c <= '9' }
  predicate IsLetter(c: char) { 'a' <= c <= 'z' || 'A' <= c <= 'Z' }

  /** Regex `\w`, ASCII part. */
  predicate IsWord(c: char) { IsLetter(c) || IsDigit(c) || c == '_' }

  function Lower(c: char): char {
    if 'A' <= c <= 'Z' then (c as int + 32) as char else c
  }

  function Upper(c: char): char {
    if 'a' <= c <= 'z' then (c as int - 32) as char else c
  }

  /** `str.lower()` */
  function LowerStr(s: string): (r: string)
    ensures |r| == |s| && forall i :: 0 <= i < |s| ==> r[i] == Lower(s[i])
  {
    seq(|s|, i requires 0 <= i < |s| => Lower(s[i]))
  }

  predicate AllIn(s: string, cs: set<char>) {
    forall i :: 0 <= i < |s| ==> s[i] in cs
  }

  /** `p in s` */
  predicate Contains(s: string, p: string)
    decreases |s|
  {
    p <= s || (|s| > 0 && Contains(s[1..], p))
  }

  lemma {:induction false} ContainsAt(s: string, p: string, k: nat)
    requires k + |p| <= |s| && s[k..k + |p|] == p
    ensures Contains(s, p)
    decreases k
  {
    if k > 0 {
      assert s[1..][k - 1..k - 1 + |p|] == s[k..k + |p|];
      ContainsAt(s[1..], p, k - 1);
    }
  }

  lemma {:induction false} ContainsAppend(a: string, b: string, p: string)
    requires Contains(a, p)
    ensures Contains(a + b, p)
    decreases |a|
  {
    if p <= a {
      assert (a + b)[..|p|] == a[..|p|];
    } else {
      assert (a + b)[1..] == a[1..] + b;
      ContainsAppend(a[1..], b, p);
    }
  }

  lemma {:induction false} ContainsPrepend(a: string, b: string, p: string)
    requires Contains(b, p)
    ensures Contains(a + b, p)
    decreases |a|
  {
    var s := a + b;
    if |a| > 0 {
      assert s[1..] == a[1..] + b;
      ContainsPrepend(a[1..], b, p);
      assert |s| > 0 && Contains(s[1..], p);
    } else {
      assert s == b;
    }
  }

  /** A pattern longer than the text does not occur in it. */
  lemma {:induction false} ContainsLonger(s: string, p: string)
    requires |s| < |p|
    ensures !Contains(s, p)
    decreases |s|
  {
    if |s| > 0 {
      ContainsLonger(s[1..], p);
    }
  }

  /** A pattern whose first character is absent does not occur. */
  lemma {:induction false} NotContainsHead(s: string, p: string)
    requires |p| > 0 && p[0] !in s
    ensures !Contains(s, p)
    decreases |s|
  {
    if |s| > 0 {
      assert s[0] != p[0];
      assert forall c :: c in s[1..] ==> c in s;
      NotContainsHead(s[1..], p);
    }
  }

  /** Every character of the occurrence is a character of `s`. */
  lemma {:induction false} ContainsChars(s: string, p: string)
    requires Contains(s, p)
    ensures forall i :: 0 <= i < |p| ==> p[i] in s
    decreases |s|
  {
    if !(p <= s) {
      ContainsChars(s[1..], p);
    }
  }

  /** No occurrence in a suffix of a text without one. */
  lemma {:induction false} NotContainsDrop(s: string, p: string, k: nat)
    requires k <= |s| && !Contains(s, p)
    ensures !Contains(s[k..], p)
    decreases k
  {
    if k > 0 {
      NotContainsDrop(s, p, k - 1);
      assert s[k - 1..][1..] == s[k..];
    }
  }

  /** An occurrence in `x + y` starts inside `x` or lies within `y`. */
  lemma {:induction false} NotContainsConcat(x: string, y: string, p: string)
    requires !Contains(y, p)
    requires forall k :: 0 <= k < |x| ==> !(p <= (x + y)[k..])
    ensures !Contains(x + y, p)
    decreases |x|
  {
    var s := x + y;
    if |x| > 0 {
      assert s[1..] == x[1..] + y;
      forall k | 0 <= k < |x| - 1
        ensures !(p <= (x[1..] + y)[k..])
      {
        assert (x[1..] + y)[k..] == s[k + 1..];
      }
      NotContainsConcat(x[1..], y, p);
      assert s[0..] == s;
    } else {
      assert s == y;
    }
  }

  /** Index of the first `c` in `s` (`s.index(c)`). */
  function IndexOf(s: string, c: char): (k: nat)
    requires c in s
    ensures k < |s| && s[k] == c && c !in s[..k]
  {
    if s[0] == c then 0 else
      var k := IndexOf(s[1..], c);
      assert s[..k + 1] == [s[0]] + s[1..][..k];
      k + 1
  }

  lemma {:induction false} IndexOfAt(s: string, c: char, k: nat)
    requires k < |s| && s[k] == c && c !in s[..k]
    ensures IndexOf(s, c) == k
  {
    var j := IndexOf(s, c);
    assert forall m :: 0 <= m < k ==> s[..k][m] == s[m];
    assert forall m :: 0 <= m < j ==> s[..j][m] == s[m];
  }

  /** The first `c` comes no later than any `c`. */
  lemma {:induction false} IndexOfBefore(s: string, c: char, k: nat)
    requires k < |s| && s[k] == c
    ensures IndexOf(s, c) <= k
    decreases k
  {
    if s[0] != c {
      IndexOfBefore(s[1..], c, k - 1);
    }
  }

  /** First index `k >= i` where `p` occurs in `s` (`s.find(p, i)`). */
  function FindFrom(s: string, p: string, i: nat): (r: Option<nat>)
    requires i <= |s|
    ensures r.Some? ==> i <= r.value && r.value + |p| <= |s| && s[r.value..r.value + |p|] == p
    ensures r.Some? ==> forall k :: i <= k < r.value ==> !(p <= s[k..])
    ensures r.None? ==> forall k :: i <= k <= |s| ==> !(p <= s[k..])
    decreases |s| - i
  {
    if p <= s[i..] then Some(i)
    else if i == |s| then None
    else FindFrom(s, p, i + 1)
  }

  /** Python's `s.replace(p, r)`: leftmost, non-overlapping, and for an empty
      `p` the replacement goes before every character and at the end. */
  function ReplaceAll(s: string, p: string, r: string): string
    decreases |s|
  {
    if |p| == 0 then (if s == [] then r else r + [s[0]] + ReplaceAll(s[1..], p, r))
    else if |s| < |p| then s
    else if p <= s then r + ReplaceAll(s[|p|..], p, r)
    else [s[0]] + ReplaceAll(s[1..], p, r)
  }

  /** A text that does not contain the pattern comes back unchanged. */
  lemma {:induction false} ReplaceAbsent(s: string, p: string, r: string)
    requires |p| > 0 && !Contains(s, p)
    ensures ReplaceAll(s, p, r) == s
    decreases |s|
  {
    if |s| >= |p| {
      ReplaceAbsent(s[1..], p, r);
    }
  }

  /** A text that starts with the pattern starts with the replacement. */
  lemma {:induction false} ReplaceHead(t: string, p: string, r: string)
    requires |p| > 0
    ensures ReplaceAll(p + t, p, r) == r + ReplaceAll(t, p, r)
  {
    assert p <= p + t && (p + t)[|p|..] == t;
  }

  /** A prefix that cannot start the pattern is copied through. */
  lemma {:induction false} ReplaceSkip(x: string, t: string, p: string, r: string)
    requires |p| > 0 && p[0] !in x
    ensures ReplaceAll(x + t, p, r) == x + ReplaceAll(t, p, r)
    decreases |x|
  {
    if |x| > 0 {
      var s := x + t;
      assert s[0] == x[0] != p[0];
      assert !(p <= s);
      assert s[1..] == x[1..] + t;
      ReplaceSkip(x[1..], t, p, r);
      if |s| < |p| {
        ReplaceAbsentShort(t, p, r);
      } else {
        assert ReplaceAll(s, p, r) == [x[0]] + ReplaceAll(x[1..] + t, p, r);
        assert x == [x[0]] + x[1..];
      }
    } else {
      assert x + t == t;
    }
  }

  /** A word that does not start the pattern, and holds its first character
      only at its own start, is copied through. */
  lemma {:induction false} ReplacePassesWord(w: string, t: string, p: string, r: string)
    requires |p| > 0 && |w| > 0 && p[0] !in w[1..] && !(p <= w + t)
    ensures ReplaceAll(w + t, p, r) == w + ReplaceAll(t, p, r)
  {
    var s := w + t;
    if |s| < |p| {
      ReplaceAbsentShort(t, p, r);
    } else {
      var u := w[1..];
      assert s[1..] == u + t;
      ReplaceSkip(u, t, p, r);
      var rt := ReplaceAll(t, p, r);
      calc {
        ReplaceAll(s, p, r);
        [s[0]] + ReplaceAll(u + t, p, r);
        [w[0]] + (u + rt);
        { assert [w[0]] + u == w; }
        w + rt;
      }
    }
  }

  /** The same word after a prefix without the pattern's first character. */
  lemma {:induction false} ReplacePassesWordAfter(x: string, w: string, t: string, p: string, r: string)
    requires |p| > 0 && p[0] !in x && |w| > 0 && p[0] !in w[1..] && !(p <= w + t)
    ensures ReplaceAll(x + w + t, p, r) == x + w + ReplaceAll(t, p, r)
  {
    var wt := w + t;
    var rt := ReplaceAll(t, p, r);
    assert x + w + t == x + wt;
    assert x + (w + rt) == x + w + rt;
    ReplaceSkip(x, wt, p, r);
    ReplacePassesWord(w, t, p, r);
  }

  /** The pattern after a prefix without its first character is replaced. */
  lemma {:induction false} ReplacesWord(x: string, t: string, p: string, r: string)
    requires |p| > 0 && p[0] !in x
    ensures ReplaceAll(x + p + t, p, r) == x + r + ReplaceAll(t, p, r)
  {
    ReplaceSkip(x, p + t, p, r);
    assert x + p + t == x + (p + t);
    assert (p + t)[|p|..] == t;
  }

  /** When every replacement starts with `m`, an `m`-free prefix of the
      output is copied from the input. */
  lemma {:induction false} ReplaceKeepsPrefix(t: string, p: string, r: string, m: char, n: nat)
    requires |p| > 0 && |r| > 0 && r[0] == m
    requires n <= |ReplaceAll(t, p, r)| && m !in ReplaceAll(t, p, r)[..n]
    ensures n <= |t| && ReplaceAll(t, p, r)[..n] == t[..n]
    decreases |t|
  {
    var o := ReplaceAll(t, p, r);
    ReplacementFirst(t, p, r, n);
    if n > 0 && |t| >= |p| && !(p <= t) {
      var o1 := ReplaceAll(t[1..], p, r);
      assert o == [t[0]] + o1;
      assert o1[..n - 1] == o[..n][1..];
      ReplaceKeepsPrefix(t[1..], p, r, m, n - 1);
      assert o[..n] == [t[0]] + o1[..n - 1];
    }
  }

  /** Where the input starts with the pattern, the output starts with the replacement. */
  lemma {:induction false} ReplacementFirst(t: string, p: string, r: string, n: nat)
    requires |p| > 0 && |r| > 0
    ensures |t| >= |p| && p <= t && 0 < n <= |ReplaceAll(t, p, r)| ==> r[0] in ReplaceAll(t, p, r)[..n]
  {
    var o := ReplaceAll(t, p, r);
    if |t| >= |p| && p <= t && 0 < n <= |o| {
      assert o[..n][0] == r[0];
    }
  }

  /** Replacing `p` by `r` leaves no occurrence of the tag `q` when `q` and
      `r` both open with `m` and hold no other `m`, `r` does not hold `q`,
      and `q` is either the pattern itself or absent from the input. */
  lemma {:induction false} ReplaceClean(s: string, p: string, r: string, q: string, m: char)
    requires |p| > 0 && |q| > 1 && q[0] == m && m !in q[1..]
    requires |r| >= |q| && r[0] == m && m !in r[1..] && !Contains(r, q)
    requires q == p || !Contains(s, q)
    ensures !Contains(ReplaceAll(s, p, r), q)
    decreases |s|
  {
    if |s| < |p| {
      if q == p {
        ContainsLonger(s, q);
      }
    } else if p <= s {
      var rest := ReplaceAll(s[|p|..], p, r);
      if q != p {
        NotContainsDrop(s, q, |p|);
      }
      ReplaceClean(s[|p|..], p, r, q, m);
      ReplacementOpens(r, rest, q, m);
      NotContainsConcat(r, rest, q);
    } else {
      var rest := ReplaceAll(s[1..], p, r);
      ReplaceClean(s[1..], p, r, q, m);
      CopiedOpens(s, p, r, q, m);
      assert [s[0]] + rest == ReplaceAll(s, p, r);
      NotContainsConcat([s[0]], rest, q);
    }
  }

  /** Inside a replacement the tag can only start at its first character,
      and there it would lie inside the replacement. */
  lemma {:induction false} ReplacementOpens(r: string, rest: string, q: string, m: char)
    requires |q| > 0 && q[0] == m && |r| >= |q| && r[0] == m && m !in r[1..] && !Contains(r, q)
    ensures forall k :: 0 <= k < |r| ==> !(q <= (r + rest)[k..])
  {
    forall k | 0 <= k < |r|
      ensures !(q <= (r + rest)[k..])
    {
      if k == 0 {
        assert (r + rest)[k..][..|q|] == r[..|q|];
      } else {
        assert (r + rest)[k..][0] == r[k] != m;
      }
    }
  }

  /** A tag starting at a copied character was already in the input. */
  lemma {:induction false} CopiedOpens(s: string, p: string, r: string, q: string, m: char)
    requires |s| > 0 && |p| > 0 && |q| > 1 && q[0] == m && m !in q[1..] && |r| > 0 && r[0] == m
    ensures q <= [s[0]] + ReplaceAll(s[1..], p, r) ==> q <= s
  {
    var rest := ReplaceAll(s[1..], p, r);
    if q <= [s[0]] + rest {
      assert rest[..|q| - 1] == q[1..];
      ReplaceKeepsPrefix(s[1..], p, r, m, |q| - 1);
      assert s[..|q|] == [s[0]] + s[1..][..|q| - 1];
    }
  }

  lemma {:induction false} ReplaceAbsentShort(t: string, p: string, r: string)
    requires 0 < |p| && |t| < |p|
    ensures ReplaceAll(t, p, r) == t
  {
  }

  /** A text with none of the characters in `cs` (all whitespace by default). */
  function TrimStartIn(s: string, cs: set<char>): (r: string)
    ensures |r| <= |s| && r == s[|s| - |r|..]
    ensures forall k :: 0 <= k < |s| - |r| ==> s[k] in cs
    ensures |r| > 0 ==> r[0] !in cs
    decreases |s|
  {
    if |s| > 0 && s[0] in cs then TrimStartIn(s[1..], cs) else s
  }

  function TrimEndIn(s: string, cs: set<char>): (r: string)
    ensures |r| <= |s| && r == s[..|r|]
    ensures forall k :: |r| <= k < |s| ==> s[k] in cs
    ensures |r| > 0 ==> r[|r| - 1] !in cs
    decreases |s|
  {
    if |s| > 0 && s[|s| - 1] in cs then TrimEndIn(s[..|s| - 1], cs) else s
  }

  /** `s.strip(chars)` */
  function StripIn(s: string, cs: set<char>): string {
    TrimEndIn(TrimStartIn(s, cs), cs)
  }

  /** `s.strip()` */
  function Strip(s: string): string {
    StripIn(s, Whitespace)
  }

  /** End of the run of non-whitespace characters starting at `i`. */
  function WordEnd(s: string, i: nat): (j: nat)
    requires i <= |s|
    ensures i <= j <= |s|
    ensures forall k :: i <= k < j ==> !IsSpace(s[k])
    ensures j < |s| ==> IsSpace(s[j])
    decreases |s| - i
  {
    if i == |s| || IsSpace(s[i]) then i else WordEnd(s, i + 1)
  }

  /** Length of the longest prefix of `s` made of characters in `cs`
      (a greedy `[...]*`). */
  function SpanLen(s: string, cs: set<char>): (n: nat)
    ensures n <= |s|
    ensures forall k :: 0 <= k < n ==> s[k] in cs
    ensures n < |s| ==> s[n] !in cs
    decreases |s|
  {
    if |s| > 0 && s[0] in cs then 1 + SpanLen(s[1..], cs) else 0
  }

  /** Length of the longest prefix of `s` with no character in `stop`
      (a greedy `[^...]*`). */
  function BreakLen(s: string, stop: set<char>): (n: nat)
    ensures n <= |s|
    ensures forall k :: 0 <= k < n ==> s[k] !in stop
    ensures n < |s| ==> s[n] in stop
    decreases |s|
  {
    if |s| > 0 && s[0] !in stop then 1 + BreakLen(s[1..], stop) else 0
  }

  /** A run known to stop at `n` is the run `BreakLen` finds. */
  lemma {:induction false} BreakLenAt(s: string, stop: set<char>, n: nat)
    requires n <= |s|
    requires forall k :: 0 <= k < n ==> s[k] !in stop
    requires n < |s| ==> s[n] in stop
    ensures BreakLen(s, stop) == n
    decreases n
  {
    if n > 0 {
      BreakLenAt(s[1..], stop, n - 1);
    }
  }

  lemma {:induction false} SpanLenAt(s: string, cs: set<char>, n: nat)
    requires n <= |s|
    requires forall k :: 0 <= k < n ==> s[k] in cs
    requires n < |s| ==> s[n] !in cs
    ensures SpanLen(s, cs) == n
    decreases n
  {
    if n > 0 {
      SpanLenAt(s[1..], cs, n - 1);
    }
  }

  /** `s.split()`: the maximal runs of non-whitespace characters. */
  function Words(s: string): (ws: seq<string>)
    ensures forall i :: 0 <= i < |ws| ==> |ws[i]| > 0
    ensures forall i, k :: 0 <= i < |ws| && 0 <= k < |ws[i]| ==> !IsSpace(ws[i][k])
    decreases |s|
  {
    if s == [] then []
    else if IsSpace(s[0]) then Words(s[1..])
    else
      var j := WordEnd(s, 0);
      [s[..j]] + Words(s[j..])
  }

  /** The first word of `split()` ends at the first whitespace. */
  lemma {:induction false} WordsStep(s: string, j: nat)
    requires 0 < j <= |s|
    requires forall k :: 0 <= k < j ==> !IsSpace(s[k])
    requires j < |s| ==> IsSpace(s[j])
    ensures Words(s) == [s[..j]] + Words(s[j..])
  {
    WordEndAt(s, 0, j);
  }

  lemma {:induction false} WordsSkip(s: string)
    requires |s| > 0 && IsSpace(s[0])
    ensures Words(s) == Words(s[1..])
  {
  }

  /** A text without whitespace is one word. */
  lemma {:induction false} WordsOne(b: string)
    requires |b| > 0 && forall k :: 0 <= k < |b| ==> !IsSpace(b[k])
    ensures Words(b) == [b]
  {
    WordsStep(b, |b|);
    assert b[..|b|] == b;
    assert b[|b|..] == [];
  }

  /** `(a + " " + b).split() == [a, b]` for words `a` and `b`. */
  lemma {:induction false} WordsTwo(a: string, b: string)
    requires |a| > 0 && forall k :: 0 <= k < |a| ==> !IsSpace(a[k])
    requires |b| > 0 && forall k :: 0 <= k < |b| ==> !IsSpace(b[k])
    ensures Words(a + " " + b) == [a, b]
  {
    var s := a + " " + b;
    WordsStep(s, |a|);
    assert s[..|a|] == a;
    var rest := s[|a|..];
    assert rest == " " + b;
    WordsSkip(rest);
    assert rest[1..] == b;
    WordsOne(b);
  }

  /** `s.split(c)` for a one-character separator. */
  function SplitOn(s: string, c: char): (parts: seq<string>)
    ensures |parts| > 0
    ensures forall i :: 0 <= i < |parts| ==> c !in parts[i]
    decreases |s|
  {
    if c !in s then [s]
    else
      var k := IndexOf(s, c);
      [s[..k]] + SplitOn(s[k + 1..], c)
  }

  /** One step of `split(c)`: the text before the first separator, then
      the split of the rest. */
  lemma {:induction false} SplitOnAt(s: string, c: char, k: nat)
    requires k < |s| && s[k] == c && c !in s[..k]
    ensures SplitOn(s, c) == [s[..k]] + SplitOn(s[k + 1..], c)
  {
    IndexOfAt(s, c, k);
  }

  /** The end of a word found from where it is known to stop. */
  lemma {:induction false} WordEndAt(s: string, i: nat, j: nat)
    requires i <= j <= |s|
    requires forall k :: i <= k < j ==> !IsSpace(s[k])
    requires j < |s| ==> IsSpace(s[j])
    ensures WordEnd(s, i) == j
    decreases j - i
  {
    if i < j {
      WordEndAt(s, i + 1, j);
    }
  }

  /** `sep.join(parts)` */
  function Join(parts: seq<string>, sep: string): string
    decreases |parts|
  {
    if |parts| == 0 then ""
    else if |parts| == 1 then parts[0]
    else parts[0] + sep + Join(parts[1..], sep)
  }

  function Concat(parts: seq<string>): string
    decreases |parts|
  {
    if |parts| == 0 then "" else parts[0] + Concat(parts[1..])
  }

  /** Splitting on a character and joining with it gives the text back. */
  lemma {:induction false} JoinSplitOn(s: string, c: char)
    ensures Join(SplitOn(s, c), [c]) == s
    decreases |s|
  {
    if c in s {
      var k := IndexOf(s, c);
      JoinSplitOn(s[k + 1..], c);
      assert s == s[..k] + [c] + s[k + 1..];
    }
  }

  /** A character in neither the parts nor the separator is not in the join. */
  lemma {:induction false} JoinExcludes(parts: seq<string>, sep: string, c: char)
    requires c !in sep && forall i :: 0 <= i < |parts| ==> c !in parts[i]
    ensures c !in Join(parts, sep)
    decreases |parts|
  {
    if |parts| > 1 {
      JoinExcludes(parts[1..], sep, c);
    }
  }

  lemma {:induction false} JoinSnoc(parts: seq<string>, last: string, sep: string)
    requires |parts| > 0
    ensures Join(parts + [last], sep) == Join(parts, sep) + sep + last
    decreases |parts|
  {
    if |parts| > 1 {
      assert (parts + [last])[1..] == parts[1..] + [last];
      JoinSnoc(parts[1..], last, sep);
    }
  }

  lemma {:induction false} ConcatSnoc(parts: seq<string>, last: string)
    ensures Concat(parts + [last]) == Concat(parts) + last
    decreases |parts|
  {
    if |parts| > 0 {
      assert (parts + [last])[1..] == parts[1..] + [last];
      ConcatSnoc(parts[1..], last);
    }
  }

  /** The value of a digit character. */
  function DigitValue(c: char): int {
    c as int - '0' as int
  }

  function DigitChar(d: nat): char
    requires d < 10
  {
    ('0' as int + d) as char
  }

  /** `str(n)` for a non-negative integer. */
  function IntToString(n: nat): (r: string)
    ensures |r| > 0 && forall i :: 0 <= i < |r| ==> IsDigit(r[i])
    decreases n
  {
    if n < 10 then [DigitChar(n)] else IntToString(n / 10) + [DigitChar(n % 10)]
  }

  /** Digits with single underscores between them: what Python's `int()`
      accepts after the sign. */
  predicate IsDecimal(s: string) {
    && |s| > 0 && IsDigit(s[0]) && IsDigit(s[|s| - 1])
    && (forall i :: 0 <= i < |s| ==> IsDigit(s[i]) || s[i] == '_')
    && (forall i :: 0 <= i < |s| - 1 ==> !DoubleUnderscoreAt(s, i))
  }

  predicate DoubleUnderscoreAt(s: string, i: nat)
    requires i + 1 < |s|
  {
    s[i] == '_' && s[i + 1] == '_'
  }

  function DecimalValue(s: string): nat
    decreases |s|
  {
    if s == [] then 0
    else if IsDigit(s[|s| - 1]) then DecimalValue(s[..|s| - 1]) * 10 + (s[|s| - 1] as int - '0' as int)
    else DecimalValue(s[..|s| - 1])
  }

  /** Python's `int(s)` in base 10 on ASCII text: surrounding whitespace, an
      optional sign, then digits with single underscores between them;
      `None` is the `ValueError`. */
  function PyInt(s: string): Option<int> {
    SignedDecimal(Strip(s))
  }

  /** `int()` of text without surrounding whitespace. */
  function SignedDecimal(t: string): Option<int> {
    if |t| > 0 && (t[0] == '+' || t[0] == '-') then
      var magnitude := Unsigned(t[1..]);
      if magnitude.Some? then Some(if t[0] == '-' then -(magnitude.value as int) else magnitude.value as int) else None
    else Unsigned(t)
  }

  /** The value of an unsigned decimal, `None` when it is not one. */
  function Unsigned(d: string): Option<nat> {
    if IsDecimal(d) then Some(DecimalValue(d)) else None
  }

  /** `int(d)` for one digit. */
  lemma {:induction false} PyIntDigit(c: char)
    requires IsDigit(c)
    ensures PyInt([c]) == Some(DigitValue(c))
  {
    var t := [c];
    assert !IsSpace(c);
    StripNoSpace(t);
    assert IsDecimal(t);
    assert t[..0] == [];
    assert DecimalValue(t) == DigitValue(c);
  }

  lemma {:induction false} DecimalValueOfString(n: nat)
    ensures DecimalValue(IntToString(n)) == n
    decreases n
  {
    if n >= 10 {
      var s := IntToString(n);
      assert s[..|s| - 1] == IntToString(n / 10);
      DecimalValueOfString(n / 10);
    }
  }

  lemma {:induction false} StripNoSpace(s: string)
    requires forall i :: 0 <= i < |s| ==> !IsSpace(s[i])
    ensures Strip(s) == s
  {
  }

  lemma DigitNotSpace(c: char)
    requires IsDigit(c)
    ensures !IsSpace(c)
  {
  }

  /** Text that neither starts nor ends with whitespace is its own strip. */
  lemma StripEnds(s: string)
    requires |s| > 0 && !IsSpace(s[0]) && !IsSpace(s[|s| - 1])
    ensures Strip(s) == s
  {
    assert TrimStartIn(s, Whitespace) == s;
  }

  /** `int(str(n)) == n` */
  lemma {:induction false} PyIntOfString(n: nat)
    ensures PyInt(IntToString(n)) == Some(n)
  {
    PyIntOfDigits(IntToString(n), n);
  }

  lemma {:induction false} PyIntOfDigits(s: string, n: nat)
    requires s == IntToString(n)
    ensures PyInt(s) == Some(n)
  {
    IntToStringDecimal(s, n);
    DecimalValueOfString(n);
    PyIntDecimal(s);
  }

  lemma {:induction false} IntToStringDecimal(s: string, n: nat)
    requires s == IntToString(n)
    ensures IsDecimal(s) && s[0] != '+' && s[0] != '-' && Strip(s) == s
  {
    DigitsDecimal(s);
    StripNoSpace(s);
  }

  lemma {:induction false} DigitsDecimal(s: string)
    requires |s| > 0 && forall i :: 0 <= i < |s| ==> IsDigit(s[i])
    ensures IsDecimal(s) && forall i :: 0 <= i < |s| ==> !IsSpace(s[i])
  {
    assert IsDigit(s[0]) && IsDigit(s[|s| - 1]);
    forall i | 0 <= i < |s|
      ensures !IsSpace(s[i])
    {
      assert IsDigit(s[i]);
    }
  }

  /** `int(s)` of a decimal without sign or surrounding whitespace. */
  lemma {:induction false} PyIntDecimal(s: string)
    requires IsDecimal(s) && s[0] != '+' && s[0] != '-' && Strip(s) == s
    ensures PyInt(s) == Some(DecimalValue(s))
  {
  }

  /** A text starting with `p` contains it. */
  lemma {:induction false} PrefixContains(s: string, p: string)
    ensures p <= s ==> Contains(s, p)
  {
    if p <= s {
      assert s[0..|p|] == p;
      ContainsAt(s, p, 0);
    }
  }

  /** A word that differs from `p` at some position inside both cannot
      start with `p`, whatever follows it. */
  lemma {:induction false} MismatchNotPrefix(w: string, t: string, p: string, i: nat)
    requires i < |w| && i < |p| && w[i] != p[i]
    ensures !(p <= w + t)
  {
    assert (w + t)[i] == w[i];
  }

  /** Dropping a prefix of the first part of a concatenation. */
  lemma {:induction false} DropConcat(a: string, b: string, k: nat)
    requires k <= |a|
    ensures (a + b)[k..] == a[k..] + b
  {
  }

  /** The two parts of a concatenation are its slices. */
  lemma {:induction false} ConcatParts(a: string, b: string)
    ensures (a + b)[..|a|] == a && (a + b)[|a|..] == b
  {
  }

  /** Dropping the first character of a text that starts with `h`. */
  lemma {:induction false} DropHead(h: char, t: string)
    ensures ([h] + t)[1..] == t && ([h] + t)[0] == h
  {
  }

  /** Five concatenated parts, regrouped to the right. */
  lemma {:induction false} RegroupFive(a: string, b: string, c: string, d: string, e: string)
    ensures a + b + c + d + e == a + (b + (c + (d + e)))
  {
  }

  /** Four concatenated parts, the last three grouped. */
  lemma {:induction false} RegroupFour(a: string, b: string, c: string, d: string)
    ensures a + b + c + d == a + (b + c + d)
  {
  }

  /** The last three of six concatenated parts, grouped. */
  lemma {:induction false} RegroupLastThree(a: string, b: string, c: string, d: string, e: string, f: string)
    ensures a + b + c + d + e + f == a + b + c + (d + e + f)
  {
  }

  /** A non-empty text is its first character followed by the rest. */
  lemma {:induction false} ConsConcat(x: string, t: string)
    requires x != []
    ensures [x[0]] + (x[1..] + t) == x + t
  {
    assert x == [x[0]] + x[1..];
  }

  /** The middle three of five concatenated parts, grouped. */
  lemma {:induction false} RegroupMiddle(h: string, a: string, b: string, c: string, t: string)
    ensures h + a + b + c + t == h + (a + b + c) + t
  {
  }

  /** A character absent from a concatenation is absent from each part. */
  lemma {:induction false} NotInParts(a: string, b: string, ch: char)
    requires ch !in a + b
    ensures ch !in a && ch !in b
  {
    forall i | 0 <= i < |a| ensures a[i] != ch {
      assert (a + b)[i] == a[i];
    }
    forall i | 0 <= i < |b| ensures b[i] != ch {
      assert (a + b)[|a| + i] == b[i];
    }
  }

  /** Taking a prefix of the first part of a concatenation. */
  lemma {:induction false} TakeConcat(a: string, b: string, k: nat)
    requires k <= |a|
    ensures (a + b)[..k] == a[..k]
  {
  }

  /** A slice of a suffix is a slice of the whole. */
  lemma {:induction false} SliceOfDrop(u: string, d: nat, i: nat, j: nat)
    requires i <= j && d + j <= |u|
    ensures u[d..][i..j] == u[d + i..d + j]
  {
  }

  /** A prefix cut into four consecutive slices. */
  lemma {:induction false} JoinSlices(u: string, i: nat, j: nat, k: nat, l: nat)
    requires i <= j <= k <= l <= |u|
    ensures u[..l] == u[..i] + u[i..j] + u[j..k] + u[k..l]
  {
  }

  /** A replacement at the very start of the text. */
  lemma {:induction false} ReplaceHere(p: string, y: string, r: string)
    requires |p| > 0
    ensures ReplaceAll(p + y, p, r) == r + ReplaceAll(y, p, r)
  {
    ConcatParts(p, y);
  }

  /** A text too short or free of the pattern's first character is kept. */
  lemma {:induction false} ReplaceNoHead(y: string, p: string, r: string)
    requires |p| > 0 && p[0] !in y
    ensures ReplaceAll(y, p, r) == y
  {
    ReplaceSkip(y, [], p, r);
    ReplaceAbsentShort([], p, r);
    assert y + [] == y;
  }

  /** Five concatenated parts, split after the second. */
  lemma {:induction false} RegroupAfterTwo(h: string, a: string, m: string, c: string, t: string)
    ensures h + a + m + c + t == (h + a) + (m + (c + t))
  {
  }

  /** A character absent from both parts is absent from their concatenation. */
  lemma {:induction false} NotInJoined(a: string, b: string, ch: char)
    requires ch !in a && ch !in b
    ensures ch !in a + b
  {
    forall i | 0 <= i < |a + b| ensures (a + b)[i] != ch {
      if i < |a| { assert (a + b)[i] == a[i]; } else { assert (a + b)[i] == b[i - |a|]; }
    }
  }

  /** Four parts appended to a head, regrouped. */
  lemma {:induction false} RegroupTail(h: string, a: string, b: string, c: string, d: string)
    ensures h + (a + b + c + d) == h + a + b + c + d
  {
  }

  /** The first occurrence of `p` after text free of it, when the first
      character of `p` occurs in `p` only once. */
  lemma {:induction false} FirstOccurrence(c: string, p: string, rest: string)
    requires |p| > 0 && p[0] !in p[1..] && !Contains(c, p)
    ensures FindFrom(c + p + rest, p, 0) == Some(|c|)
  {
    var s := c + p + rest;
    assert s[|c|..|c| + |p|] == p;
    forall j | 0 <= j < |c| ensures !(p <= s[j..]) {
      if j + |p| <= |c| {
        NotContainsAt(c, p, j);
        assert s[j..j + |p|] == c[j..j + |p|];
      } else {
        var d := |c| - j;
        assert 0 < d < |p|;
        assert s[j..][d] == s[|c|] == p[0];
        assert p[1..][d - 1] == p[d];
      }
    }
    FindFromAt(s, p, 0, |c|);
  }

  /** A character absent from the text is absent from every word of it. */
  lemma {:induction false} WordsExclude(s: string, c: char)
    requires c !in s
    ensures forall i :: 0 <= i < |Words(s)| ==> c !in Words(s)[i]
    decreases |s|
  {
    if s != [] {
      if IsSpace(s[0]) {
        WordsExclude(s[1..], c);
      } else {
        var j := WordEnd(s, 0);
        WordsExclude(s[j..], c);
        assert Words(s) == [s[..j]] + Words(s[j..]);
      }
    }
  }

  /** `FindFrom` at a known first occurrence. */
  lemma {:induction false} FindFromAt(s: string, p: string, i: nat, k: nat)
    requires i <= k && k + |p| <= |s| && p <= s[k..]
    requires forall j :: i <= j < k ==> !(p <= s[j..])
    ensures FindFrom(s, p, i) == Some(k)
    decreases k - i
  {
    if i < k {
      FindFromAt(s, p, i + 1, k);
    }
  }

  /** Text free of `p` has no occurrence of it at any position. */
  lemma {:induction false} NotContainsAt(c: string, p: string, j: nat)
    requires j + |p| <= |c| && !Contains(c, p)
    ensures c[j..j + |p|] != p
  {
    if c[j..j + |p|] == p {
      ContainsAt(c, p, j);
    }
  }

  const Digits: set<char> := {'0', '1', '2', '3', '4', '5', '6', '7', '8', '9'}

  predicate AllDigits(s: string) {
    forall k :: 0 <= k < |s| ==> IsDigit(s[k])
  }

  /** `s` starts with `\d{4}-\d{2}-\d{2}`. */
  predicate DashedDateAt(s: string) {
    && |s| >= 10 && AllDigits(s[..4]) && s[4] == '-'
    && AllDigits(s[5..7]) && s[7] == '-' && AllDigits(s[8..10])
  }

  /** A pattern with a character that `s` lacks does not occur in `s`. */
  lemma {:induction false} NotContainsChar(s: string, p: string, i: nat)
    requires i < |p| && p[i] !in s
    ensures !Contains(s, p)
    decreases |s|
  {
    if |s| > 0 {
      assert |s| < |p| || s[i] != p[i] || !(p <= s) by {
        if i < |s| { assert s[i] in s; }
      }
      assert forall c :: c in s[1..] ==> c in s;
      NotContainsChar(s[1..], p, i);
    }
  }

  /** A pattern that does not start at any position of `x` (nor in `y`)
      does not occur in `x + y`; `x` of length two. */
  lemma NotContainsAfterTwo(x: string, y: string, p: string)
    requires |x| == 2 && !Contains(y, p)
    requires !(p <= x + y) && !(p <= (x + y)[1..])
    ensures !Contains(x + y, p)
  {
    assert (x + y)[0..] == x + y;
    NotContainsConcat(x, y, p);
  }

  /** Text without two adjacent `c`s does not contain `cc`. */
  lemma {:induction false} NotContainsPair(s: string, c: char)
    requires forall k :: 0 <= k < |s| - 1 ==> !(s[k] == c && s[k + 1] == c)
    ensures !Contains(s, [c, c])
    decreases |s|
  {
    if |s| > 0 {
      assert !([c, c] <= s) by {
        if |s| >= 2 { assert !(s[0] == c && s[1] == c); }
      }
      forall k | 0 <= k < |s[1..]| - 1 ensures !(s[1..][k] == c && s[1..][k + 1] == c) {
        assert s[1..][k] == s[k + 1] && s[1..][k + 1] == s[k + 2];
      }
      NotContainsPair(s[1..], c);
    }
  }

  /** The first index at or after `i` whose character is in `stop`, or
      `|s|` (the end of a greedy `[^...]*` run). */
  function Break(s: string, i: nat, stop: set<char>): (j: nat)
    requires i <= |s|
    ensures i <= j <= |s| && (j < |s| ==> s[j] in stop)
    decreases |s| - i
  {
    if i == |s| || s[i] in stop then i else Break(s, i + 1, stop)
  }

  /** The first index at or after `i` whose character is not in `keep`,
      or `|s|` (the end of a greedy `[...]*` run). */
  function Span(s: string, i: nat, keep: set<char>): (j: nat)
    requires i <= |s|
    ensures i <= j <= |s| && (j < |s| ==> s[j] !in keep)
    decreases |s| - i
  {
    if i == |s| || s[i] !in keep then i else Span(s, i + 1, keep)
  }

  lemma {:induction false} BreakAt(s: string, i: nat, j: nat, stop: set<char>)
    requires i <= j <= |s| && (j < |s| ==> s[j] in stop)
    requires forall k :: i <= k < j ==> s[k] !in stop
    ensures Break(s, i, stop) == j
    decreases j - i
  {
    if i < j {
      BreakAt(s, i + 1, j, stop);
    }
  }

  lemma {:induction false} SpanAt(s: string, i: nat, j: nat, keep: set<char>)
    requires i <= j <= |s| && (j < |s| ==> s[j] !in keep)
    requires forall k :: i <= k < j ==> s[k] in keep
    ensures Span(s, i, keep) == j
    decreases j - i
  {
    if i < j {
      SpanAt(s, i + 1, j, keep);
    }
  }
}

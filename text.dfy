/**
 * The handful of Python `str` operations the scraper relies on, written out
 * over `seq<char>`: `isspace`, `strip`, `split(None, 1)`, `replace`,
 * `startswith`/`endswith`, `in` on strings, and ASCII case mapping.
 */
module Text {

  /** Python's `str.isspace()` on one character: the characters `split()` and
      `strip()` treat as whitespace (bidirectional class WS, B or S, or
      general category Zs). */
  predicate IsSpace(c: char) {
    ('\t' <= c <= '\r') || ('\U{1C}' <= c <= '\U{1F}') || c == ' ' ||
    c == '\U{85}' || c == '\U{A0}' || c == '\U{1680}' ||
    ('\U{2000}' <= c <= '\U{200A}') || c == '\U{2028}' || c == '\U{2029}' ||
    c == '\U{202F}' || c == '\U{205F}' || c == '\U{3000}'
  }

  predicate NotSpace(c: char) { !IsSpace(c) }

  predicate IsDigit(c: char) { '0' <= c <= '9' }
  predicate IsLower(c: char) { 'a' <= c <= 'z' }
  predicate IsUpper(c: char) { 'A' <= c <= 'Z' }

  /** Every character of `s` satisfies `f`. */
  predicate All(s: string, f: char -> bool) {
    forall i :: 0 <= i < |s| ==> f(s[i])
  }

  function LowerChar(c: char): char {
    if IsUpper(c) then (c as int + 32) as char else c
  }

  function UpperChar(c: char): char {
    if IsLower(c) then (c as int - 32) as char else c
  }

  /** `str.lower()` on ASCII letters. */
  function Lower(s: string): (r: string)
    ensures |r| == |s|
    ensures forall i :: 0 <= i < |s| ==> r[i] == LowerChar(s[i])
  {
    if s == [] then [] else [LowerChar(s[0])] + Lower(s[1..])
  }

  /** `str.upper()` on ASCII letters. */
  function Upper(s: string): (r: string)
    ensures |r| == |s|
    ensures forall i :: 0 <= i < |s| ==> r[i] == UpperChar(s[i])
  {
    if s == [] then [] else [UpperChar(s[0])] + Upper(s[1..])
  }

  predicate StartsWith(s: string, prefix: string) {
    |prefix| <= |s| && s[..|prefix|] == prefix
  }

  predicate EndsWith(s: string, suffix: string) {
    |suffix| <= |s| && s[|s| - |suffix|..] == suffix
  }

  /** Python's `sub in s` for strings: `sub` occurs somewhere in `s`. */
  predicate Contains(s: string, sub: string)
    decreases |s|
  {
    StartsWith(s, sub) || (s != [] && Contains(s[1..], sub))
  }

  /** Drops the characters satisfying `f` from the front of `s`. */
  function TrimStart(s: string, f: char -> bool): (r: string)
    ensures |r| <= |s|
    ensures r == [] || !f(r[0])
    ensures forall i :: 0 <= i < |s| - |r| ==> f(s[i])
  {
    if s != [] && f(s[0]) then
      var r := TrimStart(s[1..], f);
      SkipOne(s, r, f);
      r
    else s
  }

  /** Dropping one `f`-character in front of a trimmed tail. */
  lemma {:induction false} SkipOne(s: string, r: string, f: char -> bool)
    requires s != [] && f(s[0]) && |r| <= |s| - 1
    requires forall i :: 0 <= i < |s| - 1 - |r| ==> f(s[1..][i])
    ensures forall i :: 0 <= i < |s| - |r| ==> f(s[i])
  {
    forall i | 1 <= i < |s| - |r| ensures f(s[i]) {
      assert s[i] == s[1..][i - 1];
    }
  }

  /** What `TrimStart` leaves is a suffix of `s`. */
  lemma {:induction false} TrimStartSuffix(s: string, f: char -> bool)
    ensures TrimStart(s, f) == s[|s| - |TrimStart(s, f)|..]
    decreases |s|
  {
    if s != [] && f(s[0]) {
      TrimStartSuffix(s[1..], f);
      assert s[1..][|s| - 1 - |TrimStart(s, f)|..] == s[|s| - |TrimStart(s, f)|..];
    }
  }

  /** `s.strip(chars)` of a string made of `f`-characters, then a middle that
      neither starts nor ends with one, then `f`-characters: the middle. */
  lemma {:induction false} StripFrame(p: string, m: string, q: string, f: char -> bool)
    requires All(p, f) && All(q, f)
    requires m == [] || (!f(m[0]) && !f(m[|m| - 1]))
    ensures Strip(p + m + q, f) == m
  {
    assert p + m + q == p + (m + q);
    TrimStartPrefix(p, m + q, f);
    if m == [] {
      assert m + q == q + [];
      TrimStartPrefix(q, [], f);
    } else {
      assert (m + q)[0] == m[0];
    }
    TrimEndSuffix(m, q, f);
  }

  /** A prefix of `f`-characters does not survive `TrimStart`. */
  lemma {:induction false} TrimStartPrefix(w: string, a: string, f: char -> bool)
    requires All(w, f)
    ensures TrimStart(w + a, f) == TrimStart(a, f)
    decreases |w|
  {
    if w == [] {
      assert w + a == a;
    } else {
      assert (w + a)[0] == w[0] && f(w[0]);
      assert (w + a)[1..] == w[1..] + a;
      TrimStartPrefix(w[1..], a, f);
    }
  }

  /** Drops the characters satisfying `f` from the back of `s`. */
  function TrimEnd(s: string, f: char -> bool): (r: string)
    ensures |r| <= |s| && r == s[..|r|]
    ensures r == [] || !f(r[|r| - 1])
    ensures forall i :: |r| <= i < |s| ==> f(s[i])
  {
    if s != [] && f(s[|s| - 1]) then TrimEnd(s[..|s| - 1], f) else s
  }

  /** `s.strip(chars)`: trims both ends; `Strip(s, IsSpace)` is `s.strip()`.
      The result is the slice of `s` that starts `|s| - |TrimStart(s, f)|` in. */
  function Strip(s: string, f: char -> bool): (r: string)
    ensures |s| - |TrimStart(s, f)| + |r| <= |s|
    ensures r == s[|s| - |TrimStart(s, f)|..|s| - |TrimStart(s, f)| + |r|]
    ensures forall i :: 0 <= i < |s| - |TrimStart(s, f)| ==> f(s[i])
    ensures forall i :: |s| - |TrimStart(s, f)| + |r| <= i < |s| ==> f(s[i])
    ensures r == [] || (!f(r[0]) && !f(r[|r| - 1]))
  {
    var t := TrimStart(s, f);
    var r := TrimEnd(t, f);
    TrimStartSuffix(s, f);
    StripSlice(s, t, r, f);
    r
  }

  /** Trimming the back of the trimmed front leaves a slice of the original. */
  lemma {:induction false} StripSlice(s: string, t: string, r: string, f: char -> bool)
    requires |t| <= |s| && t == s[|s| - |t|..]
    requires |r| <= |t| && r == t[..|r|]
    requires forall i :: |r| <= i < |t| ==> f(t[i])
    ensures r == s[|s| - |t|..|s| - |t| + |r|]
    ensures forall i :: |s| - |t| + |r| <= i < |s| ==> f(s[i])
  {
    var d := |s| - |t|;
    forall i | 0 <= i < |r| ensures r[i] == s[d + i] {
      assert r[i] == t[i];
    }
    forall i | d + |r| <= i < |s| ensures f(s[i]) {
      assert s[i] == t[i - d];
    }
  }

  /** A string that is all `f`-characters at its end does not survive `TrimEnd`. */
  lemma {:induction false} TrimEndSuffix(a: string, w: string, f: char -> bool)
    requires a == [] || !f(a[|a| - 1])
    requires All(w, f)
    ensures TrimEnd(a + w, f) == a
    decreases |w|
  {
    if w == [] {
      assert a + w == a;
    } else {
      assert (a + w)[..|a + w| - 1] == a + w[..|w| - 1];
      TrimEndSuffix(a, w[..|w| - 1], f);
    }
  }

  /** Index of the first character satisfying `f`, or `|s|` when there is none. */
  function FirstWhere(s: string, f: char -> bool): (k: nat)
    ensures k <= |s|
    ensures k < |s| ==> f(s[k])
    ensures forall i :: 0 <= i < k ==> !f(s[i])
  {
    if s == [] || f(s[0]) then 0 else 1 + FirstWhere(s[1..], f)
  }

  /**
   * Python's `s.split(None, 1)`: leading whitespace is skipped, the first
   * whitespace-free token is cut off at the whitespace run that follows it,
   * and the rest (if any is left once that run is skipped) is the second part,
   * trailing whitespace included.
   */
  function SplitOnce(s: string): (parts: seq<string>)
    ensures |parts| <= 2
    ensures parts == [] <==> All(s, IsSpace)
    ensures forall j :: 0 <= j < |parts| ==> parts[j] != []
    ensures |parts| >= 1 ==> All(parts[0], NotSpace)
    ensures |parts| == 1 ==> parts[0] == Strip(s, IsSpace)
    ensures |parts| == 2 ==> CutAtSpaceRun(TrimStart(s, IsSpace), parts[0], parts[1])
  {
    var t := TrimStart(s, IsSpace);
    if t == [] then
      []
    else
      TrimStartSuffix(s, IsSpace);
      assert t[0] == s[|s| - |t|];
      SplitToken(t)
  }

  /** `t` is `head`, then a non-empty run of whitespace, then `rest`, which
      does not start with whitespace. */
  predicate CutAtSpaceRun(t: string, head: string, rest: string) {
    && |head| + |rest| < |t|
    && t[..|head|] == head
    && (forall i :: |head| <= i < |t| - |rest| ==> IsSpace(t[i]))
    && t[|t| - |rest|..] == rest
    && rest != [] && !IsSpace(rest[0])
  }

  /** `SplitOnce` once the leading whitespace is gone. */
  function SplitToken(t: string): (parts: seq<string>)
    requires t != [] && !IsSpace(t[0])
    ensures 1 <= |parts| <= 2
    ensures forall j :: 0 <= j < |parts| ==> parts[j] != []
    ensures All(parts[0], NotSpace)
    ensures |parts| == 1 ==> parts[0] == TrimEnd(t, IsSpace)
    ensures |parts| == 2 ==> CutAtSpaceRun(t, parts[0], parts[1])
  {
    var k := FirstWhere(t, IsSpace);
    var rest := TrimStart(t[k..], IsSpace);
    var parts := if rest == [] then [t[..k]] else [t[..k], rest];
    SplitFacts(t, k, rest, parts);
    parts
  }

  /** The token ends at the first whitespace; what follows the run after it
      is the rest, and when nothing follows, the token is the trimmed text. */
  lemma {:induction false} SplitFacts(t: string, k: nat, rest: string, parts: seq<string>)
    requires t != [] && !IsSpace(t[0]) && k == FirstWhere(t, IsSpace)
    requires rest == TrimStart(t[k..], IsSpace)
    requires parts == if rest == [] then [t[..k]] else [t[..k], rest]
    ensures 1 <= |parts| <= 2
    ensures forall j :: 0 <= j < |parts| ==> parts[j] != []
    ensures All(parts[0], NotSpace)
    ensures |parts| == 1 ==> parts[0] == TrimEnd(t, IsSpace)
    ensures |parts| == 2 ==> CutAtSpaceRun(t, parts[0], parts[1])
  {
    SplitHead(t, k);
    if rest == [] {
      SplitWhole(t, k);
    } else {
      SplitRest(t, k, rest);
    }
    SplitParts(t, t[..k], rest, TrimEnd(t, IsSpace), parts);
  }

  lemma {:induction false} SplitParts(t: string, head: string, rest: string, trimmed: string, parts: seq<string>)
    requires head != [] && All(head, NotSpace)
    requires rest == [] ==> head == trimmed
    requires rest != [] ==> CutAtSpaceRun(t, head, rest)
    requires parts == if rest == [] then [head] else [head, rest]
    ensures 1 <= |parts| <= 2
    ensures forall j :: 0 <= j < |parts| ==> parts[j] != []
    ensures All(parts[0], NotSpace)
    ensures |parts| == 1 ==> parts[0] == trimmed
    ensures |parts| == 2 ==> CutAtSpaceRun(t, parts[0], parts[1])
  {
  }

  lemma {:induction false} SplitHead(t: string, k: nat)
    requires t != [] && !IsSpace(t[0]) && k == FirstWhere(t, IsSpace)
    ensures 0 < k && t[..k] != [] && All(t[..k], NotSpace)
  {
  }

  lemma {:induction false} SplitWhole(t: string, k: nat)
    requires 0 < k <= |t| && All(t[..k], NotSpace)
    requires TrimStart(t[k..], IsSpace) == []
    ensures TrimEnd(t, IsSpace) == t[..k]
  {
    var head, tail := t[..k], t[k..];
    assert NotSpace(head[k - 1]);
    assert All(tail, IsSpace);
    Cut(t, k);
    TrimEndSuffix(head, tail, IsSpace);
  }

  lemma {:induction false} SplitRest(t: string, k: nat, rest: string)
    requires k <= |t| && (k < |t| ==> IsSpace(t[k]))
    requires rest == TrimStart(t[k..], IsSpace) && rest != []
    ensures CutAtSpaceRun(t, t[..k], rest)
  {
    var u := t[k..];
    TrimStartSuffix(u, IsSpace);
    assert IsSpace(u[0]);
    forall i | k <= i < |t| - |rest| ensures IsSpace(t[i]) {
      assert t[i] == u[i - k];
    }
    assert t[|t| - |rest|..] == rest;
  }

  /** `sep.join(parts)`. */
  function Join(parts: seq<string>, sep: string): string {
    if parts == [] then []
    else if |parts| == 1 then parts[0]
    else parts[0] + sep + Join(parts[1..], sep)
  }

  lemma {:induction false} Cut<T>(s: seq<T>, k: nat)
    requires k <= |s|
    ensures s == s[..k] + s[k..]
  {
  }

  /**
   * Python's `s.replace(pat, rep)`: every non-overlapping occurrence of `pat`,
   * scanning left to right, is replaced by `rep`.
   */
  function Replace(s: string, pat: string, rep: string): (r: string)
    requires pat != []
    decreases |s|
  {
    if s == [] then []
    else if StartsWith(s, pat) then rep + Replace(s[|pat|..], pat, rep)
    else [s[0]] + Replace(s[1..], pat, rep)
  }

  /** `Replace` brings in no character that neither the replacement nor the
      string held, and it removes every occurrence of a one-character pattern. */
  lemma {:induction false} ReplaceNoChar(s: string, pat: string, rep: string, c: char)
    requires pat != [] && c !in rep
    requires c !in s || pat == [c]
    ensures c !in Replace(s, pat, rep)
    decreases |s|
  {
    if s != [] {
      if StartsWith(s, pat) {
        assert c !in s ==> c !in s[|pat|..];
        ReplaceNoChar(s[|pat|..], pat, rep, c);
      } else {
        assert pat == [c] ==> s[0] != c;
        assert c !in s ==> c !in s[1..];
        ReplaceNoChar(s[1..], pat, rep, c);
      }
    }
  }

  /** A character that `s` does not hold does not occur in `s` as a substring. */
  lemma {:induction false} NoCharNotContained(s: string, c: char)
    requires c !in s
    ensures !Contains(s, [c])
    decreases |s|
  {
    if s != [] {
      assert s[0] != c && c !in s[1..];
      NoCharNotContained(s[1..], c);
    }
  }

  /** With nothing to replace, `Replace` leaves the string as it is. */
  lemma {:induction false} ReplaceAbsent(s: string, pat: string, rep: string)
    requires pat != []
    requires !Contains(s, pat)
    ensures Replace(s, pat, rep) == s
    decreases |s|
  {
    if s != [] {
      ReplaceAbsent(s[1..], pat, rep);
    }
  }
}

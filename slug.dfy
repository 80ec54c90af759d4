/**
 * `slugify` (scripts/scrape.py): a display name becomes a URL-safe
 * identifier. After Unicode NFD normalisation, which the deputy parser
 * passes in as a function, the text is reduced to ASCII, lower-cased, every
 * run of characters outside `a-z0-9` becomes one `-`, and dashes are trimmed
 * from both ends.
 */
module Slug {
  import opened Text

  /** The characters `[a-z0-9]` that survive into a slug unchanged. */
  predicate IsAlnum(c: char) { IsLower(c) || IsDigit(c) }

  predicate NotAlnum(c: char) { !IsAlnum(c) }

  predicate IsDash(c: char) { c == '-' }

  /** `text.encode("ascii", "ignore").decode("ascii")`: non-ASCII characters vanish. */
  function AsciiOnly(s: string): (r: string)
    ensures forall i :: 0 <= i < |r| ==> (r[i] as int) < 128
    ensures |r| <= |s|
  {
    if s == [] then []
    else (if (s[0] as int) < 128 then [s[0]] else []) + AsciiOnly(s[1..])
  }

  /** The letters and digits of `s`, in order: what a slug keeps of a name. */
  function Alnums(s: string): string {
    if s == [] then [] else (if IsAlnum(s[0]) then [s[0]] else []) + Alnums(s[1..])
  }

  /** `re.sub(r"[^a-z0-9]+", "-", s)`: each maximal run of other characters becomes one dash. */
  function Collapse(s: string): (r: string)
    ensures All(r, IsSlugChar)
    ensures NoDoubleDash(r)
    ensures (s == [] || IsAlnum(s[0])) ==> (r == [] || IsAlnum(r[0]))
    ensures Alnums(r) == Alnums(s)
    decreases |s|
  {
    if s == [] then []
    else if IsAlnum(s[0]) then
      var r := [s[0]] + Collapse(s[1..]);
      AlnumsCons(s[0], s[1..]);
      AlnumsCons(s[0], Collapse(s[1..]));
      r
    else
      var rest := SkipOthers(s);
      SkipRun(s, rest);
      var r := "-" + Collapse(rest);
      AlnumsCons('-', Collapse(rest));
      r
  }

  /** `s` less its leading run of characters outside `[a-z0-9]`. */
  function SkipOthers(s: string): (r: string)
    ensures |r| <= |s|
  {
    if s != [] && NotAlnum(s[0]) then SkipOthers(s[1..]) else s
  }

  /** `s` less its leading run of letters and digits. */
  function SkipWord(s: string): (r: string)
    ensures |r| <= |s|
  {
    if s != [] && IsAlnum(s[0]) then SkipWord(s[1..]) else s
  }

  /** `SkipOthers` leaves the suffix that starts with a letter or digit, after a run of other characters. */
  lemma {:induction false} SkipOthersFacts(s: string)
    ensures SkipOthers(s) == s[|s| - |SkipOthers(s)|..]
    ensures SkipOthers(s) == [] || IsAlnum(SkipOthers(s)[0])
    ensures forall i :: 0 <= i < |s| - |SkipOthers(s)| ==> NotAlnum(s[i])
    decreases |s|
  {
    if s != [] && NotAlnum(s[0]) {
      SkipOthersFacts(s[1..]);
      SkipOne(s, SkipOthers(s[1..]), NotAlnum);
    }
  }

  /** `SkipWord` leaves the suffix that starts with another character, after a run of letters and digits. */
  lemma {:induction false} SkipWordFacts(s: string)
    ensures SkipWord(s) == s[|s| - |SkipWord(s)|..]
    ensures SkipWord(s) == [] || NotAlnum(SkipWord(s)[0])
    ensures forall i :: 0 <= i < |s| - |SkipWord(s)| ==> IsAlnum(s[i])
    decreases |s|
  {
    if s != [] && IsAlnum(s[0]) {
      SkipWordFacts(s[1..]);
      SkipOne(s, SkipWord(s[1..]), IsAlnum);
    }
  }

  predicate IsSlugChar(c: char) { IsAlnum(c) || c == '-' }

  predicate NoDoubleDash(s: string) {
    forall i :: 0 <= i < |s| - 1 ==> !(s[i] == '-' && s[i + 1] == '-')
  }

  /** What `slugify` promises of its output. */
  predicate IsSlug(s: string) {
    && All(s, IsSlugChar)
    && NoDoubleDash(s)
    && (s == [] || (s[0] != '-' && s[|s| - 1] != '-'))
  }

  /**
   * `slugify(text)` once `text` is in NFD form: the non-ASCII characters
   * (accents once decomposed) are dropped, the rest lower-cased, runs of
   * other characters collapsed to one dash, and dashes stripped from the ends.
   * The result is a slug, and it keeps exactly the letters and digits of the
   * lower-cased ASCII text, in order.
   */
  function Slugify(text: string): (r: string)
    ensures IsSlug(r)
    ensures Alnums(r) == Alnums(Lower(AsciiOnly(text)))
  {
    var c := Collapse(Lower(AsciiOnly(text)));
    var r := Strip(c, IsDash);
    StripKeepsSlug(c, r);
    r
  }

  /** The slug is the words of the lower-cased ASCII text (its maximal runs
      of letters and digits) joined by single dashes. */
  lemma {:induction false} SlugifyJoinsWords(text: string)
    ensures Slugify(text) == Join(Words(Lower(AsciiOnly(text))), "-")
  {
    StripCollapsed(Lower(AsciiOnly(text)));
  }

  /** The maximal runs of `[a-z0-9]` in `s`, in order. */
  function Words(s: string): seq<string>
    decreases |s|
  {
    var t := SkipOthers(s);
    if t == [] then []
    else
      var rest := SkipWord(t);
      WordShrinks(s, t, rest);
      [t[..|t| - |rest|]] + Words(rest)
  }

  /** A non-empty run of letters and digits. */
  predicate IsWord(w: string) {
    w != [] && forall i :: 0 <= i < |w| ==> IsAlnum(w[i])
  }

  /** A text that starts with a letter or digit starts with a whole word. */
  lemma {:induction false} WordShrinks(s: string, t: string, rest: string)
    requires t == SkipOthers(s) && t != [] && rest == SkipWord(t)
    ensures |rest| < |t| <= |s|
  {
    SkipOthersFacts(s);
    SkipWordFacts(t);
  }

  lemma {:induction false} LeadingWord(s: string, t: string, rest: string)
    requires t == SkipOthers(s) && t != [] && rest == SkipWord(t)
    ensures |rest| < |t|
    ensures IsWord(t[..|t| - |rest|])
  {
    SkipOthersFacts(s);
    SkipWordFacts(t);
    var w := t[..|t| - |rest|];
    forall i | 0 <= i < |w| ensures IsAlnum(w[i]) { assert w[i] == t[i]; }
  }

  /** Every word is a non-empty run of letters and digits. */
  lemma {:induction false} WordsAreWords(s: string)
    ensures forall j :: 0 <= j < |Words(s)| ==> IsWord(Words(s)[j])
    decreases |s|
  {
    var t := SkipOthers(s);
    if t != [] {
      var rest := SkipWord(t);
      LeadingWord(s, t, rest);
      WordsAreWords(rest);
      var w, ws := t[..|t| - |rest|], Words(rest);
      assert Words(s) == [w] + ws;
      forall j | 0 <= j < |Words(s)| ensures IsWord(Words(s)[j]) {
        if j > 0 { assert Words(s)[j] == ws[j - 1]; }
      }
    }
  }

  predicate LeadsWithOther(s: string) { s != [] && NotAlnum(s[0]) }

  predicate EndsWithOther(s: string) { s != [] && NotAlnum(s[|s| - 1]) }

  function DashIf(b: bool): string { if b then "-" else "" }

  /**
   * Where `re.sub(r"[^a-z0-9]+", "-", s)` puts its dashes: one between
   * consecutive words, one in front when `s` starts with other characters,
   * and one behind when it ends with them after some word.
   */
  lemma {:induction false} CollapseShape(s: string)
    ensures Collapse(s) ==
      DashIf(LeadsWithOther(s)) + Join(Words(s), "-") + DashIf(EndsWithOther(s) && Words(s) != [])
    decreases |s|
  {
    var t := SkipOthers(s);
    CollapseLead(s);
    if t == [] {
      assert Words(s) == [];
    } else {
      var rest := SkipWord(t);
      var w := t[..|t| - |rest|];
      WordStep(s, t, rest);
      NoWordsInEmpty();
      WordEnds(s, t, rest);
      if rest != [] && Words(rest) == [] {
        NoWordsEndsWithOther(rest);
      }
      CollapseWord(t);
      CollapseShape(rest);
      var ws := Words(rest);
      JoinCons(w, ws, "-");
      var lead, gap, joined, trail := DashIf(LeadsWithOther(s)), DashIf(LeadsWithOther(rest)), Join(ws, "-"), DashIf(EndsWithOther(rest) && ws != []);
      assert Collapse(s) == lead + Collapse(t);
      assert Collapse(t) == w + Collapse(rest);
      assert Collapse(rest) == gap + joined + trail;
      assert ws != [] ==> gap == "-";
      assert ws == [] ==> joined == [] && trail == [];
      Assemble(Collapse(s), Collapse(t), Collapse(rest), lead, w, gap, joined, trail, ws != []);
    }
  }

  /** Putting the dash in front, the first word and the rest back together. */
  lemma {:induction false} Assemble(cs: string, ct: string, crest: string, lead: string, w: string, gap: string, joined: string, trail: string, more: bool)
    requires cs == lead + ct && ct == w + crest && crest == gap + joined + trail
    requires more ==> gap == "-"
    requires !more ==> joined == [] && trail == []
    ensures more ==> cs == lead + (w + "-" + joined) + trail
    ensures !more ==> cs == lead + w + gap
  {
  }

  /** `Collapse` turns a leading run of other characters into one dash. */
  lemma {:induction false} CollapseLead(s: string)
    ensures Collapse(s) == DashIf(LeadsWithOther(s)) + Collapse(SkipOthers(s))
  {
  }

  /** Cutting the first word off `s`. */
  lemma {:induction false} WordStep(s: string, t: string, rest: string)
    requires t == SkipOthers(s) && t != [] && rest == SkipWord(t)
    ensures |rest| < |s|
    ensures Words(s) == [t[..|t| - |rest|]] + Words(rest)
  {
    WordShrinks(s, t, rest);
  }

  /** The empty string has no words. */
  lemma {:induction false} NoWordsInEmpty()
    ensures Words([]) == []
  {
  }

  /** After the first word comes another character, and the rest ends where `s` ends. */
  lemma {:induction false} WordEnds(s: string, t: string, rest: string)
    requires t == SkipOthers(s) && t != [] && rest == SkipWord(t)
    ensures LeadsWithOther(rest) == (rest != [])
    ensures rest != [] ==> EndsWithOther(rest) == EndsWithOther(s)
    ensures rest == [] ==> !EndsWithOther(s)
  {
    SkipOthersFacts(s);
    SkipWordFacts(t);
    assert t[|t| - 1] == s[|s| - 1];
    assert rest != [] ==> rest[|rest| - 1] == s[|s| - 1];
  }

  /** A non-empty text without words ends with another character. */
  lemma {:induction false} NoWordsEndsWithOther(r: string)
    requires r != [] && Words(r) == []
    ensures EndsWithOther(r)
  {
    SkipOthersFacts(r);
  }

  /** `"-".join` of one more word in front. */
  lemma {:induction false} JoinCons(w: string, ws: seq<string>, sep: string)
    ensures Join([w] + ws, sep) == (if ws == [] then w else w + sep + Join(ws, sep))
  {
    if ws != [] {
      assert ([w] + ws)[1..] == ws;
    }
  }

  /** `Collapse` copies a leading word and goes on after it. */
  lemma {:induction false} CollapseWord(t: string)
    ensures Collapse(t) == t[..|t| - |SkipWord(t)|] + Collapse(SkipWord(t))
    decreases |t|
  {
    var rest := SkipWord(t);
    if t != [] && IsAlnum(t[0]) {
      assert rest == SkipWord(t[1..]);
      CollapseWord(t[1..]);
      ConsPrefix(t, |t| - |rest|, Collapse(rest));
    } else {
      assert t[..0] == [];
    }
  }

  lemma {:induction false} ConsPrefix(t: string, k: nat, tail: string)
    requires 1 <= k <= |t|
    ensures [t[0]] + (t[1..][..k - 1] + tail) == t[..k] + tail
  {
    assert t[..k] == [t[0]] + t[1..][..k - 1];
  }

  /** Words joined by dashes start and end with a letter or digit. */
  lemma {:induction false} JoinedWordsEnds(ws: seq<string>)
    requires forall j :: 0 <= j < |ws| ==> IsWord(ws[j])
    ensures var r := Join(ws, "-"); r == [] || (IsAlnum(r[0]) && IsAlnum(r[|r| - 1]))
    decreases |ws|
  {
    if |ws| > 1 {
      JoinedWordsEnds(ws[1..]);
      var tail := Join(ws[1..], "-");
      assert Join(ws, "-") == ws[0] + ("-" + tail);
    }
  }

  /** Stripping the dashes off the collapsed text leaves the words joined by dashes. */
  lemma {:induction false} StripCollapsed(x: string)
    ensures Strip(Collapse(x), IsDash) == Join(Words(x), "-")
  {
    var ws := Words(x);
    CollapseShape(x);
    WordsAreWords(x);
    JoinedWordsEnds(ws);
    StripDashes(LeadsWithOther(x), Join(ws, "-"), EndsWithOther(x) && ws != []);
  }

  /** Stripping the dashes around a text that starts and ends with a letter or digit. */
  lemma {:induction false} StripDashes(lead: bool, m: string, trail: bool)
    requires m == [] || (IsAlnum(m[0]) && IsAlnum(m[|m| - 1]))
    ensures Strip(DashIf(lead) + m + DashIf(trail), IsDash) == m
  {
    DashIfIsDashes(lead);
    DashIfIsDashes(trail);
    StripFrame(DashIf(lead), m, DashIf(trail), IsDash);
  }

  lemma {:induction false} DashIfIsDashes(b: bool)
    ensures All(DashIf(b), IsDash)
  {
  }

  lemma {:induction false} AlnumsCons(c: char, s: string)
    ensures Alnums([c] + s) == (if IsAlnum(c) then [c] else []) + Alnums(s)
  {
    assert ([c] + s)[1..] == s;
  }

  lemma {:induction false} AlnumsAppend(a: string, b: string)
    ensures Alnums(a + b) == Alnums(a) + Alnums(b)
    decreases |a|
  {
    if a == [] {
      assert a + b == b;
    } else {
      var c, t := a[0], a[1..];
      assert a == [c] + t;
      assert a + b == [c] + (t + b);
      AlnumsCons(c, t + b);
      AlnumsCons(c, t);
      AlnumsAppend(t, b);
    }
  }

  lemma {:induction false} AlnumsNone(s: string)
    requires All(s, NotAlnum)
    ensures Alnums(s) == []
    decreases |s|
  {
    if s != [] {
      assert All(s[1..], NotAlnum) by {
        forall i | 0 <= i < |s[1..]| ensures NotAlnum(s[1..][i]) {
          assert s[1..][i] == s[i + 1];
        }
      }
      AlnumsNone(s[1..]);
    }
  }

  /** Skipping a run of non-alphanumerics loses no letter or digit. */
  lemma {:induction false} SkipRun(s: string, rest: string)
    requires s != [] && NotAlnum(s[0]) && rest == SkipOthers(s)
    ensures |rest| < |s|
    ensures rest == [] || IsAlnum(rest[0])
    ensures Alnums(rest) == Alnums(s)
  {
    SkipOthersFacts(s);
    var k := |s| - |rest|;
    assert k > 0;
    RunHasNoAlnums(s, k);
    Cut(s, k);
    AlnumsAppend(s[..k], rest);
  }

  /** A leading run of other characters holds no letter or digit. */
  lemma {:induction false} RunHasNoAlnums(s: string, k: nat)
    requires k <= |s| && forall i :: 0 <= i < k ==> NotAlnum(s[i])
    ensures Alnums(s[..k]) == []
  {
    var head := s[..k];
    forall i | 0 <= i < |head| ensures NotAlnum(head[i]) { assert head[i] == s[i]; }
    AlnumsNone(head);
  }

  /** Stripping the dashes at both ends of a collapsed string leaves a slug
      with the same letters and digits. */
  lemma {:induction false} StripKeepsSlug(c: string, r: string)
    requires All(c, IsSlugChar) && NoDoubleDash(c) && r == Strip(c, IsDash)
    ensures IsSlug(r)
    ensures Alnums(r) == Alnums(c)
  {
    SlugSlice(c, |c| - |TrimStart(c, IsDash)|, r);
  }

  /** The slice of a collapsed string between its end dashes. */
  lemma {:induction false} SlugSlice(c: string, i: nat, r: string)
    requires All(c, IsSlugChar) && NoDoubleDash(c)
    requires i + |r| <= |c| && r == c[i..i + |r|]
    requires forall k :: 0 <= k < i ==> IsDash(c[k])
    requires forall k :: i + |r| <= k < |c| ==> IsDash(c[k])
    requires r == [] || (!IsDash(r[0]) && !IsDash(r[|r| - 1]))
    ensures IsSlug(r)
    ensures Alnums(r) == Alnums(c)
  {
    SliceKeepsSlugChars(c, i, i + |r|);
    TrimmedKeepsAlnums(c, i, i + |r|);
  }

  lemma {:induction false} SliceKeepsSlugChars(c: string, i: nat, j: nat)
    requires i <= j <= |c|
    requires All(c, IsSlugChar) && NoDoubleDash(c)
    ensures All(c[i..j], IsSlugChar) && NoDoubleDash(c[i..j])
  {
    var r := c[i..j];
    forall k | 0 <= k < |r| ensures IsSlugChar(r[k]) {
      assert r[k] == c[i + k];
    }
    forall k | 0 <= k < |r| - 1 ensures !(r[k] == '-' && r[k + 1] == '-') {
      assert r[k] == c[i + k] && r[k + 1] == c[i + k + 1];
    }
  }

  lemma {:induction false} TrimmedKeepsAlnums(c: string, i: nat, j: nat)
    requires i <= j <= |c|
    requires forall k :: 0 <= k < i ==> IsDash(c[k])
    requires forall k :: j <= k < |c| ==> IsDash(c[k])
    ensures Alnums(c[i..j]) == Alnums(c)
  {
    var head, mid, tail := c[..i], c[i..j], c[j..];
    DashesHaveNoAlnums(c, 0, i, head);
    DashesHaveNoAlnums(c, j, |c|, tail);
    JoinThree(c, i, j, head, mid, tail);
    AlnumsAppend(head + mid, tail);
    AlnumsAppend(head, mid);
    assert Alnums(c) == Alnums(head) + Alnums(mid) + Alnums(tail);
  }

  lemma {:induction false} JoinThree(c: string, i: nat, j: nat, head: string, mid: string, tail: string)
    requires i <= j <= |c| && head == c[..i] && mid == c[i..j] && tail == c[j..]
    ensures c == head + mid + tail
  {
  }

  /** A stretch of dashes holds no letter or digit. */
  lemma {:induction false} DashesHaveNoAlnums(c: string, i: nat, j: nat, d: string)
    requires i <= j <= |c| && d == c[i..j]
    requires forall k :: i <= k < j ==> IsDash(c[k])
    ensures Alnums(d) == []
  {
    forall k | 0 <= k < |d| ensures NotAlnum(d[k]) { assert d[k] == c[i + k]; }
    AlnumsNone(d);
  }

  /** A slug is empty exactly when the name has no ASCII letter or digit:
      such a name (one written entirely in another script, or only
      punctuation) gets the empty identifier. */
  lemma {:induction false} SlugifyEmpty(text: string)
    ensures Slugify(text) == [] <==> Alnums(Lower(AsciiOnly(text))) == []
  {
    SlugAlnums(Slugify(text));
  }

  /** A slug is empty exactly when it has no letter or digit: it starts with one. */
  lemma {:induction false} SlugAlnums(r: string)
    requires IsSlug(r)
    ensures r == [] <==> Alnums(r) == []
  {
    if r != [] {
      assert IsAlnum(r[0]);
      AlnumsCons(r[0], r[1..]);
      assert r == [r[0]] + r[1..];
    }
  }

  /** Slugs are fixed points of `Slugify`. */
  lemma {:induction false} SlugIsFixedPoint(s: string)
    requires IsSlug(s)
    ensures Slugify(s) == s
  {
    AsciiOnlyKeeps(s);
    LowerKeeps(s);
    CollapseKeeps(s);
    assert TrimStart(s, IsDash) == s;
    assert TrimEnd(s, IsDash) == s;
  }

  /** `slugify` is idempotent. */
  lemma {:induction false} SlugifyIdempotent(text: string)
    ensures Slugify(Slugify(text)) == Slugify(text)
  {
    SlugIsFixedPoint(Slugify(text));
  }

  lemma {:induction false} AsciiOnlyKeeps(s: string)
    requires All(s, IsSlugChar)
    ensures AsciiOnly(s) == s
    decreases |s|
  {
    if s != [] {
      assert All(s[1..], IsSlugChar) by {
        forall i | 0 <= i < |s[1..]| ensures IsSlugChar(s[1..][i]) { assert s[1..][i] == s[i + 1]; }
      }
      AsciiOnlyKeeps(s[1..]);
      assert s == [s[0]] + s[1..];
    }
  }

  lemma {:induction false} LowerKeeps(s: string)
    requires All(s, IsSlugChar)
    ensures Lower(s) == s
  {
    assert forall i :: 0 <= i < |s| ==> Lower(s)[i] == s[i];
  }

  /** `Collapse` leaves alone a string whose every dash is followed by a letter or digit. */
  lemma {:induction false} CollapseKeeps(s: string)
    requires All(s, IsSlugChar) && NoDoubleDash(s)
    requires s == [] || s[|s| - 1] != '-'
    ensures Collapse(s) == s
    decreases |s|
  {
    if s != [] {
      var t := s[1..];
      TailKeepsSlugChars(s);
      CollapseKeeps(t);
      if !IsAlnum(s[0]) {
        DashBeforeAlnum(s);
      }
      assert s == [s[0]] + t;
    }
  }

  lemma {:induction false} TailKeepsSlugChars(s: string)
    requires s != [] && All(s, IsSlugChar) && NoDoubleDash(s)
    ensures All(s[1..], IsSlugChar) && NoDoubleDash(s[1..])
  {
    var t := s[1..];
    forall i | 0 <= i < |t| ensures IsSlugChar(t[i]) { assert t[i] == s[i + 1]; }
    forall i | 0 <= i < |t| - 1 ensures !(t[i] == '-' && t[i + 1] == '-') {
      assert t[i] == s[i + 1] && t[i + 1] == s[i + 2];
    }
  }

  /** A lone dash is a run of length one: `Collapse` skips exactly it. */
  lemma {:induction false} DashBeforeAlnum(s: string)
    requires s != [] && !IsAlnum(s[0]) && All(s, IsSlugChar) && NoDoubleDash(s)
    requires s[|s| - 1] != '-'
    ensures SkipOthers(s) == s[1..]
  {
    assert s[0] == '-';
    assert |s| >= 2 && IsAlnum(s[1]);
    assert SkipOthers(s[1..]) == s[1..];
  }
}

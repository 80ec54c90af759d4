/**
 * `_extract_matricule` (scripts/scrape.py): the registry key at the tail of a
 * senator slug, the text matched by `(\d+[a-z])$`, such as `21071f` in
 * `dupont_jean21071f`.
 */
module Matricule {
  import opened Text

  /** The text `$` anchors against: Python's `$` (no MULTILINE flag) also
      matches just before one final newline. */
  function Subject(slug: string): (s: string)
    ensures |s| <= |slug| && s == slug[..|s|]
  {
    if slug != [] && slug[|slug| - 1] == '\n' then slug[..|slug| - 1] else slug
  }

  /** One or more digits followed by one lower-case letter: `\d+[a-z]`. */
  predicate IsKey(k: string) {
    |k| >= 2 && IsLower(k[|k| - 1]) && forall i :: 0 <= i < |k| - 1 ==> IsDigit(k[i])
  }

  /** `s` ends with a digit followed by a lower-case letter: `(\d+[a-z])$` finds a match. */
  predicate EndsWithKey(s: string) {
    |s| >= 2 && IsDigit(s[|s| - 2]) && IsLower(s[|s| - 1])
  }

  /** Start of the run of digits that ends at `end`. */
  function DigitRunStart(s: string, end: nat): (p: nat)
    requires end <= |s|
    ensures p <= end
    ensures forall i :: p <= i < end ==> IsDigit(s[i])
    ensures p == 0 || !IsDigit(s[p - 1])
  {
    if end > 0 && IsDigit(s[end - 1]) then DigitRunStart(s, end - 1) else end
  }

  /**
   * `_extract_matricule(slug)`: the leftmost match of `(\d+[a-z])$`, which is
   * the whole run of digits before the final letter together with that
   * letter, or `""` when the slug does not end in a digit and a letter.
   */
  function ExtractMatricule(slug: string): (r: string)
    ensures r == [] <==> !EndsWithKey(Subject(slug))
    ensures r != [] ==> IsKey(r) && EndsWith(Subject(slug), r)
    ensures r != [] && |r| < |Subject(slug)| ==> !IsDigit(Subject(slug)[|Subject(slug)| - |r| - 1])
  {
    var s := Subject(slug);
    if EndsWithKey(s) then
      var p := DigitRunStart(s, |s| - 1);
      assert p <= |s| - 2;
      s[p..]
    else
      []
  }

  /** The matricule of a senator slug, as the registry keys it (`.upper()`). */
  function SlugMatricule(slug: string): (k: string)
    ensures k == [] <==> !EndsWithKey(Subject(slug))
    ensures k != [] ==> IsUpper(k[|k| - 1]) && forall i :: 0 <= i < |k| - 1 ==> IsDigit(k[i])
    ensures k != [] ==> |k| <= |Subject(slug)| && k == Upper(Subject(slug)[|Subject(slug)| - |k|..])
    ensures k != [] && |k| < |Subject(slug)| ==> !IsDigit(Subject(slug)[|Subject(slug)| - |k| - 1])
  {
    var m := ExtractMatricule(slug);
    var k := Upper(m);
    UpperKeyFacts(slug, m, k);
    UpperTailFacts(slug, m, k);
    k
  }

  /** The upper-cased key is empty with the key, and keeps its shape. */
  lemma UpperKeyFacts(slug: string, m: string, k: string)
    requires m == ExtractMatricule(slug) && k == Upper(m)
    ensures k == [] <==> !EndsWithKey(Subject(slug))
    ensures k != [] ==> IsUpper(k[|k| - 1]) && forall i :: 0 <= i < |k| - 1 ==> IsDigit(k[i])
  {
    UpperKey(m);
    assert k == [] <==> m == [];
  }

  /** The upper-cased key is the upper-cased tail of the slug, after a non-digit. */
  lemma UpperTailFacts(slug: string, m: string, k: string)
    requires m == ExtractMatricule(slug) && k == Upper(m)
    ensures k != [] ==> |k| <= |Subject(slug)| && k == Upper(Subject(slug)[|Subject(slug)| - |k|..])
    ensures k != [] && |k| < |Subject(slug)| ==> !IsDigit(Subject(slug)[|Subject(slug)| - |k| - 1])
  {
    UpperOfTail(Subject(slug), m, k);
  }

  /** The upper-cased suffix of `s` is the upper-cased tail of `s` of its length. */
  lemma UpperOfTail(s: string, m: string, k: string)
    requires EndsWith(s, m) && k == Upper(m)
    ensures |k| == |m| <= |s| && k == Upper(s[|s| - |k|..])
  {
    assert s[|s| - |m|..] == m;
  }

  /** Upper-casing a key turns its letter to upper case and keeps its digits. */
  lemma UpperKey(m: string)
    ensures |Upper(m)| == |m|
    ensures IsKey(m) ==> IsUpper(Upper(m)[|m| - 1]) && forall i :: 0 <= i < |m| - 1 ==> IsDigit(Upper(m)[i])
  {
    if IsKey(m) {
      forall i | 0 <= i < |m| - 1 ensures IsDigit(Upper(m)[i]) {
        assert Upper(m)[i] == UpperChar(m[i]);
      }
    }
  }
}

/**
 * `save_json` and `print_stats` (scripts/scrape.py): the records as they
 * are written out, and the number of records per group code.
 */
module Output {
  import opened Wrappers
  import opened Records

  /** A record as written to the JSON file: every key of a record but
      `photo_url` and `photo_urls`. */
  datatype PublicRecord = PublicRecord(
    id: string,
    nom: string,
    prenom: string,
    nomComplet: string,
    group: Group,
    kind: Chamber,
    photo: string)

  /** A written record with the two dropped keys given back. */
  function Restore(r: PublicRecord, photoUrl: Option<string>, photoUrls: Option<seq<string>>): Politician {
    Politician(r.id, r.nom, r.prenom, r.nomComplet, r.group, photoUrl, photoUrls, r.kind, r.photo)
  }

  /** `{k: v for k, v in p.items() if k not in skip_keys}`: the record less
      the two photo URL keys, and nothing else lost. */
  function Clean(p: Politician): (r: PublicRecord)
    ensures Restore(r, p.photoUrl, p.photoUrls) == p
  {
    PublicRecord(p.id, p.nom, p.prenom, p.nomComplet, p.group, p.kind, p.photo)
  }

  /** Cleaning a restored record gives the written record back, whatever
      photo URLs were put back. */
  lemma CleanRestore(r: PublicRecord, photoUrl: Option<string>, photoUrls: Option<seq<string>>)
    ensures Clean(Restore(r, photoUrl, photoUrls)) == r
  {
  }

  /** The list `save_json` serialises: one written record per record, in
      order, each its input less the two photo URL keys. */
  function SaveJson(pols: seq<Politician>): (out: seq<PublicRecord>)
    ensures |out| == |pols|
    ensures forall i :: 0 <= i < |pols| ==> Restore(out[i], pols[i].photoUrl, pols[i].photoUrls) == pols[i]
  {
    seq(|pols|, i requires 0 <= i < |pols| => Clean(pols[i]))
  }

  // ---------------------------------------------------------------------
  // Group counts
  // ---------------------------------------------------------------------

  /** The number of records whose group code is `g`. */
  function Count(pols: seq<Politician>, g: string): nat {
    if pols == [] then 0
    else Count(pols[..|pols| - 1], g) + (if pols[|pols| - 1].group.sigle == g then 1 else 0)
  }

  /** The group codes that occur among the records. */
  function Sigles(pols: seq<Politician>): set<string> {
    if pols == [] then {} else Sigles(pols[..|pols| - 1]) + {pols[|pols| - 1].group.sigle}
  }

  /** Some key of a non-empty map. */
  ghost function Pick(m: map<string, nat>): string
    requires m != map[]
  {
    var k :| k in m; k
  }

  /** The sum of the values of a map. */
  ghost function Total(m: map<string, nat>): nat
    decreases m.Keys
  {
    if m == map[] then 0
    else
      var k := Pick(m);
      m[k] + Total(m - {k})
  }

  /** The sum does not depend on the key taken out first. */
  lemma {:induction false} TotalRemove(m: map<string, nat>, k: string)
    requires k in m
    ensures Total(m) == m[k] + Total(m - {k})
    decreases m.Keys
  {
    var j := Pick(m);
    if j != k {
      TotalRemove(m - {j}, k);
      TotalRemove(m - {k}, j);
      assert m - {j} - {k} == m - {k} - {j};
    }
  }

  /** Setting one value changes the sum by the difference. */
  lemma TotalUpdate(m: map<string, nat>, k: string, v: nat)
    ensures Total(m[k := v]) == Total(m) - (if k in m then m[k] else 0) + v
  {
    TotalRemove(m[k := v], k);
    assert m[k := v] - {k} == m - {k};
    if k in m {
      TotalRemove(m, k);
    } else {
      assert m - {k} == m;
    }
  }

  /** What the `groups` dictionary holds once the first `i` records are counted. */
  ghost predicate CountsUpTo(groups: map<string, nat>, pols: seq<Politician>, i: nat)
    requires i <= |pols|
  {
    groups.Keys == Sigles(pols[..i]) &&
    (forall g :: g in groups ==> groups[g] == Count(pols[..i], g)) &&
    Total(groups) == i
  }

  /** Counting record `i` moves the dictionary from `i` records to `i + 1`. */
  lemma CountStep(groups: map<string, nat>, pols: seq<Politician>, i: nat)
    requires i < |pols| && CountsUpTo(groups, pols, i)
    ensures var g := pols[i].group.sigle;
      CountsUpTo(groups[g := (if g in groups then groups[g] else 0) + 1], pols, i + 1)
  {
    var g := pols[i].group.sigle;
    var c := if g in groups then groups[g] else 0;
    var next := groups[g := c + 1];
    assert Total(next) == i + 1 by {
      TotalUpdate(groups, g, c + 1);
    }
    assert next.Keys == Sigles(pols[..i + 1]) by {
      SiglesStep(pols, i);
    }
    assert forall h :: h in next ==> next[h] == Count(pols[..i + 1], h) by {
      forall h | h in next
        ensures next[h] == Count(pols[..i + 1], h)
      {
        CountSnoc(pols, i, h);
        if h == g && g !in groups {
          CountPositive(pols[..i], g);
        }
      }
    }
  }

  /** The codes of one more record. */
  lemma SiglesStep(pols: seq<Politician>, i: nat)
    requires i < |pols|
    ensures Sigles(pols[..i + 1]) == Sigles(pols[..i]) + {pols[i].group.sigle}
  {
    assert pols[..i + 1][..i] == pols[..i];
  }

  /** The counts of one more record. */
  lemma CountSnoc(pols: seq<Politician>, i: nat, h: string)
    requires i < |pols|
    ensures Count(pols[..i + 1], h) == Count(pols[..i], h) + (if pols[i].group.sigle == h then 1 else 0)
  {
    assert pols[..i + 1][..i] == pols[..i];
  }

  /**
   * The `groups` dictionary of `print_stats`: one entry per group code that
   * occurs, holding the number of records with that code; the counts add up
   * to the number of records.
   */
  method GroupCounts(pols: seq<Politician>) returns (groups: map<string, nat>)
    ensures groups.Keys == Sigles(pols)
    ensures forall g :: g in groups ==> groups[g] == Count(pols, g)
    ensures Total(groups) == |pols|
  {
    groups := map[];
    var i := 0;
    while i < |pols|
      invariant 0 <= i <= |pols|
      invariant CountsUpTo(groups, pols, i)
    {
      var g := pols[i].group.sigle;
      CountStep(groups, pols, i);
      groups := groups[g := (if g in groups then groups[g] else 0) + 1];
      i := i + 1;
    }
    assert pols[..i] == pols;
  }

  /** A code is counted at least once exactly when it occurs. */
  lemma {:induction false} CountPositive(pols: seq<Politician>, g: string)
    ensures Count(pols, g) > 0 <==> g in Sigles(pols)
  {
    if pols != [] {
      CountPositive(pols[..|pols| - 1], g);
    }
  }
}

/**
 * `parse_senateurs` (scripts/scrape.py): senators from the Senate's list page
 * (slug and display name of each senator) merged with the Senate's open-data
 * registry (political group), joined on the matricule at the end of the slug.
 */
module Senateurs {
  import opened Wrappers
  import opened Text
  import opened Lookup
  import opened Matricule
  import opened Records

  /** Registry group label -> group code (`SENAT_GROUP_SIGLE`). */
  const GroupSigle: map<string, string> := map[
    "Les Républicains" := "LR",
    "Les Indépendants" := "INDEP",
    "Les Indépendants - République et Territoires" := "INDEP",
    "Non inscrit" := "NI",
    "Non inscrits" := "NI"]

  /** Group code -> full group name (`SENAT_GROUP_NAME`). */
  const GroupName: map<string, string> := map[
    "LR" := "Les Républicains",
    "SER" := "Socialiste, Écologiste et Républicain",
    "UC" := "Union Centriste",
    "INDEP" := "Les Indépendants – République et Territoires",
    "RDPI" := "Rassemblement des démocrates, progressistes et indépendants",
    "CRCE-K" := "Communiste Républicain Citoyen Écologiste – Kanaky",
    "RDSE" := "Rassemblement Démocratique et Social Européen",
    "GEST" := "Écologiste – Solidarité et Territoires",
    "NI" := "Non-inscrits"]

  /** The group of a senator the registry does not list. */
  const DefaultGroup := Group("NI", "Non-inscrits")

  /** The senat.fr photo directory; a senator's photo is `<slug>_carre.jpg` in it. */
  const SenatPhotoPrefix := "https://www.senat.fr/senimg/"

  /**
   * One item of the registry's `results` list, absent fields at the parser's
   * defaults (`""`); `groupePolitique` is `None` when `Groupe_politique` is
   * absent or null.
   */
  datatype RegistryRecord = RegistryRecord(etat: string, matricule: string, groupePolitique: Option<string>)

  /** One match of the anchor pattern on the list page: the slug in the link
      and the anchor's text. */
  datatype Anchor = Anchor(href: string, text: string)

  /** The list page: its text, and the anchor matches found in it, in page order. */
  datatype ListPage = ListPage(text: string, anchors: seq<Anchor>)

  // ---------------------------------------------------------------------
  // Group resolution and the registry
  // ---------------------------------------------------------------------

  /** `rec.get("Groupe_politique", "NI") or "NI"` */
  function GroupLabel(raw: Option<string>): (text: string)
    ensures text != ""
  {
    if raw.None? || raw.value == "" then "NI" else raw.value
  }

  /** Every code the label table produces has a full name. */
  lemma SiglesHaveNames()
    ensures forall given :: given in GroupSigle ==> GroupSigle[given] in GroupName
  {
  }

  /**
   * A registry group label resolved through the two tables. A missing or
   * empty label is the non-attached group; a label the first table knows
   * becomes its code; a code the second table knows gets its full name; a
   * label neither knows is kept as both code and name.
   */
  function ResolveGroupLabel(raw: Option<string>): (g: Group)
    ensures g.sigle != ""
    ensures (raw.None? || raw == Some("")) ==> g == DefaultGroup
    ensures GroupLabel(raw) in GroupSigle ==> g == Group(GroupSigle[GroupLabel(raw)], GroupName[GroupSigle[GroupLabel(raw)]])
    ensures GroupLabel(raw) !in GroupSigle && GroupLabel(raw) in GroupName ==> g == Group(GroupLabel(raw), GroupName[GroupLabel(raw)])
    ensures GroupLabel(raw) !in GroupSigle && GroupLabel(raw) !in GroupName ==> g == Group(GroupLabel(raw), GroupLabel(raw))
  {
    var given := GroupLabel(raw);
    var sigle := if given in GroupSigle then GroupSigle[given] else given;
    SiglesHaveNames();
    var nom := if sigle in GroupName then GroupName[sigle] else given;
    Group(sigle, nom)
  }

  predicate IsActive(r: RegistryRecord) { r.etat == "ACTIF" }

  function RegistryKey(r: RegistryRecord): string { Upper(r.matricule) }

  function RegistryGroup(r: RegistryRecord): Group { ResolveGroupLabel(r.groupePolitique) }

  /** `group_by_matricule` once every registry record has been read. */
  function RegistryOf(results: seq<RegistryRecord>): map<string, Group> {
    LastWins(results, IsActive, RegistryKey, RegistryGroup)
  }

  /** A key is in the registry exactly when an active record has that
      upper-cased matricule; its group is the last such record's. */
  lemma RegistryAt(results: seq<RegistryRecord>, key: string)
    ensures key in RegistryOf(results) <==> exists i :: KeptWithKey(results, IsActive, RegistryKey, key, i)
    ensures key in RegistryOf(results) ==>
      exists i :: KeptWithKey(results, IsActive, RegistryKey, key, i) &&
        RegistryOf(results)[key] == ResolveGroupLabel(results[i].groupePolitique) &&
        forall j :: i < j < |results| ==> !KeptWithKey(results, IsActive, RegistryKey, key, j)
  {
    LastWinsAt(results, IsActive, RegistryKey, RegistryGroup, key);
  }

  /** The registry loop of `parse_senateurs`; `results` is `None` when the
      registry could not be fetched. */
  method BuildRegistry(results: Option<seq<RegistryRecord>>) returns (registry: map<string, Group>)
    ensures registry == RegistryOf(results.GetOr([]))
  {
    registry := map[];
    if results.None? {
      return;
    }
    var recs := results.value;
    var i := 0;
    while i < |recs|
      invariant 0 <= i <= |recs|
      invariant registry == RegistryOf(recs[..i])
    {
      var rec := recs[i];
      RegistrySnoc(recs, i, registry);
      if !IsActive(rec) {
        i := i + 1;
        continue;
      }
      var mat := Upper(rec.matricule);
      var rawGroup := GroupLabel(rec.groupePolitique);
      var sigle := if rawGroup in GroupSigle then GroupSigle[rawGroup] else rawGroup;
      var nom := if sigle in GroupName then GroupName[sigle] else rawGroup;
      registry := registry[mat := Group(sigle, nom)];
      i := i + 1;
    }
    assert recs[..i] == recs;
  }

  /** One more registry record: stored under its key when active, skipped otherwise. */
  lemma RegistrySnoc(recs: seq<RegistryRecord>, i: nat, done: map<string, Group>)
    requires i < |recs| && done == RegistryOf(recs[..i])
    ensures RegistryOf(recs[..i + 1]) ==
      if IsActive(recs[i]) then done[RegistryKey(recs[i]) := RegistryGroup(recs[i])] else done
  {
    assert recs[..i + 1][..i] == recs[..i];
  }

  // ---------------------------------------------------------------------
  // One senator per anchor
  // ---------------------------------------------------------------------

  /** `match.group(1).strip()` */
  function CleanSlug(a: Anchor): string {
    Strip(a.href, IsSpace)
  }

  /** `match.group(2).strip().replace("\xa0", " ").replace("&nbsp;", " ")` */
  function CleanName(a: Anchor): (name: string)
    ensures '\U{A0}' !in name
  {
    var t := Strip(a.text, IsSpace);
    ReplaceNoChar(t, "\U{A0}", " ", '\U{A0}');
    var u := Replace(t, "\U{A0}", " ");
    ReplaceNoChar(u, "&nbsp;", " ", '\U{A0}');
    Replace(u, "&nbsp;", " ")
  }

  /** A name with no no-break space and no `&nbsp;` entity is only stripped. */
  lemma CleanNameOfPlainText(a: Anchor)
    requires '\U{A0}' !in a.text && !Contains(Strip(a.text, IsSpace), "&nbsp;")
    ensures CleanName(a) == Strip(a.text, IsSpace)
  {
    var t := Strip(a.text, IsSpace);
    assert !Contains(t, "\U{A0}") by {
      NoCharNotContained(t, '\U{A0}');
    }
    ReplaceAbsent(t, "\U{A0}", " ");
    ReplaceAbsent(t, "&nbsp;", " ");
  }

  /**
   * The surname as displayed and the given name, from `raw_name.split(None, 1)`:
   * cut at the first whitespace run; with no second part the whole trimmed
   * text is the surname and the given name is empty; with no text at all the
   * slug stands for the surname.
   */
  function SplitName(raw: string, slug: string): (names: (string, string))
    ensures All(raw, IsSpace) ==> names == (slug, "")
    ensures !All(raw, IsSpace) ==> names.0 != "" && All(names.0, NotSpace)
    ensures !All(raw, IsSpace) && names.1 == "" ==> names.0 == Strip(raw, IsSpace)
    ensures names.1 != "" ==> CutAtSpaceRun(TrimStart(raw, IsSpace), names.0, names.1)
  {
    var parts := SplitOnce(raw);
    if |parts| == 2 then (parts[0], parts[1])
    else (if |parts| == 1 then parts[0] else slug, "")
  }

  /**
   * The record built for one anchor. `title` stands for Python's `str.title()`.
   * Its id is the cleaned slug; its group is the registry's entry for the
   * slug's matricule, and the non-attached group when the registry has none;
   * its names come from the split of the anchor text, the surname passed
   * through `title`.
   */
  function SenatorRecord(a: Anchor, registry: map<string, Group>, title: string -> string): (r: Politician)
    ensures r.kind == Senateur && r.photo == "" && r.photoUrls.None? && r.id == CleanSlug(a)
    ensures SlugMatricule(r.id) in registry ==> r.group == registry[SlugMatricule(r.id)]
    ensures SlugMatricule(r.id) !in registry ==> r.group == DefaultGroup
    ensures r.nom == title(SplitName(CleanName(a), r.id).0) && r.prenom == SplitName(CleanName(a), r.id).1
    ensures r.nomComplet == FullName(r.prenom, r.nom)
    ensures r.photoUrl == Some(SenatPhotoPrefix + r.id + "_carre.jpg")
  {
    var slug := CleanSlug(a);
    var matricule := SlugMatricule(slug);
    var names := SplitName(CleanName(a), slug);
    var nom := title(names.0);
    Politician(
      id := slug,
      nom := nom,
      prenom := names.1,
      nomComplet := FullName(names.1, nom),
      group := if matricule in registry then registry[matricule] else DefaultGroup,
      photoUrl := Some(SenatPhotoPrefix + slug + "_carre.jpg"),
      photoUrls := None,
      kind := Senateur,
      photo := "")
  }

  /** `result` once the anchor loop has seen every anchor of `anchors`. */
  function SenatorRecords(anchors: seq<Anchor>, registry: map<string, Group>, title: string -> string): seq<Politician>
  {
    MapSeq(anchors, a => SenatorRecord(a, registry, title))
  }

  /** The records follow the anchors one for one, in page order. */
  lemma SenatorRecordsAt(anchors: seq<Anchor>, registry: map<string, Group>, title: string -> string, j: nat)
    requires j < |anchors|
    ensures |SenatorRecords(anchors, registry, title)| == |anchors|
    ensures SenatorRecords(anchors, registry, title)[j] == SenatorRecord(anchors[j], registry, title)
  {
    MapSeqAt(anchors, a => SenatorRecord(a, registry, title), j);
  }

  /** `parse_senateurs(html_list, json_data)`: nothing without a list page,
      otherwise one record per anchor, in page order. */
  function SenatorsOf(page: Option<ListPage>, results: Option<seq<RegistryRecord>>, title: string -> string): (rs: seq<Politician>)
    ensures page.None? || page.value.text == "" ==> rs == []
    ensures page.Some? && page.value.text != "" ==> |rs| == |page.value.anchors|
  {
    if page.None? || page.value.text == "" then []
    else SenatorRecords(page.value.anchors, RegistryOf(results.GetOr([])), title)
  }

  /** The body of the anchor loop of `parse_senateurs`. */
  method SenatorFromAnchor(a: Anchor, registry: map<string, Group>, title: string -> string) returns (p: Politician)
    ensures p == SenatorRecord(a, registry, title)
  {
    var slug := Strip(a.href, IsSpace);
    var rawName := Replace(Replace(Strip(a.text, IsSpace), "\U{A0}", " "), "&nbsp;", " ");
    var matricule := Upper(ExtractMatricule(slug));
    var parts := SplitOnce(rawName);
    var nomDisplay, prenom;
    if |parts| == 2 {
      nomDisplay, prenom := parts[0], parts[1];
    } else {
      nomDisplay := if |parts| > 0 then parts[0] else slug;
      prenom := "";
    }
    var nom := title(nomDisplay);
    var nomComplet := FullName(prenom, nom);
    var g := if matricule in registry then registry[matricule] else DefaultGroup;
    p := Politician(
      id := slug,
      nom := nom,
      prenom := prenom,
      nomComplet := nomComplet,
      group := g,
      photoUrl := Some(SenatPhotoPrefix + slug + "_carre.jpg"),
      photoUrls := None,
      kind := Senateur,
      photo := "");
  }

  /** One more anchor adds its record at the end. */
  lemma SenatorRecordsSnoc(anchors: seq<Anchor>, registry: map<string, Group>, title: string -> string, i: nat,
                           done: seq<Politician>, p: Politician)
    requires i < |anchors| && done == SenatorRecords(anchors[..i], registry, title)
    requires p == SenatorRecord(anchors[i], registry, title)
    ensures done + [p] == SenatorRecords(anchors[..i + 1], registry, title)
  {
    MapSeqSnoc(anchors, a => SenatorRecord(a, registry, title), i);
  }

  /** The anchor loop of `parse_senateurs`: one record per anchor, in page order. */
  method MergeAnchors(anchors: seq<Anchor>, registry: map<string, Group>, title: string -> string)
    returns (result: seq<Politician>)
    ensures result == SenatorRecords(anchors, registry, title)
  {
    result := [];
    var i := 0;
    while i < |anchors|
      invariant 0 <= i <= |anchors|
      invariant result == SenatorRecords(anchors[..i], registry, title)
    {
      var p := SenatorFromAnchor(anchors[i], registry, title);
      SenatorRecordsSnoc(anchors, registry, title, i, result, p);
      result := result + [p];
      i := i + 1;
    }
    assert anchors[..i] == anchors;
  }

  /** `parse_senateurs`: nothing without a list page, otherwise the registry
      loop, then the anchor loop. */
  method ParseSenateurs(page: Option<ListPage>, results: Option<seq<RegistryRecord>>, title: string -> string)
    returns (result: seq<Politician>)
    ensures result == SenatorsOf(page, results, title)
  {
    if page.None? || page.value.text == "" {
      return [];
    }
    var registry := BuildRegistry(results);
    result := MergeAnchors(page.value.anchors, registry, title);
  }

  /** An active record alone makes a registry of one entry. */
  lemma RegistryOfOne(rec: RegistryRecord)
    requires IsActive(rec)
    ensures RegistryOf([rec]) == map[Upper(rec.matricule) := ResolveGroupLabel(rec.groupePolitique)]
  {
    assert [rec][..0] == [];
    assert LastWins([rec][..0], IsActive, RegistryKey, RegistryGroup) == map[];
    assert RegistryOf([rec]) == map[][RegistryKey(rec) := RegistryGroup(rec)];
  }

  /** "Les Républicains" resolves to code LR and keeps its name. */
  lemma RepublicansResolve()
    ensures ResolveGroupLabel(Some("Les Républicains")) == Group("LR", "Les Républicains")
  {
    assert GroupLabel(Some("Les Républicains")) == "Les Républicains";
    assert "Les Républicains" in GroupSigle;
  }

  /** A label that is already a full group name, but not one the label table
      lists, is kept as the code too: the code table is not searched by name. */
  lemma FullNameLabelIsItsOwnCode()
    ensures ResolveGroupLabel(Some("Union Centriste")) == Group("Union Centriste", "Union Centriste")
  {
    assert "Union Centriste" !in GroupSigle;
    assert "Union Centriste" !in GroupName;
  }

  /**
   * End to end: one active registry record in "Les Républicains" and a list
   * page with one anchor carrying the same matricule give one senator in
   * group LR, "Les Républicains".
   */
  lemma OneRepublicanSenator(page: ListPage, rec: RegistryRecord, title: string -> string)
    requires page.text != "" && |page.anchors| == 1
    requires rec.etat == "ACTIF" && rec.groupePolitique == Some("Les Républicains")
    requires SlugMatricule(CleanSlug(page.anchors[0])) == Upper(rec.matricule)
    ensures |SenatorsOf(Some(page), Some([rec]), title)| == 1
    ensures SenatorsOf(Some(page), Some([rec]), title)[0].group == Group("LR", "Les Républicains")
  {
    var registry := RegistryOf([rec]);
    RegistryOfOne(rec);
    RepublicansResolve();
    SenatorRecordsAt(page.anchors, registry, title, 0);
  }

  /** Without registry data every senator is non-attached. */
  lemma NoRegistryNoGroup(page: Option<ListPage>, title: string -> string)
    ensures forall r :: r in SenatorsOf(page, None, title) ==> r.group == DefaultGroup
  {
    if page.Some? && page.value.text != "" {
      var anchors := page.value.anchors;
      var rs := SenatorsOf(page, None, title);
      assert RegistryOf([]) == map[];
      forall j | 0 <= j < |rs|
        ensures rs[j].group == DefaultGroup
      {
        SenatorRecordsAt(anchors, map[], title, j);
      }
    }
  }
}

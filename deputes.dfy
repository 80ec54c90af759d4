/**
 * `parse_deputes_opendata` (scripts/scrape.py): deputies of the 17th
 * legislature from the National Assembly's open-data archive. A first pass
 * collects the political-group organes, a second builds one record per
 * actor that has a PA id, its group taken from the first current
 * political-group mandate.
 */
module Deputes {
  import opened Wrappers
  import opened Text
  import opened Lookup
  import opened Slug
  import opened Records

  /** An organe document, absent fields at the parser's defaults (`""`). */
  datatype Organe = Organe(codeType: string, uid: string, libelleAbrege: string, libelle: string)

  /** The actor's `uid` field: an object whose `#text` is the PA id (`""`
      when that key is absent), or a plain value, read through `str()`. */
  datatype Uid = UidObject(text: string) | UidValue(repr: string)

  /** One entry of an actor's mandate list; `NotAnObject` is an entry that is not a JSON object.
      `dateFin` is `None` when the key is absent or null. */
  datatype Mandat =
    | MandatObject(typeOrgane: string, legislature: string, dateFin: Option<string>, organeRef: string)
    | NotAnObject

  /** An actor document, absent fields at the parser's defaults. The mandate
      list is already a list (a lone mandate object stands as a one-item list). */
  datatype Acteur = Acteur(uid: Uid, nom: string, prenom: string, mandats: seq<Mandat>)

  /**
   * One file of the archive: its name and its decoded JSON document, seen
   * through the fields each pass reads (the organe pass reads any document as
   * an organe, the actor pass as an actor).
   */
  datatype ZipEntry = ZipEntry(name: string, organe: Organe, acteur: Acteur)

  const DefaultGroup := Group("NI", "Non inscrit")
  const PhotoUrlPrefix := "https://www.assemblee-nationale.fr/dyn/static/tribun/17/photos/carre/"

  predicate IsOrganeFile(name: string) {
    StartsWith(name, "json/organe/") && EndsWith(name, ".json")
  }

  predicate IsActeurFile(name: string) {
    StartsWith(name, "json/acteur/") && EndsWith(name, ".json")
  }

  // ---------------------------------------------------------------------
  // First pass: political-group organes by uid
  // ---------------------------------------------------------------------

  predicate IsGroupOrgane(e: ZipEntry) {
    IsOrganeFile(e.name) && e.organe.codeType == "GP"
  }

  function OrganeUid(e: ZipEntry): string { e.organe.uid }

  function OrganeGroup(e: ZipEntry): Group { Group(e.organe.libelleAbrege, e.organe.libelle) }

  /** `organe_map` once every entry has been read. */
  function OrganeMapOf(entries: seq<ZipEntry>): map<string, Group> {
    LastWins(entries, IsGroupOrgane, OrganeUid, OrganeGroup)
  }

  /** A uid is in the organe map exactly when some political-group organe
      file carries it, and it maps to the last such organe's code and name. */
  lemma OrganeMapAt(entries: seq<ZipEntry>, uid: string)
    ensures uid in OrganeMapOf(entries) <==> exists i :: KeptWithKey(entries, IsGroupOrgane, OrganeUid, uid, i)
    ensures uid in OrganeMapOf(entries) ==>
      exists i :: KeptWithKey(entries, IsGroupOrgane, OrganeUid, uid, i) &&
        OrganeMapOf(entries)[uid] == Group(entries[i].organe.libelleAbrege, entries[i].organe.libelle) &&
        forall j :: i < j < |entries| ==> !KeptWithKey(entries, IsGroupOrgane, OrganeUid, uid, j)
  {
    LastWinsAt(entries, IsGroupOrgane, OrganeUid, OrganeGroup, uid);
  }

  /** The first loop of `parse_deputes_opendata`. */
  method BuildOrganeMap(entries: seq<ZipEntry>) returns (organes: map<string, Group>)
    ensures organes == OrganeMapOf(entries)
  {
    organes := map[];
    var i := 0;
    while i < |entries|
      invariant 0 <= i <= |entries|
      invariant organes == OrganeMapOf(entries[..i])
    {
      var e := entries[i];
      assert entries[..i + 1][..i] == entries[..i];
      if IsOrganeFile(e.name) {
        if e.organe.codeType == "GP" {
          organes := organes[e.organe.uid := Group(e.organe.libelleAbrege, e.organe.libelle)];
        }
      }
      i := i + 1;
    }
    assert entries[..i] == entries;
  }

  // ---------------------------------------------------------------------
  // The mandate scan
  // ---------------------------------------------------------------------

  /** A current political-group mandate: type `GP`, legislature `17`, no end date. */
  predicate IsCurrentGroupMandate(m: Mandat) {
    m.MandatObject? && m.typeOrgane == "GP" && m.legislature == "17" && m.dateFin.None?
  }

  /** Mandate `i` is the first current political-group mandate of the list. */
  ghost predicate IsFirstCurrent(mandats: seq<Mandat>, i: int) {
    0 <= i < |mandats| && IsCurrentGroupMandate(mandats[i]) &&
    forall j :: 0 <= j < i ==> !IsCurrentGroupMandate(mandats[j])
  }

  /** The group a mandate names, or the default when its organe is unknown. */
  function MandateGroup(m: Mandat, organes: map<string, Group>): Group
    requires m.MandatObject?
  {
    if m.organeRef in organes then organes[m.organeRef] else DefaultGroup
  }

  /** Index of the first current political-group mandate, if any. */
  function FirstCurrent(mandats: seq<Mandat>): (r: Option<nat>)
    ensures r.Some? ==> IsFirstCurrent(mandats, r.value)
    ensures r.None? ==> forall j :: 0 <= j < |mandats| ==> !IsCurrentGroupMandate(mandats[j])
  {
    if mandats == [] then None
    else if IsCurrentGroupMandate(mandats[0]) then Some(0)
    else
      match FirstCurrent(mandats[1..])
      case None => None
      case Some(k) => Some(k + 1)
  }

  /**
   * A deputy's group: decided by the first current political-group mandate
   * alone, which names it through the organe map, and the default when that
   * organe is unknown or there is no such mandate.
   */
  function DeputyGroup(mandats: seq<Mandat>, organes: map<string, Group>): (g: Group)
    ensures (forall j :: 0 <= j < |mandats| ==> !IsCurrentGroupMandate(mandats[j])) ==> g == DefaultGroup
    ensures forall i :: IsFirstCurrent(mandats, i) ==> g == MandateGroup(mandats[i], organes)
  {
    match FirstCurrent(mandats)
    case None => DefaultGroup
    case Some(i) => MandateGroup(mandats[i], organes)
  }

  /** The mandate loop of `parse_deputes_opendata`, with its `break`. */
  method CurrentGroup(mandats: seq<Mandat>, organes: map<string, Group>) returns (g: Group)
    ensures (forall j :: 0 <= j < |mandats| ==> !IsCurrentGroupMandate(mandats[j])) ==> g == DefaultGroup
    ensures forall i :: IsFirstCurrent(mandats, i) ==> g == MandateGroup(mandats[i], organes)
    ensures g == DeputyGroup(mandats, organes)
  {
    g := DefaultGroup;
    var i := 0;
    while i < |mandats|
      invariant 0 <= i <= |mandats|
      invariant forall j :: 0 <= j < i ==> !IsCurrentGroupMandate(mandats[j])
    {
      var m := mandats[i];
      if m.NotAnObject? {
        i := i + 1;
        continue;
      }
      if IsCurrentGroupMandate(m) {
        if m.organeRef in organes {
          g := organes[m.organeRef];
        }
        assert IsFirstCurrent(mandats, i);
        return;
      }
      i := i + 1;
    }
  }

  // ---------------------------------------------------------------------
  // Second pass: one record per actor with a PA id
  // ---------------------------------------------------------------------

  /** `pa_id`: the `#text` of an object uid, `str()` of any other value. */
  function PaId(u: Uid): string {
    match u
    case UidObject(text) => text
    case UidValue(repr) => repr
  }

  /** An actor file whose PA id is non-empty: the entries that yield a record. */
  predicate YieldsDeputy(e: ZipEntry) {
    IsActeurFile(e.name) && PaId(e.acteur.uid) != ""
  }

  /**
   * The record built for one actor. `nfd` stands for Python's
   * `unicodedata.normalize("NFD", ·)`, the first step of `slugify`.
   */
  function DeputyRecord(a: Acteur, organes: map<string, Group>, nfd: string -> string): (r: Politician)
    ensures r.kind == Depute && r.photo == "" && r.photoUrls.None?
    ensures r.nomComplet == FullName(a.prenom, a.nom)
    ensures r.id == Slugify(nfd(r.nomComplet)) && IsSlug(r.id)
    ensures r.nom == a.nom && r.prenom == a.prenom
    ensures r.group == DeputyGroup(a.mandats, organes)
    ensures r.photoUrl == Some(PhotoUrlPrefix + Replace(PaId(a.uid), "PA", "") + ".jpg")
  {
    var nomComplet := FullName(a.prenom, a.nom);
    Politician(
      id := Slugify(nfd(nomComplet)),
      nom := a.nom,
      prenom := a.prenom,
      nomComplet := nomComplet,
      group := DeputyGroup(a.mandats, organes),
      photoUrl := Some(PhotoUrlPrefix + Replace(PaId(a.uid), "PA", "") + ".jpg"),
      photoUrls := None,
      kind := Depute,
      photo := "")
  }

  /** A PA id made of `PA` and a number gives the photo URL of that number. */
  lemma PaNumberPhotoUrl(a: Acteur, organes: map<string, Group>, nfd: string -> string, n: string)
    requires PaId(a.uid) == "PA" + n && !Contains(n, "PA")
    ensures DeputyRecord(a, organes, nfd).photoUrl == Some(PhotoUrlPrefix + n + ".jpg")
  {
    var id := "PA" + n;
    assert id[..2] == "PA" && id[2..] == n;
    ReplaceAbsent(n, "PA", "");
    calc {
      Replace(id, "PA", "");
      "" + Replace(id[2..], "PA", "");
      n;
    }
  }

  /** `result` once the actor loop has seen every entry of `entries`. */
  function DeputyRecords(entries: seq<ZipEntry>, organes: map<string, Group>, nfd: string -> string): seq<Politician> {
    if entries == [] then []
    else
      var e := entries[|entries| - 1];
      DeputyRecords(entries[..|entries| - 1], organes, nfd) +
        (if YieldsDeputy(e) then [DeputyRecord(e.acteur, organes, nfd)] else [])
  }

  /** The entries that yield a record, in archive order. */
  function Yielding(entries: seq<ZipEntry>): (r: seq<ZipEntry>)
  {
    if entries == [] then []
    else
      var e := entries[|entries| - 1];
      Yielding(entries[..|entries| - 1]) + (if YieldsDeputy(e) then [e] else [])
  }

  /** The entries kept are exactly the actor files with a non-empty PA id. */
  lemma {:induction false} YieldingExactly(entries: seq<ZipEntry>)
    ensures forall e :: e in Yielding(entries) <==> e in entries && YieldsDeputy(e)
    decreases |entries|
  {
    if entries != [] {
      var init := entries[..|entries| - 1];
      YieldingExactly(init);
      assert entries == init + [entries[|entries| - 1]];
    }
  }

  /** `parse_deputes_opendata(zf)`, `zf` being `None` when the archive could not be fetched. */
  function DeputiesOf(zf: Option<seq<ZipEntry>>, nfd: string -> string): seq<Politician> {
    match zf
    case None => []
    case Some(entries) => DeputyRecords(entries, OrganeMapOf(entries), nfd)
  }

  /** The record of the actor in an entry. */
  function RecordOf(organes: map<string, Group>, nfd: string -> string): ZipEntry -> Politician {
    (e: ZipEntry) => DeputyRecord(e.acteur, organes, nfd)
  }

  /**
   * The records are, one for one and in archive order, those of the actor
   * files with a non-empty PA id; actors without one yield nothing.
   */
  lemma {:induction false} DeputyRecordsAre(entries: seq<ZipEntry>, organes: map<string, Group>, nfd: string -> string)
    ensures DeputyRecords(entries, organes, nfd) == MapSeq(Yielding(entries), RecordOf(organes, nfd))
    decreases |entries|
  {
    if entries != [] {
      var init, e := entries[..|entries| - 1], entries[|entries| - 1];
      DeputyRecordsAre(init, organes, nfd);
      if YieldsDeputy(e) {
        MapSeqPush(Yielding(init), e, RecordOf(organes, nfd));
      } else {
        assert Yielding(entries) == Yielding(init);
      }
    }
  }

  /** Record `j` is the record of the `j`-th actor with a PA id. */
  lemma DeputyRecordsAt(entries: seq<ZipEntry>, organes: map<string, Group>, nfd: string -> string, j: nat)
    requires j < |Yielding(entries)|
    ensures |DeputyRecords(entries, organes, nfd)| == |Yielding(entries)|
    ensures DeputyRecords(entries, organes, nfd)[j] == DeputyRecord(Yielding(entries)[j].acteur, organes, nfd)
  {
    DeputyRecordsAre(entries, organes, nfd);
    MapSeqAt(Yielding(entries), RecordOf(organes, nfd), j);
  }

  /** A deputy record as the actor loop builds it: a `depute` with no photo
      yet, whose id is the slug of its normalised full name. */
  predicate IsDeputyRecord(r: Politician, nfd: string -> string) {
    r.kind == Depute && r.photo == "" && r.id == Slugify(nfd(r.nomComplet)) && IsSlug(r.id)
  }

  /** Every record `parse_deputes_opendata` returns is a deputy record. */
  lemma DeputiesShape(zf: Option<seq<ZipEntry>>, nfd: string -> string)
    ensures forall j :: 0 <= j < |DeputiesOf(zf, nfd)| ==> IsDeputyRecord(DeputiesOf(zf, nfd)[j], nfd)
  {
    if zf.Some? {
      var organes := OrganeMapOf(zf.value);
      DeputyRecordsAre(zf.value, organes, nfd);
      forall j | 0 <= j < |DeputiesOf(zf, nfd)| ensures IsDeputyRecord(DeputiesOf(zf, nfd)[j], nfd) {
        DeputyRecordsAt(zf.value, organes, nfd, j);
      }
    }
  }

  /** `parse_deputes_opendata`: the two passes over the archive. */
  method ParseDeputesOpenData(zf: Option<seq<ZipEntry>>, nfd: string -> string) returns (result: seq<Politician>)
    ensures result == DeputiesOf(zf, nfd)
  {
    if zf.None? {
      return [];
    }
    var entries := zf.value;
    var organes := BuildOrganeMap(entries);
    result := [];
    var i := 0;
    while i < |entries|
      invariant 0 <= i <= |entries|
      invariant result == DeputyRecords(entries[..i], organes, nfd)
    {
      var e := entries[i];
      assert entries[..i + 1][..i] == entries[..i];
      if !IsActeurFile(e.name) {
        i := i + 1;
        continue;
      }
      var a := e.acteur;
      var paId := PaId(a.uid);
      if paId == "" {
        i := i + 1;
        continue;
      }
      var nomComplet := FullName(a.prenom, a.nom);
      var g := CurrentGroup(a.mandats, organes);
      var slug := Slugify(nfd(nomComplet));
      var paNum := Replace(paId, "PA", "");
      result := result + [Politician(
        id := slug,
        nom := a.nom,
        prenom := a.prenom,
        nomComplet := nomComplet,
        group := g,
        photoUrl := Some(PhotoUrlPrefix + paNum + ".jpg"),
        photoUrls := None,
        kind := Depute,
        photo := "")];
      i := i + 1;
    }
    assert entries[..i] == entries;
  }
}

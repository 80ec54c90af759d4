/**
 * The normalised politician record both parsers build (a Python dict in
 * scripts/scrape.py), with the keys as fields.
 */
module Records {
  import opened Wrappers
  import opened Text

  /** The `type` key: `"depute"` or `"senateur"`. */
  datatype Chamber = Depute | Senateur

  /** A political group: its short code (`groupe_sigle`) and full name (`groupe_nom`). */
  datatype Group = Group(sigle: string, nom: string)

  /**
   * One record. `photoUrl` and `photoUrls` are the keys `photo_url` and
   * `photo_urls`, `None` when the key is absent; `photo` is the relative path
   * of the downloaded portrait, `""` until one is downloaded.
   */
  datatype Politician = Politician(
    id: string,
    nom: string,
    prenom: string,
    nomComplet: string,
    group: Group,
    photoUrl: Option<string>,
    photoUrls: Option<seq<string>>,
    kind: Chamber,
    photo: string)

  /** `f"{prenom} {nom}".strip()`: the display name both parsers store as `nom_complet`. */
  function FullName(prenom: string, nom: string): string {
    Strip(prenom + " " + nom, IsSpace)
  }
}

# Polidle scraper: normalisation and selection logic

This project is a Dafny model of the data-shaping core of `scripts/scrape.py`, the
scraper that builds the Polidle dataset of French deputies and senators. The model
covers:

- the slug that identifies a deputy (`slugify`);
- the senator matricule read from the end of a senator's page slug (`_extract_matricule`);
- the two parsers:
  - deputies come from the National Assembly open-data archive (`parse_deputes_opendata`);
  - senators come from the Senate list page, merged with the Senate group registry (`parse_senateurs`);
- the portrait download policy: skip an existing file, retry, fall back to the next URL, and fill in `photo` (`download_photo`, `download_photos`);
- the output shaping: the keys dropped on save (`save_json`) and the per-group counts (`print_stats`).

Modules follow the parts of the script:

| module | file | models |
|---|---|---|
| `Text` | text.dfy | the Python `str` operations used: `isspace`, `strip`, `split(None, 1)`, `replace`, `in`, ASCII `lower`/`upper` |
| `Lookup` | lookup.dfy | the shape of the dictionary-building loops (a later key overwrites an earlier one) and of the append-one-per-item loops |
| `Records` | records.dfy | the politician record (the dict both parsers build) |
| `Slug` | slug.dfy | `slugify` |
| `Matricule` | matricule.dfy | `_extract_matricule` |
| `Deputes` | deputes.dfy | `parse_deputes_opendata` |
| `Senateurs` | senateurs.dfy | `parse_senateurs` and its two group tables |
| `Photos` | photos.dfy | `download_photo`, `download_photos` |
| `Output` | output.dfy | `save_json`, `print_stats` |

Each loop of the script is a method with a `while` loop. Each method is proved equal to
a function, and the properties are lemmas about that function. Deputy groups, for
example, come from `CurrentGroup` (the mandate loop with its `break`) and
`DeputyGroup`. Senator records come from `MergeAnchors` and `SenatorRecords`.
`download_photos` becomes `PhotoStore.DownloadPhotos` and `EnrichAll`.

The outside world is passed in as values:

- **The network** is a function `Network` from a URL and the position of the request in the session to the outcome of that request. The outcome is either a raised exception, or a status, a content type and a body. Retries can therefore see different answers.
- **The disk** is a map from photo path to file contents.
- **`PhotoStore`** holds the disk and the list of URLs requested so far. Its methods update both in place, as the script's calls do.
- **The archive** is a list of `ZipEntry` values, each holding a file name and the decoded document. The organe pass and the actor pass each read the document through its own fields.
- **The Senate list page** is its text plus the list of anchor matches (slug, text) the script's regular expression finds in it.
- **`str.title()`** is a function parameter.
- **`unicodedata.normalize("NFD", ·)`**, the first step of `slugify`, is the function parameter `nfd` of the deputy functions. `Slug.Slugify` models the steps that follow it.

The code guarantees neither a non-empty nor a unique `id`. `Slug.SlugifyEmpty` shows
that the slug is empty exactly when the NFD form of the name has no ASCII letter or
digit once its other characters are dropped: a name written only in Cyrillic, say.
Accented Latin names are not affected: the NFD form of "Éé" is `E` and `e`, each
followed by a combining accent, so it gives `ee`. Nothing stops two deputies with the
same name from sharing one slug.

## Model

| member | source | states |
|---|---|---|
| `Slug.Slugify` | scripts/scrape.py:87-90 | on text after the NFD step: the output has only `a-z`, `0-9` and `-`, no two dashes in a row, no dash at either end, and keeps exactly the letters and digits of the lower-cased ASCII text, in order |
| `Slug.SlugifyJoinsWords` | scripts/scrape.py:87-90 | the slug is the maximal runs of `a-z0-9` of the lower-cased ASCII text (`Slug.Words`), in order, joined by single dashes |
| `Slug.SlugifyEmpty` | scripts/scrape.py:87-90 | the slug is empty exactly when the text after the NFD step has no ASCII letter or digit |
| `Slug.SlugIsFixedPoint` | scripts/scrape.py:87-90 | every string of slug shape is left unchanged by the steps after NFD |
| `Slug.SlugifyIdempotent` | scripts/scrape.py:87-90 | applying those steps twice gives the same slug as once; a slug is ASCII, so it is its own NFD form |
| `Slug.Collapse` | scripts/scrape.py:89 | each run of characters outside `a-z0-9` becomes one dash: no double dash, no letter or digit lost or added |
| `Slug.CollapseShape` | scripts/scrape.py:89 | the substitution gives the words joined by single dashes, plus one dash in front when the text starts with another character and one at the end when it ends with one after a word |
| `Slug.WordsAreWords` | scripts/scrape.py:89 | every word is a non-empty run of `a-z0-9` |
| `Matricule.ExtractMatricule` | scripts/scrape.py:214-217 | the result is `""` exactly when the slug (before an optional final newline) does not end in a digit and a letter; otherwise it is a suffix of one or more digits and one `a-z` letter, and it takes the whole digit run |
| `Matricule.SlugMatricule` | scripts/scrape.py:252 | the upper-cased matricule is empty in the same cases; otherwise it is digits then one `A-Z` letter, it is the upper-cased tail of the slug (before an optional final newline), and the character before that tail, if any, is not a digit |
| `Text.SplitOnce` | scripts/scrape.py:254 | `split(None, 1)` gives no part exactly for all-whitespace text; the first part is a whitespace-free token; with two parts they are separated by the first whitespace run; with one part it is the stripped text |
| `Deputes.OrganeMapAt` | scripts/scrape.py:136-147 | a uid is in the organe map exactly when some `json/organe/*.json` file of type `GP` carries it, and it maps to the code and name of the last such file |
| `Deputes.BuildOrganeMap` | scripts/scrape.py:137-147 | the first loop builds exactly that map |
| `Deputes.FirstCurrent` | scripts/scrape.py:177-187 | finds the first mandate in source order with type `GP`, legislature `17` and no end date, or reports that there is none |
| `Deputes.DeputyGroup` | scripts/scrape.py:175-187 | the group is decided by the first current group mandate alone: its organe's group when the organe is known, the default `("NI", "Non inscrit")` when it is not or when there is no such mandate |
| `Deputes.CurrentGroup` | scripts/scrape.py:175-187 | the mandate loop with its `break` returns that group |
| `Deputes.DeputyRecord` | scripts/scrape.py:164-205 | a built record has `type` depute, empty `photo`, `nom_complet` the stripped `"prenom nom"`, `id` the slug of its NFD form (a valid slug), the actor's names, the resolved group, and `photo_url` the Assembly's photo URL for the PA id with every `PA` removed |
| `Deputes.PaNumberPhotoUrl` | scripts/scrape.py:193-202 | a PA id made of `PA` and a number that holds no `PA` gives the photo URL of that number |
| `Deputes.YieldingExactly` | scripts/scrape.py:151-162 | the entries that produce a record are exactly the actor files with a non-empty PA id |
| `Deputes.DeputyRecordsAre` | scripts/scrape.py:150-207 | the records are, one for one and in archive order, the records of the actors that have a PA id |
| `Deputes.DeputyRecordsAt` | scripts/scrape.py:150-207 | record `j` is the record of the `j`-th actor that has a PA id |
| `Deputes.DeputiesShape` | scripts/scrape.py:159-205 | every returned record is a `depute` with empty `photo` and `id == slugify(nom_complet)`, NFD included |
| `Deputes.ParseDeputesOpenData` | scripts/scrape.py:131-207 | the two passes return the records above; with no archive, no record |
| `Senateurs.GroupLabel` | scripts/scrape.py:236 | a missing or empty `Groupe_politique` becomes `"NI"`; the label is never empty |
| `Senateurs.ResolveGroupLabel` | scripts/scrape.py:236-238 | the code is the label table's entry or the label itself; the name is the code table's entry or the raw label; a missing label gives `("NI", "Non-inscrits")` |
| `Senateurs.SiglesHaveNames` | scripts/scrape.py:53-72 | every code the label table produces has a full name in the code table |
| `Senateurs.FullNameLabelIsItsOwnCode` | scripts/scrape.py:236-238 | a full group name that the label table does not list, such as "Union Centriste", is kept as both code and name |
| `Senateurs.RegistryAt` | scripts/scrape.py:231-239 | a key is in the registry exactly when an `ACTIF` record has that upper-cased matricule, and it holds the resolved group of the last such record |
| `Senateurs.BuildRegistry` | scripts/scrape.py:229-239 | the registry loop builds exactly that map, and an empty one without registry data |
| `Senateurs.CleanName` | scripts/scrape.py:250 | the stripped anchor text after both replacements holds no no-break space (U+00A0) |
| `Senateurs.CleanNameOfPlainText` | scripts/scrape.py:250 | text with neither a no-break space nor `&nbsp;` is only stripped |
| `Senateurs.SplitName` | scripts/scrape.py:254-259 | the name is cut at the first whitespace run; with no second part, the whole trimmed text is the surname and the given name is `""`; with no text, the slug is the surname |
| `Senateurs.SenatorRecord` | scripts/scrape.py:248-276 | `id` is the stripped slug; the group is the registry's entry for the slug's matricule, or exactly `("NI", "Non-inscrits")` when there is none; the surname is the title-cased first part of the split; `photo_url` is the senat.fr `<slug>_carre.jpg` URL; `type` is senateur and `photo` is empty |
| `Senateurs.SenatorRecordsAt` | scripts/scrape.py:247-278 | one record per anchor match, in page order |
| `Senateurs.SenatorsOf` | scripts/scrape.py:220-278 | no list page gives no record; otherwise there are as many records as anchor matches |
| `Senateurs.SenatorFromAnchor` | scripts/scrape.py:248-276 | the anchor loop's body builds that record |
| `Senateurs.MergeAnchors` | scripts/scrape.py:247-278 | the anchor loop builds the records in page order |
| `Senateurs.ParseSenateurs` | scripts/scrape.py:220-278 | the registry loop followed by the anchor loop |
| `Senateurs.OneRepublicanSenator` | scripts/scrape.py:229-276 | one active "Les Républicains" record and one anchor with the same matricule give exactly one senator, in group `("LR", "Les Républicains")` |
| `Senateurs.NoRegistryNoGroup` | scripts/scrape.py:231-264 | without registry data every senator is `("NI", "Non-inscrits")` |
| `Photos.FirstAccepted` | scripts/scrape.py:289-296 | finds the first of the consecutive attempts whose response is accepted, or reports that none is |
| `Photos.FetchPhoto` | scripts/scrape.py:285-302 | an existing file over 500 bytes means success with no request; otherwise there are between 1 and `retries + 1` requests, all to the URL; success means every request before the last was refused and the last response passed status 200, a body over 500 bytes, and an `image`/`octet` content type or JPEG/PNG magic bytes, and was written to the path; failure means every attempt was refused and the disk is unchanged |
| `Photos.FetchPhotoIdempotent` | scripts/scrape.py:285-287 | after a successful call, the same call succeeds again with no request and no change |
| `Photos.FetchPhotoKeeps` | scripts/scrape.py:285-302 | a call never loses a photo already on disk |
| `Photos.FetchAnyContract` | scripts/scrape.py:316-320 | the URL loop reports success exactly when a photo is at the path afterwards; with no URL it reports failure; requests are only appended and only to the listed URLs; no other file changes |
| `Photos.FailureTriesEverything` | scripts/scrape.py:289-320 | when no URL works, every URL was tried `retries + 1` times in list order and nothing was written |
| `Photos.SuccessStopsAtFirstWorkingUrl` | scripts/scrape.py:289-320 | on success, each earlier URL was tried `retries + 1` times, the working URL between 1 and `retries + 1` times; every request but the last was refused, the last was accepted, and its response is the file written; no request follows |
| `Photos.FallsBackToSecondUrl` | scripts/scrape.py:315-320 | with URLs [A, B], A failing every attempt and B answering at once, A is tried `retries + 1` times, then B once, and B's body is the file |
| `Photos.PhotoPath` | scripts/scrape.py:313-323 | the photo path is non-empty and ends in `.jpg` |
| `Photos.CandidateUrls` | scripts/scrape.py:315 | a non-empty `photo_urls` list is tried as it is; otherwise a non-empty `photo_url` is the only URL; otherwise there is none, and the list is empty exactly then |
| `Photos.EnrichOne` | scripts/scrape.py:313-327 | only `photo` changes; it is non-empty exactly when the download succeeded, and then it is the photo path of a file on disk; the world after it is the world after the URL loop over the candidate URLs |
| `Photos.ExistingFileSkipsDownload` | scripts/scrape.py:312-323 | a record whose file is already on disk gets its path with no request |
| `Photos.NoUrlNoPhoto` | scripts/scrape.py:315-327 | a record without any URL gets `photo == ""` and makes no request |
| `Photos.EnrichAllShape` | scripts/scrape.py:312-335 | one record per input, in order, each equal to its input except `photo`; every path recorded names a photo on disk; no photo already on disk is lost |
| `Photos.WithPhoto` | scripts/scrape.py:337 | the returned list holds exactly the records with a non-empty `photo` |
| `Photos.WithPhotoAppend` | scripts/scrape.py:337 | the filter keeps the original order: it distributes over concatenation |
| `Photos.PhotoStore.DownloadPhoto` | scripts/scrape.py:285-302 | the retry loop leaves the result, the disk and the request list that `FetchPhoto` describes |
| `Photos.PhotoStore.DownloadAny` | scripts/scrape.py:316-320 | the URL loop with its `break` leaves the result and state of the URL loop described above |
| `Photos.PhotoStore.DownloadOne` | scripts/scrape.py:313-327 | one pass of the record loop; `downloaded` holds exactly when `photo` is set |
| `Photos.PhotoStore.DownloadPhotos` | scripts/scrape.py:305-337 | sets `photo` on every array element in place as `EnrichAll` describes; returns the records that have a photo, with `ok` equal to their number and `ok + fail` equal to the number of records |
| `Output.Clean` | scripts/scrape.py:346-347 | a written record keeps every key of the record except `photo_url` and `photo_urls`: giving back those two values restores the record |
| `Output.CleanRestore` | scripts/scrape.py:346-347 | cleaning a restored record gives the written record back, whatever photo URLs were put back |
| `Output.SaveJson` | scripts/scrape.py:344-349 | same number and order of records, each its input minus the two photo URL keys and with nothing else lost |
| `Output.GroupCounts` | scripts/scrape.py:352-356 | the `groups` dictionary has one entry per group code that occurs, holding the number of records with that code; the counts sum to the number of records |
| `Output.CountPositive` | scripts/scrape.py:353-356 | a code has a positive count exactly when some record has it |

## Left out

- HTTP fetching (`fetch_json`, `fetch_html`, `fetch_zip`, the shared `SESSION` and its headers and timeouts) is network I/O. Responses are input values, and a failed fetch is `None`.
- Zip reading and JSON decoding are left out. The archive is a list of decoded entries, and the registry is a list of records whose absent fields take the parser's defaults. `zf.read(name)` returns the last archive member with that name, so when two members share a name the script reads the last one's document twice; the model reads each entry's own document. When `mandat` is a lone object, the script wraps it in a one-item list; the model takes the list as given.
- Unicode NFD normalisation in `slugify` is library behaviour. It is the parameter `nfd`, and the model assumes nothing about it. `Slug.Slugify` takes its output and models the ASCII-ignore encoding as dropping every character at or above 128. After that step ASCII `lower` is exact.
- `Senateurs.CleanName`: its contract does not say that no `&nbsp;` entity is left. Its body performs both replacements, but a proof that `Replace` creates no new occurrence across a boundary is not part of this model. `CleanNameOfPlainText` covers text that needs no cleaning.
- `str.title()` is Unicode casing. It is a function parameter of the senator functions.
- The regular expression over the list page, with its case-insensitive closing tag, is left out. Its matches come in as the page's `anchors`.
- `Matricule.ExtractMatricule`: `\d` is read as ASCII `0-9`. Python's `re` also matches other Unicode decimal digits.
- `Text.Upper`: maps ASCII letters only, and `Text.Lower` likewise. Python's `str.upper` also maps non-ASCII letters, a few of them (dotless i, long s) onto ASCII ones. A registry matricule that uses one of them would match a slug in the script and not in the model.
- `Photos.FetchPhoto`: the half-second pause between attempts and the pause every ten records are left out. They only delay the run.
- Other exceptions than `RequestException` are left out; they would end the run.
- Filesystem details are left out: directory creation, absolute paths, and the photo directory being a different path from the `photo` string. The model keys the disk by the `photo` string.
- Console output is left out: progress lines, percentages, and the sorted printing of the group counts.
- `main` is left out. It decides the order of the stages and exits with status 1 when neither chamber has any record; no contract here covers it.
- The JSON text of `save_json` (`json.dumps`, UTF-8, indentation) is left out. `Output.SaveJson` gives the list of records that gets serialised.

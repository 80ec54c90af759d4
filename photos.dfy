/**
 * `download_photo` and `download_photos` (scripts/scrape.py): the retry and
 * fallback policy for portraits, and the `photo` field it fills in.
 *
 * The HTTP session and the disk are replaced by values. The server is a
 * function from a URL and the position of the request in the session to
 * the outcome of that request, so that retries may see different outcomes.
 * The disk is a map from photo paths (relative to the project root, as in
 * the `photo` field) to file contents, and the session keeps the list of
 * URLs requested so far.
 */
module Photos {
  import opened Wrappers
  import opened Text
  import opened Records

  type Bytes = seq<bv8>

  /** Files and bodies must be larger than this many bytes. */
  const MinSize: nat := 500

  /** `download_photo`'s default `retries`, the one `download_photos` uses. */
  const DefaultRetries: nat := 2

  const JpegMagic: Bytes := [0xFF, 0xD8, 0xFF]
  const PngMagic: Bytes := [0x89, 0x50, 0x4E]

  /** The outcome of one `SESSION.get(url, timeout=15)`: a raised
      `RequestException`, or a response with its status, its `content-type`
      header (`""` when absent) and its body. */
  datatype Attempt = Raised | Response(status: int, contentType: string, body: Bytes)

  /** The server: the outcome of request number `n` of the session, sent to `url`. */
  type Network = (string, nat) -> Attempt

  /** The files on disk and the URLs requested so far, in order. */
  datatype World = World(files: map<string, Bytes>, requests: seq<string>)

  /** A response `download_photo` writes to disk: status 200, a body over
      500 bytes, and an image or binary content type or JPEG/PNG magic bytes. */
  predicate Accepted(a: Attempt) {
    a.Response? && a.status == 200 && |a.body| > MinSize &&
    (Contains(a.contentType, "image") || Contains(a.contentType, "octet") ||
     a.body[..3] == JpegMagic || a.body[..3] == PngMagic)
  }

  /** `filepath.exists() and filepath.stat().st_size > 500` */
  predicate HasPhoto(files: map<string, Bytes>, path: string) {
    path in files && |files[path]| > MinSize
  }

  /** `n` requests to `url`. */
  function Repeat(url: string, n: nat): (r: seq<string>)
    ensures |r| == n && forall j :: 0 <= j < n ==> r[j] == url
  {
    seq(n, _ => url)
  }

  /** The first of `tries` consecutive requests to `url`, the first being
      request number `from`, whose response is accepted. */
  function FirstAccepted(net: Network, url: string, from: nat, tries: nat): (k: Option<nat>)
    ensures k.Some? ==> k.value < tries && Accepted(net(url, from + k.value))
    ensures k.Some? ==> forall n :: from <= n < from + k.value ==> !Accepted(net(url, n))
    ensures k.None? ==> forall n :: from <= n < from + tries ==> !Accepted(net(url, n))
    decreases tries
  {
    if tries == 0 then None
    else if Accepted(net(url, from)) then Some(0)
    else
      var rest := FirstAccepted(net, url, from + 1, tries - 1);
      if rest.None? then None else Some(rest.value + 1)
  }

  /** The attempt found by a scan is the first accepted one. */
  lemma FirstAcceptedAt(net: Network, url: string, from: nat, tries: nat, k: nat)
    requires k < tries && Accepted(net(url, from + k))
    requires forall n :: from <= n < from + k ==> !Accepted(net(url, n))
    ensures FirstAccepted(net, url, from, tries) == Some(k)
  {
  }

  /** A scan that finds nothing means no attempt was accepted. */
  lemma FirstAcceptedNone(net: Network, url: string, from: nat, tries: nat)
    requires forall n :: from <= n < from + tries ==> !Accepted(net(url, n))
    ensures FirstAccepted(net, url, from, tries) == None
  {
  }

  /**
   * `download_photo(url, path, retries)`: the result and the world after
   * the call. A photo already on disk answers at once with no request;
   * otherwise at most `retries + 1` requests go to `url`, and the first
   * accepted body is written to `path`.
   */
  function FetchPhoto(w: World, url: string, path: string, retries: nat, net: Network): (r: (bool, World))
    ensures HasPhoto(w.files, path) ==> r == (true, w)
    ensures r.0 <==> HasPhoto(r.1.files, path)
    ensures |w.requests| <= |r.1.requests| <= |w.requests| + retries + 1
    ensures r.1.requests == w.requests + Repeat(url, |r.1.requests| - |w.requests|)
    ensures !HasPhoto(w.files, path) ==> |r.1.requests| > |w.requests|
    ensures r.0 && !HasPhoto(w.files, path) ==>
      Accepted(net(url, |r.1.requests| - 1)) &&
      r.1.files == w.files[path := net(url, |r.1.requests| - 1).body]
    ensures r.0 && !HasPhoto(w.files, path) ==>
      forall n :: |w.requests| <= n < |r.1.requests| - 1 ==> !Accepted(net(url, n))
    ensures !r.0 ==>
      r.1.files == w.files && |r.1.requests| == |w.requests| + retries + 1 &&
      forall n :: |w.requests| <= n <= |w.requests| + retries ==> !Accepted(net(url, n))
  {
    if HasPhoto(w.files, path) then (true, w)
    else
      match FirstAccepted(net, url, |w.requests|, retries + 1)
      case Some(k) =>
        (true, World(w.files[path := net(url, |w.requests| + k).body], w.requests + Repeat(url, k + 1)))
      case None =>
        (false, World(w.files, w.requests + Repeat(url, retries + 1)))
  }

  /** The call when attempts before number `k` were refused and attempt `k` is accepted. */
  lemma FetchPhotoAccepts(w: World, url: string, path: string, retries: nat, net: Network, k: nat)
    requires !HasPhoto(w.files, path) && k <= retries
    requires forall n :: |w.requests| <= n < |w.requests| + k ==> !Accepted(net(url, n))
    requires Accepted(net(url, |w.requests| + k))
    ensures FetchPhoto(w, url, path, retries, net) ==
      (true, World(w.files[path := net(url, |w.requests| + k).body], w.requests + Repeat(url, k + 1)))
  {
    FirstAcceptedAt(net, url, |w.requests|, retries + 1, k);
  }

  /** The call when every attempt is refused. */
  lemma FetchPhotoRejects(w: World, url: string, path: string, retries: nat, net: Network)
    requires !HasPhoto(w.files, path)
    requires forall n :: |w.requests| <= n < |w.requests| + retries + 1 ==> !Accepted(net(url, n))
    ensures FetchPhoto(w, url, path, retries, net) == (false, World(w.files, w.requests + Repeat(url, retries + 1)))
  {
    FirstAcceptedNone(net, url, |w.requests|, retries + 1);
  }

  /** One more request to `url`. */
  lemma RepeatSnoc(url: string, n: nat)
    ensures Repeat(url, n) + [url] == Repeat(url, n + 1)
  {
    assert forall j :: 0 <= j < n + 1 ==> (Repeat(url, n) + [url])[j] == url;
  }

  /** A call never loses a photo already on disk. */
  lemma FetchPhotoKeeps(w: World, url: string, path: string, retries: nat, net: Network, q: string)
    requires HasPhoto(w.files, q)
    ensures HasPhoto(FetchPhoto(w, url, path, retries, net).1.files, q)
  {
  }

  /** `download_photo` is idempotent: once a call has succeeded, the same call
      again succeeds at once, with no request and no change on disk. */
  lemma FetchPhotoIdempotent(w: World, url: string, path: string, retries: nat, net: Network)
    requires FetchPhoto(w, url, path, retries, net).0
    ensures var w1 := FetchPhoto(w, url, path, retries, net).1;
      FetchPhoto(w1, url, path, retries, net) == (true, w1)
  {
  }

  /** The requests of `retries + 1` attempts on each URL of `urls` in turn. */
  function AllAttempts(urls: seq<string>, retries: nat): (r: seq<string>)
    ensures |r| == |urls| * (retries + 1)
  {
    if urls == [] then [] else Repeat(urls[0], retries + 1) + AllAttempts(urls[1..], retries)
  }

  /** The URL loop of `download_photos`: each URL in turn until one yields a photo. */
  function FetchAny(w: World, urls: seq<string>, path: string, retries: nat, net: Network): (bool, World)
    decreases |urls|
  {
    if urls == [] then (false, w)
    else
      var first := FetchPhoto(w, urls[0], path, retries, net);
      if first.0 then first else FetchAny(first.1, urls[1..], path, retries, net)
  }

  /**
   * The URL loop yields a photo exactly when one is on disk at `path`
   * afterwards, and answers at once when one already is; with no URL there
   * is no photo, whatever is on disk. Requests are only appended, only to
   * the listed URLs, and no file other than `path` changes.
   */
  lemma {:induction false} FetchAnyContract(w: World, urls: seq<string>, path: string, retries: nat, net: Network)
    ensures var r := FetchAny(w, urls, path, retries, net);
      (urls == [] ==> r == (false, w)) &&
      (urls != [] ==> (r.0 <==> HasPhoto(r.1.files, path))) &&
      (urls != [] && HasPhoto(w.files, path) ==> r == (true, w)) &&
      |w.requests| <= |r.1.requests| && r.1.requests[..|w.requests|] == w.requests &&
      (forall j :: |w.requests| <= j < |r.1.requests| ==> r.1.requests[j] in urls) &&
      r.1.files - {path} == w.files - {path}
    decreases |urls|
  {
    if urls != [] {
      var first := FetchPhoto(w, urls[0], path, retries, net);
      if !first.0 {
        var r := FetchAny(first.1, urls[1..], path, retries, net);
        FetchAnyContract(first.1, urls[1..], path, retries, net);
        assert forall j :: |w.requests| <= j < |first.1.requests| ==> first.1.requests[j] == urls[0];
        assert r.1.requests[..|first.1.requests|][..|w.requests|] == r.1.requests[..|w.requests|];
      }
    }
  }

  /** A call never loses a photo already on disk. */
  lemma {:induction false} FetchAnyKeeps(w: World, urls: seq<string>, path: string, retries: nat, net: Network, q: string)
    requires HasPhoto(w.files, q)
    ensures HasPhoto(FetchAny(w, urls, path, retries, net).1.files, q)
    decreases |urls|
  {
    if urls != [] {
      var first := FetchPhoto(w, urls[0], path, retries, net);
      FetchPhotoKeeps(w, urls[0], path, retries, net, q);
      if !first.0 {
        FetchAnyKeeps(first.1, urls[1..], path, retries, net, q);
      }
    }
  }

  /** When no URL yields a photo, every URL was tried `retries + 1` times,
      in list order, and nothing was written. */
  lemma {:induction false} FailureTriesEverything(w: World, urls: seq<string>, path: string, retries: nat, net: Network)
    requires !FetchAny(w, urls, path, retries, net).0
    ensures FetchAny(w, urls, path, retries, net).1 == World(w.files, w.requests + AllAttempts(urls, retries))
    decreases |urls|
  {
    if urls != [] {
      var first := FetchPhoto(w, urls[0], path, retries, net);
      FailureTriesEverything(first.1, urls[1..], path, retries, net);
    }
  }

  /** Starting from `w`, the loop ended in `r` on URL `i` after `n` attempts
      on it, having tried every earlier URL `retries + 1` times; every request
      before the last was refused, the last one was accepted, and its
      response is the file at `path`. */
  ghost predicate StoppedAt(w: World, urls: seq<string>, path: string, retries: nat, net: Network, r: World, i: int, n: int) {
    0 <= i < |urls| && 1 <= n <= retries + 1 &&
    r.requests == w.requests + AllAttempts(urls[..i], retries) + Repeat(urls[i], n) &&
    (forall j :: |w.requests| <= j < |r.requests| - 1 ==> !Accepted(net(r.requests[j], j))) &&
    Accepted(net(urls[i], |r.requests| - 1)) &&
    r.files == w.files[path := net(urls[i], |r.requests| - 1).body]
  }

  /**
   * When a photo is downloaded, the URLs before the one that worked were
   * each tried `retries + 1` times, that one between 1 and `retries + 1`
   * times, and its last accepted response is the file written.
   */
  lemma {:induction false} SuccessStopsAtFirstWorkingUrl(w: World, urls: seq<string>, path: string, retries: nat, net: Network)
    requires !HasPhoto(w.files, path)
    requires FetchAny(w, urls, path, retries, net).0
    ensures exists i, n :: StoppedAt(w, urls, path, retries, net, FetchAny(w, urls, path, retries, net).1, i, n)
    decreases |urls|
  {
    var r := FetchAny(w, urls, path, retries, net).1;
    var first := FetchPhoto(w, urls[0], path, retries, net);
    if first.0 {
      StopsOnFirstUrl(w, urls, path, retries, net);
    } else {
      SuccessStopsAtFirstWorkingUrl(first.1, urls[1..], path, retries, net);
      var i, n :| StoppedAt(first.1, urls[1..], path, retries, net, r, i, n);
      StopsOnLaterUrl(w, urls, path, retries, net, r, i, n);
    }
  }

  /** The first URL yields the photo. */
  lemma StopsOnFirstUrl(w: World, urls: seq<string>, path: string, retries: nat, net: Network)
    requires !HasPhoto(w.files, path) && urls != []
    requires FetchPhoto(w, urls[0], path, retries, net).0
    ensures StoppedAt(w, urls, path, retries, net, FetchAny(w, urls, path, retries, net).1, 0,
                      |FetchAny(w, urls, path, retries, net).1.requests| - |w.requests|)
  {
    var r := FetchAny(w, urls, path, retries, net).1;
    assert urls[..0] == [];
    forall j | |w.requests| <= j < |r.requests| - 1 ensures !Accepted(net(r.requests[j], j)) {
      assert r.requests[j] == urls[0];
    }
  }

  /** The first URL fails on every attempt and a later one yields the photo. */
  lemma StopsOnLaterUrl(w: World, urls: seq<string>, path: string, retries: nat, net: Network, r: World, i: int, n: int)
    requires !HasPhoto(w.files, path) && urls != []
    requires !FetchPhoto(w, urls[0], path, retries, net).0
    requires StoppedAt(FetchPhoto(w, urls[0], path, retries, net).1, urls[1..], path, retries, net, r, i, n)
    ensures StoppedAt(w, urls, path, retries, net, r, i + 1, n)
  {
    var mid := FetchPhoto(w, urls[0], path, retries, net).1;
    assert urls[..i + 1] == [urls[0]] + urls[1..][..i];
    assert AllAttempts(urls[..i + 1], retries) == Repeat(urls[0], retries + 1) + AllAttempts(urls[1..][..i], retries);
    forall j | |w.requests| <= j < |mid.requests| ensures !Accepted(net(r.requests[j], j)) {
      assert r.requests[j] == mid.requests[j] == urls[0];
    }
  }

  /** The fallback in one example: the first URL fails on every attempt,
      the second URL's first response is accepted and written. */
  lemma FallsBackToSecondUrl(w: World, u1: string, u2: string, path: string, retries: nat, net: Network)
    requires !HasPhoto(w.files, path)
    requires forall n :: |w.requests| <= n <= |w.requests| + retries ==> !Accepted(net(u1, n))
    requires Accepted(net(u2, |w.requests| + retries + 1))
    ensures FetchAny(w, [u1, u2], path, retries, net) ==
      (true, World(w.files[path := net(u2, |w.requests| + retries + 1).body],
                   w.requests + Repeat(u1, retries + 1) + [u2]))
  {
    var first := FetchPhoto(w, u1, path, retries, net);
    assert [u1, u2][1..] == [u2];
    assert first.1.requests + Repeat(u2, 1) == w.requests + Repeat(u1, retries + 1) + [u2];
  }

  // ---------------------------------------------------------------------
  // Records
  // ---------------------------------------------------------------------

  /** `pol.get("photo_urls") or ([pol["photo_url"]] if pol.get("photo_url") else [])` */
  function CandidateUrls(p: Politician): (urls: seq<string>)
    ensures p.photoUrls.Some? && p.photoUrls.value != [] ==> urls == p.photoUrls.value
    ensures (p.photoUrls.None? || p.photoUrls.value == []) && p.photoUrl.Some? && p.photoUrl.value != "" ==>
              urls == [p.photoUrl.value]
    ensures urls == [] <==> (p.photoUrls.None? || p.photoUrls.value == []) && (p.photoUrl.None? || p.photoUrl.value == "")
  {
    if p.photoUrls.Some? && p.photoUrls.value != [] then p.photoUrls.value
    else if p.photoUrl.Some? && p.photoUrl.value != "" then [p.photoUrl.value]
    else []
  }

  /** `f"photos/{subdir}/{pol['id']}.jpg"`: both the file written and the
      value stored in `photo`. */
  function PhotoPath(subdir: string, id: string): (path: string)
    ensures path != "" && EndsWith(path, ".jpg")
  {
    "photos/" + subdir + "/" + id + ".jpg"
  }

  /**
   * One pass of the record loop: the record with `photo` set, and the world
   * after its downloads. `photo` is the photo path exactly when a download
   * succeeded, and `""` otherwise; nothing else in the record changes.
   */
  function EnrichOne(w: World, p: Politician, subdir: string, net: Network): (r: (Politician, World))
    ensures r.0 == p.(photo := r.0.photo)
    ensures r.0.photo != "" <==> FetchAny(w, CandidateUrls(p), PhotoPath(subdir, p.id), DefaultRetries, net).0
    ensures r.0.photo == "" || (r.0.photo == PhotoPath(subdir, p.id) && HasPhoto(r.1.files, r.0.photo))
    ensures r.1 == FetchAny(w, CandidateUrls(p), PhotoPath(subdir, p.id), DefaultRetries, net).1
  {
    var path := PhotoPath(subdir, p.id);
    FetchAnyContract(w, CandidateUrls(p), path, DefaultRetries, net);
    var got := FetchAny(w, CandidateUrls(p), path, DefaultRetries, net);
    (p.(photo := if got.0 then path else ""), got.1)
  }

  /** A record whose file is already on disk gets its path with no request. */
  lemma ExistingFileSkipsDownload(w: World, p: Politician, subdir: string, net: Network)
    requires HasPhoto(w.files, PhotoPath(subdir, p.id)) && CandidateUrls(p) != []
    ensures EnrichOne(w, p, subdir, net) == (p.(photo := PhotoPath(subdir, p.id)), w)
  {
  }

  /** A record without URLs gets no photo and makes no request, even when a
      file is already on disk for it. */
  lemma NoUrlNoPhoto(w: World, p: Politician, subdir: string, net: Network)
    requires CandidateUrls(p) == []
    ensures EnrichOne(w, p, subdir, net) == (p.(photo := ""), w)
  {
  }

  /** The records and the world once the record loop has seen all of `ps`. */
  function EnrichAll(w: World, ps: seq<Politician>, subdir: string, net: Network): (seq<Politician>, World)
  {
    if ps == [] then ([], w)
    else
      var before := EnrichAll(w, ps[..|ps| - 1], subdir, net);
      var last := EnrichOne(before.1, ps[|ps| - 1], subdir, net);
      (before.0 + [last.0], last.1)
  }

  /**
   * What the record loop leaves: one record per input, in order, each equal
   * to its input but for `photo`, which is `""` or the record's photo path;
   * every recorded path names a photo on disk, and no photo that was on
   * disk is lost.
   */
  lemma {:induction false} EnrichAllShape(w: World, ps: seq<Politician>, subdir: string, net: Network)
    ensures var r := EnrichAll(w, ps, subdir, net);
      |r.0| == |ps| &&
      (forall i :: 0 <= i < |ps| ==> r.0[i] == ps[i].(photo := r.0[i].photo)) &&
      (forall i :: 0 <= i < |ps| ==> r.0[i].photo == "" || r.0[i].photo == PhotoPath(subdir, ps[i].id)) &&
      (forall i :: 0 <= i < |ps| && r.0[i].photo != "" ==> HasPhoto(r.1.files, r.0[i].photo)) &&
      (forall q :: HasPhoto(w.files, q) ==> HasPhoto(r.1.files, q))
    decreases |ps|
  {
    if ps != [] {
      var before := EnrichAll(w, ps[..|ps| - 1], subdir, net);
      var last := EnrichOne(before.1, ps[|ps| - 1], subdir, net);
      EnrichAllShape(w, ps[..|ps| - 1], subdir, net);
      EnrichOneKeeps(before.1, ps[|ps| - 1], subdir, net);
      assert ps == ps[..|ps| - 1] + [ps[|ps| - 1]];
      ShapeSnoc(ps[..|ps| - 1], before.0, ps[|ps| - 1], last.0, subdir, w.files, before.1.files, last.1.files);
    }
  }

  /** The shape `EnrichAllShape` states survives one more record. */
  lemma ShapeSnoc(ps: seq<Politician>, rs: seq<Politician>, p: Politician, r: Politician, subdir: string,
                  f0: map<string, Bytes>, f1: map<string, Bytes>, f2: map<string, Bytes>)
    requires |rs| == |ps|
    requires forall i :: 0 <= i < |ps| ==> rs[i] == ps[i].(photo := rs[i].photo)
    requires forall i :: 0 <= i < |ps| ==> rs[i].photo == "" || rs[i].photo == PhotoPath(subdir, ps[i].id)
    requires forall i :: 0 <= i < |ps| && rs[i].photo != "" ==> HasPhoto(f1, rs[i].photo)
    requires forall q :: HasPhoto(f0, q) ==> HasPhoto(f1, q)
    requires r == p.(photo := r.photo)
    requires r.photo == "" || (r.photo == PhotoPath(subdir, p.id) && HasPhoto(f2, r.photo))
    requires forall q :: HasPhoto(f1, q) ==> HasPhoto(f2, q)
    ensures var ps', rs' := ps + [p], rs + [r];
      |rs'| == |ps'| &&
      (forall i :: 0 <= i < |ps'| ==> rs'[i] == ps'[i].(photo := rs'[i].photo)) &&
      (forall i :: 0 <= i < |ps'| ==> rs'[i].photo == "" || rs'[i].photo == PhotoPath(subdir, ps'[i].id)) &&
      (forall i :: 0 <= i < |ps'| && rs'[i].photo != "" ==> HasPhoto(f2, rs'[i].photo)) &&
      (forall q :: HasPhoto(f0, q) ==> HasPhoto(f2, q))
  {
  }

  /** One record's download never loses a photo already on disk. */
  lemma EnrichOneKeeps(w: World, p: Politician, subdir: string, net: Network)
    ensures forall q :: HasPhoto(w.files, q) ==> HasPhoto(EnrichOne(w, p, subdir, net).1.files, q)
  {
    forall q | HasPhoto(w.files, q)
      ensures HasPhoto(EnrichOne(w, p, subdir, net).1.files, q)
    {
      FetchAnyKeeps(w, CandidateUrls(p), PhotoPath(subdir, p.id), DefaultRetries, net, q);
    }
  }

  /** One more pass of the record loop. */
  lemma EnrichAllStep(w: World, ps: seq<Politician>, i: nat, subdir: string, net: Network)
    requires i < |ps|
    ensures var before := EnrichAll(w, ps[..i], subdir, net);
      var last := EnrichOne(before.1, ps[i], subdir, net);
      EnrichAll(w, ps[..i + 1], subdir, net) == (before.0 + [last.0], last.1)
  {
    assert ps[..i + 1][..i] == ps[..i];
  }

  /** `[p for p in politicians if p["photo"]]` */
  function WithPhoto(ps: seq<Politician>): (r: seq<Politician>)
    ensures |r| <= |ps|
    ensures forall p :: p in r <==> p in ps && p.photo != ""
  {
    if ps == [] then []
    else WithPhoto(ps[..|ps| - 1]) + (if ps[|ps| - 1].photo != "" then [ps[|ps| - 1]] else [])
  }

  /** The filter on one more record. */
  lemma WithPhotoSnoc(ps: seq<Politician>, p: Politician)
    ensures |WithPhoto(ps + [p])| == |WithPhoto(ps)| + (if p.photo != "" then 1 else 0)
  {
    assert (ps + [p])[..|ps|] == ps;
  }

  /** The filter keeps the original order: it distributes over concatenation. */
  lemma {:induction false} WithPhotoAppend(a: seq<Politician>, b: seq<Politician>)
    ensures WithPhoto(a + b) == WithPhoto(a) + WithPhoto(b)
    decreases |b|
  {
    if b == [] {
      assert a + b == a;
    } else {
      assert (a + b)[..|a + b| - 1] == a + b[..|b| - 1];
      assert (a + b)[|a + b| - 1] == b[|b| - 1];
      WithPhotoAppend(a, b[..|b| - 1]);
    }
  }

  /** The session and the disk, updated in place. */
  class PhotoStore {
    var files: map<string, Bytes>
    var requests: seq<string>

    function State(): World
      reads this
    {
      World(files, requests)
    }

    /** A fresh session over the given disk. */
    constructor (disk: map<string, Bytes>)
      ensures State() == World(disk, [])
    {
      files := disk;
      requests := [];
    }

    /** `download_photo(url, filepath, retries)` */
    method DownloadPhoto(url: string, path: string, retries: nat, net: Network) returns (ok: bool)
      modifies this
      ensures (ok, State()) == FetchPhoto(old(State()), url, path, retries, net)
    {
      if path in files && |files[path]| > MinSize {
        return true;
      }
      ghost var w := State();
      var attempt := 0;
      while attempt < retries + 1
        invariant 0 <= attempt <= retries + 1
        invariant files == w.files
        invariant requests == w.requests + Repeat(url, attempt)
        invariant forall n :: |w.requests| <= n < |w.requests| + attempt ==> !Accepted(net(url, n))
      {
        ghost var n := |w.requests| + attempt;
        var resp := net(url, |requests|);
        assert resp == net(url, n);
        RepeatSnoc(url, attempt);
        requests := requests + [url];
        assert requests == w.requests + Repeat(url, attempt + 1);
        var accepted := false;
        if resp.Response? && resp.status == 200 && |resp.body| > MinSize {
          var ct := resp.contentType;
          accepted := Contains(ct, "image") || Contains(ct, "octet") || resp.body[..3] == JpegMagic || resp.body[..3] == PngMagic;
        }
        if accepted {
          assert Accepted(net(url, n));
          files := files[path := resp.body];
          FetchPhotoAccepts(w, url, path, retries, net, attempt);
          return true;
        }
        attempt := attempt + 1;
      }
      FetchPhotoRejects(w, url, path, retries, net);
      return false;
    }

    /** The URL loop of `download_photos`: each URL in turn, stopping at the
        first one that yields a photo. */
    method DownloadAny(urls: seq<string>, path: string, retries: nat, net: Network) returns (downloaded: bool)
      modifies this
      ensures (downloaded, State()) == FetchAny(old(State()), urls, path, retries, net)
    {
      var j := 0;
      while j < |urls|
        invariant 0 <= j <= |urls|
        invariant FetchAny(old(State()), urls, path, retries, net) == FetchAny(State(), urls[j..], path, retries, net)
      {
        assert urls[j..][1..] == urls[j + 1..];
        var ok := DownloadPhoto(urls[j], path, retries, net);
        if ok {
          return true;
        }
        j := j + 1;
      }
      return false;
    }

    /** The body of the record loop of `download_photos`: the record with
        `photo` set, and whether a download succeeded. */
    method DownloadOne(pol: Politician, subdir: string, net: Network) returns (updated: Politician, downloaded: bool)
      modifies this
      ensures (updated, State()) == EnrichOne(old(State()), pol, subdir, net)
      ensures downloaded <==> updated.photo != ""
    {
      var fp := PhotoPath(subdir, pol.id);
      downloaded := DownloadAny(CandidateUrls(pol), fp, DefaultRetries, net);
      if downloaded {
        updated := pol.(photo := fp);
      } else {
        updated := pol.(photo := "");
      }
    }

    /**
     * `download_photos(politicians, subdir)`: sets `photo` on every record
     * in place, and returns the records that have one, with the counts of
     * downloads that succeeded and failed.
     */
    method DownloadPhotos(pols: array<Politician>, subdir: string, net: Network)
      returns (kept: seq<Politician>, ok: nat, fail: nat)
      modifies this, pols
      ensures (pols[..], State()) == EnrichAll(old(State()), old(pols[..]), subdir, net)
      ensures kept == WithPhoto(pols[..])
      ensures ok == |kept| && ok + fail == pols.Length
    {
      ghost var start := State();
      ghost var input := pols[..];
      ghost var done: seq<Politician> := [];
      ok, fail := 0, 0;
      var i := 0;
      while i < pols.Length
        invariant 0 <= i <= pols.Length && |done| == i
        invariant forall k :: 0 <= k < i ==> pols[k] == done[k]
        invariant forall k :: i <= k < pols.Length ==> pols[k] == input[k]
        invariant (done, State()) == EnrichAll(start, input[..i], subdir, net)
        invariant ok == |WithPhoto(done)| && ok + fail == i
      {
        var pol := pols[i];
        var updated, downloaded := DownloadOne(pol, subdir, net);
        ghost var prior := pols[..];
        pols[i] := updated;
        assert pols[..] == prior[i := updated];
        if downloaded {
          ok := ok + 1;
        } else {
          fail := fail + 1;
        }
        EnrichAllStep(start, input, i, subdir, net);
        WithPhotoSnoc(done, updated);
        done := done + [updated];
        forall k | 0 <= k <= i ensures pols[k] == done[k] {
          if k < i {
            assert pols[k] == prior[k];
          }
        }
        i := i + 1;
      }
      assert pols[..] == done;
      assert input[..i] == input;
      kept := WithPhoto(pols[..]);
    }
  }
}

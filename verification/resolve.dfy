/**
 * The update and download decisions of src/handler.js (`serveUpdateRequest`,
 * `serveDownloadRequest`; the same logic in the root index.js), returned as
 * an outcome instead of being written to the response.
 */
module Resolve {
  import opened Wrappers
  import opened Keys
  import opened Catalog
  import SemVer

  /** `versions[os][arch]`; a missing bucket reads as empty. */
  function Bucket(c: Catalog, os: string, arch: string): seq<Record> {
    if OsArch(os, arch) in c then c[OsArch(os, arch)] else []
  }

  /** An update check: the client's coerced version and the optional fifth path piece. */
  datatype UpdateRequest = UpdateRequest(os: string, arch: string, curVersion: Option<SemVer.Version>, aux: Option<string>)

  /** A download request: the version piece verbatim ("latest" or a version). */
  datatype DownloadRequest = DownloadRequest(os: string, arch: string, version: string)

  /**
   * What a request resolves to: a 404, a 204, the storage key to hand to
   * `serveBinaryFile` (absent when the record lacks that role), or an
   * exception thrown by `semver.gt`.
   */
  datatype Outcome = NotFound | NoContent | Serve(key: Option<string>) | Error

  /**
   * `serveUpdateRequest`: the feed of the latest record on request, else its
   * update artifact only if it is strictly newer than the client.
   */
  function ResolveUpdate(c: Catalog, ur: UpdateRequest): (o: Outcome)
    ensures o == NotFound <==> |Bucket(c, ur.os, ur.arch)| == 0
    ensures |Bucket(c, ur.os, ur.arch)| > 0 && ur.aux == Some("RELEASES") ==>
      o == Serve(Bucket(c, ur.os, ur.arch)[0].releases)
    ensures o.Serve? && ur.aux != Some("RELEASES") ==>
      var latest := Bucket(c, ur.os, ur.arch)[0];
      && Parses(latest) && ur.curVersion.Some?
      && SemVer.Less(ur.curVersion.value, Ver(latest))
      && o.key == latest.updatePath
    ensures o == NoContent <==>
      && |Bucket(c, ur.os, ur.arch)| > 0 && ur.aux != Some("RELEASES")
      && Parses(Bucket(c, ur.os, ur.arch)[0]) && ur.curVersion.Some?
      && !SemVer.Less(ur.curVersion.value, Ver(Bucket(c, ur.os, ur.arch)[0]))
    ensures o == Error <==>
      && |Bucket(c, ur.os, ur.arch)| > 0 && ur.aux != Some("RELEASES")
      && (!Parses(Bucket(c, ur.os, ur.arch)[0]) || ur.curVersion.None?)
  {
    var b := Bucket(c, ur.os, ur.arch);
    if |b| == 0 then NotFound
    else if ur.aux == Some("RELEASES") then Serve(b[0].releases)
    else if !Parses(b[0]) || ur.curVersion.None? then Error
    else if SemVer.Less(ur.curVersion.value, Ver(b[0])) then Serve(b[0].updatePath)
    else NoContent
  }

  /** The index `forEach` leaves in `served`: the last record with that version string. */
  function LastWithVersion(b: seq<Record>, v: string): (r: Option<nat>)
    ensures r.Some? ==> r.value < |b| && b[r.value].version == v
    ensures r.Some? ==> forall j :: r.value < j < |b| ==> b[j].version != v
    ensures r.None? ==> forall j :: 0 <= j < |b| ==> b[j].version != v
    decreases |b|
  {
    if |b| == 0 then None
    else if b[|b| - 1].version == v then Some(|b| - 1)
    else LastWithVersion(b[..|b| - 1], v)
  }

  /**
   * `serveDownloadRequest`: "latest" is the head of the bucket; anything else
   * is coerced and matched by equality of the stored string with the coerced
   * version's text. A failed coercion compares against null and matches nothing.
   */
  function ResolveDownload(c: Catalog, dr: DownloadRequest): (o: Outcome)
    ensures o == NotFound || o.Serve?
    ensures o.Serve? ==> exists i :: 0 <= i < |Bucket(c, dr.os, dr.arch)| && o.key == Bucket(c, dr.os, dr.arch)[i].downloadPath
    ensures dr.version == "latest" && |Bucket(c, dr.os, dr.arch)| > 0 ==>
      o == Serve(Bucket(c, dr.os, dr.arch)[0].downloadPath)
    ensures dr.version != "latest" && o.Serve? ==>
      SemVer.Coerce(dr.version).Some?
      && exists i :: 0 <= i < |Bucket(c, dr.os, dr.arch)|
           && Bucket(c, dr.os, dr.arch)[i].version == SemVer.Format(SemVer.Coerce(dr.version).value)
           && o.key == Bucket(c, dr.os, dr.arch)[i].downloadPath
    ensures dr.version != "latest" && o == NotFound ==>
      SemVer.Coerce(dr.version).None?
      || forall i :: 0 <= i < |Bucket(c, dr.os, dr.arch)| ==>
           Bucket(c, dr.os, dr.arch)[i].version != SemVer.Format(SemVer.Coerce(dr.version).value)
  {
    var b := Bucket(c, dr.os, dr.arch);
    if |b| == 0 then NotFound
    else if dr.version == "latest" then Serve(b[0].downloadPath)
    else match SemVer.Coerce(dr.version)
      case None => NotFound
      case Some(v) =>
        match LastWithVersion(b, SemVer.Format(v))
        case None => NotFound
        case Some(i) => Serve(b[i].downloadPath)
  }

  /** With distinct version strings the matching record is the only one. */
  lemma OnlyMatch(b: seq<Record>, v: string, i: nat)
    requires UniqueVersions(b) && i < |b| && b[i].version == v
    ensures LastWithVersion(b, v) == Some(i)
  {
  }

  /** A pair without a bucket, such as freebsd/x64, is not found by either resolver. */
  lemma UnknownPairNotFound(keys: seq<string>, rules: seq<Rule>, c: Catalog, os: string, arch: string,
                            ur: UpdateRequest, dr: DownloadRequest)
    requires Build(keys, rules) == Success(c) && OsArch(os, arch) !in KnownPairs
    requires ur.os == os && ur.arch == arch && dr.os == os && dr.arch == arch
    ensures ResolveUpdate(c, ur) == NotFound && ResolveDownload(c, dr) == NotFound
  {
  }

  // ------------------------------------------------ end-to-end properties

  /**
   * Against a built catalog, an update is offered only from the newest
   * listed version for the pair, only when it is newer than the client,
   * and it is the last update key listed for that version.
   */
  lemma UpdateOffersNewest(keys: seq<string>, rules: seq<Rule>, c: Catalog, ur: UpdateRequest)
    requires Build(keys, rules) == Success(c)
    requires ur.aux != Some("RELEASES") && ResolveUpdate(c, ur).Serve?
    ensures ur.curVersion.Some?
    ensures exists v ::
      && Seen(keys, rules, Triple(ur.os, ur.arch, v))
      && SemVer.Parse(v).Some?
      && SemVer.Less(ur.curVersion.value, SemVer.Parse(v).value)
      && ResolveUpdate(c, ur).key == LastKey(keys, rules, Triple(ur.os, ur.arch, v), Update)
      && (forall w :: Seen(keys, rules, Triple(ur.os, ur.arch, w)) ==>
            SemVer.Parse(w).Some? && !SemVer.Less(SemVer.Parse(v).value, SemVer.Parse(w).value))
  {
    var p := OsArch(ur.os, ur.arch);
    assert p in KnownPairs;
    var b := c[p];
    assert Bucket(c, ur.os, ur.arch) == b && |b| > 0;
    var v := b[0].version;
    FirstListed(keys, rules, c, p);
    forall w | Seen(keys, rules, Triple(ur.os, ur.arch, w))
      ensures SemVer.Parse(w).Some? && !SemVer.Less(SemVer.Parse(v).value, SemVer.Parse(w).value)
    {
      if w != v {
        BuildNewestFirst(keys, rules, c, p, w);
      }
    }
  }

  /** Against a built catalog, "no content" means no listed version is newer than the client. */
  lemma NoContentMeansCurrent(keys: seq<string>, rules: seq<Rule>, c: Catalog, ur: UpdateRequest)
    requires Build(keys, rules) == Success(c)
    requires ResolveUpdate(c, ur) == NoContent
    ensures ur.curVersion.Some?
    ensures forall w :: Seen(keys, rules, Triple(ur.os, ur.arch, w)) && SemVer.Parse(w).Some? ==>
      !SemVer.Less(ur.curVersion.value, SemVer.Parse(w).value)
  {
    var p := OsArch(ur.os, ur.arch);
    var b := Bucket(c, ur.os, ur.arch);
    assert p in KnownPairs;
    forall w | Seen(keys, rules, Triple(ur.os, ur.arch, w)) && SemVer.Parse(w).Some?
      ensures !SemVer.Less(ur.curVersion.value, SemVer.Parse(w).value)
    {
      if w != b[0].version {
        BuildNewestFirst(keys, rules, c, p, w);
      }
    }
  }

  /**
   * Against a built catalog, a specific download serves the last download
   * key listed for the coerced version, and nothing when that version is
   * not listed: there is no fallback to a nearby version.
   */
  lemma DownloadExact(keys: seq<string>, rules: seq<Rule>, c: Catalog, dr: DownloadRequest)
    requires Build(keys, rules) == Success(c)
    requires OsArch(dr.os, dr.arch) in KnownPairs && dr.version != "latest"
    ensures ResolveDownload(c, dr) ==
      match SemVer.Coerce(dr.version)
      case None => NotFound
      case Some(v) =>
        var t := Triple(dr.os, dr.arch, SemVer.Format(v));
        if Seen(keys, rules, t) then Serve(LastKey(keys, rules, t, Download)) else NotFound
  {
    match SemVer.Coerce(dr.version)
    case None =>
    case Some(v) =>
      var t := Triple(dr.os, dr.arch, SemVer.Format(v));
      if Seen(keys, rules, t) {
        DownloadListed(keys, rules, c, dr, v);
      } else {
        DownloadUnlisted(keys, rules, c, dr, v);
      }
  }

  lemma DownloadListed(keys: seq<string>, rules: seq<Rule>, c: Catalog, dr: DownloadRequest, v: SemVer.Version)
    requires Build(keys, rules) == Success(c)
    requires OsArch(dr.os, dr.arch) in KnownPairs && dr.version != "latest"
    requires SemVer.Coerce(dr.version) == Some(v)
    requires Seen(keys, rules, Triple(dr.os, dr.arch, SemVer.Format(v)))
    ensures ResolveDownload(c, dr) == Serve(LastKey(keys, rules, Triple(dr.os, dr.arch, SemVer.Format(v)), Download))
  {
    var p := OsArch(dr.os, dr.arch);
    var i := ListedAt(keys, rules, c, p, SemVer.Format(v));
    assert Bucket(c, dr.os, dr.arch) == c[p];
  }

  /** A listed version sits at one index of its bucket, which holds that version's last download key. */
  lemma ListedAt(keys: seq<string>, rules: seq<Rule>, c: Catalog, p: OsArch, f: string) returns (i: nat)
    requires Build(keys, rules) == Success(c) && p in KnownPairs
    requires Seen(keys, rules, Triple(p.os, p.arch, f))
    ensures i < |c[p]| && LastWithVersion(c[p], f) == Some(i)
    ensures c[p][i].downloadPath == LastKey(keys, rules, Triple(p.os, p.arch, f), Download)
  {
    BuildVersionSeen(keys, rules, c, p, f);
    i :| 0 <= i < |c[p]| && c[p][i].version == f;
    assert UniqueVersions(c[p]) by {
      BuildBucket(keys, rules, c, p);
    }
    OnlyMatch(c[p], f, i);
    BuildRecord(keys, rules, c, p, i);
    assert c[p][i].Path(Download) == LastKey(keys, rules, c[p][i].Id(), Download);
  }

  lemma DownloadUnlisted(keys: seq<string>, rules: seq<Rule>, c: Catalog, dr: DownloadRequest, v: SemVer.Version)
    requires Build(keys, rules) == Success(c)
    requires OsArch(dr.os, dr.arch) in KnownPairs && dr.version != "latest"
    requires SemVer.Coerce(dr.version) == Some(v)
    requires !Seen(keys, rules, Triple(dr.os, dr.arch, SemVer.Format(v)))
    ensures ResolveDownload(c, dr) == NotFound
  {
    BuildVersionSeen(keys, rules, c, OsArch(dr.os, dr.arch), SemVer.Format(v));
  }

  /** The first record of a non-empty bucket is a listed version, holding that version's last keys. */
  lemma FirstListed(keys: seq<string>, rules: seq<Rule>, c: Catalog, p: OsArch)
    requires Build(keys, rules) == Success(c) && p in KnownPairs && |c[p]| > 0
    ensures Seen(keys, rules, Triple(p.os, p.arch, c[p][0].version))
    ensures c[p][0].downloadPath == LastKey(keys, rules, Triple(p.os, p.arch, c[p][0].version), Download)
    ensures c[p][0].updatePath == LastKey(keys, rules, Triple(p.os, p.arch, c[p][0].version), Update)
  {
    var r := c[p][0];
    BuildRecord(keys, rules, c, p, 0);
    assert r.Id() == Triple(p.os, p.arch, r.version);
    assert r.Path(Download) == r.downloadPath && r.Path(Update) == r.updatePath;
    BuildVersionSeen(keys, rules, c, p, r.version);
  }

  /** "latest" serves the download key of the newest listed version. */
  lemma DownloadLatestIsNewest(keys: seq<string>, rules: seq<Rule>, c: Catalog, dr: DownloadRequest)
    requires Build(keys, rules) == Success(c)
    requires dr.version == "latest" && ResolveDownload(c, dr).Serve?
    ensures exists v ::
      && Seen(keys, rules, Triple(dr.os, dr.arch, v))
      && ResolveDownload(c, dr).key == LastKey(keys, rules, Triple(dr.os, dr.arch, v), Download)
      && (forall w :: Seen(keys, rules, Triple(dr.os, dr.arch, w)) && w != v ==>
            SemVer.Parse(v).Some? && SemVer.Parse(w).Some?
            && SemVer.Less(SemVer.Parse(w).value, SemVer.Parse(v).value))
  {
    var p := OsArch(dr.os, dr.arch);
    assert p in KnownPairs;
    var b := c[p];
    assert Bucket(c, dr.os, dr.arch) == b && |b| > 0;
    var v := b[0].version;
    FirstListed(keys, rules, c, p);
    forall w | Seen(keys, rules, Triple(dr.os, dr.arch, w)) && w != v
      ensures SemVer.Parse(v).Some? && SemVer.Parse(w).Some?
        && SemVer.Less(SemVer.Parse(w).value, SemVer.Parse(v).value)
    {
      BuildNewestFirst(keys, rules, c, p, w);
    }
  }
}

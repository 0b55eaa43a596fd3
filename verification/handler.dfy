/**
 * Request routing in src/handler.js: `dispatchUrl` strips the query,
 * splits the path, tries the update parser before the download parser,
 * resolves against the catalog and writes the answer.
 */
module Handler {
  import opened Wrappers
  import opened Strings
  import SemVer
  import opened Catalog
  import opened Resolve
  import opened Json
  import opened Adapter
  import opened Storage
  import opened Keys

  /** The match of `[^?]*` at the start of the URL: the longest prefix without a question mark. */
  function StripQuery(url: string): (u: string)
    ensures '?' !in u && StartsWith(url, u)
    ensures u == url || url[|u|] == '?'
  {
    match IndexOf(url, '?')
    case None => url
    case Some(i) => url[..i]
  }

  /** The path pieces: split on `/`, with the piece before the leading slash shifted off. */
  function Pieces(path: string): (p: seq<string>)
    ensures forall i :: 0 <= i < |p| ==> '/' !in p[i]
  {
    Split(path, '/')[1..]
  }

  /** `/update/os/arch/version[/aux...]`; the client version is coerced, a fifth piece is kept. */
  function ParseUpdateRequest(pieces: seq<string>): (r: Option<UpdateRequest>)
    ensures r.Some? <==> |pieces| >= 4 && pieces[0] == "update"
    ensures r.Some? ==> (r.value.aux.Some? <==> |pieces| >= 5)
  {
    if |pieces| >= 4 && pieces[0] == "update" then
      Some(UpdateRequest(pieces[1], pieces[2], SemVer.Coerce(pieces[3]),
                         if |pieces| >= 5 then Some(pieces[4]) else None))
    else None
  }

  /** `/download/os/arch/version[/...]`; the version piece is kept verbatim. */
  function ParseDownloadRequest(pieces: seq<string>): (r: Option<DownloadRequest>)
    ensures r.Some? <==> |pieces| >= 4 && pieces[0] == "download"
  {
    if |pieces| >= 4 && pieces[0] == "download" then
      Some(DownloadRequest(pieces[1], pieces[2], pieces[3]))
    else None
  }

  datatype Route = IndexPage | UpdateRoute(ur: UpdateRequest) | DownloadRoute(dr: DownloadRequest) | NoRoute

  /** Where `dispatchUrl` sends a URL. */
  function RouteUrl(url: string): (r: Route)
    ensures r == IndexPage <==> url == "/"
    ensures r.UpdateRoute? <==> url != "/" && ParseUpdateRequest(Pieces(StripQuery(url))).Some?
    ensures r.DownloadRoute? <==> url != "/" && ParseDownloadRequest(Pieces(StripQuery(url))).Some?
  {
    if url == "/" then IndexPage
    else
      var pieces := Pieces(StripQuery(url));
      match ParseUpdateRequest(pieces)
      case Some(ur) => UpdateRoute(ur)
      case None =>
        match ParseDownloadRequest(pieces)
        case Some(dr) => DownloadRoute(dr)
        case None => NoRoute
  }

  // ------------------------------------------------------------ answers

  /** What a request ends in: the static index page, an exception, or a written response. */
  datatype Reply = ServeIndex | Threw | Sent(response: Response)

  function NotFoundBody(): Fields {
    [("success", JBool(false)), ("error", JStr("Not Found"))]
  }

  /** `notFound`: 404 with a JSON error body. */
  function NotFound(res: Response): (r: Response)
    ensures r.code == 404 && r.headers == res.headers["Content-Type" := JsonType]
    ensures ParseObject(Added(res, r)) == Some(NotFoundBody())
  {
    MergeOne(res.headers, "Content-Type", JsonType);
    var h := WriteHead(res, 404, map["Content-Type" := JsonType]);
    AppendedJson(h, NotFoundBody());
    End(h, Str(Stringify(NotFoundBody())))
  }

  /** The "no update" answer: 204 and nothing written. */
  function NoUpdate(res: Response): (r: Response)
    ensures r.code == 204 && r.headers == res.headers["Content-Type" := OctetType] && r.data == res.data
  {
    MergeOne(res.headers, "Content-Type", OctetType);
    End(WriteHead(res, 204, map["Content-Type" := OctetType]), Undefined)
  }

  /** Carries out a resolver outcome; artifacts are served with no flavour, so they redirect. */
  function Answer(res: Response, o: Outcome, signing: Signing): (r: Reply)
    ensures o == Outcome.NotFound ==> r == Sent(NotFound(res))
    ensures o == NoContent ==> r == Sent(NoUpdate(res))
    ensures o == Error ==> r == Threw
    ensures o.Serve? ==> (r == Threw <==> o.key.None? || FileName(o.key.value).None?)
    ensures o.Serve? && r.Sent? ==> r.response.code == (if signing.Signed? then 303 else 500)
  {
    match o
    case NotFound => Sent(NotFound(res))
    case NoContent => Sent(NoUpdate(res))
    case Error => Threw
    case Serve(key) =>
      match ServeBinaryFile(res, key, None, signing)
      case None => Threw
      case Some(r) => Sent(r)
  }

  /** `dispatchUrl` against the catalog `c`, writing to `res`. */
  function DispatchUrl(c: Catalog, url: string, res: Response, signing: Signing): (r: Reply)
    ensures r == ServeIndex <==> url == "/"
  {
    match RouteUrl(url)
    case IndexPage => ServeIndex
    case UpdateRoute(ur) => Answer(res, ResolveUpdate(c, ur), signing)
    case DownloadRoute(dr) => Answer(res, ResolveDownload(c, dr), signing)
    case NoRoute => Sent(NotFound(res))
  }

  // --------------------------------------------------- URLs the clients send

  /** A path segment a client can put in a URL unambiguously. */
  predicate Segment(s: string) {
    '/' !in s && '?' !in s
  }

  function QueryText(query: Option<string>): string {
    match query
    case None => ""
    case Some(q) => "?" + q
  }

  function UpdateParts(os: string, arch: string, ver: string, aux: Option<string>): seq<string> {
    ["", "update", os, arch, ver] + (if aux.Some? then [aux.value] else [])
  }

  /** The update URL a client builds: `/update/os/arch/version[/aux][?query]`. */
  function UpdateUrl(os: string, arch: string, ver: string, aux: Option<string>, query: Option<string>): string {
    Join(UpdateParts(os, arch, ver, aux), '/') + QueryText(query)
  }

  function DownloadParts(os: string, arch: string, ver: string): seq<string> {
    ["", "download", os, arch, ver]
  }

  /** The download URL a client builds: `/download/os/arch/version[?query]`. */
  function DownloadUrl(os: string, arch: string, ver: string, query: Option<string>): string {
    Join(DownloadParts(os, arch, ver), '/') + QueryText(query)
  }

  lemma JoinHead(parts: seq<string>, d: char)
    requires |parts| >= 2
    ensures Join(parts, d) == parts[0] + [d] + Join(parts[1..], d)
  {
  }

  /** Stripping the query of a path without question marks gives the path back. */
  lemma StripQueryOf(path: string, query: Option<string>)
    requires '?' !in path
    ensures StripQuery(path + QueryText(query)) == path
  {
    match query
    case None =>
    case Some(q) =>
      IndexOfAfterFree(path, '?', q);
      assert path + QueryText(query) == path + ['?'] + q;
      assert (path + ['?'] + q)[..|path|] == path;
  }

  /** The pieces of a joined path with a query attached are the joined segments. */
  lemma PiecesOfJoin(parts: seq<string>, query: Option<string>)
    requires |parts| >= 2 && parts[0] == "" && parts[1] != ""
    requires forall i :: 0 <= i < |parts| ==> Segment(parts[i])
    ensures Pieces(StripQuery(Join(parts, '/') + QueryText(query))) == parts[1..]
    ensures Join(parts, '/') + QueryText(query) != "/"
  {
    var path := Join(parts, '/');
    JoinFree(parts, '/', '?');
    StripQueryOf(path, query);
    SplitJoin(parts, '/');
    JoinHead(parts, '/');
    assert |path| >= 2 by {
      assert path == "" + "/" + Join(parts[1..], '/');
      assert |Join(parts[1..], '/')| >= 1 by {
        if |parts[1..]| >= 2 {
          JoinHead(parts[1..], '/');
        }
      }
    }
  }

  /** Parsing an update URL gives back its segments, whatever query it carries. */
  lemma UpdateUrlRoundTrip(os: string, arch: string, ver: string, aux: Option<string>, query: Option<string>)
    requires Segment(os) && Segment(arch) && Segment(ver)
    requires aux.Some? ==> Segment(aux.value)
    ensures RouteUrl(UpdateUrl(os, arch, ver, aux, query)) ==
      UpdateRoute(UpdateRequest(os, arch, SemVer.Coerce(ver), aux))
  {
    var parts := UpdateParts(os, arch, ver, aux);
    PiecesOfJoin(parts, query);
  }

  /** Parsing a download URL gives back its segments, whatever query it carries. */
  lemma DownloadUrlRoundTrip(os: string, arch: string, ver: string, query: Option<string>)
    requires Segment(os) && Segment(arch) && Segment(ver)
    ensures RouteUrl(DownloadUrl(os, arch, ver, query)) == DownloadRoute(DownloadRequest(os, arch, ver))
  {
    PiecesOfJoin(DownloadParts(os, arch, ver), query);
  }

  /** A query string never changes where a request goes (the bare root aside). */
  lemma QueryIgnored(path: string, q: string)
    requires '?' !in path && path != "/"
    ensures RouteUrl(path + "?" + q) == RouteUrl(path)
  {
    IndexOfAfterFree(path, '?', q);
    assert (path + "?" + q)[..|path|] == path;
    assert path + "?" + q == path + ['?'] + q;
  }

  /**
   * The bare root is tested before the query is stripped, so a query on it
   * leaves one empty piece, which no parser accepts: not the index, a 404.
   */
  lemma RootQueryNotFound(q: string)
    ensures RouteUrl("/") == IndexPage
    ensures RouteUrl("/?" + q) == NoRoute
  {
    IndexOfAfterFree("/", '?', q);
    assert "/?" + q == "/" + ['?'] + q;
    assert ("/?" + q)[..1] == "/";
    assert "/"[1..] == "";
    assert Split("/", '/') == ["", ""];
  }

  /** Asking for the feed serves the newest record's feed, whatever version the client reports. */
  lemma FeedWhateverVersion(c: Catalog, os: string, arch: string, ver: string, res: Response, signing: Signing)
    requires Segment(os) && Segment(arch) && Segment(ver)
    requires |Bucket(c, os, arch)| > 0
    ensures DispatchUrl(c, UpdateUrl(os, arch, ver, Some("RELEASES"), None), res, signing) ==
      Answer(res, Serve(Bucket(c, os, arch)[0].releases), signing)
  {
    UpdateUrlRoundTrip(os, arch, ver, Some("RELEASES"), None);
  }

  /**
   * From the URL to the listing: a 204 means no listed version for the
   * pair is newer than the client's, and a redirect means one is.
   */
  lemma UpdateUrlDecision(keys: seq<string>, c: Catalog, os: string, arch: string, ver: string,
                          query: Option<string>, res: Response, signing: Signing)
    requires Build(keys, HandlerRules) == Success(c)
    requires Segment(os) && Segment(arch) && Segment(ver)
    ensures var r := DispatchUrl(c, UpdateUrl(os, arch, ver, None, query), res, signing);
      && (r == Sent(NoUpdate(res)) ==>
            && SemVer.Coerce(ver).Some?
            && forall w :: Seen(keys, HandlerRules, Triple(os, arch, w)) && SemVer.Parse(w).Some? ==>
                 !SemVer.Less(SemVer.Coerce(ver).value, SemVer.Parse(w).value))
      && (r.Sent? && r.response.code == 303 ==>
            && SemVer.Coerce(ver).Some?
            && exists v :: Seen(keys, HandlerRules, Triple(os, arch, v)) && SemVer.Parse(v).Some?
                 && SemVer.Less(SemVer.Coerce(ver).value, SemVer.Parse(v).value))
  {
    var ur := UpdateRequest(os, arch, SemVer.Coerce(ver), None);
    UpdateUrlRoundTrip(os, arch, ver, None, query);
    var o := ResolveUpdate(c, ur);
    assert DispatchUrl(c, UpdateUrl(os, arch, ver, None, query), res, signing) == Answer(res, o, signing);
    if o == NoContent {
      NoContentMeansCurrent(keys, HandlerRules, c, ur);
    } else if o.Serve? {
      UpdateOffersNewest(keys, HandlerRules, c, ur);
    }
  }
}

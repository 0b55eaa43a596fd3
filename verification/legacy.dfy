/**
 * The root index.js: the earlier copy of the service. It knows only the
 * feed, `.nupkg` and `.exe` patterns, splits `req.url` without removing
 * the query string, and its 404 body echoes the URL. Its `setFile`,
 * `sortVersion` and bucketing are those of src/handler.js, so the catalog
 * it builds is `Catalog.Build` with the three legacy rules.
 */
module Legacy {
  import opened Wrappers
  import opened Strings
  import SemVer
  import opened Keys
  import opened Catalog
  import opened Resolve
  import opened Json
  import opened Adapter
  import opened Storage
  import opened Handler

  /** The three patterns of index.js in the order its if-chain tests them. */
  const LegacyRules: seq<Rule> := [
    Rule(ReleasesFile, Feed),
    Rule(Extension(".nupkg"), Update),
    Rule(Extension(".exe"), Download)
  ]

  /** The rule list reproduces the if-chain of the legacy `loadBucketVersions`. */
  lemma LegacyChain(key: string)
    ensures Classify(key, LegacyRules) ==
      if Exec(key, ReleasesFile).Some? then Some(Match(Feed, Exec(key, ReleasesFile).value))
      else if Exec(key, Extension(".nupkg")).Some? then Some(Match(Update, Exec(key, Extension(".nupkg")).value))
      else if Exec(key, Extension(".exe")).Some? then Some(Match(Download, Exec(key, Extension(".exe")).value))
      else None
  {
    var r := LegacyRules;
    assert r[2..][1..] == r[3..];
    assert r[1..][1..] == r[2..];
  }

  /** Trying a list of rules is trying a prefix of it, then the rest. */
  lemma {:induction false} ClassifyPrefix(key: string, rules: seq<Rule>, k: nat)
    requires k <= |rules|
    ensures Classify(key, rules) ==
      match Classify(key, rules[..k])
      case Some(m) => Some(m)
      case None => Classify(key, rules[k..])
    decreases k
  {
    if k == 0 {
      assert rules[k..] == rules;
    } else {
      ClassifyPrefix(key, rules[1..], k - 1);
      assert rules[..k][1..] == rules[1..][..k - 1];
      assert rules[1..][k - 1..] == rules[k..];
    }
  }

  /**
   * The legacy service classifies a key as the current one does whenever it
   * recognises it; what it misses is exactly what the `.zip` and `.dmg`
   * patterns would have claimed.
   */
  lemma LegacyAgrees(key: string)
    ensures Classify(key, LegacyRules).Some? ==> Classify(key, HandlerRules) == Classify(key, LegacyRules)
    ensures Classify(key, LegacyRules).None? ==> Classify(key, HandlerRules) == Classify(key, HandlerRules[3..])
  {
    ClassifyPrefix(key, HandlerRules, 3);
    assert HandlerRules[..3] == LegacyRules;
  }

  /** A darwin artifact is recognised by the current service and ignored by the legacy one. */
  lemma LegacyIgnoresDarwin(t: Triple, name: string)
    requires WellFormed(t, name)
    requires !StartsWith(name, "RELEASES") && !ExtensionAhead(name, ".nupkg") && !ExtensionAhead(name, ".exe")
    requires ExtensionAhead(name, ".zip") || ExtensionAhead(name, ".dmg")
    ensures Classify(KeyFor(t, name), LegacyRules).None?
    ensures Classify(KeyFor(t, name), HandlerRules).Some?
  {
    ClassifyKeyFor(t, name, LegacyRules);
    ClassifyKeyFor(t, name, HandlerRules);
    assert LegacyRules[1..][1..] == LegacyRules[2..];
    assert HandlerRules[1..][1..] == HandlerRules[2..];
    assert HandlerRules[2..][1..] == HandlerRules[3..];
    assert HandlerRules[3..][1..] == HandlerRules[4..];
  }

  /** Two rule lists that classify every listed key alike accumulate the same table. */
  lemma {:induction false} AccumulateAgree(keys: seq<string>, r1: seq<Rule>, r2: seq<Rule>)
    requires forall i :: 0 <= i < |keys| ==> Classify(keys[i], r1) == Classify(keys[i], r2)
    ensures Accumulate(keys, r1) == Accumulate(keys, r2)
    decreases |keys|
  {
    if |keys| > 0 {
      var pre := keys[..|keys| - 1];
      assert forall i :: 0 <= i < |pre| ==> pre[i] == keys[i];
      AccumulateAgree(pre, r1, r2);
    }
  }

  /**
   * Without keys that only the darwin patterns recognise, the legacy build
   * and the current one publish the same catalog, or fail alike.
   */
  lemma LegacyBuildAgrees(keys: seq<string>)
    requires forall i :: 0 <= i < |keys| ==>
      Classify(keys[i], LegacyRules).Some? || Classify(keys[i], HandlerRules).None?
    ensures Build(keys, LegacyRules) == Build(keys, HandlerRules)
  {
    forall i | 0 <= i < |keys|
      ensures Classify(keys[i], LegacyRules) == Classify(keys[i], HandlerRules)
    {
      LegacyAgrees(keys[i]);
      if Classify(keys[i], LegacyRules).None? {
        ClassifyPrefix(keys[i], HandlerRules, 3);
        assert HandlerRules[..3] == LegacyRules;
      }
    }
    AccumulateAgree(keys, LegacyRules, HandlerRules);
  }

  // ------------------------------------------------------------ routing

  /** The server callback: `req.url` is split as it is, query string and all. */
  function LegacyRoute(url: string): (r: Route)
    ensures r == IndexPage <==> url == "/"
    ensures r.UpdateRoute? <==> url != "/" && ParseUpdateRequest(Pieces(url)).Some?
    ensures r.DownloadRoute? <==> url != "/" && ParseDownloadRequest(Pieces(url)).Some?
  {
    if url == "/" then IndexPage
    else
      var pieces := Pieces(url);
      match ParseUpdateRequest(pieces)
      case Some(ur) => UpdateRoute(ur)
      case None =>
        match ParseDownloadRequest(pieces)
        case Some(dr) => DownloadRoute(dr)
        case None => NoRoute
  }

  /** On URLs without a query the two services route alike. */
  lemma LegacyRoutesAlike(url: string)
    requires '?' !in url
    ensures LegacyRoute(url) == RouteUrl(url)
  {
    StripQueryOf(url, None);
  }

  lemma {:induction false} JoinExtendLast(parts: seq<string>, d: char, s: string)
    requires |parts| >= 1
    ensures Join(parts, d) + s == Join(parts[..|parts| - 1] + [parts[|parts| - 1] + s], d)
    decreases |parts|
  {
    if |parts| > 1 {
      JoinExtendLast(parts[1..], d, s);
      var ext := parts[..|parts| - 1] + [parts[|parts| - 1] + s];
      assert ext[1..] == parts[1..][..|parts[1..]| - 1] + [parts[1..][|parts[1..]| - 1] + s];
      assert ext[0] == parts[0];
    }
  }

  /** A feed URL with a query is, to a plain split, a URL whose fifth piece is `RELEASES?query`. */
  lemma FeedUrlWithQuery(os: string, arch: string, ver: string, q: string)
    ensures UpdateUrl(os, arch, ver, Some("RELEASES"), Some(q)) ==
      Join(UpdateParts(os, arch, ver, Some("RELEASES?" + q)), '/')
  {
    var parts := UpdateParts(os, arch, ver, Some("RELEASES"));
    JoinExtendLast(parts, '/', "?" + q);
    assert "RELEASES" + ("?" + q) == "RELEASES?" + q;
    assert parts[..|parts| - 1] + [parts[|parts| - 1] + ("?" + q)] == UpdateParts(os, arch, ver, Some("RELEASES?" + q));
  }

  /**
   * In the legacy service the query stays on the last piece: a feed request
   * with a query carries the fifth piece `RELEASES?...`, which is not the
   * feed, where the current service sees `RELEASES`.
   */
  lemma LegacyQueryHidesFeed(os: string, arch: string, ver: string, q: string)
    requires Segment(os) && Segment(arch) && Segment(ver) && '/' !in q
    ensures LegacyRoute(UpdateUrl(os, arch, ver, Some("RELEASES"), Some(q))) ==
      UpdateRoute(UpdateRequest(os, arch, SemVer.Coerce(ver), Some("RELEASES?" + q)))
    ensures RouteUrl(UpdateUrl(os, arch, ver, Some("RELEASES"), Some(q))) ==
      UpdateRoute(UpdateRequest(os, arch, SemVer.Coerce(ver), Some("RELEASES")))
  {
    LegacyFeedWithQuery(os, arch, ver, q);
    UpdateUrlRoundTrip(os, arch, ver, Some("RELEASES"), Some(q));
  }

  lemma LegacyFeedWithQuery(os: string, arch: string, ver: string, q: string)
    requires Segment(os) && Segment(arch) && Segment(ver) && '/' !in q
    ensures LegacyRoute(UpdateUrl(os, arch, ver, Some("RELEASES"), Some(q))) ==
      UpdateRoute(UpdateRequest(os, arch, SemVer.Coerce(ver), Some("RELEASES?" + q)))
  {
    var parts := UpdateParts(os, arch, ver, Some("RELEASES?" + q));
    var url := UpdateUrl(os, arch, ver, Some("RELEASES"), Some(q));
    FeedUrlWithQuery(os, arch, ver, q);
    assert forall i :: 0 <= i < |parts| ==> '/' !in parts[i];
    SplitJoin(parts, '/');
    assert Pieces(url) == parts[1..];
    JoinHead(parts, '/');
    assert url != "/";
  }

  /** A fifth piece other than `RELEASES` is ignored by the update decision. */
  lemma OtherAuxIgnored(c: Catalog, ur: UpdateRequest)
    requires ur.aux != Some("RELEASES")
    ensures ResolveUpdate(c, ur) == ResolveUpdate(c, ur.(aux := None))
  {
  }

  // ------------------------------------------------------------ answers

  function LegacyNotFoundBody(url: string): Fields {
    [("success", JBool(false)), ("error", JStr("Not Found")), ("url", JStr(url))]
  }

  /** The legacy `notFound`: 404 with a JSON error body that echoes the URL. */
  function LegacyNotFound(res: Response, url: string): (r: Response)
    ensures r.code == 404 && r.headers == res.headers["Content-Type" := JsonType]
    ensures ParseObject(Added(res, r)) == Some(LegacyNotFoundBody(url))
  {
    MergeOne(res.headers, "Content-Type", JsonType);
    var h := WriteHead(res, 404, map["Content-Type" := JsonType]);
    AppendedJson(h, LegacyNotFoundBody(url));
    End(h, Str(Stringify(LegacyNotFoundBody(url))))
  }

  /**
   * How a legacy request ends. An artifact is streamed from storage by the
   * root s3.js, which is not part of this model, so only its key is kept.
   */
  datatype LegacyReply = ServeIndexPage | Crashed | Written(response: Response) | Stream(key: Option<string>)

  function LegacyAnswer(res: Response, url: string, o: Outcome): (r: LegacyReply)
    ensures o == Outcome.NotFound ==> r == Written(LegacyNotFound(res, url))
    ensures o == NoContent ==> r == Written(NoUpdate(res))
    ensures o == Error <==> r == Crashed
    ensures o.Serve? <==> r.Stream?
    ensures o.Serve? ==> r == Stream(o.key)
  {
    match o
    case NotFound => Written(LegacyNotFound(res, url))
    case NoContent => Written(NoUpdate(res))
    case Error => Crashed
    case Serve(key) => Stream(key)
  }

  /** The legacy server callback against the catalog `c`. */
  function LegacyDispatch(c: Catalog, url: string, res: Response): (r: LegacyReply)
    ensures r == ServeIndexPage <==> url == "/"
  {
    match LegacyRoute(url)
    case IndexPage => ServeIndexPage
    case UpdateRoute(ur) => LegacyAnswer(res, url, ResolveUpdate(c, ur))
    case DownloadRoute(dr) => LegacyAnswer(res, url, ResolveDownload(c, dr))
    case NoRoute => Written(LegacyNotFound(res, url))
  }

  /** Every legacy 404 tells the client which URL it asked for. */
  lemma LegacyNotFoundEchoes(c: Catalog, url: string, res: Response)
    requires LegacyDispatch(c, url, res).Written? && LegacyDispatch(c, url, res).response.code == 404
    ensures ParseObject(Added(res, LegacyDispatch(c, url, res).response)) == Some(LegacyNotFoundBody(url))
  {
  }
}

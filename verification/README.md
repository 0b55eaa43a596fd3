# squirrel-update, modelled in Dafny

squirrel-update is a small update server for Squirrel (Windows) and
Squirrel.Mac clients. It lists the release artifacts stored in an S3
bucket under keys of the form `release/<os>/<arch>/<version>/<file>` and
builds a catalog from them. The catalog has one bucket for each of four
known (os, arch) pairs. Each bucket is meant to be sorted latest first; as
written, sorting any bucket of two or more records throws, so such a
listing fails to build (see Findings). The model states the intended sort
and the code as written side by side.

The server answers three kinds of request:

- `/update/<os>/<arch>/<version>[/RELEASES]` returns one of: the newest
  RELEASES feed, a redirect to the newest update package when it is newer
  than the client, or 204.
- `/download/<os>/<arch>/<latest|version>` returns a redirect to an
  installer.
- Any other URL returns a JSON 404.

Both update and download answer 404 as well when the pair's bucket is
empty or missing, and download does when no record has the requested
version. Serving an artifact answers 500 with a JSON body when signing
fails. A request throws when an update compares against a version that
does not parse or a client version that does not coerce, and when a
served artifact's key is absent or has no file name.

The current handler never proxies artifacts. `serveBinaryFile` presigns an
S3 GET and answers with a 303 redirect, a 200 JSON body for the darwin
flavour, or a 500 JSON body when signing fails. The legacy server instead
streams each artifact through the root `s3.js`.

The model covers the current handler `src/handler.js` (with the pure parts
of `src/s3.js`) and the older stand-alone server `index.js`.

| module | file | what it holds |
|---|---|---|
| `Wrappers` | wrappers.dfy | `Option` and `Result` |
| `Strings` | strings.dfy | `String.prototype.split` on one character, `join`, first-occurrence cut |
| `SemVer` | semver.dfy | three-number versions: precedence, strict parse, canonical text, `coerce` |
| `Keys` | keys.dfy | the five unanchored key patterns as leftmost-match search, and the first-match-wins rule chain |
| `Catalog` | catalog.dfy | release records, `setFile`, accumulation over a listing, bucketing, `sortVersion`, the build and its failures |
| `Resolve` | resolve.dfy | the decisions of `serveUpdateRequest` and `serveDownloadRequest` |
| `Json` | json.dfy | `JSON.stringify` of the flat objects the service writes, plus a reader for that text |
| `Adapter` | adapter.dfy | `AdapterResponse`: code, headers, data chunks |
| `Storage` | s3.dfy | `contentTypeFromKey`, the `reFilecomp` file-name extraction, the outcome choice of `serveBinaryFile` |
| `Handler` | handler.dfy | `dispatchUrl`: query stripping, path pieces, request parsing, routing, answers |
| `Legacy` | legacy.dfy | `index.js`: three patterns, no query stripping, a 404 body that echoes the URL |

Modelling choices:

- **Inputs.** The S3 listing is a `seq<string>` of keys. The presigner's
  answer is a `Signing` value: the URL, or a failure reason.
- **Exceptions.** An exception is a value. A build that throws is
  `Failure(UnknownOsArch)` or `Failure(InvalidVersion)`. A request that
  throws inside `dispatchUrl` is `Reply.Threw`. The throw is synchronous,
  so in `src/index.js` it happens before `.catch` is attached and escapes
  the request callback. The legacy server has the same crash; there it is
  `LegacyReply.Crashed`.
- **The record table.** The nested `osver[os][arch][version]` object is a
  sequence of records with at most one record per triple, in insertion
  order.
- **Versions.** A record keeps its version exactly as the path segment
  spelled it. `semver` parses that string each time it compares.

## Model

| member | source | states |
|---|---|---|
| Strings.Split | src/handler.js:20 | the pieces of a split never contain the separator, and there is at least one |
| Strings.JoinSplit | src/handler.js:20 | joining the pieces of a split by the separator gives back the original text |
| Strings.SplitJoin | src/handler.js:20 | splitting a join of separator-free pieces gives back exactly those pieces |
| SemVer.LessIsStrictTotalOrder | src/handler.js:168-176 | version precedence is irreflexive, asymmetric, transitive and total |
| SemVer.Compare | src/handler.js:168-176 | the comparator answers -1 exactly when the first version is greater, 1 exactly when it is smaller, 0 exactly when they are equal |
| SemVer.CompareAntisymmetric | src/handler.js:168-176 | swapping the operands negates the comparator's answer |
| SemVer.Format | src/handler.js:132 | the canonical text of a version is digits and dots only, so it holds no slash and is one path segment |
| SemVer.Parse | src/handler.js:92 | a string that parses consists of digits and dots only |
| SemVer.ParseFormat | src/handler.js:92 | every version parses back from its canonical text |
| SemVer.FormatParse | src/handler.js:132 | a string that parses is exactly the canonical text of its version, so comparing with the coerced version's text is comparing versions |
| SemVer.ParseInjective | src/handler.js:132 | two distinct stored strings never denote the same version |
| SemVer.CoerceFormat | src/handler.js:71 | coercing a canonical version string gives that version back |
| SemVer.Coerce | src/handler.js:71 | a client version coerces only when it holds a digit |
| SemVer.CoerceNeedsDigit | src/handler.js:71 | a client version with no digit coerces to null |
| Keys.ExtensionAheadIff | src/handler.js:180-183 | the scan for `.*<ext>` succeeds exactly when the extension occurs with no line terminator before it (both directions) |
| Keys.Search | src/handler.js:179-183 | the start position found is the leftmost one at which the pattern matches, and none is found only when no position matches |
| Keys.Exec | src/handler.js:179-183 | `exec` answers null exactly when the pattern matches at no start position |
| Keys.ExecLeftmost | src/handler.js:179-183 | the captures `exec` reports come from the leftmost start position at which the pattern matches |
| Keys.SegmentsOf | src/handler.js:179-183 | the three `[^/]*` captures of `os/arch/version/name` are exactly os, arch and version |
| Keys.OnlyAtStart | src/handler.js:179-183 | in a conventional key no pattern matches at any position but the start |
| Keys.ExecKeyFor | src/handler.js:179-183 | a conventional key matches a pattern exactly when its file name fits the pattern's tail, and then captures its triple |
| Keys.NoPrefixNoMatch | src/handler.js:179-183 | a key that nowhere contains `release/` matches no pattern |
| Keys.Classify | src/handler.js:196-213 | a classified key took the role of one of the rules, and a key matching no rule's pattern is left unclassified |
| Keys.ClassifyPicksFirst | src/handler.js:201-213 | a pattern decides the role when it matches and no earlier pattern does |
| Keys.ClassifyNoneIff | src/handler.js:201-213 | a key is left unclassified exactly when none of the patterns matches it |
| Keys.HandlerChain | src/handler.js:196-213 | the rule list reproduces the if-chain: feed, `.nupkg` update, `.exe` download, `.zip` update, `.dmg` download |
| Keys.ClassifyKeyFor | src/handler.js:196-213 | a conventional key is classified by its file name alone, for the triple in its path |
| Keys.FeedKey | src/handler.js:179-202 | `release/os/arch/version/RELEASES` is the feed key of exactly that triple |
| Keys.ExeAnywhereIsDownload | src/handler.js:181 | the patterns are not anchored at the end, so a name with `.exe` anywhere is a download unless an earlier pattern claims it |
| Catalog.SetRole | src/handler.js:165 | `v[key] = fn` sets the one role field and leaves the triple and the other roles alone |
| Catalog.Find | src/handler.js:156 | the lookup finds the record carrying the triple, and finds none only when no record carries it |
| Catalog.SetFile | src/handler.js:145-166 | find-or-create: the triple's record (a fresh one if absent) gets the role set, every other triple keeps its record, and triples stay unique |
| Catalog.Accumulate | src/handler.js:193-214 | the folded table holds at most one record per triple |
| Catalog.AccumulateSpec | src/handler.js:193-214 | the table has a record for exactly the triples some key names, and each role field is the last key listed for that role (last write wins) |
| Catalog.InTable | src/handler.js:193-214 | a record is in the table exactly when it is the expected record of a triple some key names |
| Catalog.Filter | src/handler.js:218-226 | a bucket holds exactly the table's records of its pair, and ids stay unique |
| Catalog.SortVersion | src/handler.js:168-176 | on version strings: throws unless both parse; otherwise -1, 1 or 0 exactly as the first version is greater, smaller or the same string |
| Catalog.SameVersion | src/handler.js:168-176 | two parsing strings denote equal versions exactly when they are the same string |
| Catalog.Comparator | src/handler.js:168-176 | `sortVersion` answers without throwing exactly when both operands are version strings that parse |
| Catalog.SortVersionAsWritten | src/handler.js:229-232 | handed two records, as the sort calls it, the comparator always throws |
| Catalog.SortVersionOnVersions | src/handler.js:168-176 | the corrected comparison is the source's comparator applied to the records' version strings |
| Catalog.Insert | src/handler.js:229-232 | inserting into a latest-first sequence keeps it latest first and adds exactly that record |
| Catalog.SortDesc | src/handler.js:229-232 | sorting yields a permutation of the bucket that is latest first |
| Catalog.SortDescStrict | src/handler.js:229-232 | with distinct version strings the sorted bucket is strictly latest first |
| Catalog.SortBucket | src/handler.js:229-232 | a bucket's records are kept exactly (as a multiset); fewer than two stay as they are, two or more come out latest first |
| Catalog.Publish | src/handler.js:215-232 | exactly the four known buckets are published; each holds exactly its pair's records, latest first when there are two or more |
| Catalog.Build | src/handler.js:188-234 | a successful build publishes exactly the four known pairs |
| Catalog.BuildAsWritten | src/handler.js:215-232 | the build as written can only succeed when every bucket holds fewer than two records |
| Catalog.BuildUnknownPair | src/handler.js:215-227 | the build throws for an unknown (os, arch) exactly when some listed key names one |
| Catalog.BuildUnrecognised | src/handler.js:211-217 | a listing in which nothing is recognised builds four empty buckets |
| Catalog.BuildBucket | src/handler.js:215-232 | a built bucket holds exactly the expected records of its pair's seen triples, with distinct versions, strictly latest first when there are two or more |
| Catalog.BuildVersionSeen | src/handler.js:215-227 | a bucket lists a version exactly when some key names that version for the pair |
| Catalog.BuildRecord | src/handler.js:145-166 | each published record carries its pair, and per role the last key listed for its triple |
| Catalog.BuildNewestFirst | src/handler.js:228-232 | any other listed version of the pair parses and is older than the version the bucket lists first |
| Catalog.BuildMembers | src/handler.js:215-232 | a built bucket holds exactly the expected records of the pair's seen triples |
| Catalog.BuildLatestFirst | src/handler.js:228-232 | the head of a published bucket is strictly newer than every other record in it |
| Catalog.BuildInvalidVersion | src/handler.js:229-232 | two versions for one known pair, one of which does not parse, make the build throw |
| Catalog.AsWrittenThrowsOnTwo | src/handler.js:229-232 | wherever the corrected build publishes a bucket of two or more records, the build as written throws |
| Catalog.TwoReleasesShowIt | src/handler.js:229-232 | two RELEASES keys for win32/x64 with distinct versions: the corrected build publishes both, the build as written throws |
| Resolve.ResolveUpdate | src/handler.js:80-104 | 404 exactly for an empty or missing bucket; `RELEASES` serves the head's feed; otherwise the head's update key only when the head is strictly newer than the client, 204 exactly when it is not, and an exception exactly when either version is unusable |
| Resolve.LastWithVersion | src/handler.js:131-135 | the `forEach` leaves the last record with the matching version, or none when no record matches |
| Resolve.ResolveDownload | src/handler.js:119-143 | `latest` serves the head's download key; another version serves the download key of a record whose stored string is the coerced version's text, and 404 means the version does not coerce or no record has it |
| Resolve.ListedAt | src/handler.js:127-135 | a listed version sits at one index of a built bucket, which the `forEach` finds, and that record holds the version's last download key |
| Resolve.FirstListed | src/handler.js:126 | the head of a built bucket is a listed version holding that version's last update and download keys |
| Resolve.OnlyMatch | src/handler.js:131-135 | with distinct version strings the matching record is the only one |
| Resolve.UnknownPairNotFound | src/handler.js:81-85 | a pair with no bucket, such as freebsd/x64, is 404 on both paths |
| Resolve.UpdateOffersNewest | src/handler.js:92-100 | against a built catalog, an update is served only for the newest listed version of the pair, only when it is newer than the client, and it is the last update key listed for it |
| Resolve.NoContentMeansCurrent | src/handler.js:92-97 | against a built catalog, 204 means no listed version of the pair is newer than the client |
| Resolve.DownloadExact | src/handler.js:127-139 | against a built catalog, a specific download serves the last download key listed for the coerced version, and 404 when that version is not listed (no fallback) |
| Resolve.DownloadLatestIsNewest | src/handler.js:126 | `latest` serves the download key of a listed version that is strictly newer than every other listed version of the pair |
| Adapter.WriteHead | src/handler.js:255-260 | writeHead sets the code; named headers take the new values, the others are kept, and data is untouched |
| Adapter.Write | src/handler.js:261-268 | falsy data leaves the response unchanged; anything truthy appends exactly one chunk, an object as its JSON text and anything else as is, and keeps code and headers |
| Adapter.End | src/handler.js:269-271 | code and headers stay; falsy data changes nothing; truthy data becomes exactly one more chunk, an object as its JSON text |
| Adapter.InitialUnwritten | src/handler.js:250-254 | a fresh response that only has data written keeps status 500 and no headers, and holds only storable chunks |
| Adapter.WriteString | src/handler.js:261-268 | writing a string adds exactly that string to the body text |
| Adapter.WriteObject | src/handler.js:263-266 | writing an object adds its JSON text, which reads back as the same members |
| Json.Stringify | src/handler.js:53-56 | the text is wrapped in braces, and it is `{}` exactly for the empty object |
| Json.ScanEscape | src/handler.js:53-56 | an escaped string reads back as itself, and reading stops exactly at its closing quote |
| Json.ParseStringify | src/handler.js:53-56 | every object `JSON.stringify` writes reads back as the same members in the same order |
| Json.StringifyInjective | src/handler.js:53-56 | distinct member lists are written as distinct text |
| Storage.ContentTypeFromKey | src/s3.js:30-37 | `application/zip` exactly when the key ends in `.zip`, `application/octet-stream` otherwise |
| Storage.FileName | src/s3.js:29 | the name is the key's text after a slash, made of allowed characters and running to the end; there is none exactly when no slash is followed by such text |
| Storage.FileNameOf | src/s3.js:41 | the file name of `dir/name` is `name`, whatever `dir` holds |
| Storage.FileNameOfKey | src/s3.js:41 | every conventionally named artifact is served under its own file name |
| Storage.GetObjectFor | src/s3.js:41-51 | the presigned request exists exactly when the key has a file name, and then carries the key, an attachment disposition with that name, and the key's content type |
| Storage.ServeBinaryFile | src/s3.js:39-79 | throws exactly when the key is absent or has no file name; otherwise 200 for darwin, 303 for any other flavour, 500 when signing fails |
| Storage.ServeDarwin | src/s3.js:55-60 | the darwin answer adds a JSON content type and a body that reads back as the URL and the key |
| Storage.ServeRedirect | src/s3.js:61-66 | the redirect adds only `Location` and writes nothing |
| Storage.ServeFailure | src/s3.js:69-78 | a signing failure adds a JSON content type and a body that reads back as `success: true` with the error text |
| Handler.StripQuery | src/handler.js:19 | the stripped URL is the longest query-free prefix of the URL |
| Handler.Pieces | src/handler.js:20-21 | the path pieces never contain a slash |
| Handler.ParseUpdateRequest | src/handler.js:62-76 | an update request exactly when there are at least four pieces and the first is `update`; `aux` is present exactly when there is a fifth |
| Handler.ParseDownloadRequest | src/handler.js:107-117 | a download request exactly when there are at least four pieces and the first is `download` |
| Handler.RouteUrl | src/handler.js:15-31 | the index page exactly for `/`; update tried before download; otherwise no route |
| Handler.NotFound | src/handler.js:50-59 | 404 with a JSON content type, and a body that reads back as `success: false, error: "Not Found"` |
| Handler.NoUpdate | src/handler.js:93-97 | 204 with an octet-stream content type and nothing written |
| Handler.Answer | src/handler.js:83-100 | 404 and 204 are written as such; an exception propagates; a served key throws exactly when it is absent or has no file name, and otherwise redirects (303), or answers 500 on a signing failure |
| Handler.DispatchUrl | src/handler.js:15-31 | the static index is served exactly for `/` |
| Handler.StripQueryOf | src/handler.js:19 | stripping removes exactly the query that was attached |
| Handler.PiecesOfJoin | src/handler.js:19-21 | the pieces of a slash-joined path with a query attached are the joined segments |
| Handler.UpdateUrlRoundTrip | src/handler.js:62-76 | an update URL built from segments parses back to those segments, with the version coerced, whatever the query |
| Handler.DownloadUrlRoundTrip | src/handler.js:107-117 | a download URL built from segments parses back to those segments, whatever the query |
| Handler.QueryIgnored | src/handler.js:19 | for any query-free path other than `/`, appending a query does not change the route |
| Handler.RootQueryNotFound | src/handler.js:15-30 | `/` is the index page, but `/` with a query is not: the root test runs before the query is stripped, and the single empty piece left matches no route |
| Handler.FeedWhateverVersion | src/handler.js:86-91 | a feed request serves the newest record's feed whatever version the client reports |
| Handler.UpdateUrlDecision | src/handler.js:80-104 | from URL to listing: a 204 means no listed version is newer than the client's, a 303 means one is |
| Legacy.LegacyChain | index.js:172-183 | the legacy rule list reproduces its three-way if-chain |
| Legacy.LegacyAgrees | index.js:135-137 | whenever the legacy patterns recognise a key they classify it as the current ones do; what they miss is what `.zip` and `.dmg` would claim |
| Legacy.LegacyIgnoresDarwin | index.js:172-183 | a darwin-only artifact is ignored by the legacy server and recognised by the current one |
| Legacy.AccumulateAgree | index.js:169-184 | rule lists that classify every key alike accumulate the same table |
| Legacy.LegacyBuildAgrees | index.js:165-208 | without darwin-only keys, the legacy build and the current one publish the same catalog or fail alike |
| Legacy.LegacyRoute | index.js:232-248 | the index exactly for `/`; the URL is split with its query string still attached |
| Legacy.LegacyRoutesAlike | index.js:236-237 | on URLs without a query the two servers route alike |
| Legacy.LegacyQueryHidesFeed | index.js:236-240 | a feed request with a query has the fifth piece `RELEASES?...` in the legacy server, so it is not the feed, while the current server sees `RELEASES` |
| Legacy.LegacyFeedWithQuery | index.js:236-240 | in the legacy server a feed URL with a query routes as an update whose fifth piece is `RELEASES?` followed by the query |
| Legacy.OtherAuxIgnored | src/handler.js:86-92 | a fifth piece other than `RELEASES` does not affect the update decision |
| Legacy.LegacyNotFound | index.js:14-21 | 404 with a JSON content type, and a body that reads back as the error members plus the requested URL |
| Legacy.LegacyAnswer | index.js:56-132 | a semver exception crashes the process exactly when the outcome is an error; an artifact is streamed exactly when the outcome serves a key, and the key streamed is the one the outcome names |
| Legacy.LegacyDispatch | index.js:222-249 | the static index is served exactly for `/` |
| Legacy.LegacyNotFoundEchoes | index.js:14-21 | every legacy 404 body tells the client which URL it asked for |

## Left out

- Listing the bucket (`listBucketPath`, src/s3.js:9-27) is network I/O. The build takes the list of keys as a parameter. The 1000-key page limit is not modelled.
- Presigning (`getSignedUrl`) is network I/O. Its answer is the `Signing` parameter.
- `serveFile` and the index page read files. They are modelled only as the `ServeIndex` / `ServeIndexPage` replies.
- The root `s3.js` streams artifacts for the legacy server. It is not part of this model, so a legacy artifact reply keeps only the key (`LegacyReply.Stream`).
- Logging, `Date`, the `x-forwarded-for` header and the hourly reload timer are left out. They do not affect any answer.
- Promises and concurrency are left out. A request reading the catalog while a reload runs is not modelled.
- The source reassigns `versions.darwin`, `versions.win32` and `versions.linux` before the pushes and sorts. A build that throws therefore leaves new, unsorted buckets published; the model represents such a build only by its `Failure`.
- The legacy `if (!versions)` guard (index.js:228) can never fire, because `versions` is a constant object. `Legacy.LegacyDispatch` omits it.
- SemVer.Parse: accepts only `major.minor.patch` without leading zeros. It does not model the optional leading `v` or `=`, surrounding whitespace, pre-release and build suffixes, loose mode, the 256-character cap or the safe-integer cap. Such strings fail to parse here, where the library would accept some of them.
- SemVer.Coerce: takes the whole first digit run. The library limits each component to 16 digits.
- SemVer.Less: orders by three numbers only. Pre-release precedence is left out because `Parse` never yields a pre-release.
- JavaScript prototype keys are left out. An os or arch segment named `__proto__` or `constructor` hits inherited properties of the nested objects.
- `AdapterRequest` and `src/lambda.js` are left out. The lambda rebuilds the catalog before each request other than `/`, then calls `dispatchUrl`.
- `src/index.js` is left out. It starts listening only after the first `loadBucketVersions()` succeeds (src/index.js:46-58). With the sort defect under "## Findings", the node server therefore never listens once some pair has two releases. A synchronous throw from `dispatchUrl` escapes its request callback (src/index.js:29-33) and ends the process. The model keeps only the build's `Failure` and `Reply.Threw`.
- Json.ParseStringify: the JSON model covers only members whose values are booleans or strings, which is every body the service writes. Strings are sequences of Unicode scalar values, so the lone-surrogate escapes of `JSON.stringify` do not arise.
- Handler.DispatchUrl: its own contract states only the index-page case. Each route's outcome is stated through `Handler.RouteUrl`, `Handler.Answer`, `Handler.FeedWhateverVersion` and `Handler.UpdateUrlDecision`, which keep each proof small.
- Legacy.LegacyDispatch: likewise states only the index-page case. The other routes are stated through `Legacy.LegacyRoute`, `Legacy.LegacyAnswer` and `Legacy.LegacyNotFoundEchoes`.
- Keys.Exec: its contract states only when `exec` answers null. That the captures come from the leftmost match is stated by `Keys.ExecLeftmost`.
- Keys.Classify: its contract names only the role of the deciding rule. Which rule decides and what it captures are stated by `Keys.ClassifyPicksFirst` and `Keys.ClassifyNoneIff`.
- SemVer.Parse: its contract states only the characters of a parsing string. That the string is then exactly the canonical text of its version is `SemVer.FormatParse`.
- SemVer.Coerce: its contract states only that coercion needs a digit. What it yields on canonical text is `SemVer.CoerceFormat`.
- Catalog.Build: its contract states only the published pairs. Its contents and its failures are stated by the `Catalog.Build*` lemmas.

Failure behaviour the code has, which the model follows:

- **Unknown (os, arch).** `versions[os][arch].push` on a pair that is not one of the four known buckets throws, so the whole build fails (`Catalog.BuildUnknownPair`).
- **Uncoercible client version.** `semver.gt` throws on a null client version, so `dispatchUrl` throws (`Resolve.ResolveUpdate`, `Handler.Answer`).

## Findings

| source | as written | input that shows it | evidently intended | confidence | as-written member | corrected member |
|---|---|---|---|---|---|---|
| src/handler.js:229-232 (also index.js:199-202) | each bucket is sorted with `sortVersion`, which passes its arguments (whole release records) to `semver.gt` / `semver.lt`; these throw on anything but a version string or SemVer, so any bucket of two or more records makes the build throw | a listing with `release/win32/x64/1.0.0/RELEASES` and `release/win32/x64/1.1.0/RELEASES` | compare the records' `version` strings, giving a bucket sorted latest first | not executed | Catalog.BuildAsWritten, Catalog.SortVersionAsWritten, Catalog.TwoReleasesShowIt | Catalog.Build, Catalog.SortVersion, Catalog.BuildLatestFirst |

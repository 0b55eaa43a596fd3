/**
 * The decisions in src/s3.js: the content type and download file name
 * derived from a storage key, and the response `serveBinaryFile` writes
 * once the presigner has answered. Signing itself is a parameter.
 */
module Storage {
  import opened Wrappers
  import opened Strings
  import opened Json
  import opened Adapter
  import Keys

  const ZipType: string := "application/zip"
  const OctetType: string := "application/octet-stream"
  const JsonType: string := "application/json"

  /** `reZip` is anchored at the end of the key: only a final `.zip` counts. */
  function ContentTypeFromKey(key: string): (t: string)
    ensures t == ZipType <==> EndsWith(key, ".zip")
    ensures t == OctetType <==> !EndsWith(key, ".zip")
  {
    if EndsWith(key, ".zip") then ZipType else OctetType
  }

  /** The characters `reFilecomp` accepts in a file name. */
  predicate NameChar(c: char) {
    c != '/' && c != '"' && c != '\\' && c != ':'
  }

  predicate NameText(s: string) {
    forall i :: 0 <= i < |s| ==> NameChar(s[i])
  }

  /** `reFilecomp` matches at `p`: a slash there, then name characters up to the end of the key. */
  predicate FileMatchAt(key: string, p: nat) {
    p < |key| && key[p] == '/' && NameText(key[p + 1..])
  }

  /**
   * `reFilecomp.exec(key)[1]`. A match can only start at the last slash,
   * since the name part admits no slash; there is none when that last
   * segment holds `"`, `\` or `:`, or the key has no slash at all.
   */
  function FileName(key: string): (r: Option<string>)
    ensures r.Some? ==> |r.value| < |key| && FileMatchAt(key, |key| - |r.value| - 1) && r.value == key[|key| - |r.value|..]
    ensures r.None? <==> forall p: nat :: p < |key| ==> !FileMatchAt(key, p)
  {
    match LastIndexOf(key, '/')
    case None => None
    case Some(i) =>
      if NameText(key[i + 1..]) then
        assert FileMatchAt(key, i);
        Some(key[i + 1..])
      else
        NoEarlierMatch(key, i);
        None
  }

  lemma NoEarlierMatch(key: string, i: nat)
    requires i < |key| && key[i] == '/' && '/' !in key[i + 1..] && !NameText(key[i + 1..])
    ensures forall p: nat :: p < |key| ==> !FileMatchAt(key, p)
  {
    forall p: nat | p < |key|
      ensures !FileMatchAt(key, p)
    {
      if p < i {
        assert key[p + 1..][i - p - 1] == '/';
      } else if p > i {
        assert key[p] == key[i + 1..][p - i - 1];
      }
    }
  }

  /** The file name of `dir/name` is `name`, whatever `dir` is. */
  lemma FileNameOf(dir: string, name: string)
    requires NameText(name)
    ensures FileName(dir + "/" + name) == Some(name)
  {
    var key := dir + "/" + name;
    assert key[|dir|] == '/';
    assert key[|dir| + 1..] == name;
    assert '/' !in key[|dir| + 1..];
  }

  /** Every release artifact is served under its own name. */
  lemma FileNameOfKey(t: Keys.Triple, name: string)
    requires NameText(name)
    ensures FileName(Keys.KeyFor(t, name)) == Some(name)
  {
    var dir := Keys.ReleasePrefix + t.os + "/" + t.arch + "/" + t.version;
    assert Keys.KeyFor(t, name) == dir + "/" + name;
    FileNameOf(dir, name);
  }

  /** The object request that gets presigned. */
  datatype GetObject = GetObject(key: string, disposition: string, contentType: string)

  /** The request for `key`: served as an attachment under its file name, typed by its extension. */
  function GetObjectFor(key: string): (r: Option<GetObject>)
    ensures r.None? <==> FileName(key).None?
    ensures r.Some? ==> r.value.key == key && r.value.contentType == ContentTypeFromKey(key)
    ensures r.Some? ==> r.value.disposition == Disposition(FileName(key).value)
  {
    match FileName(key)
    case None => None
    case Some(fn) => Some(GetObject(key, Disposition(fn), ContentTypeFromKey(key)))
  }

  function Disposition(fn: string): string {
    "attachment; filename=\"" + fn + "\""
  }

  /** What the presigner answered for the request. */
  datatype Signing = Signed(url: string) | SignFailed(reason: string)

  function DarwinBody(url: string, key: string): Fields {
    [("url", JStr(url)), ("name", JStr(key))]
  }

  function FailureBody(reason: string): Fields {
    [("success", JBool(true)), ("error", JStr("Could not pre-sign URL: " + reason))]
  }

  /** The text a response gained on top of what `res` already held. */
  function Added(res: Response, r: Response): string {
    var before := Body(res.data);
    var after := Body(r.data);
    if StartsWith(after, before) then after[|before|..] else after
  }

  /**
   * `serveBinaryFile` after signing: the darwin flavour gets 200 and a JSON
   * body, any other flavour (src/handler.js never passes one) a 303 to the
   * URL, and a signing failure a 500. A key that is absent or has no file
   * name makes it throw before any of that; the result is then None.
   */
  function ServeBinaryFile(res: Response, key: Option<string>, flavor: Option<string>, signing: Signing): (r: Option<Response>)
    ensures r.None? <==> key.None? || FileName(key.value).None?
    ensures r.Some? ==>
      r.value.code == (match signing
        case Signed(_) => if flavor == Some("darwin") then 200 else 303
        case SignFailed(_) => 500)
  {
    if key.None? || GetObjectFor(key.value).None? then None
    else match signing
      case Signed(url) =>
        if flavor == Some("darwin") then
          var h := WriteHead(res, 200, map["content-type" := JsonType]);
          Some(End(Write(h, Str(Stringify(DarwinBody(url, key.value)))), Undefined))
        else
          Some(End(WriteHead(res, 303, map["Location" := url]), Undefined))
      case SignFailed(reason) =>
        var h := WriteHead(res, 500, map["Content-Type" := JsonType]);
        Some(End(h, Str(Stringify(FailureBody(reason)))))
  }

  lemma MergeOne(m: map<string, string>, k: string, v: string)
    ensures m + map[k := v] == m[k := v]
  {
  }

  /** The darwin answer: JSON content type, and a body reading back as the URL and the key. */
  lemma ServeDarwin(res: Response, key: string, url: string)
    requires FileName(key).Some?
    ensures var r := ServeBinaryFile(res, Some(key), Some("darwin"), Signed(url)).value;
      && r.headers == res.headers["content-type" := JsonType]
      && ParseObject(Added(res, r)) == Some(DarwinBody(url, key))
  {
    MergeOne(res.headers, "content-type", JsonType);
    AppendedJson(WriteHead(res, 200, map["content-type" := JsonType]), DarwinBody(url, key));
  }

  /** The redirect: only `Location` is added, and nothing is written to the body. */
  lemma ServeRedirect(res: Response, key: string, flavor: Option<string>, url: string)
    requires FileName(key).Some? && flavor != Some("darwin")
    ensures var r := ServeBinaryFile(res, Some(key), flavor, Signed(url)).value;
      && r.headers == res.headers["Location" := url]
      && r.data == res.data
  {
    MergeOne(res.headers, "Location", url);
  }

  /** A signing failure: JSON content type, and a body reading back as `success: true` and the error text. */
  lemma ServeFailure(res: Response, key: string, flavor: Option<string>, reason: string)
    requires FileName(key).Some?
    ensures var r := ServeBinaryFile(res, Some(key), flavor, SignFailed(reason)).value;
      && r.headers == res.headers["Content-Type" := JsonType]
      && ParseObject(Added(res, r)) == Some(FailureBody(reason))
  {
    MergeOne(res.headers, "Content-Type", JsonType);
    AppendedJson(WriteHead(res, 500, map["Content-Type" := JsonType]), FailureBody(reason));
  }

  lemma AppendedJson(h: Response, fs: Fields)
    ensures ParseObject(Added(h, Write(h, Str(Stringify(fs))))) == Some(fs)
  {
    var s := Stringify(fs);
    WriteString(h, s);
    var after := Body(Write(h, Str(s)).data);
    assert after == Body(h.data) + s;
    assert after[..|Body(h.data)|] == Body(h.data);
    assert after[|Body(h.data)|..] == s;
    ParseStringify(fs);
  }
}

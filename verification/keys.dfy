/**
 * Classification of storage keys (src/handler.js, the `re*` patterns and the
 * if-chain in `loadBucketVersions`).
 *
 * Every pattern has the shape `release\/([^\/]*)\/([^\/]*)\/([^\/]*)\/TAIL`
 * and is used unanchored with `RegExp.prototype.exec`, which reports the
 * match that starts leftmost. At a fixed start position the three captures
 * are forced (a `[^\/]*` group followed by `\/` must stop at the next slash),
 * so a pattern either matches at a position with one determined triple or
 * does not match there; `Exec` is the search for the first such position.
 */
module Keys {
  import opened Wrappers
  import Strings

  /** The captured (os, arch, version) segments, verbatim. */
  datatype Triple = Triple(os: string, arch: string, version: string)

  /** The record field a key fills: `RELEASES`, `updatePath` or `downloadPath`. */
  datatype Role = Feed | Update | Download

  /** What must follow the fourth slash: the literal `RELEASES`, or `.*<ext>`. */
  datatype Tail = ReleasesFile | Extension(ext: string)

  datatype Rule = Rule(tail: Tail, role: Role)

  datatype Match = Match(role: Role, triple: Triple)

  const ReleasePrefix: string := "release/"

  /** The five patterns of src/handler.js in the order the if-chain tests them. */
  const HandlerRules: seq<Rule> := [
    Rule(ReleasesFile, Feed),
    Rule(Extension(".nupkg"), Update),
    Rule(Extension(".exe"), Download),
    Rule(Extension(".zip"), Update),
    Rule(Extension(".dmg"), Download)
  ]

  /** The characters ECMAScript's `.` does not match (no `s` flag). */
  predicate IsLineTerminator(c: char) {
    c == '\n' || c == '\r' || c == '\U{2028}' || c == '\U{2029}'
  }

  /** `.*<ext>` matches a prefix of `t`: greedy `.` stops at a line terminator. */
  function ExtensionAhead(t: string, ext: string): bool
    decreases |t|
  {
    if |t| < |ext| then false
    else if t[..|ext|] == ext then true
    else if |t| == 0 || IsLineTerminator(t[0]) then false
    else ExtensionAhead(t[1..], ext)
  }

  /** `ext` occurs at `j` in `t` with no line terminator before it. */
  predicate ExtensionAt(t: string, ext: string, j: nat) {
    && j + |ext| <= |t|
    && t[j..j + |ext|] == ext
    && forall k :: 0 <= k < j ==> !IsLineTerminator(t[k])
  }

  /** The scan agrees with the regular-expression reading, both directions. */
  lemma {:induction false} ExtensionAheadIff(t: string, ext: string, j: nat)
    ensures ExtensionAt(t, ext, j) ==> ExtensionAhead(t, ext)
    ensures ExtensionAhead(t, ext) ==> exists i: nat :: ExtensionAt(t, ext, i)
    decreases |t|
  {
    if |t| < |ext| || t[..|ext|] == ext {
      if |ext| <= |t| && t[..|ext|] == ext {
        assert ExtensionAt(t, ext, 0);
      }
    } else if |t| == 0 || IsLineTerminator(t[0]) {
    } else {
      var u := t[1..];
      if j >= 1 {
        ExtensionAheadIff(u, ext, j - 1);
        if ExtensionAt(t, ext, j) {
          assert u[j - 1..j - 1 + |ext|] == t[j..j + |ext|];
          assert ExtensionAt(u, ext, j - 1);
        }
      } else {
        ExtensionAheadIff(u, ext, 0);
      }
      if ExtensionAhead(t, ext) {
        var i: nat :| ExtensionAt(u, ext, i);
        assert t[i + 1..i + 1 + |ext|] == u[i..i + |ext|];
        assert ExtensionAt(t, ext, i + 1);
      }
    }
  }

  /** An extension reached without crossing a line terminator is found. */
  lemma ExtensionInName(base: string, ext: string, rest: string)
    requires forall k :: 0 <= k < |base| ==> !IsLineTerminator(base[k])
    ensures ExtensionAhead(base + ext + rest, ext)
  {
    var t := base + ext + rest;
    assert t[|base|..|base| + |ext|] == ext;
    assert forall k :: 0 <= k < |base| ==> t[k] == base[k];
    assert ExtensionAt(t, ext, |base|);
    ExtensionAheadIff(t, ext, |base|);
  }

  predicate TailMatches(tail: Tail, t: string) {
    match tail
    case ReleasesFile => Strings.StartsWith(t, "RELEASES")
    case Extension(ext) => ExtensionAhead(t, ext)
  }

  /** The three slash-terminated segments at the start of `u`, and what follows. */
  function Segments(u: string): Option<(Triple, string)> {
    var c1 := Strings.Cut(u, '/');
    if c1.None? then None else
    var c2 := Strings.Cut(c1.value.1, '/');
    if c2.None? then None else
    var c3 := Strings.Cut(c2.value.1, '/');
    if c3.None? then None else
    Some((Triple(c1.value.0, c2.value.0, c3.value.0), c3.value.1))
  }

  /** Segments are slash-free and put back together give the text. */
  lemma SegmentsShape(u: string)
    requires Segments(u).Some?
    ensures var (t, rest) := Segments(u).value;
      && u == t.os + "/" + t.arch + "/" + t.version + "/" + rest
      && '/' !in t.os && '/' !in t.arch && '/' !in t.version
  {
    var c1 := Strings.Cut(u, '/').value;
    var c2 := Strings.Cut(c1.1, '/').value;
    var c3 := Strings.Cut(c2.1, '/').value;
    assert Segments(u).value == (Triple(c1.0, c2.0, c3.0), c3.1);
    Rejoin(u, c1.0, c1.1, c2.0, c2.1, c3.0, c3.1);
  }

  lemma Rejoin(u: string, a: string, u1: string, b: string, u2: string, c: string, rest: string)
    requires u == a + "/" + u1 && u1 == b + "/" + u2 && u2 == c + "/" + rest
    ensures u == a + "/" + b + "/" + c + "/" + rest
  {
  }

  /** The segments of a conventional key's text after `release/`. */
  lemma SegmentsOf(t: Triple, name: string)
    requires '/' !in t.os && '/' !in t.arch && '/' !in t.version
    ensures Segments(t.os + "/" + t.arch + "/" + t.version + "/" + name) == Some((t, name))
  {
    var u2 := t.version + "/" + name;
    var u1 := t.arch + "/" + u2;
    assert t.os + "/" + t.arch + "/" + t.version + "/" + name == t.os + "/" + u1;
    Strings.CutAfterFree(t.os, '/', u1);
    Strings.CutAfterFree(t.arch, '/', u2);
    Strings.CutAfterFree(t.version, '/', name);
  }

  /** The pattern with the given tail matched at start position `p`. */
  function MatchAt(key: string, p: nat, tail: Tail): Option<Triple>
    requires p <= |key|
  {
    var s := key[p..];
    if !Strings.StartsWith(s, ReleasePrefix) then None
    else match Segments(s[|ReleasePrefix|..])
      case None => None
      case Some((t, rest)) => if TailMatches(tail, rest) then Some(t) else None
  }

  /** The leftmost start position at or after `p` where the pattern matches. */
  function Search(key: string, p: nat, tail: Tail): (r: Option<nat>)
    requires p <= |key|
    ensures r.Some? ==> p <= r.value <= |key| && MatchAt(key, r.value, tail).Some?
    ensures r.Some? ==> forall q :: p <= q < r.value ==> MatchAt(key, q, tail).None?
    ensures r.None? ==> forall q :: p <= q <= |key| ==> MatchAt(key, q, tail).None?
    decreases |key| - p
  {
    if MatchAt(key, p, tail).Some? then Some(p)
    else if p == |key| then None
    else Search(key, p + 1, tail)
  }

  /** The pattern matches at no start position below `p`. */
  predicate NoMatchBefore(key: string, p: nat, tail: Tail) {
    forall q :: 0 <= q < p && q <= |key| ==> MatchAt(key, q, tail).None?
  }

  /** `re.exec(key)`: the captures of the leftmost match, or null. */
  function Exec(key: string, tail: Tail): (r: Option<Triple>)
    ensures r.None? <==> NoMatchBefore(key, |key| + 1, tail)
  {
    match Search(key, 0, tail)
    case None => None
    case Some(p) => MatchAt(key, p, tail)
  }

  /** A match `exec` reports starts at the leftmost position where the pattern matches. */
  lemma ExecLeftmost(key: string, tail: Tail)
    requires Exec(key, tail).Some?
    ensures exists p: nat :: p <= |key| && MatchAt(key, p, tail) == Exec(key, tail) && NoMatchBefore(key, p, tail)
  {
    var p := Search(key, 0, tail).value;
    assert MatchAt(key, p, tail) == Exec(key, tail) && NoMatchBefore(key, p, tail);
  }

  /** Tries the rules in order; the first pattern that matches decides. */
  function Classify(key: string, rules: seq<Rule>): (r: Option<Match>)
    ensures r.Some? ==> exists i :: 0 <= i < |rules| && rules[i].role == r.value.role
    ensures r.None? ==> forall j :: 0 <= j < |rules| ==> Exec(key, rules[j].tail).None?
    decreases |rules|
  {
    if |rules| == 0 then None
    else match Exec(key, rules[0].tail)
      case Some(t) => Some(Match(rules[0].role, t))
      case None =>
        assert forall j :: 1 <= j < |rules| ==> rules[j] == rules[1..][j - 1];
        Classify(key, rules[1..])
  }

  /** A rule decides when it matches and no earlier rule does. */
  lemma {:induction false} ClassifyPicksFirst(key: string, rules: seq<Rule>, i: nat)
    requires i < |rules| && Exec(key, rules[i].tail).Some?
    requires forall j :: 0 <= j < i ==> Exec(key, rules[j].tail).None?
    ensures Classify(key, rules) == Some(Match(rules[i].role, Exec(key, rules[i].tail).value))
    decreases i
  {
    if i > 0 {
      assert Exec(key, rules[0].tail).None?;
      var rest := rules[1..];
      assert rest[i - 1] == rules[i];
      assert forall j :: 0 <= j < i - 1 ==> rest[j] == rules[j + 1];
      ClassifyPicksFirst(key, rest, i - 1);
    }
  }

  /** Nothing is classified exactly when no rule's pattern matches. */
  lemma {:induction false} ClassifyNoneIff(key: string, rules: seq<Rule>)
    ensures Classify(key, rules).None? <==> forall j :: 0 <= j < |rules| ==> Exec(key, rules[j].tail).None?
    decreases |rules|
  {
    if |rules| > 0 {
      ClassifyNoneIff(key, rules[1..]);
      assert forall j :: 1 <= j < |rules| ==> rules[j] == rules[1..][j - 1];
    }
  }

  /**
   * The rule list reproduces the if-chain of `loadBucketVersions`: feed,
   * then `.nupkg`, `.exe`, `.zip`, `.dmg`.
   */
  lemma HandlerChain(key: string)
    ensures Classify(key, HandlerRules) ==
      if Exec(key, ReleasesFile).Some? then Some(Match(Feed, Exec(key, ReleasesFile).value))
      else if Exec(key, Extension(".nupkg")).Some? then Some(Match(Update, Exec(key, Extension(".nupkg")).value))
      else if Exec(key, Extension(".exe")).Some? then Some(Match(Download, Exec(key, Extension(".exe")).value))
      else if Exec(key, Extension(".zip")).Some? then Some(Match(Update, Exec(key, Extension(".zip")).value))
      else if Exec(key, Extension(".dmg")).Some? then Some(Match(Download, Exec(key, Extension(".dmg")).value))
      else None
  {
    var r := HandlerRules;
    assert Classify(key, r[4..]) == (if Exec(key, Extension(".dmg")).Some? then Some(Match(Download, Exec(key, Extension(".dmg")).value)) else Classify(key, r[5..]));
    assert r[4..][1..] == r[5..];
    assert r[3..][1..] == r[4..];
    assert r[2..][1..] == r[3..];
    assert r[1..][1..] == r[2..];
  }

  // ------------------------------------------------ conventional keys

  /** The key a release artifact is stored under: release/os/arch/version/name. */
  function KeyFor(t: Triple, name: string): string {
    ReleasePrefix + t.os + "/" + t.arch + "/" + t.version + "/" + name
  }

  predicate WellFormed(t: Triple, name: string) {
    '/' !in t.os && '/' !in t.arch && '/' !in t.version && '/' !in name
  }

  lemma CountThrough(x: string, y: string)
    ensures Strings.Count(x + "/" + y, '/') >= Strings.Count(y, '/') + 1
  {
    assert x + "/" + y == x + ("/" + y);
    Strings.CountAppend(x, "/" + y, '/');
    assert ("/" + y)[1..] == y;
  }

  lemma MatchAtShape(key: string, p: nat, tail: Tail)
    requires p <= |key| && MatchAt(key, p, tail).Some?
    ensures p + 8 <= |key| && key[p + 7] == '/' && Segments(key[p + 8..]).Some?
  {
    var s := key[p..];
    assert s[..8] == ReleasePrefix;
    assert key[p + 7] == s[7];
    assert s[8..] == key[p + 8..];
  }

  lemma SegmentsCount(u: string)
    requires Segments(u).Some?
    ensures Strings.Count(u, '/') >= 3
  {
    SegmentsShape(u);
    var seg := Segments(u).value;
    var t := seg.0;
    var w3 := t.version + "/" + seg.1;
    var w2 := t.arch + "/" + w3;
    var w1 := t.os + "/" + w2;
    assert u == w1;
    CountThrough(t.version, seg.1);
    CountThrough(t.arch, w3);
    CountThrough(t.os, w2);
  }

  /** A match at `p` needs four slashes from position `p + 7` on. */
  lemma MatchAtNeedsSlashes(key: string, p: nat, tail: Tail)
    requires p <= |key|
    ensures MatchAt(key, p, tail).Some? ==> p + 7 < |key| && Strings.Count(key[p + 7..], '/') >= 4
  {
    if MatchAt(key, p, tail).Some? {
      MatchAtShape(key, p, tail);
      var u := key[p + 8..];
      SegmentsCount(u);
      assert key[p + 7..] == "" + "/" + u;
      CountThrough("", u);
    }
  }

  /** A conventional key has only three slashes after its first. */
  lemma CountKeyFor(t: Triple, name: string, p: nat)
    requires WellFormed(t, name)
    requires 0 < p && p + 7 <= |KeyFor(t, name)|
    ensures Strings.Count(KeyFor(t, name)[p + 7..], '/') <= 3
  {
    var key := KeyFor(t, name);
    assert key[8..] == t.os + "/" + t.arch + "/" + t.version + "/" + name;
    Strings.CountAppend(t.os + "/" + t.arch + "/" + t.version + "/", name, '/');
    Strings.CountAppend(t.os + "/" + t.arch + "/" + t.version, "/", '/');
    Strings.CountAppend(t.os + "/" + t.arch + "/", t.version, '/');
    Strings.CountAppend(t.os + "/" + t.arch, "/", '/');
    Strings.CountAppend(t.os + "/", t.arch, '/');
    Strings.CountAppend(t.os, "/", '/');
    Strings.CountFree(t.os, '/');
    Strings.CountFree(t.arch, '/');
    Strings.CountFree(t.version, '/');
    Strings.CountFree(name, '/');
    assert key[8..] == key[8..p + 7] + key[p + 7..];
    Strings.CountAppend(key[8..p + 7], key[p + 7..], '/');
  }

  /** In a conventional key no pattern can start anywhere but position 0. */
  lemma OnlyAtStart(t: Triple, name: string, p: nat, tail: Tail)
    requires WellFormed(t, name)
    requires 0 < p <= |KeyFor(t, name)|
    ensures MatchAt(KeyFor(t, name), p, tail).None?
  {
    MatchAtNeedsSlashes(KeyFor(t, name), p, tail);
    if p + 7 <= |KeyFor(t, name)| {
      CountKeyFor(t, name, p);
    }
  }

  /** A conventional key matches at position 0 exactly when its name fits the tail. */
  lemma MatchAtKeyFor(t: Triple, name: string, tail: Tail)
    requires WellFormed(t, name)
    ensures MatchAt(KeyFor(t, name), 0, tail) == if TailMatches(tail, name) then Some(t) else None
  {
    var key := KeyFor(t, name);
    assert key[0..] == key;
    assert key[..8] == ReleasePrefix;
    assert key[8..] == t.os + "/" + t.arch + "/" + t.version + "/" + name;
    SegmentsOf(t, name);
  }

  /** A conventional key matches a pattern exactly when its name fits the tail. */
  lemma ExecKeyFor(t: Triple, name: string, tail: Tail)
    requires WellFormed(t, name)
    ensures Exec(KeyFor(t, name), tail) == if TailMatches(tail, name) then Some(t) else None
  {
    var key := KeyFor(t, name);
    MatchAtKeyFor(t, name, tail);
    if !TailMatches(tail, name) {
      forall q | 0 < q <= |key|
        ensures MatchAt(key, q, tail).None?
      {
        OnlyAtStart(t, name, q, tail);
      }
      assert Search(key, 0, tail).None?;
    }
  }

  /** A conventional key is classified by its file name alone. */
  lemma {:induction false} ClassifyKeyFor(t: Triple, name: string, rules: seq<Rule>)
    requires WellFormed(t, name)
    ensures Classify(KeyFor(t, name), rules) == ClassifyName(name, rules, t)
    decreases |rules|
  {
    if |rules| > 0 {
      ExecKeyFor(t, name, rules[0].tail);
      ClassifyKeyFor(t, name, rules[1..]);
    }
  }

  /** The first rule whose tail accepts `name`, applied to the triple `t`. */
  function ClassifyName(name: string, rules: seq<Rule>, t: Triple): Option<Match>
    decreases |rules|
  {
    if |rules| == 0 then None
    else if TailMatches(rules[0].tail, name) then Some(Match(rules[0].role, t))
    else ClassifyName(name, rules[1..], t)
  }

  /** `release/os/arch/version/RELEASES` is a feed key for exactly that triple. */
  lemma FeedKey(t: Triple)
    requires WellFormed(t, "RELEASES")
    ensures Classify(KeyFor(t, "RELEASES"), HandlerRules) == Some(Match(Feed, t))
  {
    ClassifyKeyFor(t, "RELEASES", HandlerRules);
  }

  /**
   * The patterns are not anchored at the end: a name with `.exe` in it is a
   * download artifact whatever follows (an electron-builder
   * `Setup.exe.blockmap`, say), unless an earlier pattern claims it.
   */
  lemma ExeAnywhereIsDownload(t: Triple, base: string, rest: string)
    requires WellFormed(t, base + ".exe" + rest)
    requires forall k :: 0 <= k < |base| ==> !IsLineTerminator(base[k])
    requires !Strings.StartsWith(base + ".exe" + rest, "RELEASES")
    requires !ExtensionAhead(base + ".exe" + rest, ".nupkg")
    ensures Classify(KeyFor(t, base + ".exe" + rest), HandlerRules) == Some(Match(Download, t))
  {
    var name := base + ".exe" + rest;
    ClassifyKeyFor(t, name, HandlerRules);
    ExtensionInName(base, ".exe", rest);
    assert HandlerRules[1..][1..] == HandlerRules[2..];
  }

  /** A key without the text `release/` is never classified. */
  lemma NoPrefixNoMatch(key: string, rules: seq<Rule>)
    requires forall p :: 0 <= p <= |key| ==> !Strings.StartsWith(key[p..], ReleasePrefix)
    ensures Classify(key, rules).None?
  {
    ClassifyNoneIff(key, rules);
  }
}

/**
 * The release catalog (src/handler.js `setFile`, `sortVersion` and the body of
 * `loadBucketVersions`; the same code in the root index.js).
 *
 * A build folds the key listing into a table of records, one per
 * (os, arch, version) triple, then distributes the records over the four
 * fixed buckets and sorts each bucket latest-first.
 */
module Catalog {
  import opened Wrappers
  import opened Keys
  import SemVer

  /**
   * One release: the raw captured segments and the three role paths.
   * `version` is the raw path segment, never coerced.
   */
  datatype Record = Record(
    os: string, arch: string, version: string,
    releases: Option<string>, updatePath: Option<string>, downloadPath: Option<string>)
  {
    function Id(): Triple {
      Triple(os, arch, version)
    }

    function Path(role: Role): Option<string> {
      match role
      case Feed => releases
      case Update => updatePath
      case Download => downloadPath
    }
  }

  /** The record `setFile` creates for a triple it has not seen. */
  function Fresh(t: Triple): Record {
    Record(t.os, t.arch, t.version, None, None, None)
  }

  /** `v[key] = fn`: sets one role field and nothing else. */
  function SetRole(r: Record, role: Role, key: string): (r': Record)
    ensures r'.Id() == r.Id()
    ensures r'.Path(role) == Some(key)
    ensures forall other: Role :: other != role ==> r'.Path(other) == r.Path(other)
  {
    match role
    case Feed => r.(releases := Some(key))
    case Update => r.(updatePath := Some(key))
    case Download => r.(downloadPath := Some(key))
  }

  // ---------------------------------------------------------------- table

  /**
   * The nested `osver[os][arch][version]` object, flattened into its records
   * in insertion order; at most one record per triple.
   */
  type Table = seq<Record>

  predicate UniqueIds(tab: Table) {
    forall i, j :: 0 <= i < j < |tab| ==> tab[i].Id() != tab[j].Id()
  }

  /** Where the record for `t` sits, if there is one. */
  function Find(tab: Table, t: Triple): (r: Option<nat>)
    ensures r.Some? ==> r.value < |tab| && tab[r.value].Id() == t
    ensures r.None? ==> forall i :: 0 <= i < |tab| ==> tab[i].Id() != t
    decreases |tab|
  {
    if |tab| == 0 then None
    else if tab[|tab| - 1].Id() == t then Some(|tab| - 1)
    else Find(tab[..|tab| - 1], t)
  }

  /** `osver[t.os][t.arch][t.version]`. */
  function Get(tab: Table, t: Triple): Option<Record> {
    match Find(tab, t)
    case None => None
    case Some(i) => Some(tab[i])
  }

  lemma FindUnique(tab: Table, i: nat)
    requires UniqueIds(tab) && i < |tab|
    ensures Find(tab, tab[i].Id()) == Some(i)
  {
  }

  /**
   * `setFile(osver, pieces, role, key)`: find or create the record of the
   * triple and set one role field; every other triple keeps its record.
   */
  function SetFile(tab: Table, t: Triple, role: Role, key: string): (tab': Table)
    requires UniqueIds(tab)
    ensures UniqueIds(tab')
    ensures Get(tab', t) == Some(SetRole(Get(tab, t).GetOr(Fresh(t)), role, key))
    ensures forall u :: u != t ==> Get(tab', u) == Get(tab, u)
  {
    match Find(tab, t)
    case Some(i) =>
      var tab' := tab[i := SetRole(tab[i], role, key)];
      FindUnique(tab', i);
      assert forall u :: u != t ==> Find(tab', u) == Find(tab, u) by {
        forall u | u != t
          ensures Find(tab', u) == Find(tab, u)
        {
          FindUnchanged(tab, i, SetRole(tab[i], role, key), u);
        }
      }
      tab'
    case None =>
      var tab' := tab + [SetRole(Fresh(t), role, key)];
      assert tab'[..|tab|] == tab;
      tab'
  }

  lemma {:induction false} FindUnchanged(tab: Table, i: nat, r: Record, u: Triple)
    requires UniqueIds(tab) && i < |tab| && r.Id() == tab[i].Id()
    ensures Find(tab[i := r], u) == Find(tab, u)
    decreases |tab|
  {
    var tab' := tab[i := r];
    if |tab| > 0 && i < |tab| - 1 {
      assert tab'[..|tab| - 1] == tab[..|tab| - 1][i := r];
      FindUnchanged(tab[..|tab| - 1], i, r, u);
    } else if |tab| > 0 {
      assert tab'[..|tab| - 1] == tab[..|tab| - 1];
    }
  }

  /** The table after folding `setFile` over the classified keys, in listing order. */
  function Accumulate(keys: seq<string>, rules: seq<Rule>): (tab: Table)
    ensures UniqueIds(tab)
    decreases |keys|
  {
    if |keys| == 0 then []
    else
      var tab := Accumulate(keys[..|keys| - 1], rules);
      var key := keys[|keys| - 1];
      match Classify(key, rules)
      case None => tab
      case Some(m) => SetFile(tab, m.triple, m.role, key)
  }

  // ----------------------------------------------- reference definitions

  predicate ClassifiesTo(key: string, rules: seq<Rule>, t: Triple) {
    Classify(key, rules).Some? && Classify(key, rules).value.triple == t
  }

  /** Some key of the listing names the triple `t`. */
  predicate Seen(keys: seq<string>, rules: seq<Rule>, t: Triple) {
    exists i :: 0 <= i < |keys| && ClassifiesTo(keys[i], rules, t)
  }

  /** The last key of the listing that fills `role` for `t`. */
  function LastKey(keys: seq<string>, rules: seq<Rule>, t: Triple, role: Role): Option<string>
    decreases |keys|
  {
    if |keys| == 0 then None
    else if Classify(keys[|keys| - 1], rules) == Some(Match(role, t)) then Some(keys[|keys| - 1])
    else LastKey(keys[..|keys| - 1], rules, t, role)
  }

  /** The record a triple should end up with: each role holds its last key. */
  function Expected(keys: seq<string>, rules: seq<Rule>, t: Triple): Record {
    Record(t.os, t.arch, t.version,
           LastKey(keys, rules, t, Feed), LastKey(keys, rules, t, Update), LastKey(keys, rules, t, Download))
  }

  lemma SeenSnoc(keys: seq<string>, rules: seq<Rule>, t: Triple)
    requires |keys| > 0
    ensures Seen(keys, rules, t) <==>
      Seen(keys[..|keys| - 1], rules, t) || ClassifiesTo(keys[|keys| - 1], rules, t)
  {
    var pre := keys[..|keys| - 1];
    if Seen(keys, rules, t) && !ClassifiesTo(keys[|keys| - 1], rules, t) {
      var i :| 0 <= i < |keys| && ClassifiesTo(keys[i], rules, t);
      assert pre[i] == keys[i];
    }
    if Seen(pre, rules, t) {
      var i :| 0 <= i < |pre| && ClassifiesTo(pre[i], rules, t);
      assert keys[i] == pre[i];
    }
  }

  lemma {:induction false} UnseenHasNoKey(keys: seq<string>, rules: seq<Rule>, t: Triple, role: Role)
    requires !Seen(keys, rules, t)
    ensures LastKey(keys, rules, t, role).None?
    decreases |keys|
  {
    if |keys| > 0 {
      SeenSnoc(keys, rules, t);
      UnseenHasNoKey(keys[..|keys| - 1], rules, t, role);
    }
  }

  /** A key naming another triple, or none, leaves the expected record alone. */
  lemma ExpectedSkip(keys: seq<string>, rules: seq<Rule>, t: Triple)
    requires |keys| > 0 && !ClassifiesTo(keys[|keys| - 1], rules, t)
    ensures Expected(keys, rules, t) == Expected(keys[..|keys| - 1], rules, t)
  {
  }

  /** A key naming `t` sets its role in the expected record. */
  lemma ExpectedStep(keys: seq<string>, rules: seq<Rule>, t: Triple, role: Role)
    requires |keys| > 0 && Classify(keys[|keys| - 1], rules) == Some(Match(role, t))
    ensures Expected(keys, rules, t) == SetRole(Expected(keys[..|keys| - 1], rules, t), role, keys[|keys| - 1])
  {
    var pre := keys[..|keys| - 1];
    var r := SetRole(Expected(pre, rules, t), role, keys[|keys| - 1]);
    var e := Expected(keys, rules, t);
    assert e.Path(role) == r.Path(role);
    forall other: Role | other != role
      ensures e.Path(other) == r.Path(other)
    {
    }
    assert e.Path(Feed) == r.Path(Feed);
    assert e.Path(Update) == r.Path(Update);
    assert e.Path(Download) == r.Path(Download);
  }

  /**
   * The table holds a record for exactly the triples some key names, and
   * each role field of it is the last key for that role (last write wins).
   */
  lemma {:induction false} AccumulateSpec(keys: seq<string>, rules: seq<Rule>, t: Triple)
    ensures Get(Accumulate(keys, rules), t) ==
      if Seen(keys, rules, t) then Some(Expected(keys, rules, t)) else None
    decreases |keys|
  {
    if |keys| > 0 {
      var pre := keys[..|keys| - 1];
      var key := keys[|keys| - 1];
      AccumulateSpec(pre, rules, t);
      SeenSnoc(keys, rules, t);
      var tab := Accumulate(pre, rules);
      if ClassifiesTo(key, rules, t) {
        var m := Classify(key, rules).value;
        ExpectedStep(keys, rules, t, m.role);
        if !Seen(pre, rules, t) {
          UnseenHasNoKey(pre, rules, t, Feed);
          UnseenHasNoKey(pre, rules, t, Update);
          UnseenHasNoKey(pre, rules, t, Download);
        }
        assert Get(tab, t).GetOr(Fresh(t)) == Expected(pre, rules, t);
      } else {
        ExpectedSkip(keys, rules, t);
      }
    }
  }

  // -------------------------------------------------------------- buckets

  datatype OsArch = OsArch(os: string, arch: string)

  /** The buckets `loadBucketVersions` creates afresh on every build. */
  const KnownPairs: set<OsArch> := {
    OsArch("darwin", "x64"), OsArch("darwin", "arm64"), OsArch("win32", "x64"), OsArch("linux", "x64")
  }

  function PairOf(r: Record): OsArch {
    OsArch(r.os, r.arch)
  }

  /** The records of one (os, arch) pair, in table order. */
  function Filter(tab: Table, p: OsArch): (b: seq<Record>)
    ensures forall r :: r in b <==> r in tab && PairOf(r) == p
    ensures UniqueIds(tab) ==> UniqueIds(b)
    decreases |tab|
  {
    if |tab| == 0 then []
    else
      var pre := Filter(tab[..|tab| - 1], p);
      var last := tab[|tab| - 1];
      assert forall r :: r in tab <==> r in tab[..|tab| - 1] || r == last by {
        assert tab == tab[..|tab| - 1] + [last];
      }
      if PairOf(last) == p then
        SnocUnique(tab, pre);
        pre + [last]
      else pre
  }

  /** Appending the last record of a unique table to a sub-collection of the rest keeps ids unique. */
  lemma SnocUnique(tab: Table, pre: seq<Record>)
    requires |tab| > 0
    requires forall r :: r in pre ==> r in tab[..|tab| - 1]
    requires UniqueIds(tab) ==> UniqueIds(pre)
    ensures UniqueIds(tab) ==> UniqueIds(pre + [tab[|tab| - 1]])
  {
    if UniqueIds(tab) {
      var t := pre + [tab[|tab| - 1]];
      forall i, j | 0 <= i < j < |t|
        ensures t[i].Id() != t[j].Id()
      {
        if j == |t| - 1 {
          assert t[i] == pre[i] && pre[i] in pre;
          var k :| 0 <= k < |tab| - 1 && tab[..|tab| - 1][k] == t[i];
          assert tab[k] == t[i];
        } else {
          assert t[i] == pre[i] && t[j] == pre[j];
        }
      }
    }
  }

  // -------------------------------------------------------------- sorting

  predicate Parses(r: Record) {
    SemVer.Parse(r.version).Some?
  }

  function Ver(r: Record): SemVer.Version
    requires Parses(r)
  {
    SemVer.Parse(r.version).value
  }

  predicate AllParse(s: seq<Record>) {
    forall i :: 0 <= i < |s| ==> Parses(s[i])
  }

  /** Latest first: no record precedes a greater one. */
  predicate Descending(s: seq<Record>)
    requires AllParse(s)
  {
    forall i, j :: 0 <= i < j < |s| ==> !SemVer.Less(Ver(s[i]), Ver(s[j]))
  }

  predicate StrictlyDescending(s: seq<Record>)
    requires AllParse(s)
  {
    forall i, j :: 0 <= i < j < |s| ==> SemVer.Less(Ver(s[j]), Ver(s[i]))
  }

  /**
   * `sortVersion` on two records' version strings: `semver.gt`/`semver.lt`
   * throw (None here) unless both parse. The source hands the comparator the
   * records themselves; this is the comparison the code evidently means.
   */
  function SortVersion(a: Record, b: Record): (r: Option<int>)
    ensures r.Some? <==> Parses(a) && Parses(b)
    ensures r == Some(-1) <==> Parses(a) && Parses(b) && SemVer.Less(Ver(b), Ver(a))
    ensures r == Some(1) <==> Parses(a) && Parses(b) && SemVer.Less(Ver(a), Ver(b))
    ensures r == Some(0) <==> Parses(a) && Parses(b) && a.version == b.version
  {
    if Parses(a) && Parses(b) then
      SameVersion(a, b);
      Some(SemVer.Compare(Ver(a), Ver(b)))
    else None
  }

  /** Two parsed versions are equal exactly when the raw strings are. */
  lemma SameVersion(a: Record, b: Record)
    requires Parses(a) && Parses(b)
    ensures Ver(a) == Ver(b) <==> a.version == b.version
  {
    if Ver(a) == Ver(b) {
      SemVer.ParseInjective(a.version, b.version);
    }
  }

  /** An operand handed to `semver.gt` / `semver.lt`. */
  datatype Operand = VersionText(text: string) | RecordObject(record: Record)

  /**
   * The `new SemVer(x)` both comparisons start with: a valid version string
   * parses; anything else, an object included, throws (None here).
   */
  function OperandVersion(x: Operand): Option<SemVer.Version> {
    match x
    case VersionText(s) => SemVer.Parse(s)
    case RecordObject(_) => None
  }

  /** `sortVersion(a, b)` on whatever operands it is handed; None where semver throws. */
  function Comparator(a: Operand, b: Operand): (r: Option<int>)
    ensures r.Some? <==> OperandVersion(a).Some? && OperandVersion(b).Some?
  {
    match (OperandVersion(a), OperandVersion(b))
    case (Some(x), Some(y)) => Some(if SemVer.Less(y, x) then -1 else if SemVer.Less(x, y) then 1 else 0)
    case _ => None
  }

  /** The comparator as `.sort(sortVersion)` calls it in the source: on the records themselves. */
  function SortVersionAsWritten(a: Record, b: Record): (r: Option<int>)
    ensures r.None?
  {
    Comparator(RecordObject(a), RecordObject(b))
  }

  /** `SortVersion` is the comparator handed the records' version strings. */
  lemma SortVersionOnVersions(a: Record, b: Record)
    ensures SortVersion(a, b) == Comparator(VersionText(a.version), VersionText(b.version))
  {
    if Parses(a) && Parses(b) {
      SemVer.CompareAntisymmetric(Ver(a), Ver(b));
    }
  }

  /** Putting a record no older than any other in front keeps the order. */
  lemma ConsDescending(x: Record, t: seq<Record>)
    requires Parses(x) && AllParse(t) && Descending(t)
    requires forall k :: 0 <= k < |t| ==> !SemVer.Less(Ver(x), Ver(t[k]))
    ensures AllParse([x] + t) && Descending([x] + t)
  {
    var u := [x] + t;
    assert forall k :: 1 <= k < |u| ==> u[k] == t[k - 1];
  }

  /** Stable insertion of `r` into a latest-first sequence, driven by the comparator. */
  function Insert(r: Record, s: seq<Record>): (t: seq<Record>)
    requires Parses(r) && AllParse(s) && Descending(s)
    ensures AllParse(t) && Descending(t)
    ensures multiset(t) == multiset(s) + multiset{r}
    decreases |s|
  {
    if |s| == 0 then [r]
    else if SortVersion(r, s[0]) == Some(-1) then
      ConsDescending(r, s);
      [r] + s
    else
      var rest := Insert(r, s[1..]);
      assert s == [s[0]] + s[1..];
      assert multiset(s) == multiset{s[0]} + multiset(s[1..]);
      InsertBound(r, s, rest);
      ConsDescending(s[0], rest);
      [s[0]] + rest
  }

  lemma InsertBound(r: Record, s: seq<Record>, rest: seq<Record>)
    requires |s| > 0 && Parses(r) && AllParse(s) && Descending(s) && AllParse(rest)
    requires !SemVer.Less(Ver(s[0]), Ver(r))
    requires multiset(rest) == multiset(s[1..]) + multiset{r}
    ensures forall k :: 0 <= k < |rest| ==> !SemVer.Less(Ver(s[0]), Ver(rest[k]))
  {
    forall k | 0 <= k < |rest|
      ensures !SemVer.Less(Ver(s[0]), Ver(rest[k]))
    {
      assert rest[k] in multiset(rest);
      if rest[k] != r {
        assert rest[k] in multiset(s[1..]);
        var i :| 0 <= i < |s[1..]| && s[1..][i] == rest[k];
        assert s[i + 1] == rest[k];
      }
    }
  }

  /** Putting a record strictly newer than all others in front keeps the strict order. */
  lemma ConsStrict(x: Record, t: seq<Record>)
    requires Parses(x) && AllParse(t) && StrictlyDescending(t)
    requires forall k :: 0 <= k < |t| ==> SemVer.Less(Ver(t[k]), Ver(x))
    ensures AllParse([x] + t) && StrictlyDescending([x] + t)
  {
    var u := [x] + t;
    assert forall k :: 1 <= k < |u| ==> u[k] == t[k - 1];
  }

  /** After an insertion behind the head, everything behind it is strictly older than the head. */
  lemma InsertStrictBound(r: Record, s: seq<Record>, rest: seq<Record>)
    requires |s| > 0 && Parses(r) && AllParse(s) && StrictlyDescending(s) && AllParse(rest)
    requires !SemVer.Less(Ver(s[0]), Ver(r)) && Ver(s[0]) != Ver(r)
    requires multiset(rest) == multiset(s[1..]) + multiset{r}
    ensures forall k :: 0 <= k < |rest| ==> SemVer.Less(Ver(rest[k]), Ver(s[0]))
  {
    forall k | 0 <= k < |rest|
      ensures SemVer.Less(Ver(rest[k]), Ver(s[0]))
    {
      assert rest[k] in multiset(rest);
      if rest[k] != r {
        assert rest[k] in multiset(s[1..]);
        var i :| 0 <= i < |s[1..]| && s[1..][i] == rest[k];
        assert s[i + 1] == rest[k];
      }
    }
  }

  /** Inserting a version the sequence does not have keeps it strictly ordered. */
  lemma {:induction false} InsertStrict(r: Record, s: seq<Record>)
    requires Parses(r) && AllParse(s) && Descending(s) && StrictlyDescending(s)
    requires forall k :: 0 <= k < |s| ==> Ver(s[k]) != Ver(r)
    ensures StrictlyDescending(Insert(r, s))
    decreases |s|
  {
    if |s| > 0 && SortVersion(r, s[0]) != Some(-1) {
      var rest := Insert(r, s[1..]);
      InsertStrict(r, s[1..]);
      assert Insert(r, s) == [s[0]] + rest;
      InsertStrictBound(r, s, rest);
      ConsStrict(s[0], rest);
    }
  }

  predicate UniqueVersions(s: seq<Record>) {
    forall i, j :: 0 <= i < j < |s| ==> s[i].version != s[j].version
  }

  /** `bucket.sort(sortVersion)`: a latest-first permutation of the bucket. */
  function SortDesc(s: seq<Record>): (t: seq<Record>)
    requires AllParse(s)
    ensures AllParse(t) && Descending(t)
    ensures multiset(t) == multiset(s)
    decreases |s|
  {
    if |s| == 0 then []
    else
      assert s == s[..|s| - 1] + [s[|s| - 1]];
      Insert(s[|s| - 1], SortDesc(s[..|s| - 1]))
  }

  /** With distinct version strings the sorted bucket is strictly latest-first. */
  lemma {:induction false} SortDescStrict(s: seq<Record>)
    requires AllParse(s) && UniqueVersions(s)
    ensures StrictlyDescending(SortDesc(s))
    decreases |s|
  {
    if |s| > 0 {
      var pre := s[..|s| - 1];
      var last := s[|s| - 1];
      var sorted := SortDesc(pre);
      SortDescStrict(pre);
      forall k | 0 <= k < |sorted|
        ensures Ver(sorted[k]) != Ver(last)
      {
        assert sorted[k] in multiset(pre);
        var i :| 0 <= i < |pre| && pre[i] == sorted[k];
        assert s[i] == sorted[k];
        SameVersion(sorted[k], last);
      }
      InsertStrict(last, sorted);
    }
  }

  /** Sorting calls the comparator only when there are two records or more. */
  predicate Sortable(b: seq<Record>) {
    |b| < 2 || AllParse(b)
  }

  function SortBucket(b: seq<Record>): (r: seq<Record>)
    requires Sortable(b)
    ensures multiset(r) == multiset(b)
    ensures |b| < 2 ==> r == b
    ensures |b| >= 2 ==> AllParse(r) && Descending(r)
  {
    if |b| < 2 then b else SortDesc(b)
  }

  /** The published catalog: `versions[os][arch]`. */
  type Catalog = map<OsArch, seq<Record>>

  /**
   * Why a build throws: a record's (os, arch) has no bucket (`.push` on
   * undefined), or a bucket to sort holds a version `semver` cannot parse.
   */
  datatype BuildError = UnknownOsArch | InvalidVersion

  /** Some record of the table has no bucket. */
  predicate HasUnknownPair(tab: Table) {
    exists i :: 0 <= i < |tab| && PairOf(tab[i]) !in KnownPairs
  }

  /** Every bucket can be sorted without the comparator throwing. */
  predicate AllSortable(tab: Table) {
    forall p :: p in KnownPairs ==> Sortable(Filter(tab, p))
  }

  /** The four buckets filled from the table and sorted latest first. */
  function Publish(tab: Table): (c: Catalog)
    requires AllSortable(tab)
    ensures c.Keys == KnownPairs
    ensures forall p :: p in KnownPairs ==> c[p] == SortBucket(Filter(tab, p))
    ensures forall p :: p in KnownPairs ==> multiset(c[p]) == multiset(Filter(tab, p))
    ensures forall p :: p in KnownPairs && |c[p]| >= 2 ==> AllParse(c[p]) && Descending(c[p])
  {
    map p | p in KnownPairs :: SortBucket(Filter(tab, p))
  }

  /** `loadBucketVersions` after the listing: classify, accumulate, bucket, sort. */
  function Build(keys: seq<string>, rules: seq<Rule>): (r: Result<Catalog, BuildError>)
    ensures r.Success? ==> r.value.Keys == KnownPairs
  {
    var tab := Accumulate(keys, rules);
    if HasUnknownPair(tab) then Failure(UnknownOsArch)
    else if !AllSortable(tab) then Failure(InvalidVersion)
    else Success(Publish(tab))
  }

  /**
   * The build as written: any bucket of two or more records makes the sort
   * call the comparator, which throws on its record operands.
   */
  function BuildAsWritten(keys: seq<string>, rules: seq<Rule>): (r: Result<Catalog, BuildError>)
    ensures r.Success? ==> forall p :: p in r.value ==> |r.value[p]| < 2
  {
    var tab := Accumulate(keys, rules);
    if HasUnknownPair(tab) then Failure(UnknownOsArch)
    else if exists p :: p in KnownPairs && |Filter(tab, p)| >= 2 then Failure(InvalidVersion)
    else Success(map p | p in KnownPairs :: Filter(tab, p))
  }

  // -------------------------------------------------- build properties

  /** A record is in the table exactly when it is the expected record of a seen triple. */
  lemma InTable(keys: seq<string>, rules: seq<Rule>, r: Record)
    ensures r in Accumulate(keys, rules) <==>
      Seen(keys, rules, r.Id()) && r == Expected(keys, rules, r.Id())
  {
    var tab := Accumulate(keys, rules);
    AccumulateSpec(keys, rules, r.Id());
    if r in tab {
      var i :| 0 <= i < |tab| && tab[i] == r;
      FindUnique(tab, i);
    }
  }

  /** A key classified outside the four buckets. */
  predicate NamesUnknownPair(key: string, rules: seq<Rule>) {
    Classify(key, rules).Some?
    && OsArch(Classify(key, rules).value.triple.os, Classify(key, rules).value.triple.arch) !in KnownPairs
  }

  /** The build throws for an unknown (os, arch) exactly when some key names one. */
  lemma BuildUnknownPair(keys: seq<string>, rules: seq<Rule>)
    ensures Build(keys, rules) == Failure(UnknownOsArch) <==>
      exists i :: 0 <= i < |keys| && NamesUnknownPair(keys[i], rules)
  {
    var tab := Accumulate(keys, rules);
    if exists i :: 0 <= i < |tab| && PairOf(tab[i]) !in KnownPairs {
      var i :| 0 <= i < |tab| && PairOf(tab[i]) !in KnownPairs;
      InTable(keys, rules, tab[i]);
      var j :| 0 <= j < |keys| && ClassifiesTo(keys[j], rules, tab[i].Id());
      assert NamesUnknownPair(keys[j], rules);
    }
    if exists j :: 0 <= j < |keys| && NamesUnknownPair(keys[j], rules) {
      var j :| 0 <= j < |keys| && NamesUnknownPair(keys[j], rules);
      var t := Classify(keys[j], rules).value.triple;
      assert Seen(keys, rules, t);
      var r := Expected(keys, rules, t);
      InTable(keys, rules, r);
      var i :| 0 <= i < |tab| && tab[i] == r;
      assert PairOf(tab[i]) !in KnownPairs;
    }
  }

  lemma {:induction false} AccumulateUnrecognised(keys: seq<string>, rules: seq<Rule>)
    requires forall i :: 0 <= i < |keys| ==> Classify(keys[i], rules).None?
    ensures Accumulate(keys, rules) == []
    decreases |keys|
  {
    if |keys| > 0 {
      AccumulateUnrecognised(keys[..|keys| - 1], rules);
    }
  }

  /** A listing in which nothing is recognised builds four empty buckets. */
  lemma BuildUnrecognised(keys: seq<string>, rules: seq<Rule>)
    requires forall i :: 0 <= i < |keys| ==> Classify(keys[i], rules).None?
    ensures Build(keys, rules) == Success(map p | p in KnownPairs :: [])
  {
    var tab := Accumulate(keys, rules);
    AccumulateUnrecognised(keys, rules);
    assert forall p :: Filter(tab, p) == [];
    assert !exists p :: p in KnownPairs && !Sortable(Filter(tab, p));
    assert Build(keys, rules).Success?;
    var c := Build(keys, rules).value;
    var e: Catalog := map p | p in KnownPairs :: [];
    assert forall p :: p in KnownPairs ==> c[p] == [] == e[p];
    assert c.Keys == KnownPairs == e.Keys;
    assert c == e;
  }

  lemma FilterVersions(tab: Table, p: OsArch)
    requires UniqueIds(tab)
    ensures UniqueVersions(Filter(tab, p))
  {
    var b := Filter(tab, p);
    forall i, j | 0 <= i < j < |b|
      ensures b[i].version != b[j].version
    {
      assert b[i] in b && b[j] in b;
      assert b[i].Id() != b[j].Id();
    }
  }

  /**
   * The shape of a built bucket: its records are exactly the expected
   * records of the seen triples of its pair, and two or more of them are
   * strictly latest-first.
   */
  lemma BuildBucket(keys: seq<string>, rules: seq<Rule>, c: Catalog, p: OsArch)
    requires Build(keys, rules) == Success(c) && p in KnownPairs
    ensures forall r :: r in c[p] <==>
      PairOf(r) == p && Seen(keys, rules, r.Id()) && r == Expected(keys, rules, r.Id())
    ensures |c[p]| >= 2 ==> AllParse(c[p]) && StrictlyDescending(c[p])
    ensures UniqueVersions(c[p])
  {
    var tab := Accumulate(keys, rules);
    var b := Filter(tab, p);
    BuildMembers(keys, rules, c, p);
    assert c[p] == SortBucket(b);
    FilterVersions(tab, p);
    if |b| >= 2 {
      SortDescStrict(b);
      forall i, j | 0 <= i < j < |c[p]|
        ensures c[p][i].version != c[p][j].version
      {
        SameVersion(c[p][i], c[p][j]);
      }
    }
  }

  lemma BuildMembers(keys: seq<string>, rules: seq<Rule>, c: Catalog, p: OsArch)
    requires Build(keys, rules) == Success(c) && p in KnownPairs
    ensures forall r :: r in c[p] <==>
      PairOf(r) == p && Seen(keys, rules, r.Id()) && r == Expected(keys, rules, r.Id())
  {
    var tab := Accumulate(keys, rules);
    var b := Filter(tab, p);
    assert multiset(c[p]) == multiset(b);
    forall r
      ensures r in c[p] <==> PairOf(r) == p && Seen(keys, rules, r.Id()) && r == Expected(keys, rules, r.Id())
    {
      InTable(keys, rules, r);
      assert r in c[p] <==> r in multiset(c[p]);
      assert r in b <==> r in multiset(b);
    }
  }

  /** A bucket lists a version exactly when some key names it for that pair. */
  lemma BuildVersionSeen(keys: seq<string>, rules: seq<Rule>, c: Catalog, p: OsArch, v: string)
    requires Build(keys, rules) == Success(c) && p in KnownPairs
    ensures (exists i :: 0 <= i < |c[p]| && c[p][i].version == v) <==>
      Seen(keys, rules, Triple(p.os, p.arch, v))
  {
    BuildBucket(keys, rules, c, p);
    var t := Triple(p.os, p.arch, v);
    if Seen(keys, rules, t) {
      var r := Expected(keys, rules, t);
      assert r.Id() == t;
      assert r in c[p];
      var i :| 0 <= i < |c[p]| && c[p][i] == r;
    }
    if exists i :: 0 <= i < |c[p]| && c[p][i].version == v {
      var i :| 0 <= i < |c[p]| && c[p][i].version == v;
      assert c[p][i] in c[p];
      assert c[p][i].Id() == t;
    }
  }

  /** Every record of a bucket carries, per role, the last key listed for it. */
  lemma BuildRecord(keys: seq<string>, rules: seq<Rule>, c: Catalog, p: OsArch, i: nat)
    requires Build(keys, rules) == Success(c) && p in KnownPairs && i < |c[p]|
    ensures c[p][i].os == p.os && c[p][i].arch == p.arch
    ensures forall role: Role :: c[p][i].Path(role) == LastKey(keys, rules, c[p][i].Id(), role)
  {
    BuildBucket(keys, rules, c, p);
    var r := c[p][i];
    assert r in c[p];
    assert r == Expected(keys, rules, r.Id());
    forall role: Role
      ensures r.Path(role) == LastKey(keys, rules, r.Id(), role)
    {
      ExpectedPath(keys, rules, r.Id(), role);
    }
  }

  lemma ExpectedPath(keys: seq<string>, rules: seq<Rule>, t: Triple, role: Role)
    ensures Expected(keys, rules, t).Path(role) == LastKey(keys, rules, t, role)
  {
  }

  /** The head of a non-empty bucket is its greatest version. */
  lemma BuildLatestFirst(keys: seq<string>, rules: seq<Rule>, c: Catalog, p: OsArch, i: nat)
    requires Build(keys, rules) == Success(c) && p in KnownPairs
    requires 0 < i < |c[p]|
    ensures Parses(c[p][0]) && Parses(c[p][i]) && SemVer.Less(Ver(c[p][i]), Ver(c[p][0]))
  {
    BuildBucket(keys, rules, c, p);
  }

  /** Any other version listed for a pair is older than the one its bucket lists first. */
  lemma BuildNewestFirst(keys: seq<string>, rules: seq<Rule>, c: Catalog, p: OsArch, w: string)
    requires Build(keys, rules) == Success(c) && p in KnownPairs && |c[p]| > 0
    requires Seen(keys, rules, Triple(p.os, p.arch, w)) && w != c[p][0].version
    ensures Parses(c[p][0]) && SemVer.Parse(w).Some? && SemVer.Less(SemVer.Parse(w).value, Ver(c[p][0]))
  {
    BuildVersionSeen(keys, rules, c, p, w);
    var i :| 0 <= i < |c[p]| && c[p][i].version == w;
    BuildLatestFirst(keys, rules, c, p, i);
  }

  /**
   * Two versions for one pair, one of which `semver` cannot parse, make the
   * sort throw.
   */
  lemma BuildInvalidVersion(keys: seq<string>, rules: seq<Rule>, p: OsArch, v: string, w: string)
    requires forall i :: 0 <= i < |keys| ==> !NamesUnknownPair(keys[i], rules)
    requires p in KnownPairs && v != w && SemVer.Parse(v).None?
    requires Seen(keys, rules, Triple(p.os, p.arch, v)) && Seen(keys, rules, Triple(p.os, p.arch, w))
    ensures Build(keys, rules) == Failure(InvalidVersion)
  {
    BuildUnknownPair(keys, rules);
    var tab := Accumulate(keys, rules);
    var b := Filter(tab, p);
    var rv := Expected(keys, rules, Triple(p.os, p.arch, v));
    var rw := Expected(keys, rules, Triple(p.os, p.arch, w));
    InTable(keys, rules, rv);
    InTable(keys, rules, rw);
    assert rv in b && rw in b && rv != rw;
    var iv :| 0 <= iv < |b| && b[iv] == rv;
    var iw :| 0 <= iw < |b| && b[iw] == rw;
    assert iv != iw;
    assert |b| >= 2 && !Parses(b[iv]);
    assert !AllSortable(tab);
  }

  // ------------------------------------------------ the comparator finding

  /** Wherever the intended build publishes a bucket of two or more releases, the build as written throws. */
  lemma AsWrittenThrowsOnTwo(keys: seq<string>, rules: seq<Rule>, c: Catalog, p: OsArch)
    requires Build(keys, rules) == Success(c) && p in KnownPairs && |c[p]| >= 2
    ensures BuildAsWritten(keys, rules) == Failure(InvalidVersion)
  {
    var tab := Accumulate(keys, rules);
    BuildShape(keys, rules, c, p);
    SortBucketLength(Filter(tab, p));
    AsWrittenShape(keys, rules, p);
  }

  /** What a successful build says about the table: known pairs only, and each bucket its sorted filter. */
  lemma BuildShape(keys: seq<string>, rules: seq<Rule>, c: Catalog, p: OsArch)
    requires Build(keys, rules) == Success(c) && p in KnownPairs
    ensures forall i :: 0 <= i < |Accumulate(keys, rules)| ==> PairOf(Accumulate(keys, rules)[i]) in KnownPairs
    ensures Sortable(Filter(Accumulate(keys, rules), p))
    ensures c[p] == SortBucket(Filter(Accumulate(keys, rules), p))
  {
  }

  lemma AsWrittenShape(keys: seq<string>, rules: seq<Rule>, p: OsArch)
    requires forall i :: 0 <= i < |Accumulate(keys, rules)| ==> PairOf(Accumulate(keys, rules)[i]) in KnownPairs
    requires p in KnownPairs && |Filter(Accumulate(keys, rules), p)| >= 2
    ensures BuildAsWritten(keys, rules) == Failure(InvalidVersion)
  {
  }

  lemma SortBucketLength(b: seq<Record>)
    requires Sortable(b)
    ensures |SortBucket(b)| == |b|
  {
    if |b| >= 2 {
      assert |multiset(SortDesc(b))| == |multiset(b)|;
    }
  }

  /** Two releases of distinct versions for one pair: the listing the finding is about. */
  function TwoReleases(v: SemVer.Version, w: SemVer.Version): seq<string> {
    [KeyFor(Triple("win32", "x64", SemVer.Format(v)), "RELEASES"),
     KeyFor(Triple("win32", "x64", SemVer.Format(w)), "RELEASES")]
  }

  function FeedRecord(v: SemVer.Version, key: string): Record {
    SetRole(Fresh(Triple("win32", "x64", SemVer.Format(v))), Feed, key)
  }

  lemma TwoReleasesTable(v: SemVer.Version, w: SemVer.Version)
    requires v != w
    ensures Accumulate(TwoReleases(v, w), HandlerRules) ==
      [FeedRecord(v, TwoReleases(v, w)[0]), FeedRecord(w, TwoReleases(v, w)[1])]
  {
    var keys := TwoReleases(v, w);
    var t1 := Triple("win32", "x64", SemVer.Format(v));
    var t2 := Triple("win32", "x64", SemVer.Format(w));
    SemVer.ParseFormat(v);
    SemVer.ParseFormat(w);
    assert t1 != t2;
    FeedKey(t1);
    FeedKey(t2);
    assert keys[..1] == [keys[0]] && [keys[0]][..0] == [];
    assert Accumulate([keys[0]], HandlerRules) == [FeedRecord(v, keys[0])];
  }

  /** Two records of one pair: that pair's bucket holds both, every other bucket is empty. */
  lemma FilterTwo(r1: Record, r2: Record, p: OsArch, q: OsArch)
    requires PairOf(r1) == p && PairOf(r2) == p
    ensures Filter([r1, r2], p) == [r1, r2]
    ensures q != p ==> Filter([r1, r2], q) == []
  {
    assert [r1, r2][..1] == [r1];
    assert [r1][..0] == [];
    assert Filter([r1], p) == [r1];
    assert Filter([r1, r2], p) == Filter([r1], p) + [r2];
    if q != p {
      assert Filter([r1], q) == Filter([], q);
      assert Filter([r1, r2], q) == Filter([r1], q);
    }
  }

  /** A listing that accumulates to two parsing records of one known pair builds, with both in that bucket. */
  lemma BuildTwoRecords(keys: seq<string>, rules: seq<Rule>, p: OsArch, r1: Record, r2: Record)
    requires p in KnownPairs && Accumulate(keys, rules) == [r1, r2]
    requires PairOf(r1) == p && PairOf(r2) == p && Parses(r1) && Parses(r2)
    ensures Build(keys, rules).Success?
    ensures |Build(keys, rules).value[p]| == 2
  {
    var tab := Accumulate(keys, rules);
    assert !HasUnknownPair(tab);
    forall q | q in KnownPairs
      ensures Sortable(Filter(tab, q))
    {
      FilterTwo(r1, r2, p, q);
    }
    assert AllSortable(tab);
    FilterTwo(r1, r2, p, p);
    assert Build(keys, rules) == Success(Publish(tab));
    SortBucketLength(tab);
  }

  /**
   * Two feeds for win32/x64, `1.0.0` and `1.1.0` say: the intended build
   * publishes both, latest first; the build as written throws.
   */
  lemma TwoReleasesShowIt(v: SemVer.Version, w: SemVer.Version)
    requires v != w
    ensures Build(TwoReleases(v, w), HandlerRules).Success?
    ensures |Build(TwoReleases(v, w), HandlerRules).value[OsArch("win32", "x64")]| == 2
    ensures BuildAsWritten(TwoReleases(v, w), HandlerRules) == Failure(InvalidVersion)
  {
    var keys := TwoReleases(v, w);
    var p := OsArch("win32", "x64");
    TwoReleasesTable(v, w);
    SemVer.ParseFormat(v);
    SemVer.ParseFormat(w);
    BuildTwoRecords(keys, HandlerRules, p, FeedRecord(v, keys[0]), FeedRecord(w, keys[1]));
    AsWrittenThrowsOnTwo(keys, HandlerRules, Build(keys, HandlerRules).value, p);
  }
}

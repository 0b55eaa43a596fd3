/**
 * Semantic versions as the service uses them through the `semver` library:
 * precedence on major.minor.patch (section 11 of Semantic Versioning 2.0.0),
 * the strict parser that `semver.gt`/`semver.lt` apply to a raw string, the
 * canonical "M.m.p" text a parsed version prints as, and the lenient `coerce`.
 */
module SemVer {
  import opened Wrappers
  import Strings

  datatype Version = Version(major: nat, minor: nat, patch: nat)

  /** Precedence: compare major, then minor, then patch, numerically. */
  predicate Less(a: Version, b: Version) {
    || a.major < b.major
    || (a.major == b.major && a.minor < b.minor)
    || (a.major == b.major && a.minor == b.minor && a.patch < b.patch)
  }

  lemma LessIsStrictTotalOrder(a: Version, b: Version, c: Version)
    ensures !Less(a, a)
    ensures Less(a, b) ==> !Less(b, a)
    ensures Less(a, b) && Less(b, c) ==> Less(a, c)
    ensures a == b || Less(a, b) || Less(b, a)
  {
  }

  /**
   * The comparator `sortVersion` built from `semver.gt` and `semver.lt`:
   * -1 puts `a` first (it is greater), 1 puts `b` first, 0 keeps them.
   */
  function Compare(a: Version, b: Version): (r: int)
    ensures r == -1 <==> Less(b, a)
    ensures r == 1 <==> Less(a, b)
    ensures r == 0 <==> a == b
  {
    if Less(b, a) then -1 else if Less(a, b) then 1 else 0
  }

  /** The comparator is antisymmetric. */
  lemma CompareAntisymmetric(a: Version, b: Version)
    ensures Compare(a, b) == -Compare(b, a)
  {
  }

  // ---------------------------------------------------------------- digits

  predicate IsDigit(c: char) {
    '0' <= c <= '9'
  }

  predicate AllDigits(s: string) {
    forall i :: 0 <= i < |s| ==> IsDigit(s[i])
  }

  /** A numeric identifier: `0` or a digit string without a leading zero. */
  predicate IsNumericIdentifier(s: string) {
    |s| > 0 && AllDigits(s) && (s[0] == '0' ==> |s| == 1)
  }

  function DigitValue(c: char): nat
    requires IsDigit(c)
  {
    c as int - '0' as int
  }

  function DigitChar(n: nat): (c: char)
    requires n < 10
    ensures IsDigit(c) && DigitValue(c) == n
  {
    ('0' as int + n) as char
  }

  /** The number a decimal digit string denotes. */
  function Value(s: string): nat
    requires AllDigits(s)
    decreases |s|
  {
    if |s| == 0 then 0 else Value(s[..|s| - 1]) * 10 + DigitValue(s[|s| - 1])
  }

  /** The decimal text of `n`, as `String(n)` prints it. */
  function Decimal(n: nat): string
    decreases n
  {
    if n < 10 then [DigitChar(n)] else Decimal(n / 10) + [DigitChar(n % 10)]
  }

  lemma {:induction false} DecimalIsIdentifier(n: nat)
    ensures IsNumericIdentifier(Decimal(n))
    ensures Value(Decimal(n)) == n
    decreases n
  {
    if n >= 10 {
      DecimalIsIdentifier(n / 10);
      var s := Decimal(n);
      assert s[..|s| - 1] == Decimal(n / 10);
      assert s[0] == Decimal(n / 10)[0];
    }
  }

  lemma {:induction false} ValuePositive(s: string)
    requires |s| > 0 && AllDigits(s) && s[0] != '0'
    ensures Value(s) > 0
    decreases |s|
  {
    if |s| > 1 {
      ValuePositive(s[..|s| - 1]);
    }
  }

  lemma {:induction false} DecimalOfValue(s: string)
    requires IsNumericIdentifier(s)
    ensures Decimal(Value(s)) == s
    decreases |s|
  {
    if |s| > 1 {
      var p := s[..|s| - 1];
      assert p[0] == s[0] && p[0] != '0';
      ValuePositive(p);
      DecimalOfValue(p);
      var n := Value(s);
      assert n / 10 == Value(p) && n % 10 == DigitValue(s[|s| - 1]);
      assert s == p + [s[|s| - 1]];
    }
  }

  // ------------------------------------------------------ strict parsing

  /** The characters of a canonical version text. */
  const NumeralChars: set<char> := {'.', '0', '1', '2', '3', '4', '5', '6', '7', '8', '9'}

  /** Parts made of digits join on dots into digits and dots only. */
  lemma NumeralsJoin(parts: seq<string>)
    requires |parts| >= 1
    requires forall i :: 0 <= i < |parts| ==> AllDigits(parts[i])
    ensures forall k :: 0 <= k < |Strings.Join(parts, '.')| ==>
              Strings.Join(parts, '.')[k] == '.' || IsDigit(Strings.Join(parts, '.')[k])
  {
    forall i | 0 <= i < |parts|
      ensures forall c :: c in parts[i] ==> c in NumeralChars
    {
      forall c | c in parts[i]
        ensures c in NumeralChars
      {
        var k :| 0 <= k < |parts[i]| && parts[i][k] == c;
        assert IsDigit(parts[i][k]);
      }
    }
    Strings.JoinWithin(parts, '.', NumeralChars);
    var t := Strings.Join(parts, '.');
    forall k | 0 <= k < |t|
      ensures t[k] == '.' || IsDigit(t[k])
    {
      assert t[k] in t;
    }
  }

  /**
   * The canonical text of a version: "major.minor.patch". It is made of
   * digits and dots only, so it holds no '/' and is a single path segment.
   */
  function Format(v: Version): (f: string)
    ensures forall k :: 0 <= k < |f| ==> f[k] == '.' || IsDigit(f[k])
    ensures '/' !in f
  {
    var parts := [Decimal(v.major), Decimal(v.minor), Decimal(v.patch)];
    DecimalIsIdentifier(v.major);
    DecimalIsIdentifier(v.minor);
    DecimalIsIdentifier(v.patch);
    assert forall i :: 0 <= i < 3 ==> AllDigits(parts[i]);
    NumeralsJoin(parts);
    Strings.JoinFree(parts, '.', '/');
    Strings.Join(parts, '.')
  }

  /**
   * The strict parse `new SemVer(s)` performs on a raw string: exactly three
   * numeric identifiers separated by dots. A failure here is the exception
   * `semver.gt` and `semver.lt` throw on an invalid version.
   */
  function Parse(s: string): (r: Option<Version>)
    ensures r.Some? ==> forall k :: 0 <= k < |s| ==> s[k] == '.' || IsDigit(s[k])
  {
    var parts := Strings.Split(s, '.');
    if |parts| == 3
       && IsNumericIdentifier(parts[0])
       && IsNumericIdentifier(parts[1])
       && IsNumericIdentifier(parts[2])
    then
      assert forall i :: 0 <= i < 3 ==> AllDigits(parts[i]);
      NumeralsJoin(parts);
      Strings.JoinSplit(s, '.');
      Some(Version(Value(parts[0]), Value(parts[1]), Value(parts[2])))
    else None
  }

  lemma FormatParts(v: Version)
    ensures Strings.Split(Format(v), '.') == [Decimal(v.major), Decimal(v.minor), Decimal(v.patch)]
  {
    var parts := [Decimal(v.major), Decimal(v.minor), Decimal(v.patch)];
    DecimalIsIdentifier(v.major);
    DecimalIsIdentifier(v.minor);
    DecimalIsIdentifier(v.patch);
    assert forall i :: 0 <= i < 3 ==> AllDigits(parts[i]);
    Strings.SplitJoin(parts, '.');
  }

  /** Every version parses back from its canonical text. */
  lemma ParseFormat(v: Version)
    ensures Parse(Format(v)) == Some(v)
  {
    FormatParts(v);
    DecimalIsIdentifier(v.major);
    DecimalIsIdentifier(v.minor);
    DecimalIsIdentifier(v.patch);
  }

  /** A string that parses is exactly the canonical text of its version. */
  lemma FormatParse(s: string)
    requires Parse(s).Some?
    ensures Format(Parse(s).value) == s
  {
    var parts := Strings.Split(s, '.');
    DecimalOfValue(parts[0]);
    DecimalOfValue(parts[1]);
    DecimalOfValue(parts[2]);
    assert [Decimal(Value(parts[0])), Decimal(Value(parts[1])), Decimal(Value(parts[2]))] == parts;
    Strings.JoinSplit(s, '.');
  }

  /** Distinct raw strings never parse to the same version. */
  lemma ParseInjective(a: string, b: string)
    requires Parse(a).Some? && Parse(a) == Parse(b)
    ensures a == b
  {
    FormatParse(a);
    FormatParse(b);
  }

  // ---------------------------------------------------------- coercion

  /** Length of the longest digit prefix of `s`. */
  function DigitRun(s: string): (n: nat)
    ensures n <= |s|
    ensures AllDigits(s[..n])
    ensures n < |s| ==> !IsDigit(s[n])
  {
    if |s| > 0 && IsDigit(s[0]) then 1 + DigitRun(s[1..]) else 0
  }

  /** Position of the first digit of `s`, if any. */
  function FirstDigit(s: string): (r: Option<nat>)
    ensures r.Some? ==> r.value < |s| && IsDigit(s[r.value])
    ensures r.Some? ==> forall k :: 0 <= k < r.value ==> !IsDigit(s[k])
    ensures r.None? <==> forall k :: 0 <= k < |s| ==> !IsDigit(s[k])
  {
    if |s| == 0 then None
    else if IsDigit(s[0]) then Some(0)
    else match FirstDigit(s[1..])
      case None => None
      case Some(i) => Some(i + 1)
  }

  /**
   * An optional `.digits` component after a coerced number: its digits
   * (or "0" when absent) and the text after it.
   */
  function Component(s: string): (string, string) {
    if |s| >= 2 && s[0] == '.' && IsDigit(s[1]) then
      var n := DigitRun(s[1..]);
      (s[1..1 + n], s[1 + n..])
    else ("0", s)
  }

  /**
   * The "major.minor.patch" text `coerce` assembles from `t`, which starts
   * with a digit: the digit run, then up to two `.digits` components.
   */
  function Reassemble(t: string): string {
    var n := DigitRun(t);
    var c1 := Component(t[n..]);
    var c2 := Component(c1.1);
    t[..n] + "." + c1.0 + "." + c2.0
  }

  /**
   * `semver.coerce`: the first run of digits, optionally followed by one or
   * two `.digits` components (missing ones are 0), re-parsed strictly as
   * "major.minor.patch". No digits at all yields None.
   */
  function Coerce(s: string): (r: Option<Version>)
    ensures r.Some? ==> exists k :: 0 <= k < |s| && IsDigit(s[k])
  {
    match FirstDigit(s)
    case None => None
    case Some(i) => Parse(Reassemble(s[i..]))
  }

  /** Text without a digit does not coerce. */
  lemma CoerceNeedsDigit(s: string)
    requires forall k :: 0 <= k < |s| ==> !IsDigit(s[k])
    ensures Coerce(s) == None
  {
  }

  lemma ReassembleParts(a: string, b: string, c: string)
    requires IsNumericIdentifier(a) && IsNumericIdentifier(b) && IsNumericIdentifier(c)
    ensures Reassemble(a + "." + b + "." + c) == a + "." + b + "." + c
  {
    var t := a + "." + b + "." + c;
    var r1 := "." + b + "." + c;
    var r2 := "." + c;
    assert t == a + r1;
    DigitRunExact(a, r1);
    assert t[..|a|] == a;
    assert t[|a|..] == r1;
    assert r1 == "." + b + r2;
    ComponentExact(b, r2);
    assert r2 == "." + c + "";
    ComponentExact(c, "");
  }

  lemma FormatText(v: Version)
    ensures Format(v) == Decimal(v.major) + "." + Decimal(v.minor) + "." + Decimal(v.patch)
  {
    var parts := [Decimal(v.major), Decimal(v.minor), Decimal(v.patch)];
    assert parts[1..][1..] == [Decimal(v.patch)];
    assert Strings.Join(parts[1..], '.') == Decimal(v.minor) + "." + Decimal(v.patch);
  }

  /** Coercion leaves a canonical version string unchanged. */
  lemma CoerceFormat(v: Version)
    ensures Coerce(Format(v)) == Some(v)
  {
    var s := Format(v);
    DecimalIsIdentifier(v.major);
    assert s[0] == Decimal(v.major)[0];
    assert FirstDigit(s) == Some(0);
    assert s[0..] == s;
    FormatText(v);
    DecimalIsIdentifier(v.minor);
    DecimalIsIdentifier(v.patch);
    ReassembleParts(Decimal(v.major), Decimal(v.minor), Decimal(v.patch));
    ParseFormat(v);
  }

  lemma DigitRunExact(a: string, rest: string)
    requires AllDigits(a)
    requires |rest| > 0 ==> !IsDigit(rest[0])
    ensures DigitRun(a + rest) == |a|
  {
    var s := a + rest;
    assert forall k :: 0 <= k < |a| ==> s[k] == a[k];
    assert |rest| > 0 ==> s[|a|] == rest[0];
  }

  lemma ComponentExact(b: string, rest: string)
    requires IsNumericIdentifier(b)
    requires |rest| > 0 ==> !IsDigit(rest[0])
    ensures Component("." + b + rest) == (b, rest)
  {
    var s := "." + b + rest;
    assert s[1] == b[0];
    assert s[1..] == b + rest;
    DigitRunExact(b, rest);
    assert s[1..1 + |b|] == b;
    assert s[1 + |b|..] == rest;
  }
}

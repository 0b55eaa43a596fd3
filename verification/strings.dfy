/**
 * String helpers with the semantics of the JavaScript calls the service uses:
 * `String.prototype.split` on a one-character separator, and prefix/suffix tests.
 */
module Strings {
  import opened Wrappers

  predicate StartsWith(s: string, prefix: string) {
    |prefix| <= |s| && s[..|prefix|] == prefix
  }

  predicate EndsWith(s: string, suffix: string) {
    |suffix| <= |s| && s[|s| - |suffix|..] == suffix
  }

  /** Position of the first `d` in `s`, if any. */
  function IndexOf(s: string, d: char): (r: Option<nat>)
    ensures r.Some? ==> r.value < |s| && s[r.value] == d && d !in s[..r.value]
    ensures r.None? ==> d !in s
  {
    if |s| == 0 then None
    else if s[0] == d then Some(0)
    else match IndexOf(s[1..], d)
      case None => None
      case Some(i) => Some(i + 1)
  }

  /** Position of the last `d` in `s`, if any. */
  function LastIndexOf(s: string, d: char): (r: Option<nat>)
    ensures r.Some? ==> r.value < |s| && s[r.value] == d && d !in s[r.value + 1..]
    ensures r.None? ==> d !in s
  {
    if |s| == 0 then None
    else if s[|s| - 1] == d then Some(|s| - 1)
    else LastIndexOf(s[..|s| - 1], d)
  }

  lemma IndexOfAfterFree(a: string, d: char, b: string)
    requires d !in a
    ensures IndexOf(a + [d] + b, d) == Some(|a|)
  {
    var s := a + [d] + b;
    assert s[|a|] == d;
    assert s[..|a|] == a;
    var r := IndexOf(s, d);
    assert r.Some? && r.value <= |a| && s[r.value] == d;
  }

  /** `s.split(d)`: the maximal `d`-free pieces of `s`, in order; never empty. */
  function Split(s: string, d: char): (parts: seq<string>)
    ensures |parts| >= 1
    ensures forall i :: 0 <= i < |parts| ==> d !in parts[i]
    decreases |s|
  {
    match IndexOf(s, d)
    case None => [s]
    case Some(i) => [s[..i]] + Split(s[i + 1..], d)
  }

  /** `parts.join(d)`. */
  function Join(parts: seq<string>, d: char): string
    requires |parts| >= 1
    decreases |parts|
  {
    if |parts| == 1 then parts[0] else parts[0] + [d] + Join(parts[1..], d)
  }

  /** A character other than the separator occurs in a join only if it occurs in a piece. */
  lemma {:induction false} JoinFree(parts: seq<string>, d: char, c: char)
    requires |parts| >= 1 && c != d
    requires forall i :: 0 <= i < |parts| ==> c !in parts[i]
    ensures c !in Join(parts, d)
    decreases |parts|
  {
    if |parts| > 1 {
      JoinFree(parts[1..], d, c);
    }
  }

  /** A join uses only the separator and the characters of its pieces. */
  lemma {:induction false} JoinWithin(parts: seq<string>, d: char, cs: set<char>)
    requires |parts| >= 1 && d in cs
    requires forall i :: 0 <= i < |parts| ==> forall c :: c in parts[i] ==> c in cs
    ensures forall c :: c in Join(parts, d) ==> c in cs
    decreases |parts|
  {
    if |parts| > 1 {
      JoinWithin(parts[1..], d, cs);
      assert parts[0] in parts;
      var j := Join(parts[1..], d);
      assert forall c :: c in parts[0] + [d] + j ==> c in parts[0] || c == d || c in j;
    }
  }

  /** Joining the pieces of a split gives back the original string. */
  lemma {:induction false} JoinSplit(s: string, d: char)
    ensures Join(Split(s, d), d) == s
    decreases |s|
  {
    var r := IndexOf(s, d);
    if r.Some? {
      var i := r.value;
      var tail := Split(s[i + 1..], d);
      assert Split(s, d) == [s[..i]] + tail;
      JoinSplit(s[i + 1..], d);
      assert Join(Split(s, d), d) == s[..i] + [d] + Join(tail, d);
      assert s == s[..i] + [d] + s[i + 1..];
    }
  }

  /** Splitting a join of separator-free pieces gives back the pieces. */
  lemma {:induction false} SplitJoin(parts: seq<string>, d: char)
    requires |parts| >= 1
    requires forall i :: 0 <= i < |parts| ==> d !in parts[i]
    ensures Split(Join(parts, d), d) == parts
    decreases |parts|
  {
    if |parts| == 1 {
    } else {
      var rest := Join(parts[1..], d);
      var s := parts[0] + [d] + rest;
      IndexOfAfterFree(parts[0], d, rest);
      assert s[..|parts[0]|] == parts[0];
      assert s[|parts[0]| + 1..] == rest;
      SplitJoin(parts[1..], d);
      assert parts == [parts[0]] + parts[1..];
    }
  }

  /** The text before the first `d` and the text after it, if `s` has a `d`. */
  function Cut(s: string, d: char): (r: Option<(string, string)>)
    ensures r.Some? ==> s == r.value.0 + [d] + r.value.1 && d !in r.value.0
    ensures r.None? ==> d !in s
  {
    match IndexOf(s, d)
    case None => None
    case Some(i) =>
      assert s == s[..i] + [d] + s[i + 1..];
      Some((s[..i], s[i + 1..]))
  }

  /** Cutting at the first `d` of a text whose first piece has none gives that piece back. */
  lemma CutAfterFree(a: string, d: char, b: string)
    requires d !in a
    ensures Cut(a + [d] + b, d) == Some((a, b))
  {
    var s := a + [d] + b;
    IndexOfAfterFree(a, d, b);
    assert s[..|a|] == a;
    assert s[|a| + 1..] == b;
  }

  /** Number of occurrences of `d` in `s`. */
  function Count(s: string, d: char): nat
    decreases |s|
  {
    if |s| == 0 then 0 else (if s[0] == d then 1 else 0) + Count(s[1..], d)
  }

  lemma {:induction false} CountAppend(a: string, b: string, d: char)
    ensures Count(a + b, d) == Count(a, d) + Count(b, d)
    decreases |a|
  {
    if |a| == 0 {
      assert a + b == b;
    } else {
      assert (a + b)[0] == a[0];
      assert (a + b)[1..] == a[1..] + b;
      CountAppend(a[1..], b, d);
    }
  }

  lemma {:induction false} CountFree(s: string, d: char)
    requires d !in s
    ensures Count(s, d) == 0
    decreases |s|
  {
    if |s| > 0 {
      assert s[0] != d;
      CountFree(s[1..], d);
    }
  }

  lemma CountAt(s: string, i: nat, d: char)
    requires i < |s| && s[i] == d
    ensures Count(s, d) >= 1
  {
    assert s == s[..i] + s[i..];
    CountAppend(s[..i], s[i..], d);
  }
}

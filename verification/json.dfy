/**
 * The JSON text the service writes: `JSON.stringify` of flat objects whose
 * members are booleans or strings (every body in src/handler.js and
 * src/s3.js has that shape), and a reader for that text used to state
 * what a body says.
 */
module Json {
  import opened Wrappers
  import opened Strings

  /** A member value: the bodies only ever hold booleans and strings. */
  datatype Value = JBool(b: bool) | JStr(s: string)

  /** An object's members in insertion order, which is the order `JSON.stringify` writes. */
  type Fields = seq<(string, Value)>

  const Backspace: char := '\U{0008}'
  const FormFeed: char := '\U{000C}'

  function HexDigit(n: nat): (c: char)
    requires n < 16
  {
    if n < 10 then ('0' as int + n) as char else ('a' as int + n - 10) as char
  }

  function HexValue(c: char): Option<nat> {
    if '0' <= c <= '9' then Some(c as int - '0' as int)
    else if 'a' <= c <= 'f' then Some(c as int - 'a' as int + 10)
    else if 'A' <= c <= 'F' then Some(c as int - 'A' as int + 10)
    else None
  }

  lemma HexRoundTrip(n: nat)
    requires n < 16
    ensures HexValue(HexDigit(n)) == Some(n)
  {
  }

  /**
   * How `JSON.stringify` writes one character of a string: quote and
   * backslash escaped, the five named control escapes, other control
   * characters as a lower-case `\u00XX`, everything else verbatim.
   */
  function EscapeChar(c: char): string {
    if c == '"' then "\\\""
    else if c == '\\' then "\\\\"
    else if c == Backspace then "\\b"
    else if c == FormFeed then "\\f"
    else if c == '\n' then "\\n"
    else if c == '\r' then "\\r"
    else if c == '\t' then "\\t"
    else if c < ' ' then "\\u00" + [HexDigit(c as int / 16), HexDigit(c as int % 16)]
    else [c]
  }

  function Escape(s: string): string {
    if |s| == 0 then "" else EscapeChar(s[0]) + Escape(s[1..])
  }

  function Quote(s: string): string {
    "\"" + Escape(s) + "\""
  }

  function ValueText(v: Value): string {
    match v
    case JBool(b) => if b then "true" else "false"
    case JStr(s) => Quote(s)
  }

  function MemberText(m: (string, Value)): string {
    Quote(m.0) + ":" + ValueText(m.1)
  }

  function MembersText(fs: Fields): string {
    if |fs| == 0 then ""
    else if |fs| == 1 then MemberText(fs[0])
    else MemberText(fs[0]) + "," + MembersText(fs[1..])
  }

  /**
   * `JSON.stringify` of an object: no whitespace, members comma-separated,
   * the whole wrapped in braces; only the empty object is "{}".
   */
  function Stringify(fs: Fields): (t: string)
    ensures |t| >= 2 && t[0] == '{' && t[|t| - 1] == '}'
    ensures t == "{}" <==> |fs| == 0
  {
    assert |fs| > 0 ==> |MembersText(fs)| > 0 && MembersText(fs)[0] == '"' by {
      if |fs| > 0 { MembersTextStart(fs); }
    }
    "{" + MembersText(fs) + "}"
  }

  // ------------------------------------------------------------- reading

  /** One escape sequence after a backslash: the character and how many characters it used. */
  function Unescaped(u: string): (r: Option<(char, nat)>)
    ensures r.Some? ==> 1 <= r.value.1 <= |u|
  {
    if |u| == 0 then None
    else if u[0] == '"' then Some(('"', 1))
    else if u[0] == '\\' then Some(('\\', 1))
    else if u[0] == '/' then Some(('/', 1))
    else if u[0] == 'b' then Some((Backspace, 1))
    else if u[0] == 'f' then Some((FormFeed, 1))
    else if u[0] == 'n' then Some(('\n', 1))
    else if u[0] == 'r' then Some(('\r', 1))
    else if u[0] == 't' then Some(('\t', 1))
    else if u[0] == 'u' && |u| >= 5 then
      match (HexValue(u[1]), HexValue(u[2]), HexValue(u[3]), HexValue(u[4]))
      case (Some(a), Some(b), Some(c), Some(d)) =>
        var code := ((a * 16 + b) * 16 + c) * 16 + d;
        if code < 0xD800 || 0xE000 <= code < 0x11_0000 then Some((code as char, 5)) else None
      case _ => None
    else None
  }

  function Prepend(c: char, r: Option<(string, string)>): Option<(string, string)> {
    match r
    case None => None
    case Some((s, rest)) => Some(([c] + s, rest))
  }

  /** The body of a string literal up to its closing quote: the text it denotes and what follows the quote. */
  function ScanString(t: string): (r: Option<(string, string)>)
    ensures r.Some? ==> |r.value.1| < |t|
    decreases |t|
  {
    if |t| == 0 then None
    else if t[0] == '"' then Some(("", t[1..]))
    else if t[0] == '\\' then
      match Unescaped(t[1..])
      case None => None
      case Some((c, n)) => Prepend(c, ScanString(t[1 + n..]))
    else if t[0] < ' ' then None
    else Prepend(t[0], ScanString(t[1..]))
  }

  function ParseValue(t: string): (r: Option<(Value, string)>)
    ensures r.Some? ==> |r.value.1| < |t|
  {
    if StartsWith(t, "true") then Some((JBool(true), t[4..]))
    else if StartsWith(t, "false") then Some((JBool(false), t[5..]))
    else if |t| > 0 && t[0] == '"' then
      match ScanString(t[1..])
      case None => None
      case Some((s, rest)) => Some((JStr(s), rest))
    else None
  }

  function ParseMember(t: string): (r: Option<((string, Value), string)>)
    ensures r.Some? ==> |r.value.1| < |t|
  {
    if |t| == 0 || t[0] != '"' then None
    else match ScanString(t[1..])
      case None => None
      case Some((k, r1)) =>
        if |r1| == 0 || r1[0] != ':' then None
        else match ParseValue(r1[1..])
          case None => None
          case Some((v, r2)) => Some(((k, v), r2))
  }

  /** One or more members followed by the closing brace, which must end the text. */
  function ParseMembers(t: string): Option<Fields>
    decreases |t|
  {
    match ParseMember(t)
    case None => None
    case Some((m, r)) =>
      if r == "}" then Some([m])
      else if |r| > 0 && r[0] == ',' then
        match ParseMembers(r[1..])
        case None => None
        case Some(ms) => Some([m] + ms)
      else None
  }

  /** Reads a flat object written without whitespace. */
  function ParseObject(t: string): Option<Fields> {
    if |t| < 2 || t[0] != '{' then None
    else if |t| == 2 && t[1] == '}' then Some([])
    else ParseMembers(t[1..])
  }

  // ------------------------------------------------------------ round trip

  lemma ScanEscapeChar(c: char, u: string)
    ensures ScanString(EscapeChar(c) + u) == Prepend(c, ScanString(u))
  {
    var t := EscapeChar(c) + u;
    if c == '"' || c == '\\' || c == Backspace || c == FormFeed || c == '\n' || c == '\r' || c == '\t' {
      assert t[0] == '\\' && t[2..] == u;
    } else if c < ' ' {
      var hi, lo := c as int / 16, c as int % 16;
      HexRoundTrip(0);
      HexRoundTrip(hi);
      HexRoundTrip(lo);
      assert t[1..][1] == '0' && t[1..][2] == '0' && t[1..][3] == HexDigit(hi) && t[1..][4] == HexDigit(lo);
      assert Unescaped(t[1..]) == Some((c, 5));
      assert t[6..] == u;
    } else {
      assert t[1..] == u;
    }
  }

  /** Reading back an escaped string stops exactly at the quote that closes it. */
  lemma {:induction false} ScanEscape(s: string, rest: string)
    ensures ScanString(Escape(s) + "\"" + rest) == Some((s, rest))
    decreases |s|
  {
    if |s| == 0 {
      assert Escape(s) + "\"" + rest == "\"" + rest;
    } else {
      assert Escape(s) + "\"" + rest == EscapeChar(s[0]) + (Escape(s[1..]) + "\"" + rest);
      ScanEscapeChar(s[0], Escape(s[1..]) + "\"" + rest);
      ScanEscape(s[1..], rest);
      assert [s[0]] + s[1..] == s;
    }
  }

  /** Regrouping a four-piece concatenation to the right. */
  lemma Regroup(a: string, b: string, c: string, d: string)
    ensures a + b + c + d == a + (b + (c + d))
  {
  }

  /** A text that starts with a different character does not start with `p`. */
  lemma NotStartsWith(t: string, p: string)
    requires |t| > 0 && |p| > 0 && t[0] != p[0]
    ensures !StartsWith(t, p)
  {
  }

  /** How a quoted text followed by more text regroups around its opening quote. */
  lemma QuotedShape(e: string, rest: string)
    ensures "\"" + e + "\"" + rest == "\"" + (e + "\"" + rest)
  {
  }

  /** How a member's text followed by more text regroups around its opening quote. */
  lemma KeyedShape(e: string, v: string, rest: string)
    ensures "\"" + e + "\"" + ":" + v + rest == "\"" + (e + "\"" + (":" + v + rest))
  {
  }

  lemma ParseBoolText(b: bool, rest: string)
    ensures ParseValue(ValueText(JBool(b)) + rest) == Some((JBool(b), rest))
  {
    var t := ValueText(JBool(b)) + rest;
    if b {
      assert t[..4] == "true" && t[4..] == rest;
    } else {
      NotStartsWith(t, "true");
      assert t[..5] == "false" && t[5..] == rest;
    }
  }

  /** A quote followed by a string body reads as that string. */
  lemma ParseQuoted(e: string, s: string, rest: string)
    requires ScanString(e) == Some((s, rest))
    ensures ParseValue("\"" + e) == Some((JStr(s), rest))
  {
    var t := "\"" + e;
    NotStartsWith(t, "true");
    NotStartsWith(t, "false");
    assert t[1..] == e;
  }

  lemma ParseStrText(s: string, rest: string)
    ensures ParseValue(ValueText(JStr(s)) + rest) == Some((JStr(s), rest))
  {
    var e := Escape(s) + "\"" + rest;
    QuotedShape(Escape(s), rest);
    ScanEscape(s, rest);
    ParseQuoted(e, s, rest);
  }

  lemma ParseValueText(v: Value, rest: string)
    ensures ParseValue(ValueText(v) + rest) == Some((v, rest))
  {
    match v
    case JBool(b) => ParseBoolText(b, rest);
    case JStr(s) => ParseStrText(s, rest);
  }

  /** A quoted key, a colon and a value read as one member. */
  lemma ParseKeyed(e: string, k: string, r1: string, v: Value, rest: string)
    requires ScanString(e) == Some((k, r1)) && |r1| > 0 && r1[0] == ':'
    requires ParseValue(r1[1..]) == Some((v, rest))
    ensures ParseMember("\"" + e) == Some(((k, v), rest))
  {
    assert ("\"" + e)[1..] == e;
  }

  lemma ParseMemberText(m: (string, Value), rest: string)
    ensures ParseMember(MemberText(m) + rest) == Some((m, rest))
  {
    var r1 := ":" + ValueText(m.1) + rest;
    var e := Escape(m.0) + "\"" + r1;
    KeyedShape(Escape(m.0), ValueText(m.1), rest);
    ScanEscape(m.0, r1);
    assert r1[1..] == ValueText(m.1) + rest;
    ParseValueText(m.1, rest);
    ParseKeyed(e, m.0, r1, m.1, rest);
  }

  /** Every non-empty member list is written starting with the quote of its first key. */
  lemma MembersTextStart(fs: Fields)
    requires |fs| > 0
    ensures |MembersText(fs)| > 0 && MembersText(fs)[0] == '"'
  {
    var q := MemberText(fs[0]);
    assert q[0] == '"';
    if |fs| > 1 {
      assert MembersText(fs) == q + ("," + MembersText(fs[1..]));
    }
  }

  /** A member followed by the closing brace is a one-member list. */
  lemma ParseMembersLast(t: string, m: (string, Value))
    requires ParseMember(t) == Some((m, "}"))
    ensures ParseMembers(t) == Some([m])
  {
  }

  /** A member followed by a comma and a readable list reads as the longer list. */
  lemma ParseMembersMore(t: string, m: (string, Value), tail: string, ms: Fields)
    requires ParseMember(t) == Some((m, "," + tail)) && ParseMembers(tail) == Some(ms)
    ensures ParseMembers(t) == Some([m] + ms)
  {
    assert ("," + tail)[1..] == tail;
  }

  lemma {:induction false} ParseMembersText(fs: Fields)
    requires |fs| > 0
    ensures ParseMembers(MembersText(fs) + "}") == Some(fs)
    decreases |fs|
  {
    if |fs| == 1 {
      assert MembersText(fs) == MemberText(fs[0]);
      ParseMemberText(fs[0], "}");
      ParseMembersLast(MembersText(fs) + "}", fs[0]);
      assert [fs[0]] == fs;
    } else {
      var tail := MembersText(fs[1..]) + "}";
      ParseMembersCons(fs);
      ParseMemberText(fs[0], "," + tail);
      ParseMembersText(fs[1..]);
      ParseMembersMore(MembersText(fs) + "}", fs[0], tail, fs[1..]);
      assert [fs[0]] + fs[1..] == fs;
    }
  }

  lemma ParseMembersCons(fs: Fields)
    requires |fs| > 1
    ensures MembersText(fs) + "}" == MemberText(fs[0]) + ("," + (MembersText(fs[1..]) + "}"))
  {
    var a, b := MemberText(fs[0]), MembersText(fs[1..]);
    assert MembersText(fs) == a + "," + b;
    Regroup(a, ",", b, "}");
  }

  /** An object text longer than `{}` reads as the members after its opening brace. */
  lemma ParseBraced(t: string, u: string)
    requires |t| > 2 && t[0] == '{' && t[1..] == u
    ensures ParseObject(t) == ParseMembers(u)
  {
  }

  lemma BraceTail(m: string)
    ensures |"{" + m + "}"| == |m| + 2
    ensures ("{" + m + "}")[0] == '{' && ("{" + m + "}")[1..] == m + "}"
  {
  }

  /** What `JSON.stringify` writes reads back as the same members. */
  lemma ParseStringify(fs: Fields)
    ensures ParseObject(Stringify(fs)) == Some(fs)
  {
    if |fs| > 0 {
      var m := MembersText(fs);
      MembersTextStart(fs);
      ParseMembersText(fs);
      BraceTail(m);
      ParseBraced(Stringify(fs), m + "}");
    }
  }

  /** Distinct member lists are written as distinct text. */
  lemma StringifyInjective(fs: Fields, gs: Fields)
    requires Stringify(fs) == Stringify(gs)
    ensures fs == gs
  {
    ParseStringify(fs);
    ParseStringify(gs);
  }
}

/**
 * `AdapterResponse` (src/handler.js): the response object the handlers
 * write to, recording the status code, the headers and the chunks written.
 */
module Adapter {
  import opened Wrappers
  import opened Json

  /** A JavaScript value handed to `write`/`end`, as far as the handlers use them. */
  datatype Chunk = Undefined | Null | Bool(b: bool) | Str(s: string) | Obj(fields: Fields)

  datatype Response = Response(code: int, headers: map<string, string>, data: seq<Chunk>)

  /** A fresh response: status 500 until some handler writes a head. */
  const Initial: Response := Response(500, map[], [])

  /** JavaScript truthiness of a chunk. */
  predicate Truthy(d: Chunk) {
    match d
    case Undefined => false
    case Null => false
    case Bool(b) => b
    case Str(s) => s != ""
    case Obj(_) => true
  }

  /** What can sit in `data`: truthy, and never an object (objects are stringified first). */
  predicate Storable(d: Chunk) {
    Truthy(d) && !d.Obj?
  }

  predicate Valid(r: Response) {
    forall i :: 0 <= i < |r.data| ==> Storable(r.data[i])
  }

  /** The text of a stored chunk, as `String(chunk)` renders it. */
  function Text(d: Chunk): string {
    match d
    case Str(s) => s
    case Bool(b) => if b then "true" else ""
    case _ => ""
  }

  /** Everything written so far, in order. */
  function Body(data: seq<Chunk>): string {
    if |data| == 0 then "" else Body(data[..|data| - 1]) + Text(data[|data| - 1])
  }

  /** Replaces the code; headers named in `hdrs` take the new value, the others stay. */
  function WriteHead(r: Response, code: int, hdrs: map<string, string>): (r': Response)
    ensures r'.code == code && r'.data == r.data
    ensures r'.headers.Keys == r.headers.Keys + hdrs.Keys
    ensures forall k :: k in hdrs ==> r'.headers[k] == hdrs[k]
    ensures forall k :: k in r.headers && k !in hdrs ==> r'.headers[k] == r.headers[k]
  {
    Response(code, r.headers + hdrs, r.data)
  }

  /** Falsy data is dropped; an object is stringified; anything else is appended as is. */
  function Write(r: Response, d: Chunk): (r': Response)
    ensures r'.code == r.code && r'.headers == r.headers
    ensures !Truthy(d) <==> r' == r
    ensures Truthy(d) ==> |r'.data| == |r.data| + 1 && r'.data[..|r.data|] == r.data
    ensures Truthy(d) ==> r'.data[|r.data|] == (if d.Obj? then Str(Stringify(d.fields)) else d)
    ensures Valid(r) ==> Valid(r')
  {
    if !Truthy(d) then r
    else match d
      case Obj(fs) => Response(r.code, r.headers, r.data + [Str(Stringify(fs))])
      case _ => Response(r.code, r.headers, r.data + [d])
  }

  /**
   * `end(data)` writes its argument and does nothing else: the code and the
   * headers stay, falsy data leaves the response alone, and anything else
   * becomes exactly one more chunk, an object as its JSON text.
   */
  function End(r: Response, d: Chunk): (r': Response)
    ensures r'.code == r.code && r'.headers == r.headers
    ensures !Truthy(d) ==> r' == r
    ensures Truthy(d) ==> r'.data == r.data + [if d.Obj? then Str(Stringify(d.fields)) else d]
  {
    Write(r, d)
  }

  /** A sequence of `write` calls, in order. */
  function WriteAll(r: Response, ds: seq<Chunk>): Response
    decreases |ds|
  {
    if |ds| == 0 then r else WriteAll(Write(r, ds[0]), ds[1..])
  }

  /**
   * A handler that only writes data never changes the status, so a fresh
   * response it never gave a head still answers 500, with no headers and
   * only storable chunks.
   */
  lemma {:induction false} InitialUnwritten(r: Response, ds: seq<Chunk>)
    requires r == Initial
    ensures WriteAll(r, ds).code == 500 && WriteAll(r, ds).headers == map[]
    ensures Valid(WriteAll(r, ds))
  {
    WritesKeepHead(r, ds);
  }

  lemma {:induction false} WritesKeepHead(r: Response, ds: seq<Chunk>)
    requires Valid(r)
    ensures WriteAll(r, ds).code == r.code && WriteAll(r, ds).headers == r.headers
    ensures Valid(WriteAll(r, ds))
    decreases |ds|
  {
    if |ds| > 0 {
      WritesKeepHead(Write(r, ds[0]), ds[1..]);
    }
  }

  /** Writing a string appends exactly that string to the body, the empty one included. */
  lemma WriteString(r: Response, s: string)
    ensures Body(Write(r, Str(s)).data) == Body(r.data) + s
  {
    var r' := Write(r, Str(s));
    if s != "" {
      assert r'.data[..|r'.data| - 1] == r.data;
    }
  }

  /** Writing an object appends its JSON text, which reads back as the same members. */
  lemma WriteObject(r: Response, fs: Fields)
    ensures Body(Write(r, Obj(fs)).data) == Body(r.data) + Stringify(fs)
    ensures ParseObject(Stringify(fs)) == Some(fs)
  {
    var r' := Write(r, Obj(fs));
    assert r'.data[..|r'.data| - 1] == r.data;
    ParseStringify(fs);
  }
}

/** Shapes shared by every part of the model: optional values (JavaScript's
    `undefined`/`null` versus a present value) and the HTTP replies the
    request handlers send. */
module Common {

  datatype Option<+T> = None | Some(value: T)

  /** A handler's HTTP reply: `res.status(status).json({ message })`, or
      `res.status(status).json(body)` with a body of type `T`. */
  datatype Response<+T> = Message(status: int, message: string) | Json(status: int, body: T)

  /** The reply of a handler that only ever answers with a message. */
  type Reply = Response<()>

  /** The end of a call that may throw: `new ObjectId(id)` throws on an id
      that does not parse, and a model function without a `try` around it
      throws with it. */
  datatype Outcome<+T> = Throws | Returns(value: T)

  const OK := 200
  const CREATED := 201
  const BAD_REQUEST := 400
  const UNAUTHORIZED := 401
  const FORBIDDEN := 403
  const NOT_FOUND := 404
  const SERVER_ERROR := 500

  /** JavaScript truthiness of an optional string: `undefined`, `null` and
      `""` are falsy, every other string is truthy. */
  predicate Truthy(s: Option<string>)
  {
    s.Some? && s.value != ""
  }

  /** `Array.prototype.filter`: the elements satisfying `p`, in their
      original order, each as often as it occurs in `s`. */
  function Filter<T(!new)>(s: seq<T>, p: T -> bool): (r: seq<T>)
    ensures |r| <= |s|
    ensures forall x {:trigger multiset(r)[x]} :: multiset(r)[x] == if p(x) then multiset(s)[x] else 0
    ensures forall x :: x in r <==> x in s && p(x)
  {
    if s == [] then []
    else
      assert s == [s[0]] + s[1..];
      (if p(s[0]) then [s[0]] else []) + Filter(s[1..], p)
  }

  /** `filter` keeps the order of its input: filtering a concatenation
      is filtering each part and concatenating the results, so the kept
      elements of any prefix come before those of the rest. */
  lemma {:induction false} FilterAppend<T(!new)>(a: seq<T>, b: seq<T>, p: T -> bool)
    ensures Filter(a + b, p) == Filter(a, p) + Filter(b, p)
  {
    if a != [] {
      assert (a + b)[0] == a[0];
      assert (a + b)[1..] == a[1..] + b;
      FilterAppend(a[1..], b, p);
    } else {
      assert a + b == b;
    }
  }

  /** A hexadecimal digit in either case, as `ObjectId.isValid` accepts. */
  function LowerHex(c: char): char
  {
    if 'A' <= c <= 'F' then (c as int - 'A' as int + 'a' as int) as char else c
  }

  /** `new ObjectId(id).toString()` for an id of hexadecimal digits: the
      same digits, written in lower case. Stored ids and the ids a token
      carries are always in this form. */
  function Canonical(id: string): string
  {
    seq(|id|, i requires 0 <= i < |id| => LowerHex(id[i]))
  }

  /** Parsing an id already in canonical form gives it back, so every
      canonical id is a fixed point, and an id differs from its canonical
      form exactly when it has an upper-case hexadecimal letter. */
  lemma CanonicalSpec(id: string)
    ensures |Canonical(id)| == |id|
    ensures Canonical(Canonical(id)) == Canonical(id)
    ensures Canonical(id) == id <==> forall i :: 0 <= i < |id| ==> !('A' <= id[i] <= 'F')
  {
    var c := Canonical(id);
    if c == id {
      forall i | 0 <= i < |id| ensures !('A' <= id[i] <= 'F') {
        assert c[i] == LowerHex(id[i]);
      }
    }
  }
}

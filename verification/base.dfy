/** Shared vocabulary: optional values, results carrying the thrown error,
    bytes, and a few sequence helpers used by several components. */
module Base {

  /** An optional value; `None` stands for JavaScript's `undefined`. */
  datatype Option<+T> = None | Some(value: T)

  /** The outcome of an operation that may throw: `Failure` carries the
      error class and message the JavaScript code raises. */
  datatype Result<+T> = Success(value: T) | Failure(error: Error) {
    predicate IsFailure() { Failure? }
    function PropagateFailure<U>(): Result<U>
      requires Failure?
    {
      Failure(error)
    }
    function Extract(): T
      requires Success?
    {
      value
    }
  }

  /** The JavaScript error classes the modelled code raises. */
  datatype ErrorKind = RangeError | TypeError | URIError | SyntaxError | PlainError

  datatype Error = Error(kind: ErrorKind, message: string)

  /** One octet of a Node `Buffer`. */
  newtype byte = x: int | 0 <= x < 256

  /** `sep`-joined concatenation, as `Array.prototype.join(sep)`. */
  function Join(parts: seq<string>, sep: string): string
  {
    if |parts| == 0 then ""
    else if |parts| == 1 then parts[0]
    else parts[0] + sep + Join(parts[1..], sep)
  }

  /** Concatenation of a list of byte strings, as `Buffer.concat`. */
  function Concat(chunks: seq<seq<byte>>): (r: seq<byte>)
    ensures |chunks| == 0 ==> r == []
  {
    if |chunks| == 0 then [] else Concat(chunks[..|chunks| - 1]) + chunks[|chunks| - 1]
  }

  lemma {:induction false} ConcatAppend(chunks: seq<seq<byte>>, last: seq<byte>)
    ensures Concat(chunks + [last]) == Concat(chunks) + last
  {
    assert (chunks + [last])[..|chunks|] == chunks;
  }

  predicate StartsWith<T(==)>(s: seq<T>, prefix: seq<T>)
  {
    |prefix| <= |s| && s[..|prefix|] == prefix
  }

  lemma StartsWithConcat<T>(s: seq<T>, a: seq<T>, b: seq<T>)
    requires StartsWith(s, a + b)
    ensures StartsWith(s, a) && StartsWith(s[|a|..], b)
  {
    assert s[..|a|] == (a + b)[..|a|] == a;
    assert s[|a|..][..|b|] == (a + b)[|a|..] == b;
  }

  lemma StartsWithPrepend<T>(s: seq<T>, n: nat, b: seq<T>)
    requires n <= |s| && StartsWith(s[n..], b)
    ensures StartsWith(s, s[..n] + b)
  {
    assert s[..n + |b|] == s[..n] + s[n..][..|b|];
  }

  predicate EndsWith<T(==)>(s: seq<T>, suffix: seq<T>)
  {
    |suffix| <= |s| && s[|s| - |suffix|..] == suffix
  }

  /** A non-negative integer in decimal, as template-string interpolation
      renders it. */
  function DecimalString(n: nat): (r: string)
    ensures |r| >= 1 && forall k :: 0 <= k < |r| ==> '0' <= r[k] <= '9'
  {
    var d := ["0123456789"[n % 10]];
    if n < 10 then d else DecimalString(n / 10) + d
  }
}

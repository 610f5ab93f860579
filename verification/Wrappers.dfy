module Wrappers {
  datatype Option<+T> = None | Some(value: T)

  datatype Result<+T, +E> = Success(value: T) | Failure(error: E)

  /** The outcome of a call that may panic. */
  datatype Outcome<+T> = Returned(value: T) | Panicked
}

module Sequences {
  /** `parts.join(separator)`. */
  function Join(parts: seq<string>, separator: string): string {
    if parts == [] then ""
    else if |parts| == 1 then parts[0]
    else parts[0] + separator + Join(parts[1..], separator)
  }

  predicate StartsWith<T(==)>(s: seq<T>, prefix: seq<T>) {
    |prefix| <= |s| && s[..|prefix|] == prefix
  }

  lemma Regroup<T>(a: seq<T>, b: seq<T>, c: seq<T>)
    ensures a + (b + c) == a + b + c
  {
  }

  lemma CutConcat<T>(a: seq<T>, b: seq<T>, n: nat)
    requires n <= |b|
    ensures (a + b)[..|a| + n] == a + b[..n]
    ensures (a + b)[|a| + n..] == b[n..]
  {
  }

  lemma CutPrefix<T>(a: seq<T>, b: seq<T>, n: nat)
    requires a <= b && n <= |a|
    ensures b[..n] == a[..n]
    ensures b == b[..n] + b[n..]
  {
  }
}

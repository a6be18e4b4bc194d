/** What every module needs: an optional value, a value or an error, and a law of sequences. */
module Wrappers {

  datatype Option<+T> = None | Some(value: T)

  datatype Result<+T, +E> = Ok(value: T) | Err(error: E)

  lemma ConcatAssoc<T>(a: seq<T>, b: seq<T>, c: seq<T>)
    ensures a + (b + c) == a + b + c
  {
  }

  lemma Concat4<T>(a: seq<T>, b: seq<T>, c: seq<T>, d: seq<T>)
    ensures a + b + c + d == a + (b + c + d)
  {
  }

  lemma Halves<T>(s: seq<T>, n: nat)
    requires n <= |s|
    ensures s == s[..n] + s[n..]
  {
  }
}

/** Facts about concatenation that the solver does not use on its own. */
module Sequences {
  lemma Associates<T>(a: seq<T>, b: seq<T>, c: seq<T>)
    ensures a + b + c == a + (b + c)
  {
  }

  lemma AssociatesFour<T>(a: seq<T>, b: seq<T>, c: seq<T>, d: seq<T>)
    ensures a + b + c + d == a + (b + c + d)
    ensures a + b + c == a + (b + c)
  {
  }

  lemma Empties<T>(a: seq<T>)
    ensures [] + a == a == a + []
  {
  }

  lemma TakesBack<T>(a: seq<T>, b: seq<T>)
    ensures (a + b)[..|a|] == a && (a + b)[|a|..] == b
  {
  }

  lemma TakesOneMore<T>(a: seq<T>, n: nat)
    requires n < |a|
    ensures a[..n + 1] == a[..n] + [a[n]]
  {
  }

  lemma DropsOneMore<T>(a: seq<T>, n: nat, end: nat)
    requires n < end <= |a|
    ensures a[n..end] == [a[n]] + a[n + 1..end]
  {
  }

  lemma TakesAll<T>(a: seq<T>)
    ensures a[..|a|] == a
  {
  }

  lemma Slices<T>(a: seq<T>, i: nat, j: nat, k: nat)
    requires i <= j <= k <= |a|
    ensures a[i..j] + a[j..k] == a[i..k]
  {
  }

  lemma Splits<T>(a: seq<T>, n: nat)
    requires n <= |a|
    ensures a[..n] + a[n..] == a
  {
  }
}

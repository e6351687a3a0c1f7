/** Order-preserving subsequences of record lists: what a stream filter returns. */
module Subsequences {
  import opened Entity

  /** `a` is an order-preserving subsequence of `b`. */
  predicate IsSubsequence(a: seq<Country>, b: seq<Country>)
    decreases |b|
  {
    if a == [] then true
    else if b == [] then false
    else (a[0] == b[0] && IsSubsequence(a[1..], b[1..])) || IsSubsequence(a, b[1..])
  }

  lemma {:induction false} SubsequenceTransitive(a: seq<Country>, b: seq<Country>, c: seq<Country>)
    requires IsSubsequence(a, b) && IsSubsequence(b, c)
    ensures IsSubsequence(a, c)
    decreases |c|
  {
    if a != [] {
      assert b != [] && c != [];
      if a[0] == b[0] && IsSubsequence(a[1..], b[1..]) && b[0] == c[0] && IsSubsequence(b[1..], c[1..]) {
        SubsequenceTransitive(a[1..], b[1..], c[1..]);
      } else if b[0] == c[0] && IsSubsequence(b[1..], c[1..]) {
        SubsequenceTransitive(a, b[1..], c[1..]);
      } else {
        SubsequenceTransitive(a, b, c[1..]);
      }
    }
  }

  lemma {:induction false} SubsequenceReflexive(a: seq<Country>)
    ensures IsSubsequence(a, a)
  {
    if a != [] {
      SubsequenceReflexive(a[1..]);
    }
  }
}

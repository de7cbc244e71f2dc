/** Order-preserving sub-sequences, the shape every coverage result has with respect to its catalog. */
module Sequences {

  /** `s` is obtained from `t` by deleting some elements and keeping the rest in their order. */
  predicate IsSubsequence<T(==)>(s: seq<T>, t: seq<T>)
    decreases |t|
  {
    if s == [] then true
    else if t == [] then false
    else (s[0] == t[0] && IsSubsequence(s[1..], t[1..])) || IsSubsequence(s, t[1..])
  }
}

/** Order-keeping selection from a sequence, shared by the listings that filter in place. */
module Sequences {

  /** `r` keeps some of the elements of `s`, in the order they have in `s`. */
  predicate IsSubsequence<T(==)>(r: seq<T>, s: seq<T>)
    decreases |s|
  {
    if r == [] then true
    else if s == [] then false
    else (r[|r| - 1] == s[|s| - 1] && IsSubsequence(r[..|r| - 1], s[..|s| - 1]))
         || IsSubsequence(r, s[..|s| - 1])
  }
}

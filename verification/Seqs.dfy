/** Sequences that several modules speak of. */
module Seqs {

  ghost predicate NoDup<T>(s: seq<T>) {
    forall i, j :: 0 <= i < j < |s| ==> s[i] != s[j]
  }

  /** Overwrite `f` from `p` on. */
  function Put<T>(f: seq<T>, p: int, d: seq<T>): seq<T>
    requires 0 <= p && p + |d| <= |f|
  {
    f[..p] + d + f[p + |d|..]
  }
}

/** Small value types shared by every other module. */
module Wrappers {

  /** The C++ `std::optional`. */
  datatype Option<+T> = None | Some(value: T) {
    function GetOr(default: T): T {
      if Some? then value else default
    }
  }

  /** The C++ `boost::logic::tribool`. */
  datatype Tribool = True | False | Indeterminate

  function FromBool(b: bool): Tribool {
    if b then True else False
  }

  /** Map lookup that answers `None` for a missing key. */
  function At<K, V>(m: map<K, V>, k: K): Option<V> {
    if k in m then Some(m[k]) else None
  }

  ghost predicate NoDup<T>(s: seq<T>) {
    forall i, j :: 0 <= i < j < |s| ==> s[i] != s[j]
  }

  function Elements<T>(s: seq<T>): set<T> {
    set x | x in s
  }

  lemma SliceOfSuffix<T>(s: seq<T>, at: nat, i: nat, j: nat)
    requires i <= j && at + j <= |s|
    ensures s[at..][i..j] == s[at + i..at + j]
  {
  }

  lemma SuffixOfSuffix<T>(s: seq<T>, at: nat, i: nat)
    requires at + i <= |s|
    ensures s[at..][i..] == s[at + i..]
  {
  }
}

/** The client's view of the watched directory (directory/dir.cpp, directory/resource.cpp). */
module Directories {
  import opened Wrappers
  import opened Tools

  datatype Resource = Resource(synced: Tribool, existOnServer: bool, digest: Digest)

  /** A sequence without one of its elements. */
  function Without<T(==)>(s: seq<T>, x: T): seq<T> {
    if s == [] then [] else if s[0] == x then Without(s[1..], x) else [s[0]] + Without(s[1..], x)
  }

  /** The element after the first occurrence of x. */
  function After<T(==)>(s: seq<T>, x: T): Option<T> {
    if s == [] then None
    else if s[0] == x then if |s| > 1 then Some(s[1]) else None
    else After(s[1..], x)
  }

  lemma {:induction false} WithoutAbsent<T>(s: seq<T>, x: T)
    requires x !in s
    ensures Without(s, x) == s
  {
    if s != [] {
      WithoutAbsent(s[1..], x);
    }
  }

  lemma NoDupMiddle<T>(a: seq<T>, x: T, b: seq<T>)
    requires NoDup(a + [x] + b)
    ensures x !in a && x !in b
    ensures NoDup(a + b) && Elements(a + b) == Elements(a + [x] + b) - {x}
  {
    var s := a + [x] + b;
    assert s[|a|] == x;
    forall i | 0 <= i < |a + b|
      ensures (a + b)[i] == s[if i < |a| then i else i + 1] != x
    {
    }
    assert forall y :: y in a ==> y in a + b;
    assert forall y :: y in b ==> y in a + b;
  }

  lemma {:induction false} WithoutMiddle<T>(a: seq<T>, x: T, b: seq<T>)
    requires x !in a && x !in b
    ensures Without(a + [x] + b, x) == a + b
  {
    var s := a + [x] + b;
    if a == [] {
      assert s[1..] == b;
      WithoutAbsent(b, x);
    } else {
      assert s[1..] == a[1..] + [x] + b;
      WithoutMiddle(a[1..], x, b);
    }
  }

  lemma WithoutOne<T>(a: seq<T>, x: T, b: seq<T>)
    requires NoDup(a + [x] + b)
    ensures Without(a + [x] + b, x) == a + b
    ensures NoDup(a + b) && Elements(a + b) == Elements(a + [x] + b) - {x}
  {
    hide *;
    NoDupMiddle(a, x, b);
    WithoutMiddle(a, x, b);
  }

  lemma {:induction false} AfterAt<T>(s: seq<T>, i: nat)
    requires NoDup(s) && i < |s|
    ensures After(s, s[i]) == if i + 1 < |s| then Some(s[i + 1]) else None
  {
    if i > 0 {
      AfterAt(s[1..], i - 1);
    }
  }

  class Dir {
    var content: map<Path, Resource>
    var chain: seq<Path>  // the order in which the hash map iterates over its keys

    ghost predicate Valid()
      reads this
    {
      NoDup(chain) && Elements(chain) == content.Keys
    }

    constructor ()
      ensures Valid() && content == map[]
    {
      content, chain := map[], [];
    }

    method InsertOrAssign(path: Path, rsrc: Resource) returns (inserted: bool)
      requires Valid()
      modifies this
      ensures Valid()
      ensures inserted == (path !in old(content))
      ensures content == old(content)[path := rsrc]
      ensures chain == if inserted then old(chain) + [path] else old(chain)
    {
      inserted := path !in content;
      if inserted {
        chain := chain + [path];
      }
      content := content[path := rsrc];
    }

    method Erase(path: Path) returns (erased: bool)
      requires Valid()
      modifies this
      ensures Valid()
      ensures erased == (path in old(content))
      ensures content == old(content) - {path}
      ensures chain == Without(old(chain), path)
    {
      erased := path in content;
      if erased {
        ghost var i :| 0 <= i < |chain| && chain[i] == path;
        assert chain == chain[..i] + [path] + chain[i + 1..];
        WithoutOne(chain[..i], path, chain[i + 1..]);
      } else {
        WithoutAbsent(chain, path);
      }
      chain := Without(chain, path);
      content := content - {path};
    }

    function Contains(path: Path): bool
      reads this
    {
      path in content
    }

    function Rsrc(path: Path): Option<Resource>
      reads this
    {
      At(content, path)
    }

    /** The iterator `cbegin`, as the key it points to; `None` is `cend`. */
    function Begin(): Option<Path>
      reads this
    {
      if chain == [] then None else Some(chain[0])
    }

    /** The incremented iterator. */
    function Next(path: Path): Option<Path>
      reads this
    {
      After(chain, path)
    }
  }
}

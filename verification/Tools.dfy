/** Signs: a path and a digest joined by a NUL byte (utilities/tools.cpp). */
module Tools {
  import opened Wrappers
  import opened Bytes

  type Path = seq<byte>
  type Digest = seq<byte>

  const NUL: byte := 0

  function CreateSign(path: Path, digest: Digest): seq<byte> {
    path + [NUL] + digest
  }

  /**
   * The two groups of a full match of `(.*)\x00(.*)`. The first group is greedy, so the match
   * splits at the last NUL; without a NUL there is no match and `split_sign` throws.
   */
  function SplitSign(sign: seq<byte>): (r: Option<(Path, Digest)>)
    ensures r.None? <==> NUL !in sign
    ensures r.Some? ==> sign == CreateSign(r.value.0, r.value.1) && NUL !in r.value.1
  {
    if sign == [] then None
    else if sign[|sign| - 1] == NUL then Some((sign[..|sign| - 1], []))
    else
      var r := SplitSign(sign[..|sign| - 1]);
      if r.None? then None else Some((r.value.0, r.value.1 + [sign[|sign| - 1]]))
  }

  lemma NoNulAfterSplit(p: Path, d: Digest)
    requires NUL !in d
    ensures forall k :: |p| < k < |CreateSign(p, d)| ==> CreateSign(p, d)[k] != NUL
  {
    forall k | |p| < k < |CreateSign(p, d)|
      ensures CreateSign(p, d)[k] != NUL
    {
      assert CreateSign(p, d)[k] == d[k - |p| - 1];
    }
  }

  /** Two splits of one string at a NUL agree when neither digest holds a NUL. */
  lemma SignInjective(p: Path, d: Digest, p': Path, d': Digest)
    requires NUL !in d && NUL !in d'
    requires CreateSign(p, d) == CreateSign(p', d')
    ensures p == p' && d == d'
  {
    var s, s' := CreateSign(p, d), CreateSign(p', d');
    NoNulAfterSplit(p, d);
    NoNulAfterSplit(p', d');
    assert s[|p|] == NUL && s'[|p'|] == NUL;
    assert s[..|p|] == p && s[|p| + 1..] == d;
    assert s'[..|p'|] == p' && s'[|p'| + 1..] == d';
  }

  /** Splitting undoes joining exactly when the digest holds no NUL. */
  lemma SignRoundTrip(p: Path, d: Digest)
    ensures SplitSign(CreateSign(p, d)) == Some((p, d)) <==> NUL !in d
  {
    assert CreateSign(p, d)[|p|] == NUL;
    var r := SplitSign(CreateSign(p, d));
    if NUL !in d {
      SignInjective(p, d, r.value.0, r.value.1);
    }
  }

  /** No other split has a longer first group: the greedy match. */
  lemma SplitIsGreedy(sign: seq<byte>, p: Path, d: Digest)
    requires sign == CreateSign(p, d)
    ensures SplitSign(sign).Some? && |p| <= |SplitSign(sign).value.0|
  {
    assert sign[|p|] == NUL;
    var (q, e) := SplitSign(sign).value;
    NoNulAfterSplit(q, e);
  }
}

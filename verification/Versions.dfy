/** Package versions: three 16-bit components compared lexicographically. */
module Versions {

  type U16 = n: int | 0 <= n < 0x1_0000

  datatype Version = Version(major: U16, minor: U16, patch: U16)

  /** The position of a version in the total order of all versions. */
  function Rank(v: Version): nat {
    v.major * 0x1_0000_0000 + v.minor * 0x1_0000 + v.patch
  }

  /** The three-way comparison of the source: the first differing component decides. */
  function Compare(a: Version, b: Version): (c: int)
    ensures c < 0 <==> Rank(a) < Rank(b)
    ensures c > 0 <==> Rank(a) > Rank(b)
    ensures c == 0 <==> a == b
  {
    if a.major != b.major then (if a.major < b.major then -1 else 1)
    else if a.minor != b.minor then (if a.minor < b.minor then -1 else 1)
    else if a.patch != b.patch then (if a.patch < b.patch then -1 else 1)
    else 0
  }

  /** Distinct versions have distinct positions, so the order is total. */
  lemma RankInjective(a: Version, b: Version)
    requires Rank(a) == Rank(b)
    ensures a == b
  {
    assert Compare(a, b) == 0;
  }

  const VERSIONS: nat := 0x1_0000_0000_0000

  /** The version at a position. */
  function AtRank(n: nat): (v: Version)
    requires n < VERSIONS
    ensures Rank(v) == n
  {
    Version(n / 0x1_0000_0000, n / 0x1_0000 % 0x1_0000, n % 0x1_0000)
  }

  lemma RankBound(v: Version)
    ensures Rank(v) < VERSIONS
    ensures Rank(v) == 0 <==> v.major == v.minor == v.patch == 0
    ensures Rank(v) == VERSIONS - 1 <==> v.major == v.minor == v.patch == 0xFFFF
  {
  }

  /** Strictly descending, hence free of duplicates: how the registry keeps
      versions and the provider lists them. */
  ghost predicate NewestFirst(versions: seq<Version>) {
    forall i, j :: 0 <= i < j < |versions| ==> Rank(versions[i]) > Rank(versions[j])
  }
}

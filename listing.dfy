/**
 * `file_version_info` and the ordering `list_file_versions` returns its
 * entries in: `std::sort` with "version greater than" as the comparison.
 */
module Listing {
  import opened Types

  /** One entry of a version listing. */
  datatype VersionInfo = VersionInfo(version: uint32, size: nat, isCurrent: bool)

  predicate SortedDescending(s: seq<VersionInfo>)
  {
    forall i, j :: 0 <= i < j < |s| ==> s[i].version >= s[j].version
  }

  /** `e` placed before the first entry with a version not above its own. */
  function Insert(e: VersionInfo, s: seq<VersionInfo>): (r: seq<VersionInfo>)
    requires SortedDescending(s)
    ensures SortedDescending(r)
    ensures multiset(r) == multiset(s) + multiset{e}
    ensures |r| == |s| + 1 && (r[0] == e || (|s| > 0 && r[0] == s[0]))
    decreases |s|
  {
    if s == [] || e.version >= s[0].version then [e] + s
    else
      var rest := Insert(e, s[1..]);
      assert s == [s[0]] + s[1..];
      var r := [s[0]] + rest;
      assert forall j :: 0 <= j < |rest| ==> rest[j].version <= s[0].version;
      r
  }

  /**
   * A descending arrangement of `s`. `std::sort` is not stable, so the source
   * leaves the order of entries with equal versions open; this one keeps
   * them in their input order.
   */
  function SortDescending(s: seq<VersionInfo>): (r: seq<VersionInfo>)
    ensures SortedDescending(r)
    ensures multiset(r) == multiset(s)
    decreases |s|
  {
    if s == [] then []
    else
      assert s == [s[0]] + s[1..];
      Insert(s[0], SortDescending(s[1..]))
  }

  /** No two entries share a version. */
  predicate DistinctVersions(s: seq<VersionInfo>)
  {
    forall i, j :: 0 <= i < j < |s| ==> s[i].version != s[j].version
  }

  /** An entry newer than every entry of a list without shared versions can go in front of it. */
  lemma PrependNewest(top: VersionInfo, s: seq<VersionInfo>)
    requires DistinctVersions(s)
    requires forall e :: e in s ==> e.version < top.version
    ensures DistinctVersions([top] + s)
    ensures forall e :: e in [top] + s && e != top ==> e.version < top.version
  {
    var t := [top] + s;
    forall i, j | 0 <= i < j < |t| ensures t[i].version != t[j].version {
      assert t[j] == s[j - 1];
      if i > 0 { assert t[i] == s[i - 1]; }
    }
  }

  /** One entry at two positions counts twice. */
  lemma CountTwice(r: seq<VersionInfo>, i: nat, j: nat)
    requires i < j < |r| && r[i] == r[j]
    ensures multiset(r)[r[i]] >= 2
  {
    assert r == r[..i] + [r[i]] + r[i + 1..j] + [r[j]] + r[j + 1..];
  }

  /** Without a shared version, no entry occurs twice. */
  lemma {:induction false} OccursOnce(s: seq<VersionInfo>, e: VersionInfo)
    requires DistinctVersions(s)
    ensures multiset(s)[e] <= 1
    decreases |s|
  {
    if s != [] {
      assert s == [s[0]] + s[1..];
      OccursOnce(s[1..], e);
      if s[0] == e {
        assert e !in s[1..] by {
          forall j | 0 <= j < |s[1..]| ensures s[1..][j] != e {
            assert s[1..][j] == s[j + 1];
          }
        }
      }
    }
  }

  /** Rearranging entries keeps their versions distinct. */
  lemma DistinctVersionsPermutation(a: seq<VersionInfo>, b: seq<VersionInfo>)
    requires multiset(a) == multiset(b) && DistinctVersions(a)
    ensures DistinctVersions(b)
  {
    forall i, j | 0 <= i < j < |b| ensures b[i].version != b[j].version {
      if b[i].version == b[j].version {
        assert b[i] in multiset(a) && b[j] in multiset(a);
        var p :| 0 <= p < |a| && a[p] == b[i];
        var q :| 0 <= q < |a| && a[q] == b[j];
        if p == q {
          CountTwice(b, i, j);
          OccursOnce(a, b[i]);
        }
      }
    }
  }

  /**
   * Sorting entries with pairwise distinct versions, among which `top` has
   * the largest, yields a strictly descending list that starts with `top`.
   */
  lemma SortedWithNewestFirst(s: seq<VersionInfo>, top: VersionInfo)
    requires top in s && DistinctVersions(s)
    requires forall e :: e in s && e != top ==> e.version < top.version
    ensures var r := SortDescending(s);
      |r| > 0 && r[0] == top && forall i, j :: 0 <= i < j < |r| ==> r[i].version > r[j].version
  {
    var r := SortDescending(s);
    DistinctVersionsPermutation(s, r);
    assert top in multiset(r);
    var k :| 0 <= k < |r| && r[k] == top;
    assert r[0] in multiset(s);
  }

  /** A descending arrangement of entries with pairwise distinct versions is strictly descending. */
  lemma SortedDistinctIsStrict(r: seq<VersionInfo>)
    requires SortedDescending(r)
    requires forall i, j :: 0 <= i < j < |r| ==> r[i].version != r[j].version
    ensures forall i, j :: 0 <= i < j < |r| ==> r[i].version > r[j].version
  {
  }
}

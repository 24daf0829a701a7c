/**
 * Path handling of the storage driver: key validation, the mapping of a key
 * to a path under the mount point, and the names of the two kinds of
 * sidecar file that versioning keeps beside a key (the `.meta` record and
 * the `.v<N>` snapshots).
 */
module Paths {
  import opened Types

  /** Longest key `_is_valid_path` accepts. */
  const MAX_KEY_LENGTH: nat := 255

  /** `STORAGE_VERSION_METADATA_EXT`. */
  const METADATA_EXT: string := ".meta"

  /** Mount point. `get_full_path` reads its last character, so it is never empty. */
  type BasePath = s: string | |s| > 0 witness "/"

  // ---------------------------------------------------------------- find

  /** `pat` occurs in `s` at position `j`. */
  predicate OccursAt(s: string, pat: string, j: nat)
  {
    j + |pat| <= |s| && s[j..j + |pat|] == pat
  }

  lemma OccursAtTail(s: string, pat: string, j: nat)
    requires |s| > 0
    ensures OccursAt(s, pat, j + 1) <==> OccursAt(s[1..], pat, j)
  {
    if j + 1 + |pat| <= |s| {
      assert s[j + 1..j + 1 + |pat|] == s[1..][j..j + |pat|];
    }
  }

  /** `std::string::find(pat)`: the first position at which `pat` occurs in `s`. */
  function Find(s: string, pat: string): (r: Option<nat>)
    ensures r.Some? ==> OccursAt(s, pat, r.value)
    ensures r.Some? ==> forall j: nat :: j < r.value ==> !OccursAt(s, pat, j)
    ensures r.None? ==> forall j: nat :: !OccursAt(s, pat, j)
    decreases |s|
  {
    if |s| < |pat| then None
    else if s[..|pat|] == pat then Some(0)
    else
      match Find(s[1..], pat)
      case None =>
        assert forall j: nat :: !OccursAt(s, pat, j) by {
          forall j: nat ensures !OccursAt(s, pat, j) {
            if j > 0 { OccursAtTail(s, pat, j - 1); }
          }
        }
        None
      case Some(k) =>
        OccursAtTail(s, pat, k);
        assert forall j: nat :: j < k + 1 ==> !OccursAt(s, pat, j) by {
          forall j: nat | j < k + 1 ensures !OccursAt(s, pat, j) {
            if j > 0 { OccursAtTail(s, pat, j - 1); }
          }
        }
        Some(k + 1)
  }

  // ---------------------------------------------------------------- validation

  lemma OccursOneOrTwo(s: string, pat: string, i: nat)
    requires |pat| == 1 || |pat| == 2
    ensures |pat| == 1 ==> (OccursAt(s, pat, i) <==> i < |s| && s[i] == pat[0])
    ensures |pat| == 2 ==> (OccursAt(s, pat, i) <==> i + 1 < |s| && s[i] == pat[0] && s[i + 1] == pat[1])
  {
    if i + |pat| <= |s| {
      var w := s[i..i + |pat|];
      assert w[0] == s[i];
      assert |pat| == 2 ==> w[1] == s[i + 1];
    }
  }

  /**
   * `_is_valid_path`: a key is refused when it is empty, contains a NUL
   * character, contains "..", or is longer than MAX_KEY_LENGTH characters.
   */
  function IsValidPath(key: string): (ok: bool)
    ensures ok <==>
      |key| > 0 &&
      (forall i :: 0 <= i < |key| ==> key[i] != '\0') &&
      (forall i :: 0 <= i < |key| - 1 ==> !(key[i] == '.' && key[i + 1] == '.')) &&
      |key| <= MAX_KEY_LENGTH
  {
    var nul := Find(key, "\0");
    var dots := Find(key, "..");
    forall i: nat ensures OccursAt(key, "\0", i) <==> i < |key| && key[i] == '\0' {
      OccursOneOrTwo(key, "\0", i);
      assert "\0"[0] == '\0';
    }
    forall i: nat ensures OccursAt(key, "..", i) <==> i + 1 < |key| && key[i] == '.' && key[i + 1] == '.' {
      OccursOneOrTwo(key, "..", i);
      assert ".."[0] == '.' && ".."[1] == '.';
    }
    if key == [] then false
    else if nul.Some? then
      assert key[nul.value] == '\0';
      false
    else if dots.Some? then
      assert key[dots.value] == '.' && key[dots.value + 1] == '.';
      false
    else if |key| > MAX_KEY_LENGTH then false
    else true
  }

  // ---------------------------------------------------------------- full path

  /** The mount point with exactly one '/' at its end: `base` when it has one, `base + "/"` otherwise. */
  function Directory(base: BasePath): (d: string)
    ensures |d| == |base| + (if base[|base| - 1] == '/' then 0 else 1)
    ensures d[|d| - 1] == '/'
    ensures d[..|base|] == base
  {
    if base[|base| - 1] != '/' then base + "/" else base
  }

  /** The key with at most one leading '/' removed. */
  function StripLeadingSlash(key: string): string
  {
    if |key| > 0 && key[0] == '/' then key[1..] else key
  }

  /** `get_full_path`: the directory of the mount point followed by the key without its leading '/'. */
  function GetFullPath(base: BasePath, key: string): (p: string)
    ensures |Directory(base)| <= |p| && p[..|Directory(base)|] == Directory(base)
    ensures p[|Directory(base)|..] == StripLeadingSlash(key)
    ensures |p| >= |key|
  {
    Directory(base) + StripLeadingSlash(key)
  }

  /** A key without a leading '/' and the same key with one name the same file. */
  lemma {:induction false} FullPathIgnoresLeadingSlash(base: BasePath, key: string)
    requires |key| == 0 || key[0] != '/'
    ensures GetFullPath(base, "/" + key) == GetFullPath(base, key)
  {
    assert ("/" + key)[1..] == key;
  }

  /** Two keys that both lack a leading '/' name the same file only when they are equal. */
  lemma FullPathInjective(base: BasePath, k1: string, k2: string)
    requires |k1| == 0 || k1[0] != '/'
    requires |k2| == 0 || k2[0] != '/'
    requires GetFullPath(base, k1) == GetFullPath(base, k2)
    ensures k1 == k2
  {
    var n := |Directory(base)|;
    assert k1 == GetFullPath(base, k1)[n..];
    assert k2 == GetFullPath(base, k2)[n..];
  }

  // ---------------------------------------------------------------- "%d"

  function DigitChar(d: nat): (c: char)
    requires d < 10
    ensures '0' <= c <= '9'
  {
    "0123456789"[d]
  }

  function DigitValue(c: char): nat
  {
    if '0' <= c <= '9' then (c - '0') as nat else 0
  }

  /** Decimal rendering of a natural number, without leading zeros. */
  function Decimal(n: nat): (s: string)
    ensures |s| > 0
    ensures forall i :: 0 <= i < |s| ==> '0' <= s[i] <= '9'
    decreases n
  {
    if n < 10 then [DigitChar(n)] else Decimal(n / 10) + [DigitChar(n % 10)]
  }

  /** Reads a string of decimal digits back as a number. */
  function ParseDecimal(s: string): nat
    decreases |s|
  {
    if s == [] then 0 else ParseDecimal(s[..|s| - 1]) * 10 + DigitValue(s[|s| - 1])
  }

  lemma {:induction false} ParseDecimalOfDecimal(n: nat)
    ensures ParseDecimal(Decimal(n)) == n
    decreases n
  {
    if n < 10 {
      assert Decimal(n)[..0] == [];
    } else {
      ParseDecimalOfDecimal(n / 10);
      var s := Decimal(n);
      assert s[..|s| - 1] == Decimal(n / 10);
    }
  }

  lemma DecimalInjective(a: nat, b: nat)
    requires Decimal(a) == Decimal(b)
    ensures a == b
  {
    ParseDecimalOfDecimal(a);
    ParseDecimalOfDecimal(b);
  }

  /**
   * `snprintf("%d", version)` on a `uint32_t` argument: a version at or above
   * 2^31 is shown as the negative `int` with the same bits.
   */
  function SignedDecimal(v: uint32): (s: string)
    ensures |s| > 0
  {
    if v < 0x8000_0000 then Decimal(v as nat) else "-" + Decimal(0x1_0000_0000 - (v as int))
  }

  /** The first character tells a non-negative rendering from a negative one. */
  lemma SignedDecimalSign(v: uint32)
    ensures v < 0x8000_0000 ==> '0' <= SignedDecimal(v)[0] <= '9'
    ensures v >= 0x8000_0000 ==> SignedDecimal(v)[0] == '-'
  {
  }

  /** Different versions are rendered differently. */
  lemma SignedDecimalInjective(a: uint32, b: uint32)
    requires SignedDecimal(a) == SignedDecimal(b)
    ensures a == b
  {
    SignedDecimalSign(a);
    SignedDecimalSign(b);
    if a < 0x8000_0000 && b < 0x8000_0000 {
      DecimalInjective(a as nat, b as nat);
    } else if a >= 0x8000_0000 && b >= 0x8000_0000 {
      var na: nat, nb: nat := 0x1_0000_0000 - (a as int), 0x1_0000_0000 - (b as int);
      assert SignedDecimal(a)[1..] == Decimal(na);
      assert SignedDecimal(b)[1..] == Decimal(nb);
      DecimalInjective(na, nb);
    }
  }

  // ---------------------------------------------------------------- sidecars

  /** ".v<N>": the suffix of the snapshot of version N. */
  function VersionSuffix(v: uint32): (s: string)
    ensures |s| > 2 && s[..2] == ".v"
  {
    ".v" + SignedDecimal(v)
  }

  /** `get_version_path` / `_get_version_path`: where the snapshot of version `v` of `key` lives. */
  function VersionPath(base: BasePath, key: string, v: uint32): string
  {
    GetFullPath(base, key) + VersionSuffix(v)
  }

  /** `get_metadata_path` / `_get_metadata_path`: where the metadata record of `key` lives. */
  function MetadataPath(base: BasePath, key: string): string
  {
    GetFullPath(base, key) + METADATA_EXT
  }

  /** The snapshots of one key have pairwise distinct paths. */
  lemma VersionPathInjective(base: BasePath, key: string, v1: uint32, v2: uint32)
    ensures VersionPath(base, key, v1) == VersionPath(base, key, v2) <==> v1 == v2
  {
    var f := GetFullPath(base, key);
    if f + VersionSuffix(v1) == f + VersionSuffix(v2) {
      assert VersionSuffix(v1) == (f + VersionSuffix(v1))[|f|..];
      assert VersionSuffix(v2) == (f + VersionSuffix(v2))[|f|..];
      assert SignedDecimal(v1) == VersionSuffix(v1)[2..];
      assert SignedDecimal(v2) == VersionSuffix(v2)[2..];
      SignedDecimalInjective(v1, v2);
    }
  }

  /**
   * No snapshot path is the metadata path, and neither is the key itself
   * nor its full path: one key's files never overwrite each other.
   */
  lemma SidecarPathsDistinct(base: BasePath, key: string, v: uint32)
    ensures VersionPath(base, key, v) != MetadataPath(base, key)
    ensures VersionPath(base, key, v) != GetFullPath(base, key)
    ensures MetadataPath(base, key) != GetFullPath(base, key)
    ensures VersionPath(base, key, v) != key
    ensures MetadataPath(base, key) != key
  {
    var n := |GetFullPath(base, key)|;
    assert VersionPath(base, key, v)[n + 1] == 'v';
    assert MetadataPath(base, key)[n + 1] == 'm';
  }

  /**
   * A snapshot of one key is the file of another valid-looking key: the
   * snapshot of version `v` of `key` is where `key + ".v" + N` is stored.
   */
  lemma SnapshotIsAnotherKeysFile(base: BasePath, key: string, v: uint32)
    ensures VersionPath(base, key, v) == GetFullPath(base, key + VersionSuffix(v))
  {
    var s := VersionSuffix(v);
    if |key| > 0 && key[0] == '/' {
      assert (key + s)[1..] == key[1..] + s;
    } else {
      assert |key + s| > 0 && (key + s)[0] != '/' by {
        if |key| == 0 { assert (key + s)[0] == s[0] == '.'; }
      }
    }
  }
}

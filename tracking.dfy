/**
 * What can be observed of one key of the inlined engine, and what a run of
 * writes to a fresh key leaves there: the record names the last version
 * written as current, the index holds the versions just below it (at most
 * MAX_HISTORY of them, oldest first), the key's file holds the last data
 * and each indexed snapshot the data written as that version.
 */
module Tracking {
  import opened Types
  import opened Paths
  import opened Metadata
  import opened Backend
  import opened StorageEsp

  /** The versions `lo, lo + 1, ..., hi - 1`, oldest first. */
  function Range(lo: nat, hi: nat): (r: seq<uint32>)
    requires lo <= hi <= UINT32_MAX as int
    ensures |r| == hi - lo
    ensures forall i :: 0 <= i < |r| ==> r[i] as int == lo + i
    decreases hi - lo
  {
    if lo == hi then [] else Range(lo, hi - 1) + [(hi - 1) as uint32]
  }

  /** The earliest version still retained once version `k` is current. */
  function Oldest(k: nat): nat
  {
    if k > MAX_HISTORY then k - MAX_HISTORY else 1
  }

  /** The versions retained once version `k` is current: the min(k - 1, MAX_HISTORY) versions just below `k`. */
  function Window(k: nat): (w: seq<uint32>)
    requires k <= UINT32_MAX as int
    ensures |w| == if k <= MAX_HISTORY then (if k == 0 then 0 else k - 1) else MAX_HISTORY
    ensures forall v :: v in w ==> Oldest(k) <= v as int < k
  {
    if k == 0 then [] else Range(Oldest(k), k)
  }

  /** The window of version `k` is the interval of versions from Oldest(k) up to, not including, `k`. */
  lemma InWindow(v: uint32, k: nat)
    requires k <= UINT32_MAX as int
    ensures v in Window(k) <==> Oldest(k) <= v as int < k
  {
    var w := Window(k);
    if Oldest(k) <= v as int < k {
      assert w[v as int - Oldest(k)] == v;
    }
  }

  /** A key nothing has been written to: no file and no record, on a mounted volume without failures. */
  predicate Fresh(d: Disk, base: BasePath, key: string)
  {
    d.mounted && d.faulty == {} && IsValidPath(key) &&
    GetFullPath(base, key) !in d.files && MetadataPath(base, key) !in d.files
  }

  /** The content of a file, if there is one. */
  function Lookup(d: Disk, p: string): (r: Option<seq<byte>>)
    ensures r.Some? <==> p in d.files
    ensures r.Some? ==> r.value == d.files[p]
  {
    if p in d.files then Some(d.files[p]) else None
  }

  /**
   * What can be observed of one key: whether the volume is mounted without
   * failures and the key valid, whether its record keeps the index
   * invariant, the current version, the indexed versions, the content of
   * the key's file, and the content of the snapshot of each indexed version.
   */
  datatype KeyView = KeyView(usable: bool, sound: bool, current: uint32, index: seq<uint32>,
                             content: Option<seq<byte>>, snapshots: seq<Option<seq<byte>>>)

  /** The content of the snapshot of each version of `index`, in the same order. */
  function Snapshots(d: Disk, base: BasePath, key: string, index: seq<uint32>): (r: seq<Option<seq<byte>>>)
    ensures |r| == |index|
    ensures forall i :: 0 <= i < |index| ==> r[i] == Lookup(d, VersionPath(base, key, index[i]))
  {
    seq(|index|, i requires 0 <= i < |index| => Lookup(d, VersionPath(base, key, index[i])))
  }

  function Observe(d: Disk, base: BasePath, key: string): KeyView
  {
    var m := Load(d, base, key);
    var index := if InBounds(m) then Indexed(m) else [];
    KeyView(d.mounted && d.faulty == {} && IsValidPath(key), IndexInvariant(m), m.currentVersion, index,
            Lookup(d, GetFullPath(base, key)),
            Snapshots(d, base, key, index))
  }

  /** The view of a key after the writes of `history`, in order, starting from a fresh key. */
  function Expected(history: seq<seq<byte>>): KeyView
    requires |history| < UINT32_MAX as int
  {
    var k := |history|;
    var w := Window(k);
    KeyView(true, true, k as uint32, w,
            if k == 0 then None else Some(history[k - 1]),
            seq(|w|, i requires 0 <= i < |w| => Some(history[w[i] as int - 1])))
  }

  /** The key shows exactly what the writes of `history` to a fresh key leave behind. */
  predicate Tracked(d: Disk, base: BasePath, key: string, history: seq<seq<byte>>)
  {
    |history| < UINT32_MAX as int && Observe(d, base, key) == Expected(history)
  }

  /**
   * Being tracked, spelled out: a usable volume and key, a record with the
   * index invariant naming |history| as current and indexing exactly its
   * window; the key's file holds the last data (and is absent before the
   * first write), and the snapshot of every version of the window holds the
   * data of that write.
   */
  lemma TrackedFacts(d: Disk, base: BasePath, key: string, history: seq<seq<byte>>)
    requires Tracked(d, base, key, history)
    ensures var k := |history|;
      var m := Load(d, base, key);
      var full := GetFullPath(base, key);
      d.mounted && d.faulty == {} && IsValidPath(key) &&
      IndexInvariant(m) && m.currentVersion as int == k && Indexed(m) == Window(k) &&
      (k == 0 ==> full !in d.files) &&
      (k > 0 ==> full in d.files && d.files[full] == history[k - 1]) &&
      forall v: uint32 :: Oldest(k) <= v as int < k ==>
        VersionPath(base, key, v) in d.files && d.files[VersionPath(base, key, v)] == history[v as int - 1]
  {
    var k := |history|;
    var o := Observe(d, base, key);
    assert o.index == Window(k);
    SnapshotsElim(d, base, key, history);
  }

  /** The converse of SnapshotsIntro: when the snapshots seen over the window are the expected ones, each holds that write's data. */
  lemma SnapshotsElim(d: Disk, base: BasePath, key: string, history: seq<seq<byte>>)
    requires |history| < UINT32_MAX as int
    requires var w := Window(|history|);
      Snapshots(d, base, key, w) == seq(|w|, i requires 0 <= i < |w| => Some(history[w[i] as int - 1]))
    ensures var k := |history|;
      forall v: uint32 :: Oldest(k) <= v as int < k ==>
        VersionPath(base, key, v) in d.files && d.files[VersionPath(base, key, v)] == history[v as int - 1]
  {
    var k := |history|;
    var w := Window(k);
    var seen := Snapshots(d, base, key, w);
    forall v: uint32 | Oldest(k) <= v as int < k
      ensures VersionPath(base, key, v) in d.files && d.files[VersionPath(base, key, v)] == history[v as int - 1]
    {
      var i := v as int - Oldest(k);
      assert w[i] == v;
      assert seen[i] == Some(history[v as int - 1]);
    }
  }

  /** When every version of the window of |history| has its snapshot holding that write's data, the snapshots seen over the window are the expected ones. */
  lemma SnapshotsIntro(d: Disk, base: BasePath, key: string, history: seq<seq<byte>>)
    requires |history| < UINT32_MAX as int
    requires var k := |history|;
      forall v: uint32 :: Oldest(k) <= v as int < k ==>
        VersionPath(base, key, v) in d.files && d.files[VersionPath(base, key, v)] == history[v as int - 1]
    ensures var w := Window(|history|);
      Snapshots(d, base, key, w) == seq(|w|, i requires 0 <= i < |w| => Some(history[w[i] as int - 1]))
  {
    var k := |history|;
    var w := Window(k);
    var seen := Snapshots(d, base, key, w);
    var expected := seq(|w|, i requires 0 <= i < |w| => Some(history[w[i] as int - 1]));
    forall i | 0 <= i < |w| ensures seen[i] == expected[i] {
      assert w[i] in w;
    }
  }

  /** The facts of TrackedFacts make a key tracked. */
  lemma TrackedIntro(d: Disk, base: BasePath, key: string, history: seq<seq<byte>>)
    requires |history| < UINT32_MAX as int
    requires var k := |history|;
      var m := Load(d, base, key);
      var full := GetFullPath(base, key);
      d.mounted && d.faulty == {} && IsValidPath(key) &&
      IndexInvariant(m) && m.currentVersion as int == k && Indexed(m) == Window(k) &&
      (k == 0 ==> full !in d.files) &&
      (k > 0 ==> full in d.files && d.files[full] == history[k - 1]) &&
      forall v: uint32 :: Oldest(k) <= v as int < k ==>
        VersionPath(base, key, v) in d.files && d.files[VersionPath(base, key, v)] == history[v as int - 1]
    ensures Tracked(d, base, key, history)
  {
    SnapshotsIntro(d, base, key, history);
  }

  /** A fresh key is tracked with an empty history. */
  lemma FreshIsTracked(d: Disk, base: BasePath, key: string)
    requires Fresh(d, base, key)
    ensures Tracked(d, base, key, [])
  {
    LoadFallsBackToDefault(d, base, key);
    TrackedIntro(d, base, key, []);
  }
}

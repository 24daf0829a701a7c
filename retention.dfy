/**
 * The retention policy of the inlined engine over a run of writes: starting
 * from a key with no file and no record, on a volume where every operation
 * succeeds, each `write_file` makes the next version current and the index
 * keeps the MAX_HISTORY most recent earlier versions, the oldest evicted
 * first (FIFO by version number). Every retained version can be read back
 * as the data that was written as that version.
 */
module Retention {
  import opened Types
  import opened Paths
  import opened Metadata
  import opened Backend
  import opened Eviction
  import opened StorageEsp
  import opened Tracking

  /** Making version `k + 1` current moves the window by one version once it is full. */
  lemma WindowStep(k: nat)
    requires 0 < k < UINT32_MAX as int
    ensures k <= MAX_HISTORY ==> Window(k + 1) == Window(k) + [k as uint32]
    ensures k > MAX_HISTORY ==> Window(k + 1) == Window(k)[1..] + [k as uint32]
  {
    if k > MAX_HISTORY {
      var w := Window(k)[1..];
      assert |w| == |Range(Oldest(k + 1), k)|;
      assert w == Range(Oldest(k + 1), k);
    }
  }

  /** The oldest indexed version of a tracked key with a full index sits in slot 0 and is the oldest of its window. */
  lemma OldestOfTracked(d: Disk, base: BasePath, key: string, history: seq<seq<byte>>)
    requires Tracked(d, base, key, history)
    requires Load(d, base, key).versionCount as int == MAX_HISTORY
    ensures InBounds(Load(d, base, key))
    ensures OldestSlot(Load(d, base, key)) == 0
    ensures Load(d, base, key).versions[0] == Window(|history|)[0]
  {
    TrackedFacts(d, base, key, history);
    var m := Load(d, base, key);
    var k := |history|;
    OldestSlotIsMinimum(m);
    var s := OldestSlot(m);
    assert m.versions[s] == Window(k)[s] && m.versions[0] == Window(k)[0];
  }

  /** The files of one key that the write path touches are pairwise distinct from its retained snapshots. */
  lemma SnapshotPathsApart(base: BasePath, key: string, v: uint32, w: uint32)
    ensures v != w ==> VersionPath(base, key, v) != VersionPath(base, key, w)
    ensures VersionPath(base, key, v) != GetFullPath(base, key)
    ensures VersionPath(base, key, v) != MetadataPath(base, key)
  {
    VersionPathInjective(base, key, v, w);
    SidecarPathsDistinct(base, key, v);
  }

  /**
   * One more write to a tracked key fits in bounds, succeeds, and leaves the
   * key tracked with the new data appended to its history.
   */
  lemma WriteStep(d: Disk, base: BasePath, key: string, history: seq<seq<byte>>, data: seq<byte>, now: uint32)
    requires Tracked(d, base, key, history)
    requires |history| + 1 < UINT32_MAX as int
    ensures WriteFits(d, base, key)
    ensures WriteOutcome(d, base, key, data, now).ok
    ensures Tracked(WriteOutcome(d, base, key, data, now).disk, base, key, history + [data])
  {
    if |history| == 0 {
      FirstWrite(d, base, key, history, data, now);
    } else {
      NextWrite(d, base, key, history, data, now);
    }
  }

  /** The first write to a fresh key makes version 1 current with an empty index. */
  lemma FirstWrite(d: Disk, base: BasePath, key: string, history: seq<seq<byte>>, data: seq<byte>, now: uint32)
    requires Tracked(d, base, key, history) && |history| == 0
    ensures WriteFits(d, base, key)
    ensures WriteOutcome(d, base, key, data, now).ok
    ensures Tracked(WriteOutcome(d, base, key, data, now).disk, base, key, history + [data])
  {
    TrackedFacts(d, base, key, history);
    var m := Load(d, base, key);
    SidecarPathsDistinct(base, key, 0);
    assert WriteFits(d, base, key);
    WriteResult(d, base, key, data, now);
    WriteSavesArchivedRecord(d, base, key, data, now);
    var after := WriteOutcome(d, base, key, data, now).disk;
    var saved := Load(after, base, key);
    assert |Indexed(m)| == 0;
    assert Indexed(saved) == [] == Window(1);
    assert IndexInvariant(saved);
    TrackedIntro(after, base, key, history + [data]);
  }

  /** A later write archives the current version, moves the window by one and keeps every other retained snapshot. */
  lemma NextWrite(d: Disk, base: BasePath, key: string, history: seq<seq<byte>>, data: seq<byte>, now: uint32)
    requires Tracked(d, base, key, history) && 0 < |history| < UINT32_MAX as int - 1
    ensures WriteFits(d, base, key)
    ensures WriteOutcome(d, base, key, data, now).ok
    ensures Tracked(WriteOutcome(d, base, key, data, now).disk, base, key, history + [data])
  {
    NextRecord(d, base, key, history, data, now);
    NextFiles(d, base, key, history, data, now);
    TrackedIntro(WriteOutcome(d, base, key, data, now).disk, base, key, history + [data]);
  }

  /**
   * After a later write the volume is still usable, the key's file holds
   * the new data, and the record keeps the invariant and names the next
   * version and window.
   */
  lemma NextRecord(d: Disk, base: BasePath, key: string, history: seq<seq<byte>>, data: seq<byte>, now: uint32)
    requires Tracked(d, base, key, history) && 0 < |history| < UINT32_MAX as int - 1
    ensures WriteFits(d, base, key)
    ensures WriteOutcome(d, base, key, data, now).ok
    ensures var after := WriteOutcome(d, base, key, data, now).disk;
      var saved := Load(after, base, key);
      after.mounted && after.faulty == {} && IsValidPath(key) &&
      GetFullPath(base, key) in after.files && after.files[GetFullPath(base, key)] == data &&
      IndexInvariant(saved) && saved.currentVersion as int == |history| + 1 && Indexed(saved) == Window(|history| + 1)
  {
    TrackedFacts(d, base, key, history);
    ArchiveFitsOnTracked(d, base, key, history);
    SidecarPathsDistinct(base, key, 0);
    WriteResult(d, base, key, data, now);
    WriteSavesArchivedRecord(d, base, key, data, now);
    WriteKeepsInvariant(d, base, key, data, now);
    TrackedIndex(d, base, key, history, data, now);
  }

  /** After a later write every version of the next window has its snapshot. */
  lemma NextFiles(d: Disk, base: BasePath, key: string, history: seq<seq<byte>>, data: seq<byte>, now: uint32)
    requires Tracked(d, base, key, history) && 0 < |history| < UINT32_MAX as int - 1
    ensures WriteFits(d, base, key)
    ensures var after := WriteOutcome(d, base, key, data, now).disk;
      var k := |history| + 1;
      var h := history + [data];
      forall v: uint32 :: Oldest(k) <= v as int < k ==>
        VersionPath(base, key, v) in after.files && after.files[VersionPath(base, key, v)] == h[v as int - 1]
  {
    SnapshotArchived(d, base, key, history, data, now);
    SnapshotsKept(d, base, key, history, data, now);
    WindowOfNext(WriteOutcome(d, base, key, data, now).disk, base, key, history, data);
  }

  /** The snapshots kept below the archived version and the archived one together cover the next window. */
  lemma WindowOfNext(e: Disk, base: BasePath, key: string, history: seq<seq<byte>>, data: seq<byte>)
    requires 0 < |history| < UINT32_MAX as int - 1
    requires var k := |history|;
      forall v: uint32 :: Oldest(k + 1) <= v as int < k ==>
        VersionPath(base, key, v) in e.files && e.files[VersionPath(base, key, v)] == history[v as int - 1]
    requires var p := VersionPath(base, key, |history| as uint32);
      p in e.files && e.files[p] == history[|history| - 1]
    ensures var k := |history| + 1;
      var h := history + [data];
      forall v: uint32 :: Oldest(k) <= v as int < k ==>
        VersionPath(base, key, v) in e.files && e.files[VersionPath(base, key, v)] == h[v as int - 1]
  {
    var k := |history|;
    var h := history + [data];
    forall v: uint32 | Oldest(k + 1) <= v as int < k + 1
      ensures VersionPath(base, key, v) in e.files && e.files[VersionPath(base, key, v)] == h[v as int - 1]
    {
      assert h[v as int - 1] == history[v as int - 1];
      if v as int == k {
        assert v == k as uint32;
      }
    }
  }

  /** After a later write every version of the next window below the archived one keeps its snapshot. */
  lemma SnapshotsKept(d: Disk, base: BasePath, key: string, history: seq<seq<byte>>, data: seq<byte>, now: uint32)
    requires Tracked(d, base, key, history) && 0 < |history| < UINT32_MAX as int - 1
    ensures WriteFits(d, base, key)
    ensures var after := WriteOutcome(d, base, key, data, now).disk;
      var k := |history|;
      forall v: uint32 :: Oldest(k + 1) <= v as int < k ==>
        VersionPath(base, key, v) in after.files && after.files[VersionPath(base, key, v)] == history[v as int - 1]
  {
    var k := |history|;
    ArchiveFitsOnTracked(d, base, key, history);
    var after := WriteOutcome(d, base, key, data, now).disk;
    forall v: uint32 | Oldest(k + 1) <= v as int < k
      ensures VersionPath(base, key, v) in after.files && after.files[VersionPath(base, key, v)] == history[v as int - 1]
    {
      SnapshotKept(d, base, key, history, data, now, v);
    }
  }

  /** A later write leaves the data it replaced as the snapshot of the version it replaced. */
  lemma SnapshotArchived(d: Disk, base: BasePath, key: string, history: seq<seq<byte>>, data: seq<byte>, now: uint32)
    requires Tracked(d, base, key, history) && 0 < |history| < UINT32_MAX as int - 1
    ensures WriteFits(d, base, key)
    ensures var after := WriteOutcome(d, base, key, data, now).disk;
      var p := VersionPath(base, key, |history| as uint32);
      p in after.files && after.files[p] == history[|history| - 1]
  {
    TrackedFacts(d, base, key, history);
    ArchiveFitsOnTracked(d, base, key, history);
    SidecarPathsDistinct(base, key, 0);
    WriteResult(d, base, key, data, now);
    WriteKeepsReplacedContent(d, base, key, data, now);
  }

  /** On a tracked key with some history, the archive step reaches its index update and its eviction succeeds. */
  lemma ArchiveFitsOnTracked(d: Disk, base: BasePath, key: string, history: seq<seq<byte>>)
    requires Tracked(d, base, key, history) && |history| > 0
    ensures KeyExists(d, base, key)
    ensures ArchiveCopies(d, base, key, Load(d, base, key))
    ensures ArchiveFits(d, base, key, Load(d, base, key))
  {
    TrackedFacts(d, base, key, history);
    var m := Load(d, base, key);
    if m.currentVersion !in Indexed(m) && m.versionCount as int == MAX_HISTORY {
      EvictionOnTracked(d, base, key, history);
    }
  }

  /** On a tracked key with a full index, the eviction after the snapshot write finds the oldest snapshot and deletes it. */
  lemma EvictionOnTracked(d: Disk, base: BasePath, key: string, history: seq<seq<byte>>)
    requires Tracked(d, base, key, history) && |history| > 0
    requires Load(d, base, key).versionCount as int == MAX_HISTORY
    requires ArchiveCopies(d, base, key, Load(d, base, key))
    ensures InBounds(Load(d, base, key))
    ensures CleanupOldest(Copied(d, base, key, Load(d, base, key)), base, key, Load(d, base, key)).ok
  {
    var k := |history|;
    var m := Load(d, base, key);
    TrackedFacts(d, base, key, history);
    OldestOfTracked(d, base, key, history);
    var oldest := m.versions[0];
    assert oldest == Window(k)[0] && Oldest(k) <= oldest as int < k;
    SnapshotPathsApart(base, key, oldest, m.currentVersion);
    var d1 := Copied(d, base, key, m);
    assert VersionPath(base, key, oldest) in d1.files;
  }

  /** After one more write, the record of a tracked key indexes the next window. */
  lemma TrackedIndex(d: Disk, base: BasePath, key: string, history: seq<seq<byte>>, data: seq<byte>, now: uint32)
    requires Tracked(d, base, key, history) && 0 < |history| < UINT32_MAX as int - 1
    ensures WriteFits(d, base, key)
    ensures var saved := Load(WriteOutcome(d, base, key, data, now).disk, base, key);
      InBounds(saved) && Indexed(saved) == Window(|history| + 1)
  {
    var k := |history|;
    TrackedFacts(d, base, key, history);
    var m := Load(d, base, key);
    ArchiveFitsOnTracked(d, base, key, history);
    SidecarPathsDistinct(base, key, 0);
    ArchiveResult(d, base, key, m);
    ArchiveIndexUpdate(d, base, key, m);
    WriteSavesArchivedRecord(d, base, key, data, now);
    WindowStep(k);
    var cur := m.currentVersion;
    assert cur !in Indexed(m) by {
      InWindow(cur, k);
    }
    if m.versionCount as int == MAX_HISTORY {
      OldestOfTracked(d, base, key, history);
      assert Without(Indexed(m), 0) == Window(k)[1..];
    }
  }

  /** A retained version other than the one a write archives keeps its snapshot through the write. */
  lemma SnapshotKept(d: Disk, base: BasePath, key: string, history: seq<seq<byte>>, data: seq<byte>, now: uint32, v: uint32)
    requires Tracked(d, base, key, history) && 0 < |history| < UINT32_MAX as int - 1
    requires Oldest(|history| + 1) <= v as int < |history|
    ensures WriteFits(d, base, key)
    ensures var after := WriteOutcome(d, base, key, data, now).disk;
      VersionPath(base, key, v) in after.files && after.files[VersionPath(base, key, v)] == history[v as int - 1]
  {
    var k := |history|;
    TrackedFacts(d, base, key, history);
    var m := Load(d, base, key);
    ArchiveFitsOnTracked(d, base, key, history);
    if Evicting(d, base, key) {
      OldestOfTracked(d, base, key, history);
      assert m.versions[0] == Window(k)[0];
    }
    WriteKeepsSnapshot(d, base, key, data, now, v);
  }

  /** Moving the first of `ds` to the end of `h`. */
  lemma AppendFirst(h: seq<seq<byte>>, ds: seq<seq<byte>>)
    requires |ds| > 0
    ensures h + ds == (h + [ds[0]]) + ds[1..]
  {
    assert ds == [ds[0]] + ds[1..];
  }

  /**
   * The disk after writing `datas` one after the other (with the timestamps
   * `nows`) to a tracked key: still tracked, with the new data appended to
   * the history.
   */
  function WriteAll(d: Disk, base: BasePath, key: string, history: seq<seq<byte>>,
                    datas: seq<seq<byte>>, nows: seq<uint32>): (r: Disk)
    requires Tracked(d, base, key, history)
    requires |history| + |datas| < UINT32_MAX as int && |nows| == |datas|
    ensures Tracked(r, base, key, history + datas)
    decreases |datas|
  {
    if datas == [] then
      assert history + datas == history;
      d
    else
      WriteStep(d, base, key, history, datas[0], nows[0]);
      var d' := WriteOutcome(d, base, key, datas[0], nows[0]).disk;
      AppendFirst(history, datas);
      WriteAll(d', base, key, history + [datas[0]], datas[1..], nows[1..])
  }

  /** The disk after writing `datas` one after the other to a fresh key. */
  function WriteFresh(d: Disk, base: BasePath, key: string, datas: seq<seq<byte>>, nows: seq<uint32>): (r: Disk)
    requires Fresh(d, base, key)
    requires |datas| < UINT32_MAX as int && |nows| == |datas|
    ensures Tracked(r, base, key, datas)
  {
    FreshIsTracked(d, base, key);
    assert [] + datas == datas;
    WriteAll(d, base, key, [], datas, nows)
  }

  /** The record of a key tracked with a non-empty history, spelled out: version |history| is current and the index holds the versions just below it, oldest first. */
  lemma TrackedRecord(e: Disk, base: BasePath, key: string, history: seq<seq<byte>>)
    requires Tracked(e, base, key, history) && 0 < |history|
    ensures var n := |history|;
      var m := Load(e, base, key);
      InBounds(m) &&
      m.currentVersion as int == n &&
      m.versionCount as int == (if n - 1 < MAX_HISTORY then n - 1 else MAX_HISTORY) &&
      forall i :: 0 <= i < m.versionCount as int ==> m.versions[i] as int == n - m.versionCount as int + i
  {
    var n := |history|;
    var m := Load(e, base, key);
    TrackedFacts(e, base, key, history);
    forall i | 0 <= i < m.versionCount as int ensures m.versions[i] as int == n - m.versionCount as int + i {
      assert m.versions[i] == Window(n)[i];
    }
  }

  /** On a key tracked with a non-empty history, version 0 reads back the last data and every indexed version the data written as it. */
  lemma TrackedReads(e: Disk, base: BasePath, key: string, history: seq<seq<byte>>)
    requires Tracked(e, base, key, history) && 0 < |history|
    ensures var n := |history|;
      var m := Load(e, base, key);
      ReadFileVersion(e, base, key, 0, |history[n - 1]|) == Some(history[n - 1]) &&
      forall v :: v in Indexed(m) ==> ReadFileVersion(e, base, key, v, |history[v as int - 1]|) == Some(history[v as int - 1])
  {
    TrackedFacts(e, base, key, history);
    WindowReads(e, base, key, history);
    ReadWhole(e, GetFullPath(base, key));
  }

  /** On a clean volume, a window whose snapshots hold the data written as their versions reads back as that data. */
  lemma WindowReads(e: Disk, base: BasePath, key: string, history: seq<seq<byte>>)
    requires |history| < UINT32_MAX as int
    requires e.mounted && e.faulty == {}
    requires var n := |history|;
      forall v: uint32 :: Oldest(n) <= v as int < n ==>
        VersionPath(base, key, v) in e.files && e.files[VersionPath(base, key, v)] == history[v as int - 1]
    ensures forall v :: v in Window(|history|) ==>
      ReadFileVersion(e, base, key, v, |history[v as int - 1]|) == Some(history[v as int - 1])
  {
    var n := |history|;
    forall v | v in Window(n) ensures ReadFileVersion(e, base, key, v, |history[v as int - 1]|) == Some(history[v as int - 1]) {
      InWindow(v, n);
      ReadWhole(e, VersionPath(base, key, v));
    }
  }

  /**
   * FIFO retention. After `n > 0` writes to a fresh key, version `n` is
   * current and the key's file holds the last data. The index holds exactly
   * the min(n - 1, MAX_HISTORY) versions just below `n`, oldest first, and
   * each of them reads back as the data written as that version.
   */
  lemma FifoRetention(d: Disk, base: BasePath, key: string, datas: seq<seq<byte>>, nows: seq<uint32>)
    requires Fresh(d, base, key)
    requires 0 < |datas| < UINT32_MAX as int && |nows| == |datas|
    ensures var n := |datas|;
      var e := WriteFresh(d, base, key, datas, nows);
      var m := Load(e, base, key);
      InBounds(m) &&
      m.currentVersion as int == n &&
      m.versionCount as int == (if n - 1 < MAX_HISTORY then n - 1 else MAX_HISTORY) &&
      (forall i :: 0 <= i < m.versionCount as int ==> m.versions[i] as int == n - m.versionCount as int + i) &&
      ReadFileVersion(e, base, key, 0, |datas[n - 1]|) == Some(datas[n - 1]) &&
      (forall v :: v in Indexed(m) ==> ReadFileVersion(e, base, key, v, |datas[v as int - 1]|) == Some(datas[v as int - 1]))
  {
    var e := WriteFresh(d, base, key, datas, nows);
    TrackedRecord(e, base, key, datas);
    TrackedReads(e, base, key, datas);
  }
}

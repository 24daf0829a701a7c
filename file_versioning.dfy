/**
 * Variant A: the callback-based engine `file_versioning`. It reaches storage
 * only through the `storage_callbacks` capability set, here a `Store`. The
 * current content of a key lives at the key itself, its snapshots and its
 * metadata record next to `get_full_path(key)`.
 *
 * Every operation is given twice: as a function from the old disk to the
 * outcome (`...Outcome`), and as a method of `FileVersioning` that performs
 * it on the store and is proved to produce that outcome.
 */
module FileVersioning {
  import opened Types
  import opened Paths
  import opened Metadata
  import opened Backend
  import opened Crc
  import opened Eviction
  import opened Listing

  /** The record of this variant has no timestamp. */
  const LAYOUT: Layout := Plain

  // ---------------------------------------------------------------- metadata

  /**
   * `load_metadata`: the record stored in the sidecar when the sidecar has
   * exactly the record's size and can be read; the default record otherwise.
   */
  function Load(d: Disk, base: BasePath, key: string): (m: Meta)
    ensures WellFormed(m) && m.timestamp == 0
  {
    var path := MetadataPath(base, key);
    var size := Size(d, path);
    if size == 0 || size != RecordSize(LAYOUT) then Default()
    else
      match Read(d, path, size)
      case None => Default()
      case Some(bytes) => Decode(bytes, LAYOUT)
  }

  /** `save_metadata`: the sidecar is replaced by the encoded record. */
  function Save(d: Disk, base: BasePath, key: string, m: Meta): Disk
    requires WellFormed(m)
  {
    Write(d, MetadataPath(base, key), Encode(m, LAYOUT))
  }

  /** The record on the disk indexes no slot outside its array. */
  predicate Sound(d: Disk, base: BasePath, key: string)
  {
    InBounds(Load(d, base, key))
  }

  /** The archive gets as far as the index: the key's file is present, non-empty and readable, and the snapshot path is writable. */
  predicate ArchiveReachesIndex(d: Disk, base: BasePath, key: string)
  {
    Exists(d, key) && Size(d, key) > 0 && key !in d.faulty &&
    WriteSucceeds(d, VersionPath(base, key, Load(d, base, key).currentVersion))
  }

  /** The record indexes no slot outside its array whenever the archive reaches the index. */
  predicate ArchiveFits(d: Disk, base: BasePath, key: string)
  {
    ArchiveReachesIndex(d, base, key) ==> Sound(d, base, key)
  }

  /** A record saved to a writable sidecar is the record loaded afterwards. */
  lemma LoadAfterSave(d: Disk, base: BasePath, key: string, m: Meta)
    requires WellFormed(m) && m.timestamp == 0
    requires WriteSucceeds(d, MetadataPath(base, key))
    ensures Load(Save(d, base, key, m), base, key) == m
  {
    var path := MetadataPath(base, key);
    ReadAfterWrite(d, path, Encode(m, LAYOUT), path, 0);
    DecodeEncode(m, LAYOUT);
  }

  /**
   * Without a readable sidecar of the record's exact size, loading yields the
   * default record, which keeps the index invariant.
   */
  lemma LoadFallsBackToDefault(d: Disk, base: BasePath, key: string)
    requires !ReadSucceeds(d, MetadataPath(base, key), RecordSize(LAYOUT)) ||
             Size(d, MetadataPath(base, key)) != RecordSize(LAYOUT)
    ensures Load(d, base, key) == Default()
    ensures IndexInvariant(Load(d, base, key))
  {
    DefaultSatisfiesInvariant();
  }

  /** Writing or deleting a file other than the sidecar leaves the loaded record as it was. */
  lemma LoadIgnoresOtherFiles(d: Disk, d': Disk, base: BasePath, key: string)
    requires d'.mounted == d.mounted && d'.faulty == d.faulty
    requires MetadataPath(base, key) in d.files <==> MetadataPath(base, key) in d'.files
    requires MetadataPath(base, key) in d.files ==>
      d'.files[MetadataPath(base, key)] == d.files[MetadataPath(base, key)]
    ensures Load(d', base, key) == Load(d, base, key)
  {
  }

  // ---------------------------------------------------------------- archive

  /**
   * The index update of `archive_current_version` for a version not yet
   * indexed: append while there is room; at capacity evict, then put the
   * version in slot `count - 1` without changing the count.
   */
  function Reindex(d: Disk, base: BasePath, key: string, m: Meta): (r: (Meta, Disk))
    requires InBounds(m)
    ensures WellFormed(r.0) && r.0.timestamp == m.timestamp
  {
    if m.versionCount as int < MAX_HISTORY then (Appended(m, m.currentVersion), d)
    else
      var e := CleanupOldest(d, base, key, m);
      (OverwriteLast(e.meta, m.currentVersion), e.disk)
  }

  /** What a successful archive leaves on the disk after writing the snapshot: the record updated and saved unless the version was already indexed. */
  function Reindexed(d1: Disk, base: BasePath, key: string, m: Meta): Disk
    requires InBounds(m)
  {
    if m.currentVersion in Indexed(m) then d1
    else
      var r := Reindex(d1, base, key, m);
      Save(r.1, base, key, r.0)
  }

  /** `archive_current_version`. */
  function ArchiveOutcome(d: Disk, base: BasePath, key: string): Outcome
    requires ArchiveFits(d, base, key)
  {
    if !Exists(d, key) then Outcome(false, d)
    else
      var m := Load(d, base, key);
      var size := Size(d, key);
      if size == 0 then Outcome(false, d)
      else
        match Read(d, key, size)
        case None => Outcome(false, d)
        case Some(data) =>
          var archive := VersionPath(base, key, m.currentVersion);
          if !WriteSucceeds(d, archive) then Outcome(false, d)
          else Outcome(true, Reindexed(Write(d, archive, data), base, key, m))
  }

  /** Updating the index touches only the record's sidecar and, when evicting, the oldest snapshot. */
  lemma ReindexedFrame(d1: Disk, base: BasePath, key: string, m: Meta, p: string)
    requires InBounds(m)
    requires p != MetadataPath(base, key)
    requires m.versionCount > 0 ==> p != VersionPath(base, key, m.versions[OldestSlot(m)])
    ensures var d2 := Reindexed(d1, base, key, m);
      d2.mounted == d1.mounted && d2.faulty == d1.faulty &&
      (p in d2.files <==> p in d1.files) && (p in d1.files ==> d2.files[p] == d1.files[p])
  {
    if m.currentVersion !in Indexed(m) {
      var r := Reindex(d1, base, key, m);
      if m.versionCount as int == MAX_HISTORY {
        CleanupOldestFrame(d1, base, key, m, p);
      }
      assert r.1.mounted == d1.mounted && r.1.faulty == d1.faulty;
      assert (p in r.1.files <==> p in d1.files) && (p in d1.files ==> r.1.files[p] == d1.files[p]);
      WriteFrame(r.1, MetadataPath(base, key), Encode(r.0, LAYOUT), p);
    }
  }

  /**
   * The archive fails, and then changes nothing (in particular saves no
   * record), exactly when the volume is unmounted, the key is absent or
   * empty, its content cannot be read, or the snapshot cannot be written.
   * On success the snapshot of the current version holds the key's content.
   */
  lemma ArchiveResult(d: Disk, base: BasePath, key: string)
    requires ArchiveFits(d, base, key)
    ensures var o := ArchiveOutcome(d, base, key);
      var archive := VersionPath(base, key, Load(d, base, key).currentVersion);
      o.ok <==> d.mounted && key in d.files && |d.files[key]| > 0 && key !in d.faulty &&
                archive !in d.faulty
    ensures !ArchiveOutcome(d, base, key).ok ==> ArchiveOutcome(d, base, key).disk == d
    ensures var o := ArchiveOutcome(d, base, key);
      var archive := VersionPath(base, key, Load(d, base, key).currentVersion);
      o.ok ==> archive in o.disk.files && o.disk.files[archive] == d.files[key]
  {
    var m := Load(d, base, key);
    var archive := VersionPath(base, key, m.currentVersion);
    var o := ArchiveOutcome(d, base, key);
    if o.ok {
      var data := d.files[key];
      assert data[..|data|] == data;
      SidecarPathsDistinct(base, key, m.currentVersion);
      if m.versionCount > 0 {
        var oldest := m.versions[OldestSlot(m)];
        if m.currentVersion !in Indexed(m) {
          assert oldest != m.currentVersion by {
            assert m.versions[OldestSlot(m)] == Indexed(m)[OldestSlot(m)];
          }
          VersionPathInjective(base, key, oldest, m.currentVersion);
        }
      }
      if m.currentVersion !in Indexed(m) {
        ReindexedFrame(Write(d, archive, data), base, key, m, archive);
      }
    }
  }

  /**
   * How a successful archive updates the record, read back from its sidecar
   * (when that is writable): not at all when the version is already indexed;
   * the version appended while there is room; at capacity the eviction's
   * record with slot `count - 1` overwritten by the version.
   */
  lemma ArchiveIndexUpdate(d: Disk, base: BasePath, key: string)
    requires ArchiveFits(d, base, key)
    requires ArchiveOutcome(d, base, key).ok
    requires MetadataPath(base, key) !in d.faulty
    ensures var m := Load(d, base, key);
      var after := Load(ArchiveOutcome(d, base, key).disk, base, key);
      var d1 := Write(d, VersionPath(base, key, m.currentVersion), d.files[key]);
      (m.currentVersion in Indexed(m) ==> after == m) &&
      (m.currentVersion !in Indexed(m) && m.versionCount as int < MAX_HISTORY ==>
         after == Appended(m, m.currentVersion)) &&
      (m.currentVersion !in Indexed(m) && m.versionCount as int == MAX_HISTORY ==>
         after == Reindex(d1, base, key, m).0)
  {
    var m := Load(d, base, key);
    var archive := VersionPath(base, key, m.currentVersion);
    var data := d.files[key];
    assert data[..|data|] == data;
    SidecarPathsDistinct(base, key, m.currentVersion);
    var d1 := Write(d, archive, data);
    LoadIgnoresOtherFiles(d, d1, base, key);
    if m.currentVersion !in Indexed(m) {
      var r := Reindex(d1, base, key, m);
      assert WriteSucceeds(r.1, MetadataPath(base, key));
      LoadAfterSave(r.1, base, key, r.0);
    }
  }

  /**
   * At capacity with a version not yet indexed, the index update loses the
   * newest indexed version whether or not the eviction succeeds: slot
   * `count - 1` is overwritten instead of the version being appended. After a
   * successful eviction the index moreover shrinks to MAX_HISTORY - 1
   * entries, although a new version was archived.
   */
  lemma ReindexAtCapacityLosesNewest(d1: Disk, base: BasePath, key: string, m: Meta)
    requires IndexInvariant(m) && m.versionCount as int == MAX_HISTORY
    requires m.currentVersion !in Indexed(m)
    ensures var r := Reindex(d1, base, key, m).0;
      InBounds(r) &&
      m.currentVersion in Indexed(r) &&
      m.versions[MAX_HISTORY - 1] !in Indexed(r) &&
      r.versionCount as int == if CleanupOldest(d1, base, key, m).ok then MAX_HISTORY - 1 else MAX_HISTORY
  {
    var e := CleanupOldest(d1, base, key, m);
    var r := Reindex(d1, base, key, m).0;
    assert r == OverwriteLast(e.meta, m.currentVersion);
    if e.ok {
      EvictedThenOverwrittenLosesNewest(m);
    } else {
      OverwriteLastSlot(m, m.currentVersion);
      assert Indexed(m)[MAX_HISTORY - 1] == m.versions[MAX_HISTORY - 1];
    }
  }

  /** The record with slot `count - 1` overwritten by `v`, the count unchanged. */
  function OverwriteLast(m: Meta, v: uint32): Meta
    requires InBounds(m) && m.versionCount > 0
  {
    m.(versions := m.versions[m.versionCount as int - 1 := v])
  }

  /** Overwriting slot `count - 1` replaces the newest indexed entry. */
  lemma OverwriteLastSlot(m: Meta, v: uint32)
    requires IndexInvariant(m) && m.versionCount > 0
    ensures var r := OverwriteLast(m, v);
      var n := m.versionCount as int;
      InBounds(r) && Indexed(r) == Indexed(m)[..n - 1] + [v] && Indexed(m)[n - 1] !in Indexed(m)[..n - 1]
  {
    var n := m.versionCount as int;
    var idx := Indexed(m);
    var init := idx[..n - 1];
    assert Indexed(OverwriteLast(m, v)) == init + [v];
    forall i | 0 <= i < |init| ensures init[i] != idx[n - 1] {
      assert init[i] == m.versions[i] && idx[n - 1] == m.versions[n - 1];
    }
  }

  /** After a successful eviction the overwrite of slot `count - 1` replaces whatever indexed entry sits there, and the newest entry of the full index is gone. */
  lemma EvictedThenOverwrittenLosesNewest(m: Meta)
    requires IndexInvariant(m) && m.versionCount as int == MAX_HISTORY
    ensures var k := OldestSlot(m);
      var r := OverwriteLast(RemoveSlot(m, k), m.currentVersion);
      InBounds(r) && m.currentVersion in Indexed(r) && m.versions[MAX_HISTORY - 1] !in Indexed(r) &&
      r.versionCount as int == MAX_HISTORY - 1
  {
    var k := OldestSlot(m);
    var e := RemoveSlot(m, k);
    EvictOldestKeepsInvariant(m);
    RemoveSlotEffect(m, k);
    OverwriteLastSlot(e, m.currentVersion);
    var idx := Indexed(m);
    var w := Indexed(e);
    var newest := m.versions[MAX_HISTORY - 1];
    assert w == Without(idx, k);
    forall i | 0 <= i < MAX_HISTORY - 2 ensures w[i] != newest {
      var i' := if i < k then i else i + 1;
      assert w[i] == m.versions[i'] && i' < MAX_HISTORY - 1;
    }
    assert w[..MAX_HISTORY - 2] == w[..e.versionCount as int - 1];
  }

  /** The archive never touches the key's own file. */
  lemma ArchiveKeepsKey(d: Disk, base: BasePath, key: string)
    requires ArchiveFits(d, base, key)
    ensures var d' := ArchiveOutcome(d, base, key).disk;
      (key in d'.files <==> key in d.files) && (key in d.files ==> d'.files[key] == d.files[key])
  {
    var m := Load(d, base, key);
    var o := ArchiveOutcome(d, base, key);
    if o.ok {
      var archive := VersionPath(base, key, m.currentVersion);
      assert d.files[key][..Size(d, key)] == d.files[key];
      var d1 := Write(d, archive, d.files[key]);
      assert o.disk == Reindexed(d1, base, key, m);
      SidecarPathsDistinct(base, key, m.currentVersion);
      WriteFrame(d, archive, d.files[key], key);
      if m.versionCount > 0 {
        SidecarPathsDistinct(base, key, m.versions[OldestSlot(m)]);
      }
      ReindexedFrame(d1, base, key, m, key);
    }
  }

  // ---------------------------------------------------------------- the write hook

  /** `on_before_write`: the record loaded before archiving, advanced and described by the new data, is what is saved. */
  function WriteHookOutcome(d: Disk, base: BasePath, key: string, data: seq<byte>): Outcome
    requires ArchiveFits(d, base, key)
  {
    if !d.mounted then Outcome(true, d)
    else
      var m := Load(d, base, key);
      var next := m.(currentVersion := Increment(m.currentVersion),
                     fileSize := TruncateToUint32(|data|),
                     checksum := Checksum(data));
      Outcome(true, Save(ArchiveIfPresent(d, base, key), base, key, next))
  }

  /** The archive step of the write hook: taken only when the key exists, its result ignored. */
  function ArchiveIfPresent(d: Disk, base: BasePath, key: string): (d': Disk)
    requires ArchiveFits(d, base, key)
    ensures d'.mounted == d.mounted && d'.faulty == d.faulty
  {
    ArchiveKeepsVolume(d, base, key);
    if Exists(d, key) then ArchiveOutcome(d, base, key).disk else d
  }

  /**
   * The hook always lets the write proceed. When unmounted it writes nothing.
   * Otherwise the record it leaves on a writable sidecar carries the next
   * version number, the new data's size and checksum, and the index exactly
   * as it was loaded before archiving.
   */
  lemma WriteHookSavesStaleIndex(d: Disk, base: BasePath, key: string, data: seq<byte>)
    requires ArchiveFits(d, base, key)
    ensures WriteHookOutcome(d, base, key, data).ok
    ensures !d.mounted ==> WriteHookOutcome(d, base, key, data).disk == d
    ensures var m := Load(d, base, key);
      var saved := Load(WriteHookOutcome(d, base, key, data).disk, base, key);
      d.mounted && MetadataPath(base, key) !in d.faulty ==>
        saved.currentVersion == Increment(m.currentVersion) &&
        saved.fileSize == TruncateToUint32(|data|) &&
        saved.checksum as int == Crc32(data) as int &&
        saved.versionCount == m.versionCount && saved.versions == m.versions
  {
    if d.mounted && MetadataPath(base, key) !in d.faulty {
      var m := Load(d, base, key);
      var next := m.(currentVersion := Increment(m.currentVersion),
                     fileSize := TruncateToUint32(|data|),
                     checksum := Checksum(data));
      LoadAfterSave(ArchiveIfPresent(d, base, key), base, key, next);
    }
  }

  /**
   * Consequence of the stale record: when the archive indexed a version that
   * was not indexed before, the hook's save drops it again, so the snapshot
   * it just wrote is not in the index the next operation loads.
   */
  lemma WriteHookForgetsArchivedVersion(d: Disk, base: BasePath, key: string, data: seq<byte>)
    requires ArchiveFits(d, base, key)
    requires d.mounted && MetadataPath(base, key) !in d.faulty
    requires ArchiveOutcome(d, base, key).ok
    requires Load(d, base, key).currentVersion !in Indexed(Load(d, base, key))
    requires Load(d, base, key).versionCount as int < MAX_HISTORY
    ensures var v := Load(d, base, key).currentVersion;
      var archived := Load(ArchiveOutcome(d, base, key).disk, base, key);
      var hooked := Load(WriteHookOutcome(d, base, key, data).disk, base, key);
      InBounds(archived) && v in Indexed(archived) &&
      InBounds(hooked) && v !in Indexed(hooked)
  {
    ArchiveIndexUpdate(d, base, key);
    WriteHookSavesStaleIndex(d, base, key, data);
  }

  // ---------------------------------------------------------------- queries

  /**
   * After the hook has run on an existing key with a writable sidecar, the
   * key still exists, `get_file_version` reports the next version, and a
   * caller that knew the previous version sees the file as changed (unless
   * the counter wrapped).
   */
  lemma WriteHookAdvancesVersion(d: Disk, base: BasePath, key: string, data: seq<byte>)
    requires ArchiveFits(d, base, key) && Exists(d, key)
    requires MetadataPath(base, key) !in d.faulty
    ensures var after := WriteHookOutcome(d, base, key, data).disk;
      Exists(after, key) &&
      GetFileVersion(after, base, key) == Increment(GetFileVersion(d, base, key)) &&
      (GetFileVersion(d, base, key) < UINT32_MAX ==> FileHasChanged(after, base, key, GetFileVersion(d, base, key)))
  {
    WriteHookSavesStaleIndex(d, base, key, data);
    ArchiveKeepsKey(d, base, key);
    SidecarPathsDistinct(base, key, 0);
  }


  /** `get_file_version`: 0 when unmounted or absent, the current version otherwise. */
  function GetFileVersion(d: Disk, base: BasePath, key: string): (v: uint32)
    ensures !Exists(d, key) ==> v == 0
  {
    if !Exists(d, key) then 0 else Load(d, base, key).currentVersion
  }

  /** `file_has_changed`: the key exists and its version is above the one the caller knows. */
  function FileHasChanged(d: Disk, base: BasePath, key: string, lastKnown: uint32): (changed: bool)
    ensures changed <==> Exists(d, key) && GetFileVersion(d, base, key) > lastKnown
    ensures !d.mounted ==> !changed
  {
    if !Exists(d, key) then false else Load(d, base, key).currentVersion > lastKnown
  }

  /** `get_file_version_info`: the current entry of the listing, absent when the key is. */
  function GetFileVersionInfo(d: Disk, base: BasePath, key: string): (info: Option<VersionInfo>)
    ensures info.Some? <==> Exists(d, key)
    ensures info.Some? ==> info.value.isCurrent && info.value.version == GetFileVersion(d, base, key)
  {
    if !Exists(d, key) then None
    else
      var m := Load(d, base, key);
      Some(VersionInfo(m.currentVersion, m.fileSize as nat, true))
  }

  /** The entry one pass of the listing loop adds for indexed version `v`: none for version 0 or an empty snapshot. */
  function EntryFor(d: Disk, base: BasePath, key: string, v: uint32): (r: seq<VersionInfo>)
    ensures |r| <= 1
  {
    var size := Size(d, VersionPath(base, key, v));
    if v == 0 || size == 0 then [] else [VersionInfo(v, size, false)]
  }

  /** The entries the listing loop adds for indexed versions `vs`: non-zero versions whose snapshot is not empty. */
  function HistoryEntries(d: Disk, base: BasePath, key: string, vs: seq<uint32>): (r: seq<VersionInfo>)
    ensures |r| <= |vs|
    decreases |vs|
  {
    if vs == [] then []
    else HistoryEntries(d, base, key, vs[..|vs| - 1]) + EntryFor(d, base, key, vs[|vs| - 1])
  }

  /** One more pass of the listing loop adds the entry for the next indexed version. */
  lemma HistoryStep(d: Disk, base: BasePath, key: string, vs: seq<uint32>, i: nat)
    requires i < |vs|
    ensures HistoryEntries(d, base, key, vs[..i + 1]) == HistoryEntries(d, base, key, vs[..i]) + EntryFor(d, base, key, vs[i])
  {
    assert vs[..i + 1][..i] == vs[..i];
  }

  /** An entry is listed for an indexed version exactly when the version is not 0 and its snapshot is not empty. */
  lemma {:induction false} HistoryEntriesMembers(d: Disk, base: BasePath, key: string, vs: seq<uint32>)
    ensures forall e :: e in HistoryEntries(d, base, key, vs) <==>
      e.version in vs && e.version != 0 && !e.isCurrent &&
      e.size == Size(d, VersionPath(base, key, e.version)) && e.size > 0
    decreases |vs|
  {
    if vs != [] {
      var init := vs[..|vs| - 1];
      HistoryEntriesMembers(d, base, key, init);
      assert vs == init + [vs[|vs| - 1]];
    }
  }

  /** Every entry the listing loop adds is a historical entry for an indexed version. */
  lemma {:induction false} HistoryFromIndex(d: Disk, base: BasePath, key: string, vs: seq<uint32>)
    ensures forall e :: e in HistoryEntries(d, base, key, vs) ==> e.version in vs && !e.isCurrent
    decreases |vs|
  {
    if vs != [] {
      var init := vs[..|vs| - 1];
      HistoryFromIndex(d, base, key, init);
      assert vs == init + [vs[|vs| - 1]];
    }
  }

  /** The listing loop adds at most one entry per distinct indexed version. */
  lemma {:induction false} HistoryDistinct(d: Disk, base: BasePath, key: string, vs: seq<uint32>)
    requires forall i, j :: 0 <= i < j < |vs| ==> vs[i] != vs[j]
    ensures DistinctVersions(HistoryEntries(d, base, key, vs))
    decreases |vs|
  {
    if vs != [] {
      var init := vs[..|vs| - 1];
      HistoryDistinct(d, base, key, init);
      HistoryFromIndex(d, base, key, init);
      assert vs[|vs| - 1] !in init;
    }
  }

  /** `list_file_versions`. */
  function VersionList(d: Disk, base: BasePath, key: string): seq<VersionInfo>
    requires Exists(d, key) ==> Sound(d, base, key)
  {
    if !Exists(d, key) then []
    else
      var m := Load(d, base, key);
      SortDescending([VersionInfo(m.currentVersion, m.fileSize as nat, true)] +
                     HistoryEntries(d, base, key, Indexed(m)))
  }

  /**
   * The listing is empty when unmounted or the key is absent. Otherwise it
   * holds the current entry exactly once and no other current entry, plus
   * exactly the non-zero indexed versions with a non-empty snapshot, and it is
   * sorted by version, newest first.
   */
  lemma VersionListContents(d: Disk, base: BasePath, key: string)
    requires Exists(d, key) ==> Sound(d, base, key)
    ensures !Exists(d, key) ==> VersionList(d, base, key) == []
    ensures var r := VersionList(d, base, key);
      var m := Load(d, base, key);
      var current := VersionInfo(m.currentVersion, m.fileSize as nat, true);
      Exists(d, key) ==>
        SortedDescending(r) && |r| <= MAX_HISTORY + 1 &&
        multiset(r)[current] == 1 &&
        (forall e :: e in r && e.isCurrent ==> e == current) &&
        (forall e :: e in r && !e.isCurrent <==>
           e.version in Indexed(m) && e.version != 0 && !e.isCurrent &&
           e.size == Size(d, VersionPath(base, key, e.version)) && e.size > 0)
  {
    if Exists(d, key) {
      var m := Load(d, base, key);
      var current := VersionInfo(m.currentVersion, m.fileSize as nat, true);
      var h := HistoryEntries(d, base, key, Indexed(m));
      HistoryEntriesMembers(d, base, key, Indexed(m));
      var r := VersionList(d, base, key);
      assert multiset(r) == multiset([current]) + multiset(h);
      assert current !in h;
      assert multiset(h)[current] == 0;
      forall e | e in r ensures e == current || e in h {
        assert e in multiset(r);
      }
      forall e | e in h ensures e in r {
        assert e in multiset(r);
      }
      assert current in multiset(r);
    }
  }

  /**
   * With the index invariant, the listing is strictly descending and starts
   * with the current entry: every kept version is older than the current one.
   */
  lemma VersionListNewestFirst(d: Disk, base: BasePath, key: string)
    requires Sound(d, base, key) && IndexInvariant(Load(d, base, key)) && Exists(d, key)
    ensures var r := VersionList(d, base, key);
      var m := Load(d, base, key);
      |r| > 0 && r[0] == VersionInfo(m.currentVersion, m.fileSize as nat, true) &&
      forall i, j :: 0 <= i < j < |r| ==> r[i].version > r[j].version
  {
    var m := Load(d, base, key);
    var current := VersionInfo(m.currentVersion, m.fileSize as nat, true);
    var idx := Indexed(m);
    assert forall i :: 0 <= i < |idx| ==> idx[i] == m.versions[i];
    HistoryBelowCurrent(d, base, key, idx, current);
    SortedWithNewestFirst([current] + HistoryEntries(d, base, key, idx), current);
  }

  /**
   * Entries for distinct indexed versions all below the current one, behind
   * the current entry, have distinct versions with the current one the newest.
   */
  lemma HistoryBelowCurrent(d: Disk, base: BasePath, key: string, vs: seq<uint32>, current: VersionInfo)
    requires forall i, j :: 0 <= i < j < |vs| ==> vs[i] != vs[j]
    requires forall i :: 0 <= i < |vs| ==> vs[i] < current.version
    ensures var s := [current] + HistoryEntries(d, base, key, vs);
      DistinctVersions(s) && forall e :: e in s && e != current ==> e.version < current.version
  {
    var h := HistoryEntries(d, base, key, vs);
    HistoryFromIndex(d, base, key, vs);
    HistoryDistinct(d, base, key, vs);
    assert forall e :: e in h ==> e.version < current.version;
    PrependNewest(current, h);
  }

  // ---------------------------------------------------------------- reading and restoring

  /** `read_file_version`: version 0 reads the key itself, any other version its snapshot path, indexed or not. */
  function ReadFileVersion(d: Disk, base: BasePath, key: string, version: uint32, len: nat): (r: Option<seq<byte>>)
    ensures !d.mounted ==> r.None?
    ensures version == 0 ==> r == Read(d, key, len)
    ensures version != 0 ==> r == Read(d, VersionPath(base, key, version), len)
  {
    if !d.mounted then None
    else Read(d, if version == 0 then key else VersionPath(base, key, version), len)
  }

  /** A successful archive of a non-zero version can be read back as that version: the old content, in full. */
  lemma ArchiveThenReadVersion(d: Disk, base: BasePath, key: string)
    requires ArchiveFits(d, base, key)
    requires ArchiveOutcome(d, base, key).ok
    requires Load(d, base, key).currentVersion != 0
    ensures ReadFileVersion(ArchiveOutcome(d, base, key).disk, base, key,
                            Load(d, base, key).currentVersion, |d.files[key]|) == Some(d.files[key])
  {
    ArchiveResult(d, base, key);
    var o := ArchiveOutcome(d, base, key);
    var archive := VersionPath(base, key, Load(d, base, key).currentVersion);
    assert o.disk.mounted && archive !in o.disk.faulty by {
      ArchiveKeepsVolume(d, base, key);
    }
    assert o.disk.files[archive][..|d.files[key]|] == d.files[key];
  }

  /** No operation of the engine mounts, unmounts or repairs the volume. */
  lemma ArchiveKeepsVolume(d: Disk, base: BasePath, key: string)
    requires ArchiveFits(d, base, key)
    ensures ArchiveOutcome(d, base, key).disk.mounted == d.mounted
    ensures ArchiveOutcome(d, base, key).disk.faulty == d.faulty
  {
  }

  /** `restore_file_version`: a non-empty, readable snapshot is written as the key's content through `write_file`. */
  function RestoreOutcome(d: Disk, base: BasePath, key: string, version: uint32): Outcome
  {
    if !d.mounted then Outcome(false, d)
    else
      var path := VersionPath(base, key, version);
      var size := Size(d, path);
      if size == 0 then Outcome(false, d)
      else
        match Read(d, path, size)
        case None => Outcome(false, d)
        case Some(data) => Outcome(WriteSucceeds(d, key), Write(d, key, data))
  }

  /**
   * Restoring fails without changing anything when the volume is unmounted,
   * the snapshot is missing or empty, or it cannot be read; otherwise the
   * key's content becomes exactly the snapshot's bytes, nothing else changes,
   * and the result is that of the write.
   */
  lemma RestoreResult(d: Disk, base: BasePath, key: string, version: uint32)
    ensures var path := VersionPath(base, key, version);
      var o := RestoreOutcome(d, base, key, version);
      (!d.mounted || Size(d, path) == 0 || path in d.faulty ==> !o.ok && o.disk == d) &&
      (o.ok <==> d.mounted && Size(d, path) > 0 && path !in d.faulty && key !in d.faulty) &&
      (o.ok ==> o.disk == d.(files := d.files[key := d.files[path]]))
  {
    var path := VersionPath(base, key, version);
    if d.mounted && Size(d, path) > 0 {
      assert d.files[path][..Size(d, path)] == d.files[path];
    }
  }

  // ---------------------------------------------------------------- the engine

  class FileVersioning {
    /** `storage_ops`. */
    const store: Store

    constructor (store: Store)
      ensures this.store == store
    {
      this.store := store;
    }

    /** `load_metadata`: always succeeds, with the stored record or the default one. */
    method LoadMetadata(key: string) returns (ok: bool, m: VersionMetadata)
      ensures ok
      ensures fresh(m) && fresh(m.versions)
      ensures m.Value() == Load(store.State(), store.basePath, key)
    {
      ok := true;
      m := new VersionMetadata();
      var path := MetadataPath(store.basePath, key);
      var size := store.FileSize(path);
      if size == 0 || size != RecordSize(LAYOUT) {
        return;
      }
      var readOk, bytes := store.ReadFile(path, size);
      if !readOk {
        return;
      }
      m.Assign(Decode(bytes, LAYOUT));
    }

    /** `save_metadata`. */
    method SaveMetadata(key: string, m: VersionMetadata) returns (ok: bool)
      requires WellFormed(m.Value())
      modifies store`files
      ensures ok == WriteSucceeds(old(store.State()), MetadataPath(store.basePath, key))
      ensures store.State() == Save(old(store.State()), store.basePath, key, m.Value())
    {
      ok := store.WriteFile(MetadataPath(store.basePath, key), Encode(m.Value(), LAYOUT));
    }

    method ArchiveCurrentVersion(key: string) returns (ok: bool)
      requires ArchiveFits(store.State(), store.basePath, key)
      modifies store`files
      ensures Outcome(ok, store.State()) == ArchiveOutcome(old(store.State()), store.basePath, key)
    {
      var mounted := store.IsMounted();
      var present := store.FileExists(key);
      if !mounted || !present {
        return false;
      }
      var loaded, m := LoadMetadata(key);
      var currentPath := key;
      var archivePath := VersionPath(store.basePath, key, m.currentVersion);
      var fileSize := store.FileSize(currentPath);
      if fileSize == 0 {
        return false;
      }
      var readOk, fileData := store.ReadFile(currentPath, fileSize);
      if !readOk {
        return false;
      }
      var written := store.WriteFile(archivePath, fileData);
      if !written {
        return false;
      }
      ghost var d1 := store.State();
      ghost var m0 := m.Value();
      var versionExists := m.IsIndexed(m.currentVersion);
      if !versionExists {
        IndexVersion(key, m);
        var saved := SaveMetadata(key, m);
      }
      assert store.State() == Reindexed(d1, store.basePath, key, m0);
      return true;
    }

    /** The index update of `archive_current_version` for a version not yet indexed. */
    method IndexVersion(key: string, m: VersionMetadata)
      requires InBounds(m.Value())
      modifies store`files, m`versionCount, m.versions
      ensures (m.Value(), store.State()) == Reindex(old(store.State()), store.basePath, key, old(m.Value()))
    {
      if m.versionCount as int < MAX_HISTORY {
        m.Append(m.currentVersion);
      } else {
        ghost var e := CleanupOldest(store.State(), store.basePath, key, m.Value());
        var evicted := CleanupOldestVersion(store, key, m);
        assert m.Value() == e.meta;
        m.versions[m.versionCount as int - 1] := m.currentVersion;
      }
    }

    /** The call of `archive_current_version` in the write hook, made only for a key that exists. */
    method ArchiveExisting(key: string)
      requires ArchiveFits(store.State(), store.basePath, key)
      modifies store`files
      ensures store.State() == ArchiveIfPresent(old(store.State()), store.basePath, key)
    {
      var present := store.FileExists(key);
      if present {
        var archived := ArchiveCurrentVersion(key);
      }
    }

    method OnBeforeWrite(key: string, data: seq<byte>) returns (ok: bool)
      requires ArchiveFits(store.State(), store.basePath, key)
      modifies store`files
      ensures Outcome(ok, store.State()) == WriteHookOutcome(old(store.State()), store.basePath, key, data)
    {
      var mounted := store.IsMounted();
      if !mounted {
        return true;
      }
      ghost var d0 := store.State();
      var loaded, m := LoadMetadata(key);
      ghost var m0 := m.Value();
      ArchiveExisting(key);
      ghost var d1 := store.State();
      assert m.Value() == m0;
      m.currentVersion := Increment(m.currentVersion);
      m.fileSize := TruncateToUint32(|data|);
      var crc := CalculateCrc32(data);
      m.checksum := crc as int as uint32;
      assert m.Value() == m0.(currentVersion := Increment(m0.currentVersion),
                              fileSize := TruncateToUint32(|data|),
                              checksum := Checksum(data));
      var saved := SaveMetadata(key, m);
      assert store.State() == Save(d1, store.basePath, key, m.Value());
      return true;
    }

    /** `restore_file_version`: the snapshot's bytes go to the key through the `write_file` callback. */
    method RestoreFileVersion(key: string, version: uint32) returns (ok: bool)
      modifies store`files
      ensures Outcome(ok, store.State()) == RestoreOutcome(old(store.State()), store.basePath, key, version)
    {
      var mounted := store.IsMounted();
      if !mounted {
        return false;
      }
      var versionPath := VersionPath(store.basePath, key, version);
      var versionSize := store.FileSize(versionPath);
      if versionSize == 0 {
        return false;
      }
      var readOk, versionData := store.ReadFile(versionPath, versionSize);
      if !readOk {
        return false;
      }
      ok := store.WriteFile(key, versionData);
    }

    /** `list_file_versions`: the push_back loop over the index, then the sort. */
    method ListFileVersions(key: string) returns (versions: seq<VersionInfo>)
      requires Exists(store.State(), key) ==> Sound(store.State(), store.basePath, key)
      ensures versions == VersionList(store.State(), store.basePath, key)
    {
      versions := [];
      var mounted := store.IsMounted();
      var present := store.FileExists(key);
      if !mounted || !present {
        return;
      }
      var loaded, m := LoadMetadata(key);
      var current := VersionInfo(m.currentVersion, m.fileSize as nat, true);
      versions := versions + [current];
      var history := CollectHistory(key, m);
      versions := versions + history;
      versions := SortDescending(versions);
    }

    /** The loop of `list_file_versions` over `versions[0..version_count)`. */
    method CollectHistory(key: string, m: VersionMetadata) returns (entries: seq<VersionInfo>)
      requires InBounds(m.Value())
      ensures entries == HistoryEntries(store.State(), store.basePath, key, Indexed(m.Value()))
    {
      entries := [];
      ghost var idx := Indexed(m.Value());
      var count := m.versionCount as int;
      var i := 0;
      while i < count
        invariant 0 <= i <= count == |idx|
        invariant entries == HistoryEntries(store.State(), store.basePath, key, idx[..i])
      {
        var versionNum := m.versions[i];
        assert idx[i] == versionNum;
        HistoryStep(store.State(), store.basePath, key, idx, i);
        var entry := ListingEntry(key, versionNum);
        entries := entries + entry;
        i := i + 1;
      }
      assert idx[..i] == idx;
    }

    /** One pass of the listing loop: the size of the snapshot of a non-zero version, kept when it is above 0. */
    method ListingEntry(key: string, versionNum: uint32) returns (entry: seq<VersionInfo>)
      ensures entry == EntryFor(store.State(), store.basePath, key, versionNum)
    {
      entry := [];
      if versionNum != 0 {
        var versionPath := VersionPath(store.basePath, key, versionNum);
        var versionSize := store.FileSize(versionPath);
        if versionSize > 0 {
          entry := [VersionInfo(versionNum, versionSize, false)];
        }
      }
    }

    /** `cleanup_old_versions`: evicts while the count exceeds the array, which for an in-bounds record never happens. */
    method CleanupOldVersions(key: string) returns (cleaned: uint32)
      requires !store.State().mounted || key == [] || Sound(store.State(), store.basePath, key)
      ensures cleaned == 0
    {
      cleaned := 0;
      var mounted := store.IsMounted();
      if !mounted || key == [] {
        return;
      }
      var loaded, m := LoadMetadata(key);
      // `version_count > STORAGE_MAX_VERSION_HISTORY` is false from the start, so no eviction runs and nothing is saved.
      assert m.versionCount as int <= MAX_HISTORY;
    }
  }
}

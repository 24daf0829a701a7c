/**
 * Variant B: the versioning inlined into the `storage_esp` driver. Keys are
 * validated and mapped under the mount point by `get_full_path`; the
 * snapshots and the metadata record sit beside the key's full path. The
 * write path loads one record, lets the archive step update it in place,
 * advances it and saves it once the new content is written.
 *
 * As for variant A, every operation is a function from the old disk to the
 * outcome, and the class `StorageEsp` performs it on the store and is proved
 * to produce that outcome. `_get_timestamp` is the parameter `now`.
 */
module StorageEsp {
  import opened Types
  import opened Paths
  import opened Metadata
  import opened Backend
  import opened Crc
  import opened Eviction
  import opened Listing

  /** The record of this variant carries a timestamp. */
  const LAYOUT: Layout := Timestamped

  // ---------------------------------------------------------------- metadata

  /**
   * `_load_metadata`: the first RecordSize bytes of the sidecar, or the
   * default record when the sidecar cannot be opened or is too short. It
   * never fails.
   */
  function Load(d: Disk, base: BasePath, key: string): (m: Meta)
    ensures WellFormed(m)
  {
    match Read(d, MetadataPath(base, key), RecordSize(LAYOUT))
    case None => Default()
    case Some(bytes) => Decode(bytes, LAYOUT)
  }

  /** `_save_metadata`: the sidecar is replaced by the encoded record. */
  function Save(d: Disk, base: BasePath, key: string, m: Meta): Disk
    requires WellFormed(m)
  {
    Write(d, MetadataPath(base, key), Encode(m, LAYOUT))
  }

  /** The record on the disk indexes no slot outside its array. */
  predicate Sound(d: Disk, base: BasePath, key: string)
  {
    InBounds(Load(d, base, key))
  }

  /** A record saved to a writable sidecar, timestamp included, is the record loaded afterwards. */
  lemma LoadAfterSave(d: Disk, base: BasePath, key: string, m: Meta)
    requires WellFormed(m)
    requires WriteSucceeds(d, MetadataPath(base, key))
    ensures Load(Save(d, base, key, m), base, key) == m
  {
    var path := MetadataPath(base, key);
    ReadAfterWrite(d, path, Encode(m, LAYOUT), path, 0);
    DecodeEncode(m, LAYOUT);
  }

  /** A sidecar that cannot be opened or holds less than a whole record yields the default record, which keeps the index invariant. */
  lemma LoadFallsBackToDefault(d: Disk, base: BasePath, key: string)
    requires !ReadSucceeds(d, MetadataPath(base, key), RecordSize(LAYOUT))
    ensures Load(d, base, key) == Default()
    ensures IndexInvariant(Load(d, base, key))
  {
    DefaultSatisfiesInvariant();
  }

  /** Changing files other than the sidecar leaves the loaded record as it was. */
  lemma LoadIgnoresOtherFiles(d: Disk, d': Disk, base: BasePath, key: string)
    requires d'.mounted == d.mounted && d'.faulty == d.faulty
    requires MetadataPath(base, key) in d.files <==> MetadataPath(base, key) in d'.files
    requires MetadataPath(base, key) in d.files ==>
      d'.files[MetadataPath(base, key)] == d.files[MetadataPath(base, key)]
    ensures Load(d', base, key) == Load(d, base, key)
  {
  }

  /** `_exists_internal`: mounted, a valid key, and a regular file at its full path. */
  predicate KeyExists(d: Disk, base: BasePath, key: string)
  {
    d.mounted && IsValidPath(key) && Exists(d, GetFullPath(base, key))
  }

  // ---------------------------------------------------------------- archive

  /** What the archive step returns: its result and the record and disk it leaves. */
  datatype Archived = Archived(ok: bool, meta: Meta, disk: Disk)

  /** The archive step copies the key's file to the snapshot path and goes on to its index update. */
  predicate ArchiveCopies(d: Disk, base: BasePath, key: string, m: Meta)
  {
    var full := GetFullPath(base, key);
    Exists(d, full) && full !in d.faulty && WriteSucceeds(d, VersionPath(base, key, m.currentVersion))
  }

  /** The disk once the snapshot of the current version is written. */
  function Copied(d: Disk, base: BasePath, key: string, m: Meta): Disk
    requires ArchiveCopies(d, base, key, m)
  {
    Write(d, VersionPath(base, key, m.currentVersion), d.files[GetFullPath(base, key)])
  }

  /**
   * What `_archive_current_version` needs to stay inside `versions[]`: once
   * it reaches the index update the count is within the array, and at
   * capacity with a new version the eviction succeeds. After a failed
   * eviction the source writes `versions[version_count]` with
   * `version_count == MAX`, one past the end.
   */
  predicate ArchiveFits(d: Disk, base: BasePath, key: string, m: Meta)
  {
    ArchiveCopies(d, base, key, m) ==>
      InBounds(m) &&
      (m.currentVersion !in Indexed(m) && m.versionCount as int == MAX_HISTORY ==>
         CleanupOldest(Copied(d, base, key, m), base, key, m).ok)
  }

  /**
   * `_archive_current_version` on the in-memory record `m`: copy the key's
   * file to the snapshot of the current version, then index the version if
   * it is new, evicting the oldest first when the index is full. The record
   * is not saved here. A snapshot path that cannot be opened for writing
   * fails the archive before anything is written, so the disk is unchanged.
   */
  function ArchiveOutcome(d: Disk, base: BasePath, key: string, m: Meta): (a: Archived)
    requires ArchiveFits(d, base, key, m)
    ensures !a.ok ==> a.meta == m && a.disk == d
    ensures a.disk.mounted == d.mounted && a.disk.faulty == d.faulty
    ensures a.ok ==> InBounds(a.meta)
  {
    var full := GetFullPath(base, key);
    if !Exists(d, full) then Archived(false, m, d)
    else
      match Read(d, full, Size(d, full))
      case None => Archived(false, m, d)
      case Some(data) =>
        var archive := VersionPath(base, key, m.currentVersion);
        if !WriteSucceeds(d, archive) then Archived(false, m, d)
        else
          assert d.files[full][..|d.files[full]|] == d.files[full];
          var d1 := Write(d, archive, data);
          assert d1 == Copied(d, base, key, m);
          if m.currentVersion in Indexed(m) then Archived(true, m, d1)
          else if m.versionCount as int < MAX_HISTORY then Archived(true, Appended(m, m.currentVersion), d1)
          else
            var e := CleanupOldest(d1, base, key, m);
            Archived(true, Appended(e.meta, m.currentVersion), e.disk)
  }

  /**
   * The archive succeeds exactly when the key's file exists and is readable
   * and the snapshot path is writable; empty files are archived too. On
   * success the snapshot holds the key's content, the key's file and the
   * sidecar are untouched, and only the index of the record may change.
   */
  lemma ArchiveResult(d: Disk, base: BasePath, key: string, m: Meta)
    requires ArchiveFits(d, base, key, m)
    ensures var a := ArchiveOutcome(d, base, key, m);
      a.ok <==> ArchiveCopies(d, base, key, m)
    ensures var a := ArchiveOutcome(d, base, key, m);
      var full := GetFullPath(base, key);
      var archive := VersionPath(base, key, m.currentVersion);
      a.ok ==>
        archive in a.disk.files && a.disk.files[archive] == d.files[full] &&
        full in a.disk.files && a.disk.files[full] == d.files[full] &&
        Load(a.disk, base, key) == Load(d, base, key) &&
        a.meta.currentVersion == m.currentVersion && a.meta.timestamp == m.timestamp &&
        a.meta.fileSize == m.fileSize && a.meta.checksum == m.checksum
  {
    var a := ArchiveOutcome(d, base, key, m);
    if a.ok {
      var full := GetFullPath(base, key);
      var archive := VersionPath(base, key, m.currentVersion);
      var d1 := Copied(d, base, key, m);
      assert d.files[full][..|d.files[full]|] == d.files[full];
      SidecarPathsDistinct(base, key, m.currentVersion);
      if m.currentVersion !in Indexed(m) && m.versionCount as int == MAX_HISTORY {
        var oldest := m.versions[OldestSlot(m)];
        assert oldest == Indexed(m)[OldestSlot(m)];
        VersionPathInjective(base, key, oldest, m.currentVersion);
        SidecarPathsDistinct(base, key, oldest);
        CleanupOldestFrame(d1, base, key, m, archive);
        CleanupOldestFrame(d1, base, key, m, full);
        CleanupOldestFrame(d1, base, key, m, MetadataPath(base, key));
      }
      LoadIgnoresOtherFiles(d, a.disk, base, key);
    }
  }

  /**
   * What a successful archive does to the disk: the snapshot of the current
   * version is written and, when a new version meets a full index, the
   * snapshot of the oldest indexed version is deleted. No other file changes.
   */
  lemma ArchiveDisk(d: Disk, base: BasePath, key: string, m: Meta)
    requires ArchiveFits(d, base, key, m) && ArchiveCopies(d, base, key, m)
    ensures InBounds(m)
    ensures var d1 := Copied(d, base, key, m);
      ArchiveOutcome(d, base, key, m).disk ==
        if m.currentVersion !in Indexed(m) && m.versionCount as int == MAX_HISTORY
        then d1.(files := d1.files - {VersionPath(base, key, m.versions[OldestSlot(m)])})
        else d1
  {
    assert d.files[GetFullPath(base, key)][..|d.files[GetFullPath(base, key)]|] == d.files[GetFullPath(base, key)];
  }

  /**
   * How a successful archive updates the record: not at all when the
   * version is already indexed; the version appended while there is room;
   * at capacity the oldest version is evicted first, and the new version is
   * appended behind the others, so the index stays full.
   */
  lemma ArchiveIndexUpdate(d: Disk, base: BasePath, key: string, m: Meta)
    requires ArchiveFits(d, base, key, m)
    requires ArchiveOutcome(d, base, key, m).ok
    ensures InBounds(m)
    ensures var a := ArchiveOutcome(d, base, key, m);
      (m.currentVersion in Indexed(m) ==> a.meta == m) &&
      (m.currentVersion !in Indexed(m) ==> m.currentVersion in Indexed(a.meta)) &&
      (m.currentVersion !in Indexed(m) && m.versionCount as int < MAX_HISTORY ==>
         Indexed(a.meta) == Indexed(m) + [m.currentVersion]) &&
      (m.currentVersion !in Indexed(m) && m.versionCount as int == MAX_HISTORY ==>
         Indexed(a.meta) == Without(Indexed(m), OldestSlot(m)) + [m.currentVersion] &&
         a.meta.versionCount as int == MAX_HISTORY)
  {
    ArchiveResult(d, base, key, m);
    if m.currentVersion !in Indexed(m) && m.versionCount as int == MAX_HISTORY {
      var d1 := Copied(d, base, key, m);
      var e := CleanupOldest(d1, base, key, m);
      RemoveSlotEffect(m, OldestSlot(m));
      assert Indexed(e.meta) == Without(Indexed(m), OldestSlot(m));
    }
  }

  /**
   * With the index invariant and a non-zero current version below the
   * largest, the archived record advanced to the next version keeps the
   * invariant.
   */
  lemma ArchiveThenAdvanceKeepsInvariant(d: Disk, base: BasePath, key: string, m: Meta, data: seq<byte>, now: uint32)
    requires ArchiveFits(d, base, key, m)
    requires IndexInvariant(m) && 0 < m.currentVersion < UINT32_MAX
    ensures IndexInvariant(Advanced(ArchiveOutcome(d, base, key, m).meta, data, now))
  {
    var a := ArchiveOutcome(d, base, key, m);
    var cur := m.currentVersion;
    assert cur !in Indexed(m) by {
      forall i | 0 <= i < m.versionCount as int ensures Indexed(m)[i] != cur {
        assert Indexed(m)[i] == m.versions[i];
      }
    }
    if !a.ok {
      assert Advanced(a.meta, data, now).versions == m.versions;
    } else if m.versionCount as int < MAX_HISTORY {
      AppendCurrentKeepsInvariant(m);
    } else {
      var e := CleanupOldest(Copied(d, base, key, m), base, key, m);
      CleanupOldestSuccess(Copied(d, base, key, m), base, key, m);
      assert cur !in Indexed(e.meta);
      AppendCurrentKeepsInvariant(e.meta);
    }
  }

  // ---------------------------------------------------------------- write and erase

  /** `write_file` reaches the archive step only for a key that exists, and then needs the archive to fit. */
  predicate WriteFits(d: Disk, base: BasePath, key: string)
  {
    KeyExists(d, base, key) ==> ArchiveFits(d, base, key, Load(d, base, key))
  }

  /** The record after `current_version++` and the new timestamp, size and checksum. */
  function Advanced(m: Meta, data: seq<byte>, now: uint32): (r: Meta)
    ensures r.versionCount == m.versionCount && r.versions == m.versions
  {
    m.(currentVersion := Increment(m.currentVersion), timestamp := now,
       fileSize := TruncateToUint32(|data|), checksum := Checksum(data))
  }

  /** The archive step of `write_file`, taken only for a key that exists, its result ignored. */
  function ArchiveIfPresent(d: Disk, base: BasePath, key: string): (a: Archived)
    requires WriteFits(d, base, key)
    ensures a.disk.mounted == d.mounted && a.disk.faulty == d.faulty
    ensures WellFormed(a.meta)
  {
    var m := Load(d, base, key);
    if KeyExists(d, base, key) then ArchiveOutcome(d, base, key, m) else Archived(false, m, d)
  }

  /**
   * `write_file`: refuse an unmounted volume or an invalid key; archive the
   * existing content into the loaded record; advance the record; write the
   * new content and, only when that succeeded, save the record (whose save
   * may fail without failing the write).
   */
  function WriteOutcome(d: Disk, base: BasePath, key: string, data: seq<byte>, now: uint32): Outcome
    requires WriteFits(d, base, key)
  {
    if !d.mounted || !IsValidPath(key) then Outcome(false, d)
    else
      var a := ArchiveIfPresent(d, base, key);
      var full := GetFullPath(base, key);
      if !WriteSucceeds(a.disk, full) then Outcome(false, a.disk)
      else Outcome(true, Save(Write(a.disk, full, data), base, key, Advanced(a.meta, data, now)))
  }

  /**
   * The write succeeds exactly when the volume is mounted, the key is valid
   * and its full path is writable, whatever became of the archive. Refused
   * keys change nothing. A failed write leaves the sidecar as it was. A
   * successful one leaves the new content at the full path.
   */
  lemma WriteResult(d: Disk, base: BasePath, key: string, data: seq<byte>, now: uint32)
    requires WriteFits(d, base, key)
    ensures var o := WriteOutcome(d, base, key, data, now);
      o.ok <==> d.mounted && IsValidPath(key) && GetFullPath(base, key) !in d.faulty
    ensures !d.mounted || !IsValidPath(key) ==> WriteOutcome(d, base, key, data, now).disk == d
    ensures var o := WriteOutcome(d, base, key, data, now);
      !o.ok ==> Load(o.disk, base, key) == Load(d, base, key)
    ensures var o := WriteOutcome(d, base, key, data, now);
      var full := GetFullPath(base, key);
      o.ok ==> full in o.disk.files && o.disk.files[full] == data
  {
    if d.mounted && IsValidPath(key) {
      var a := ArchiveIfPresent(d, base, key);
      var full := GetFullPath(base, key);
      if KeyExists(d, base, key) {
        ArchiveResult(d, base, key, Load(d, base, key));
      }
      assert Load(a.disk, base, key) == Load(d, base, key);
      SidecarPathsDistinct(base, key, 0);
      if WriteSucceeds(a.disk, full) {
        var next := Advanced(a.meta, data, now);
        WriteFrame(Write(a.disk, full, data), MetadataPath(base, key), Encode(next, LAYOUT), full);
      }
    }
  }

  /**
   * One record is threaded through `write_file`: the record saved after a
   * successful write is the record as the archive step left it, advanced.
   * It carries the next version number, the timestamp, the new size and
   * checksum, and, when the archive succeeded, the archived version in its
   * index. When the archive failed, the counter advances all the same.
   */
  lemma WriteSavesArchivedRecord(d: Disk, base: BasePath, key: string, data: seq<byte>, now: uint32)
    requires WriteFits(d, base, key)
    requires WriteOutcome(d, base, key, data, now).ok
    requires MetadataPath(base, key) !in d.faulty
    ensures var m := Load(d, base, key);
      var a := ArchiveIfPresent(d, base, key);
      var saved := Load(WriteOutcome(d, base, key, data, now).disk, base, key);
      saved == Advanced(a.meta, data, now) &&
      saved.currentVersion == Increment(m.currentVersion) &&
      saved.timestamp == now &&
      saved.fileSize == TruncateToUint32(|data|) &&
      saved.checksum as int == Crc32(data) as int &&
      (!a.ok ==> saved.versionCount == m.versionCount && saved.versions == m.versions) &&
      (a.ok ==> InBounds(saved) && m.currentVersion in Indexed(saved))
  {
    var m := Load(d, base, key);
    var a := ArchiveIfPresent(d, base, key);
    var full := GetFullPath(base, key);
    if a.ok {
      ArchiveResult(d, base, key, m);
      ArchiveIndexUpdate(d, base, key, m);
    }
    LoadAfterSave(Write(a.disk, full, data), base, key, Advanced(a.meta, data, now));
  }

  /**
   * Writing keeps the index invariant of a record whose current version is
   * not 0 and below the largest (the counter does not wrap).
   */
  lemma WriteKeepsInvariant(d: Disk, base: BasePath, key: string, data: seq<byte>, now: uint32)
    requires WriteFits(d, base, key)
    requires WriteOutcome(d, base, key, data, now).ok
    requires MetadataPath(base, key) !in d.faulty
    requires IndexInvariant(Load(d, base, key))
    requires 0 < Load(d, base, key).currentVersion < UINT32_MAX
    ensures IndexInvariant(Load(WriteOutcome(d, base, key, data, now).disk, base, key))
  {
    var m := Load(d, base, key);
    WriteSavesArchivedRecord(d, base, key, data, now);
    if KeyExists(d, base, key) {
      ArchiveThenAdvanceKeepsInvariant(d, base, key, m, data, now);
    } else {
      assert IndexInvariant(Advanced(m, data, now));
    }
  }

  /** The write of a key that exists evicts a snapshot: its version is new, the index full and the archive reaches the eviction. */
  predicate Evicting(d: Disk, base: BasePath, key: string)
    requires WriteFits(d, base, key)
  {
    var m := Load(d, base, key);
    KeyExists(d, base, key) && ArchiveCopies(d, base, key, m) &&
    m.currentVersion !in Indexed(m) && m.versionCount as int == MAX_HISTORY
  }

  /**
   * Whatever its outcome, `write_file` changes no file but the key's file,
   * its record, the snapshot of its current version (for a key that exists)
   * and, when it evicts, the snapshot of the oldest indexed version.
   */
  lemma WriteChangesOnly(d: Disk, base: BasePath, key: string, data: seq<byte>, now: uint32, p: string)
    requires WriteFits(d, base, key)
    requires p != GetFullPath(base, key) && p != MetadataPath(base, key)
    requires KeyExists(d, base, key) ==> p != VersionPath(base, key, Load(d, base, key).currentVersion)
    requires Evicting(d, base, key) ==>
      p != VersionPath(base, key, Load(d, base, key).versions[OldestSlot(Load(d, base, key))])
    ensures var after := WriteOutcome(d, base, key, data, now).disk;
      (p in after.files <==> p in d.files) && (p in d.files ==> after.files[p] == d.files[p])
  {
    if d.mounted && IsValidPath(key) {
      var m := Load(d, base, key);
      var a := ArchiveIfPresent(d, base, key);
      var full := GetFullPath(base, key);
      assert (p in a.disk.files <==> p in d.files) && (p in d.files ==> a.disk.files[p] == d.files[p]) by {
        if KeyExists(d, base, key) && ArchiveCopies(d, base, key, m) {
          ArchiveDisk(d, base, key, m);
          WriteFrame(d, VersionPath(base, key, m.currentVersion), d.files[full], p);
        }
      }
      WriteFrame(a.disk, full, data, p);
      WriteFrame(Write(a.disk, full, data), MetadataPath(base, key), Encode(Advanced(a.meta, data, now), LAYOUT), p);
    }
  }

  /** A write keeps the snapshot of every version but the current one and, when it evicts, the oldest indexed one. */
  lemma WriteKeepsSnapshot(d: Disk, base: BasePath, key: string, data: seq<byte>, now: uint32, v: uint32)
    requires WriteFits(d, base, key)
    requires v != Load(d, base, key).currentVersion
    requires Evicting(d, base, key) ==> v != Load(d, base, key).versions[OldestSlot(Load(d, base, key))]
    ensures var p := VersionPath(base, key, v);
      var after := WriteOutcome(d, base, key, data, now).disk;
      (p in after.files <==> p in d.files) && (p in d.files ==> after.files[p] == d.files[p])
  {
    var m := Load(d, base, key);
    var p := VersionPath(base, key, v);
    SidecarPathsDistinct(base, key, v);
    VersionPathInjective(base, key, v, m.currentVersion);
    if Evicting(d, base, key) {
      VersionPathInjective(base, key, v, m.versions[OldestSlot(m)]);
    }
    WriteChangesOnly(d, base, key, data, now, p);
  }

  /** A successful write of a key that exists keeps, as the snapshot of the version it replaced, the content it replaced. */
  lemma WriteKeepsReplacedContent(d: Disk, base: BasePath, key: string, data: seq<byte>, now: uint32)
    requires WriteFits(d, base, key) && KeyExists(d, base, key)
    requires ArchiveCopies(d, base, key, Load(d, base, key))
    requires WriteOutcome(d, base, key, data, now).ok
    ensures var snapshot := VersionPath(base, key, Load(d, base, key).currentVersion);
      var after := WriteOutcome(d, base, key, data, now).disk;
      snapshot in after.files && after.files[snapshot] == d.files[GetFullPath(base, key)]
  {
    var m := Load(d, base, key);
    var a := ArchiveIfPresent(d, base, key);
    var full := GetFullPath(base, key);
    var snapshot := VersionPath(base, key, m.currentVersion);
    ArchiveResult(d, base, key, m);
    SidecarPathsDistinct(base, key, m.currentVersion);
    WriteFrame(a.disk, full, data, snapshot);
    WriteFrame(Write(a.disk, full, data), MetadataPath(base, key), Encode(Advanced(a.meta, data, now), LAYOUT), snapshot);
  }

  /** `erase_file`: the file at the key's full path is unlinked; a missing file is a failure. */
  function EraseOutcome(d: Disk, base: BasePath, key: string): Outcome
  {
    if !d.mounted || !IsValidPath(key) then Outcome(false, d)
    else
      var full := GetFullPath(base, key);
      Outcome(DeleteSucceeds(d, full), Delete(d, full))
  }

  /**
   * Erasing succeeds exactly for a key that exists and whose file can be
   * removed, and then removes that file and nothing else: the record and
   * every snapshot stay behind. A failed erase changes nothing.
   */
  lemma EraseLeavesSidecars(d: Disk, base: BasePath, key: string, v: uint32)
    ensures var o := EraseOutcome(d, base, key);
      o.ok <==> KeyExists(d, base, key) && GetFullPath(base, key) !in d.faulty
    ensures var o := EraseOutcome(d, base, key);
      o.ok ==> o.disk == d.(files := d.files - {GetFullPath(base, key)})
    ensures !EraseOutcome(d, base, key).ok ==> EraseOutcome(d, base, key).disk == d
    ensures var o := EraseOutcome(d, base, key);
      var snapshot := VersionPath(base, key, v);
      Load(o.disk, base, key) == Load(d, base, key) &&
      (snapshot in o.disk.files <==> snapshot in d.files) &&
      (snapshot in d.files ==> o.disk.files[snapshot] == d.files[snapshot])
  {
    SidecarPathsDistinct(base, key, v);
    LoadIgnoresOtherFiles(d, EraseOutcome(d, base, key).disk, base, key);
  }

  // ---------------------------------------------------------------- queries

  /** `get_file_version`: 0 when unmounted or the key does not exist, the current version otherwise. */
  function GetFileVersion(d: Disk, base: BasePath, key: string): (v: uint32)
    ensures !KeyExists(d, base, key) ==> v == 0
    ensures KeyExists(d, base, key) && !ReadSucceeds(d, MetadataPath(base, key), RecordSize(LAYOUT)) ==> v == 0
  {
    if !d.mounted || !KeyExists(d, base, key) then 0 else Load(d, base, key).currentVersion
  }

  /** `file_has_changed`: the key exists and its version is above the one the caller knows. */
  function FileHasChanged(d: Disk, base: BasePath, key: string, lastKnown: uint32): (changed: bool)
    ensures changed <==> KeyExists(d, base, key) && GetFileVersion(d, base, key) > lastKnown
    ensures !d.mounted ==> !changed
  {
    if !d.mounted || !KeyExists(d, base, key) then false
    else Load(d, base, key).currentVersion > lastKnown
  }

  /** `get_file_version_info`: the current entry of the listing, absent when the key is. */
  function GetFileVersionInfo(d: Disk, base: BasePath, key: string): (info: Option<VersionInfo>)
    ensures info.Some? <==> KeyExists(d, base, key)
    ensures info.Some? ==> info.value.isCurrent && info.value.version == GetFileVersion(d, base, key)
  {
    if !d.mounted || !KeyExists(d, base, key) then None
    else
      var m := Load(d, base, key);
      Some(VersionInfo(m.currentVersion, m.fileSize as nat, true))
  }

  /** After a successful write with a writable sidecar, the key exists and a caller that knew the old version sees a change. */
  lemma WriteAdvancesVersion(d: Disk, base: BasePath, key: string, data: seq<byte>, now: uint32)
    requires WriteFits(d, base, key)
    requires WriteOutcome(d, base, key, data, now).ok
    requires MetadataPath(base, key) !in d.faulty
    ensures var after := WriteOutcome(d, base, key, data, now).disk;
      KeyExists(after, base, key) &&
      GetFileVersion(after, base, key) == Increment(Load(d, base, key).currentVersion) &&
      (Load(d, base, key).currentVersion < UINT32_MAX ==>
         FileHasChanged(after, base, key, Load(d, base, key).currentVersion))
  {
    WriteResult(d, base, key, data, now);
    WriteSavesArchivedRecord(d, base, key, data, now);
  }

  /** The entry one pass of the listing loop adds for indexed version `v`: none for version 0 or a snapshot that cannot be statted. */
  function EntryFor(d: Disk, base: BasePath, key: string, v: uint32): (r: seq<VersionInfo>)
    ensures |r| <= 1
  {
    var path := VersionPath(base, key, v);
    if v == 0 || !Exists(d, path) then [] else [VersionInfo(v, Size(d, path), false)]
  }

  /** The entries the listing loop adds for indexed versions `vs`: non-zero versions whose snapshot can be statted, empty or not. */
  function HistoryEntries(d: Disk, base: BasePath, key: string, vs: seq<uint32>): (r: seq<VersionInfo>)
    ensures |r| <= |vs|
    decreases |vs|
  {
    if vs == [] then []
    else HistoryEntries(d, base, key, vs[..|vs| - 1]) + EntryFor(d, base, key, vs[|vs| - 1])
  }

  /** One more pass of the listing loop adds the entry for the next indexed version. */
  lemma HistoryStep(d: Disk, base: BasePath, key: string, vs: seq<uint32>, i: nat)
    requires i < |vs|
    ensures HistoryEntries(d, base, key, vs[..i + 1]) == HistoryEntries(d, base, key, vs[..i]) + EntryFor(d, base, key, vs[i])
  {
    assert vs[..i + 1][..i] == vs[..i];
  }

  /** An entry is listed for an indexed version exactly when the version is not 0 and its snapshot exists. */
  lemma {:induction false} HistoryEntriesMembers(d: Disk, base: BasePath, key: string, vs: seq<uint32>)
    ensures forall e :: e in HistoryEntries(d, base, key, vs) <==>
      e.version in vs && e.version != 0 && !e.isCurrent &&
      Exists(d, VersionPath(base, key, e.version)) && e.size == Size(d, VersionPath(base, key, e.version))
    decreases |vs|
  {
    if vs != [] {
      var init := vs[..|vs| - 1];
      HistoryEntriesMembers(d, base, key, init);
      assert vs == init + [vs[|vs| - 1]];
    }
  }

  /** `list_file_versions`. */
  function VersionList(d: Disk, base: BasePath, key: string): seq<VersionInfo>
    requires KeyExists(d, base, key) ==> Sound(d, base, key)
  {
    if !d.mounted || !KeyExists(d, base, key) then []
    else
      var m := Load(d, base, key);
      SortDescending([VersionInfo(m.currentVersion, m.fileSize as nat, true)] +
                     HistoryEntries(d, base, key, Indexed(m)))
  }

  /**
   * The listing is empty when unmounted or the key does not exist.
   * Otherwise it holds the current entry exactly once and no other current
   * entry, plus exactly the non-zero indexed versions whose snapshot exists,
   * and it is sorted by version, newest first.
   */
  lemma VersionListContents(d: Disk, base: BasePath, key: string)
    requires KeyExists(d, base, key) ==> Sound(d, base, key)
    ensures !KeyExists(d, base, key) ==> VersionList(d, base, key) == []
    ensures var r := VersionList(d, base, key);
      var m := Load(d, base, key);
      var current := VersionInfo(m.currentVersion, m.fileSize as nat, true);
      KeyExists(d, base, key) ==>
        SortedDescending(r) && |r| <= MAX_HISTORY + 1 &&
        multiset(r)[current] == 1 &&
        (forall e :: e in r && e.isCurrent ==> e == current) &&
        (forall e :: e in r && !e.isCurrent <==>
           e.version in Indexed(m) && e.version != 0 && !e.isCurrent &&
           Exists(d, VersionPath(base, key, e.version)) && e.size == Size(d, VersionPath(base, key, e.version)))
  {
    if KeyExists(d, base, key) {
      var m := Load(d, base, key);
      var current := VersionInfo(m.currentVersion, m.fileSize as nat, true);
      var h := HistoryEntries(d, base, key, Indexed(m));
      HistoryEntriesMembers(d, base, key, Indexed(m));
      var r := VersionList(d, base, key);
      assert multiset(r) == multiset([current]) + multiset(h);
      assert current !in h;
      assert multiset(h)[current] == 0;
      forall e | e in r ensures e == current || e in h {
        assert e in multiset(r);
      }
      forall e | e in h ensures e in r {
        assert e in multiset(r);
      }
      assert current in multiset(r);
    }
  }

  /** Every listed history entry is for an indexed version and is not marked current. */
  lemma {:induction false} HistoryFromIndex(d: Disk, base: BasePath, key: string, vs: seq<uint32>)
    ensures forall e :: e in HistoryEntries(d, base, key, vs) ==> e.version in vs && !e.isCurrent
    decreases |vs|
  {
    if vs != [] {
      var init := vs[..|vs| - 1];
      HistoryFromIndex(d, base, key, init);
      assert vs == init + [vs[|vs| - 1]];
    }
  }

  /** Pairwise distinct indexed versions give history entries with pairwise distinct versions. */
  lemma {:induction false} HistoryDistinct(d: Disk, base: BasePath, key: string, vs: seq<uint32>)
    requires forall i, j :: 0 <= i < j < |vs| ==> vs[i] != vs[j]
    ensures DistinctVersions(HistoryEntries(d, base, key, vs))
    decreases |vs|
  {
    if vs != [] {
      var init := vs[..|vs| - 1];
      HistoryDistinct(d, base, key, init);
      HistoryFromIndex(d, base, key, init);
      assert vs[|vs| - 1] !in init;
    }
  }

  /** With the index older than `current`, the current entry followed by the history has distinct versions and `current` is the newest. */
  lemma HistoryBelowCurrent(d: Disk, base: BasePath, key: string, vs: seq<uint32>, current: VersionInfo)
    requires forall i, j :: 0 <= i < j < |vs| ==> vs[i] != vs[j]
    requires forall i :: 0 <= i < |vs| ==> vs[i] < current.version
    ensures var s := [current] + HistoryEntries(d, base, key, vs);
      DistinctVersions(s) && forall e :: e in s && e != current ==> e.version < current.version
  {
    var h := HistoryEntries(d, base, key, vs);
    HistoryFromIndex(d, base, key, vs);
    HistoryDistinct(d, base, key, vs);
    assert forall e :: e in h ==> e.version < current.version;
    PrependNewest(current, h);
  }

  /**
   * For an existing key whose record keeps the index invariant, the listing
   * starts with the current entry and its versions strictly decrease, so
   * no version is listed twice.
   */
  lemma VersionListNewestFirst(d: Disk, base: BasePath, key: string)
    requires KeyExists(d, base, key) && IndexInvariant(Load(d, base, key))
    ensures var r := VersionList(d, base, key);
      var m := Load(d, base, key);
      |r| > 0 && r[0] == VersionInfo(m.currentVersion, m.fileSize as nat, true) &&
      forall i, j :: 0 <= i < j < |r| ==> r[i].version > r[j].version
  {
    var m := Load(d, base, key);
    var current := VersionInfo(m.currentVersion, m.fileSize as nat, true);
    var idx := Indexed(m);
    assert forall i :: 0 <= i < |idx| ==> idx[i] == m.versions[i];
    HistoryBelowCurrent(d, base, key, idx, current);
    SortedWithNewestFirst([current] + HistoryEntries(d, base, key, idx), current);
  }

  // ---------------------------------------------------------------- reading and restoring

  /** `read_file_version`: version 0 reads the key's file, any other version its snapshot path; the key is not validated. */
  function ReadFileVersion(d: Disk, base: BasePath, key: string, version: uint32, len: nat): (r: Option<seq<byte>>)
    ensures !d.mounted ==> r.None?
    ensures version == 0 ==> r == Read(d, GetFullPath(base, key), len)
    ensures version != 0 ==> r == Read(d, VersionPath(base, key, version), len)
  {
    if !d.mounted then None
    else Read(d, if version == 0 then GetFullPath(base, key) else VersionPath(base, key, version), len)
  }

  /** The write that `restore_file_version` ends with, once it has read a snapshot, fits. */
  predicate RestoreFits(d: Disk, base: BasePath, key: string, version: uint32)
  {
    var path := VersionPath(base, key, version);
    Exists(d, path) && path !in d.faulty ==> WriteFits(d, base, key)
  }

  /** `restore_file_version`: a readable snapshot, even an empty one, is written back through `write_file`. */
  function RestoreOutcome(d: Disk, base: BasePath, key: string, version: uint32, now: uint32): Outcome
    requires RestoreFits(d, base, key, version)
  {
    if !d.mounted then Outcome(false, d)
    else
      var path := VersionPath(base, key, version);
      if !Exists(d, path) then Outcome(false, d)
      else
        match Read(d, path, Size(d, path))
        case None => Outcome(false, d)
        case Some(data) => WriteOutcome(d, base, key, data, now)
  }

  /**
   * Restoring fails without changing anything when the volume is unmounted
   * or the snapshot is missing or unreadable. Otherwise it is a `write_file`
   * of exactly the snapshot's bytes, which archives the current content and
   * creates a new version; when that write succeeds the key's content is
   * the snapshot's.
   */
  lemma RestoreResult(d: Disk, base: BasePath, key: string, version: uint32, now: uint32)
    requires RestoreFits(d, base, key, version)
    ensures var path := VersionPath(base, key, version);
      var o := RestoreOutcome(d, base, key, version, now);
      (!d.mounted || !Exists(d, path) || path in d.faulty ==> !o.ok && o.disk == d) &&
      (Exists(d, path) && path !in d.faulty ==> o == WriteOutcome(d, base, key, d.files[path], now)) &&
      (o.ok ==> GetFullPath(base, key) in o.disk.files && o.disk.files[GetFullPath(base, key)] == d.files[path])
  {
    var path := VersionPath(base, key, version);
    if Exists(d, path) && path !in d.faulty {
      assert d.files[path][..Size(d, path)] == d.files[path];
      WriteResult(d, base, key, d.files[path], now);
    }
  }

  // ---------------------------------------------------------------- the driver

  class StorageEsp {
    const store: Store

    constructor (store: Store)
      ensures this.store == store
    {
      this.store := store;
    }

    /** `_load_metadata`: always succeeds, with the stored record or the default one. */
    method LoadMetadata(key: string) returns (ok: bool, m: VersionMetadata)
      ensures ok
      ensures fresh(m) && fresh(m.versions)
      ensures m.Value() == Load(store.State(), store.basePath, key)
    {
      ok := true;
      m := new VersionMetadata();
      var readOk, bytes := store.ReadFile(MetadataPath(store.basePath, key), RecordSize(LAYOUT));
      if readOk {
        m.Assign(Decode(bytes, LAYOUT));
      }
    }

    /** `_save_metadata`. */
    method SaveMetadata(key: string, m: VersionMetadata) returns (ok: bool)
      requires WellFormed(m.Value())
      modifies store`files
      ensures ok == WriteSucceeds(old(store.State()), MetadataPath(store.basePath, key))
      ensures store.State() == Save(old(store.State()), store.basePath, key, m.Value())
    {
      ok := store.WriteFile(MetadataPath(store.basePath, key), Encode(m.Value(), LAYOUT));
    }

    /** `_exists_internal`. */
    method ExistsInternal(key: string) returns (present: bool)
      ensures present == KeyExists(store.State(), store.basePath, key)
    {
      var mounted := store.IsMounted();
      if !mounted || !IsValidPath(key) {
        return false;
      }
      present := store.FileExists(GetFullPath(store.basePath, key));
    }

    /** `_archive_current_version`, updating the caller's record in place. */
    method ArchiveCurrentVersion(key: string, m: VersionMetadata) returns (ok: bool)
      requires ArchiveFits(store.State(), store.basePath, key, m.Value())
      modifies store`files, m`versionCount, m.versions
      ensures Archived(ok, m.Value(), store.State()) ==
              ArchiveOutcome(old(store.State()), store.basePath, key, old(m.Value()))
    {
      var currentPath := GetFullPath(store.basePath, key);
      var archivePath := VersionPath(store.basePath, key, m.currentVersion);
      var present := store.FileExists(currentPath);
      if !present {
        return false;
      }
      var size := store.FileSize(currentPath);
      var readOk, fileData := store.ReadFile(currentPath, size);
      if !readOk {
        return false;
      }
      var written := store.WriteFile(archivePath, fileData);
      if !written {
        return false;
      }
      ghost var d1 := store.State();
      ghost var m0 := m.Value();
      assert fileData == old(store.State()).files[currentPath] by {
        assert fileData == old(store.State()).files[currentPath][..size];
      }
      assert d1 == Copied(old(store.State()), store.basePath, key, m0);
      var versionExists := m.IsIndexed(m.currentVersion);
      if !versionExists && m.versionCount as int < MAX_HISTORY {
        m.Append(m.currentVersion);
      } else if !versionExists {
        var evicted := CleanupOldestVersion(store, key, m);
        assert m.Value() == CleanupOldest(d1, store.basePath, key, m0).meta;
        m.Append(m.currentVersion);
      }
      return true;
    }

    /** The versioning path of `write_file`, with `_get_timestamp()` given as `now`. */
    method WriteFile(key: string, data: seq<byte>, now: uint32) returns (ok: bool)
      requires WriteFits(store.State(), store.basePath, key)
      modifies store`files
      ensures Outcome(ok, store.State()) == WriteOutcome(old(store.State()), store.basePath, key, data, now)
    {
      var mounted := store.IsMounted();
      if !mounted || !IsValidPath(key) {
        return false;
      }
      var fullPath := GetFullPath(store.basePath, key);
      var loaded, m := LoadMetadata(key);
      var present := ExistsInternal(key);
      if present {
        var archived := ArchiveCurrentVersion(key, m);
      }
      ghost var a := ArchiveIfPresent(old(store.State()), store.basePath, key);
      assert m.Value() == a.meta && store.State() == a.disk;
      m.currentVersion := Increment(m.currentVersion);
      m.timestamp := now;
      m.fileSize := TruncateToUint32(|data|);
      var crc := CalculateCrc32(data);
      m.checksum := crc as int as uint32;
      assert m.Value() == Advanced(a.meta, data, now);
      var written := store.WriteFile(fullPath, data);
      if !written {
        return false;
      }
      var saved := SaveMetadata(key, m);
      return true;
    }

    /** `erase_file`. */
    method EraseFile(key: string) returns (ok: bool)
      modifies store`files
      ensures Outcome(ok, store.State()) == EraseOutcome(old(store.State()), store.basePath, key)
    {
      var mounted := store.IsMounted();
      if !mounted || !IsValidPath(key) {
        return false;
      }
      ok := store.DeleteFile(GetFullPath(store.basePath, key));
    }

    /** `restore_file_version`. */
    method RestoreFileVersion(key: string, version: uint32, now: uint32) returns (ok: bool)
      requires RestoreFits(store.State(), store.basePath, key, version)
      modifies store`files
      ensures Outcome(ok, store.State()) == RestoreOutcome(old(store.State()), store.basePath, key, version, now)
    {
      var mounted := store.IsMounted();
      if !mounted {
        return false;
      }
      var versionPath := VersionPath(store.basePath, key, version);
      var present := store.FileExists(versionPath);
      if !present {
        return false;
      }
      var size := store.FileSize(versionPath);
      var readOk, versionData := store.ReadFile(versionPath, size);
      if !readOk {
        return false;
      }
      ok := WriteFile(key, versionData, now);
    }

    /** `list_file_versions`: the push_back loop over the index, then the sort. */
    method ListFileVersions(key: string) returns (versions: seq<VersionInfo>)
      requires KeyExists(store.State(), store.basePath, key) ==> Sound(store.State(), store.basePath, key)
      ensures versions == VersionList(store.State(), store.basePath, key)
    {
      versions := [];
      var present := ExistsInternal(key);
      if !present {
        return;
      }
      var loaded, m := LoadMetadata(key);
      var current := VersionInfo(m.currentVersion, m.fileSize as nat, true);
      versions := versions + [current];
      var history := CollectHistory(key, m);
      versions := versions + history;
      versions := SortDescending(versions);
    }

    /** The loop of `list_file_versions` over `versions[0..version_count)`. */
    method CollectHistory(key: string, m: VersionMetadata) returns (entries: seq<VersionInfo>)
      requires InBounds(m.Value())
      ensures entries == HistoryEntries(store.State(), store.basePath, key, Indexed(m.Value()))
    {
      entries := [];
      ghost var idx := Indexed(m.Value());
      var count := m.versionCount as int;
      var i := 0;
      while i < count
        invariant 0 <= i <= count == |idx|
        invariant entries == HistoryEntries(store.State(), store.basePath, key, idx[..i])
      {
        var versionNum := m.versions[i];
        assert idx[i] == versionNum;
        HistoryStep(store.State(), store.basePath, key, idx, i);
        var entry := ListingEntry(key, versionNum);
        entries := entries + entry;
        i := i + 1;
      }
      assert idx[..i] == idx;
    }

    /** One pass of the listing loop: a non-zero version whose snapshot can be statted, with the snapshot's size. */
    method ListingEntry(key: string, versionNum: uint32) returns (entry: seq<VersionInfo>)
      ensures entry == EntryFor(store.State(), store.basePath, key, versionNum)
    {
      entry := [];
      if versionNum != 0 {
        var versionPath := VersionPath(store.basePath, key, versionNum);
        var statOk := store.FileExists(versionPath);
        if statOk {
          var versionSize := store.FileSize(versionPath);
          entry := [VersionInfo(versionNum, versionSize, false)];
        }
      }
    }

    /** `cleanup_old_versions`: evicts while the count exceeds the array, which for an in-bounds record never happens. */
    method CleanupOldVersions(key: string) returns (cleaned: uint32)
      requires store.State().mounted && key != [] ==> Sound(store.State(), store.basePath, key)
      ensures cleaned == 0
    {
      cleaned := 0;
      var mounted := store.IsMounted();
      if !mounted || key == [] {
        return;
      }
      var loaded, m := LoadMetadata(key);
      // `version_count > STORAGE_MAX_VERSION_HISTORY` is false from the start, so no eviction runs and nothing is saved.
      assert m.versionCount as int <= MAX_HISTORY;
    }
  }
}

# File versioning of the ESP32 storage driver

This project models the file-versioning engine of an ESP32 storage driver and proves properties of it in Dafny. The engine keeps a bounded history of snapshots for each key of a flat key→bytes store. Each key has three kinds of file:

- the key's own file, holding the current content;
- a `.meta` sidecar, holding the metadata record;
- one `.v<N>` snapshot per archived version.

The metadata record names the current version and the size and CRC-32 of the current content. It also holds a fixed array of `STORAGE_MAX_VERSION_HISTORY` (5) slots, whose first `version_count` entries index the snapshots still kept.

The repository ships the engine in two variants. Both are modelled over one abstract backend.

- **Variant A**, `file_versioning.cpp` (module `FileVersioning`). This is a callback engine. It reaches storage only through seven callbacks: full path, read, write, delete, size, exists and mounted. Its write hook `on_before_write` is called before a write.
- **Variant B**, the versioning inlined into `storage_esp.cpp` (module `StorageEsp`). `write_file` threads one metadata object through the archive step, the version increment and the save.

Shared modules:

- `Types`: 32-bit counters and their wrap-around.
- `Backend`: the backend. A `Disk` value is a mount flag, a map from path to bytes, and a set of faulty paths whose reads, writes and deletes fail. A `Store` class is updated in place through methods mirroring the callbacks.
- `Metadata`: the record. `Meta` is its value. The `VersionMetadata` class holds the record with its `versions` array, updated in place. The module also defines the index invariant and the record's byte layout in the sidecar.
- `Eviction`: `cleanup_oldest_version`, which both variants share.
- `Crc`: the reflected CRC-32 of IEEE 802.3, section 3.2.9.
- `Paths`: the path validator, `get_full_path` and the `.v<N>`/`.meta` path builders.
- `Listing`: the listing entry and its descending sort.

Every operation is given twice:

- as a function from the old disk (and record) to its outcome, in which the properties are stated and proved;
- as a method of the engine's class, which performs the operation step by step on the `Store` (and on a `VersionMetadata` object) and is proved to produce that outcome.

Two modules go beyond single operations, for variant B:

- `Tracking` defines what can be observed of one key, and what a run of writes to a fresh key should leave there.
- `Retention` proves the FIFO retention policy. After n writes to a fresh key on a clean volume, version n is current. The index then holds exactly the min(n-1, 5) versions just below n, oldest first. Every indexed snapshot, and the key itself, reads back the data of its write.

Variant A's two defects are modelled as written, and their consequences are proved as lemmas:

- **Stale write hook.** `on_before_write` saves a record it loaded before archiving. This discards the archive's index update, so the version just archived is forgotten.
- **Capacity branch.** At capacity, the archive evicts and then overwrites `versions[count-1]` without incrementing the count. This drops the newest retained version.

Variant B has one defect. After a failed eviction at capacity, it writes one slot past the end of `versions`. This is the explicit precondition `ArchiveFits` on B's archive, and through `WriteFits` and `RestoreFits` on its write and restore.

## Model

| member | source | states |
|---|---|---|
| Types.Increment | storage_esp.cpp:169 | `current_version++` on a `uint32_t`: one more below UINT32_MAX, and wraps to 0 at UINT32_MAX |
| Types.TruncateToUint32 | storage_esp.cpp:171 | storing the `size_t` size into the 32-bit `file_size` keeps the size whenever it fits in 32 bits |
| Backend.Size | file_versioning.h:39 | `get_file_size`: 0 for a missing file, the file's length otherwise |
| Backend.Read | file_versioning.h:36 | `read_file` succeeds exactly on a mounted volume, for an existing, non-faulty file of at least `len` bytes; it yields that file's first `len` bytes |
| Backend.Write | file_versioning.h:37 | `write_file` leaves the mount state and the faulty paths unchanged |
| Backend.Delete | file_versioning.h:38 | `delete_file` leaves the mount state and the faulty paths unchanged |
| Backend.ReadAfterWrite | file_versioning.h:36-41 | after a successful write, the path reads back exactly the written bytes and has their size; every other path keeps its reads, its size and its existence |
| Backend.ReadWhole | file_versioning.h:36 | an existing, non-faulty file on a mounted volume reads back whole |
| Backend.WriteFrame | file_versioning.h:37 | a write changes no file but its own |
| Backend.DeleteEffect | file_versioning.h:38 | a delete removes exactly its own path when it succeeds and changes nothing when it fails; other paths keep their reads and sizes |
| Backend.Store.constructor | file_versioning.h:34-42 | the store starts in the given state |
| Backend.Store.IsMounted | file_versioning.h:41 | `is_mounted` reports the mount flag |
| Backend.Store.FileExists | file_versioning.h:40 | `file_exists` reports whether the volume is mounted and the path is present |
| Backend.Store.FileSize | file_versioning.h:39 | `get_file_size` reports Backend.Size |
| Backend.Store.ReadFile | file_versioning.h:36 | `read_file` succeeds exactly when Backend.Read does, and then returns its bytes |
| Backend.Store.WriteFile | file_versioning.h:37 | `write_file` reports whether the write succeeds and leaves the store in the state Backend.Write gives |
| Backend.Store.DeleteFile | file_versioning.h:38 | `delete_file` reports whether the delete succeeds and leaves the store in the state Backend.Delete gives |
| Crc.Checksum | file_versioning.cpp:367-386 | the checksum stored in the record is the CRC-32 of the data, as a 32-bit value |
| Crc.CalculateCrc32 | file_versioning.cpp:367-386 | the nested bit loop (XOR each byte in, shift eight times, XOR the polynomial 0xEDB88320 in when the low bit is set, final XOR 0xFFFFFFFF) computes Crc.Crc32: the same bit-serial algorithm written as a recursion over the bytes, which Crc.Crc32OfEmpty and Crc.Crc32CheckValue pin to the IEEE 802.3 CRC-32 |
| Crc.Crc32OfEmpty | file_versioning.cpp:367-386 | the CRC-32 of empty input is 0 |
| Crc.Crc32CheckValue | file_versioning.cpp:367-386 | the CRC-32 of ASCII "123456789" is 0xCBF43926, the IEEE 802.3 check value |
| Crc.ShiftEight | file_versioning.cpp:377-383 | the eight inner iterations, unrolled |
| Crc.RegisterSnoc | file_versioning.cpp:373-384 | the register after one more byte is one more byte update of the register |
| Eviction.CleanupOldest | file_versioning.cpp:388-423 | `cleanup_oldest_version` keeps the count within the array; on success the count drops by exactly one, and otherwise by at most one |
| Eviction.CleanupOldestFailure | file_versioning.cpp:388-423 | it fails exactly when the count is 0 or the delete of the oldest snapshot fails, and then changes neither the record nor the disk |
| Eviction.CleanupOldestSuccess | file_versioning.cpp:395-419 | on success it deletes the snapshot of the minimum indexed version, which existed, and nothing else. The index becomes the old index without that slot, in order, so it holds exactly the other versions. The old last slot becomes 0, the count drops by one, and the index invariant is kept |
| Eviction.CleanupOldestFrame | storage_esp.cpp:917-950 | the eviction changes no file other than the oldest snapshot |
| Eviction.CleanupOldestVersion | storage_esp.cpp:917-950 | the in-place scan, delete and shift over the `versions` array produces exactly the outcome of Eviction.CleanupOldest |
| Listing.Insert | file_versioning.cpp:112-115 | inserting into a descending list keeps it descending, with the same elements plus the new one |
| Listing.SortDescending | file_versioning.cpp:112-115 | `std::sort` by version, greater first: the result is descending by version and a permutation of the input |
| Listing.PrependNewest | file_versioning.cpp:88-110 | the current entry ahead of older, distinct entries gives a list with distinct versions in which the current is the newest |
| Listing.OccursOnce | file_versioning.cpp:88-110 | in a list with distinct versions every entry occurs at most once |
| Listing.DistinctVersionsPermutation | file_versioning.cpp:112-115 | sorting keeps the versions distinct |
| Listing.SortedWithNewestFirst | file_versioning.cpp:112-115 | sorting a list of distinct versions whose newest is the current entry puts that entry first, with strictly decreasing versions after it |
| Listing.SortedDistinctIsStrict | file_versioning.cpp:112-115 | a descending list with distinct versions is strictly descending |
| Metadata.Indexed | file_versioning.h:97-98 | the slots in use are the first `version_count` slots |
| Metadata.Default | file_versioning.h:100-104 | the default record: every field and all five slots 0; Metadata.DefaultSatisfiesInvariant proves it satisfies the index invariant |
| Metadata.IndexInvariant | file_versioning.h:93-106 | what the record's fields mean together: the slots in use are non-zero, distinct and older than the current version, and the unused slots are 0; kept by Metadata.EvictOldestKeepsInvariant, Metadata.AppendCurrentKeepsInvariant and StorageEsp.WriteKeepsInvariant |
| Metadata.DefaultSatisfiesInvariant | file_versioning.h:100-104 | the default record has current version, file size, checksum and count 0 and all five slots 0, and it satisfies the index invariant |
| Metadata.ScanFromFindsMinimum | file_versioning.cpp:395-404 | the scan for the oldest slot, over non-zero entries, ends on a slot holding the minimum |
| Metadata.OldestSlot | file_versioning.cpp:395-404 | the slot the scan settles on is in use |
| Metadata.OldestSlotIsMinimum | file_versioning.cpp:395-404 | when the slots in use are non-zero, the oldest slot holds the minimum of them |
| Metadata.Without | file_versioning.cpp:414-416 | shifting left over slot k keeps the slots before k and moves each later slot one down |
| Metadata.RemoveSlot | file_versioning.cpp:414-418 | removing a slot keeps the count within the array |
| Metadata.RemoveSlotEffect | file_versioning.cpp:414-418 | removing slot k leaves the index without that slot, the old last slot 0, the count one less, the unused slots and every other field unchanged |
| Metadata.RemoveSlotSlots | file_versioning.cpp:414-418 | the same effect, slot by slot |
| Metadata.WithoutMembers | file_versioning.cpp:414-416 | over distinct entries, the shifted index holds exactly the other entries, still distinct |
| Metadata.RemoveSlotDistinct | file_versioning.cpp:414-418 | removing a slot keeps the slots in use distinct |
| Metadata.EvictOldestSlots | file_versioning.cpp:395-419 | removing the oldest slot keeps the index invariant, and every version left is newer than the one removed |
| Metadata.EvictOldestKeepsInvariant | file_versioning.cpp:395-419 | the oldest slot holds the minimum, and removing it keeps the invariant and leaves exactly the other versions, all newer than the one removed |
| Metadata.Appended | storage_esp.cpp:903-905 | appending at `versions[count]` adds the version at the end of the index and leaves the unused slots beyond it unchanged |
| Metadata.AppendCurrentKeepsInvariant | storage_esp.cpp:903-905 | appending a current version that is new and non-zero, then incrementing the counter, keeps the index invariant |
| Metadata.ToByte | file_versioning.h:93-106 | a value below 256 is held exactly by one byte |
| Metadata.WordRoundTrip | file_versioning.h:94-98 | a 32-bit field written as four bytes, least significant first, reads back unchanged |
| Metadata.WordsRoundTrip | file_versioning.h:94-98 | a run of 32-bit fields reads back unchanged |
| Metadata.Encode | file_versioning.cpp:356-365 | the sidecar holds exactly `sizeof(file_version_metadata)` bytes |
| Metadata.Decode | file_versioning.cpp:337-354 | any `sizeof` bytes read back give a record with its five slots |
| Metadata.DecodeEncode | file_versioning.cpp:337-365 | a saved record reads back as the same record, in both layouts |
| Metadata.VersionMetadata.constructor | file_versioning.h:100-104 | the default constructor zero-fills every field and all five slots |
| Metadata.VersionMetadata.Assign | file_versioning.cpp:346-351 | copying a record into the object gives the object that record's value |
| Metadata.VersionMetadata.IsIndexed | file_versioning.cpp:222-228 | the linear search finds the version exactly when it is among the slots in use |
| Metadata.VersionMetadata.Append | storage_esp.cpp:903-905 | appending in place gives the record Metadata.Appended describes |
| Metadata.VersionMetadata.FindOldest | file_versioning.cpp:395-404 | the min-scan loop finds the oldest slot and its version |
| Metadata.VersionMetadata.RemoveAt | file_versioning.cpp:414-418 | the shift loop, zeroing of the tail slot and the decrement give the record Metadata.RemoveSlot describes |
| Paths.Find | storage_esp.cpp:497-502 | `std::string::find` returns the first occurrence of the pattern, or none when it occurs nowhere |
| Paths.OccursOneOrTwo | storage_esp.cpp:497-502 | an occurrence of `'\0'` or `".."` is one character, or two adjacent characters, equal to the pattern |
| Paths.IsValidPath | storage_esp.cpp:489-512 | `_is_valid_path` accepts a key exactly when it is non-empty, contains no `'\0'`, no `".."` and is at most 255 characters long |
| Paths.Directory | storage_esp.cpp:398-403 | the base path gets one `/` appended exactly when it does not end in `/` |
| Paths.GetFullPath | storage_esp.cpp:396-413 | the full path is that directory followed by the key with at most one leading `/` removed |
| Paths.StripLeadingSlash | storage_esp.cpp:405-409 | drops one leading `/` of the key; Paths.FullPathIgnoresLeadingSlash and Paths.FullPathInjective characterise its effect |
| Paths.FullPathIgnoresLeadingSlash | storage_esp.cpp:405-409 | a key with and without one leading `/` has the same full path |
| Paths.FullPathInjective | storage_esp.cpp:396-413 | keys without a leading `/` with the same full path are the same key |
| Paths.Decimal | storage_esp.cpp:785 | the decimal form of a number is a non-empty string of digits |
| Paths.ParseDecimalOfDecimal | storage_esp.cpp:785 | the decimal form of a number reads back as that number |
| Paths.DecimalInjective | storage_esp.cpp:785 | distinct numbers have distinct decimal forms |
| Paths.SignedDecimal | storage_esp.cpp:785 | `%d` of a `uint32_t` prints it as a signed 32-bit integer, never as an empty string |
| Paths.SignedDecimalSign | storage_esp.cpp:785 | `%d` begins with a digit below 2^31 and with `-` from 2^31 up |
| Paths.SignedDecimalInjective | storage_esp.cpp:785 | distinct versions print differently under `%d`, including above INT_MAX |
| Paths.VersionSuffix | storage_esp.cpp:782-787 | the snapshot suffix starts with `.v` |
| Paths.VersionPath | storage_esp.cpp:782-787 | `get_version_path`: the full path plus `.v` and `%d` of the version; Paths.VersionPathInjective and Paths.SidecarPathsDistinct characterise it |
| Paths.MetadataPath | storage_esp.cpp:777-780 | `get_metadata_path`: the full path plus `.meta`; Paths.SidecarPathsDistinct keeps it apart from every snapshot and the key |
| Paths.VersionPathInjective | storage_esp.cpp:782-787 | two versions of one key have the same snapshot path exactly when they are the same version |
| Paths.SidecarPathsDistinct | storage_esp.cpp:777-787 | the snapshot paths, the `.meta` path and the key's full path, and the key itself, never coincide |
| Paths.SnapshotIsAnotherKeysFile | storage_esp.cpp:782-787 | the snapshot of version v of a key is where the key `key + ".v<v>"` is stored |
| FileVersioning.Load | file_versioning.cpp:337-354 | `load_metadata` yields a record with five slots and no timestamp |
| FileVersioning.LoadAfterSave | file_versioning.cpp:337-365 | after a successful `save_metadata`, `load_metadata` returns the record saved |
| FileVersioning.LoadFallsBackToDefault | file_versioning.cpp:341-351 | a missing, wrongly sized or unreadable sidecar loads as the default record, which keeps the index invariant |
| FileVersioning.LoadIgnoresOtherFiles | file_versioning.cpp:337-354 | the loaded record depends only on the sidecar and the volume state |
| FileVersioning.Save | file_versioning.cpp:356-365 | `save_metadata`: the sidecar replaced by the encoded record; FileVersioning.LoadAfterSave reads it back |
| FileVersioning.ArchiveReachesIndex | file_versioning.cpp:194-219 | the archive passes every early return: the key exists, is non-empty and readable, and the snapshot is written |
| FileVersioning.ArchiveFits | file_versioning.cpp:221-239 | the loaded count fits the array whenever the archive goes on to search and update the index |
| FileVersioning.Reindex | file_versioning.cpp:233-238 | the capacity branch keeps five slots and the timestamp |
| FileVersioning.ReindexedFrame | file_versioning.cpp:233-239 | the index update changes no file except the sidecar and the evicted snapshot |
| FileVersioning.ArchiveOutcome | file_versioning.cpp:190-246 | `archive_current_version` on a disk; FileVersioning.ArchiveResult, FileVersioning.ArchiveIndexUpdate, FileVersioning.ArchiveKeepsKey and FileVersioning.ArchiveKeepsVolume characterise it |
| FileVersioning.ArchiveResult | file_versioning.cpp:190-246 | `archive_current_version` succeeds exactly when the volume is mounted, the key exists and is non-empty, it can be read and the snapshot written. On failure nothing changes, and no record is saved. On success the snapshot of the current version holds the key's content |
| FileVersioning.ArchiveIndexUpdate | file_versioning.cpp:221-240 | on success, with a writable sidecar: a version already indexed leaves the record as it was; with room left the version is appended; at capacity the record is the capacity branch's |
| FileVersioning.ReindexAtCapacityLosesNewest | file_versioning.cpp:233-238 | at capacity the capacity branch indexes the current version, but the newest version indexed before is gone, whether or not the eviction succeeded, and the count only drops |
| FileVersioning.OverwriteLastSlot | file_versioning.cpp:237 | overwriting the last slot in use replaces the newest indexed version, which was in no other slot |
| FileVersioning.EvictedThenOverwrittenLosesNewest | file_versioning.cpp:236-237 | a successful eviction followed by the overwrite leaves four slots in use: the current version is indexed and the old newest version is not |
| FileVersioning.ArchiveKeepsKey | file_versioning.cpp:190-246 | archiving does not change the key's own file |
| FileVersioning.ArchiveIfPresent | file_versioning.cpp:311-313 | the archive step of the write hook leaves the volume state unchanged |
| FileVersioning.WriteHookOutcome | file_versioning.cpp:298-323 | `on_before_write` on a disk; FileVersioning.WriteHookSavesStaleIndex, FileVersioning.WriteHookForgetsArchivedVersion and FileVersioning.WriteHookAdvancesVersion characterise it |
| FileVersioning.WriteHookSavesStaleIndex | file_versioning.cpp:298-323 | `on_before_write` always returns true and writes nothing when unmounted. Otherwise, with a writable sidecar, the record saved has the loaded version plus one and the new size and CRC-32, and its count and slots are those loaded before archiving |
| FileVersioning.WriteHookForgetsArchivedVersion | file_versioning.cpp:307-320 | when the archive appended the current version, the record the hook leaves no longer indexes it |
| FileVersioning.WriteHookAdvancesVersion | file_versioning.cpp:298-323 | after the hook the key's version is the old one plus one, wrapping, and `file_has_changed` against the old version holds when it did not wrap |
| FileVersioning.GetFileVersion | file_versioning.cpp:36-50 | `get_file_version` returns 0 when unmounted or the key is absent |
| FileVersioning.FileHasChanged | file_versioning.cpp:248-262 | `file_has_changed` holds exactly when the key exists and its current version exceeds the last known one, and never when unmounted |
| FileVersioning.GetFileVersionInfo | file_versioning.cpp:52-70 | `get_file_version_info` succeeds exactly when the key exists, giving a current entry with the current version |
| FileVersioning.EntryFor | file_versioning.cpp:97-109 | one slot contributes at most one listing entry |
| FileVersioning.HistoryEntries | file_versioning.cpp:96-110 | the history loop yields at most one entry per slot |
| FileVersioning.HistoryStep | file_versioning.cpp:96-110 | one more iteration appends that slot's entry |
| FileVersioning.HistoryEntriesMembers | file_versioning.cpp:96-110 | the history entries are exactly the non-current entries of non-zero listed versions whose snapshot size is positive, with that size |
| FileVersioning.HistoryFromIndex | file_versioning.cpp:96-110 | every history entry is a listed, non-current version |
| FileVersioning.HistoryDistinct | file_versioning.cpp:96-110 | distinct slots give entries with distinct versions |
| FileVersioning.VersionList | file_versioning.cpp:72-118 | `list_file_versions` on a disk; FileVersioning.VersionListContents and FileVersioning.VersionListNewestFirst characterise it |
| FileVersioning.VersionListContents | file_versioning.cpp:72-118 | `list_file_versions` is empty when the key is absent. Otherwise it is sorted descending and has at most six entries. It has exactly one current entry, with the record's version and size, and its other entries are exactly the indexed non-zero versions whose snapshot size is positive |
| FileVersioning.VersionListNewestFirst | file_versioning.cpp:72-118 | under the index invariant the current entry comes first and versions strictly decrease |
| FileVersioning.HistoryBelowCurrent | file_versioning.cpp:88-110 | with distinct slots below the current version, the list before sorting has distinct versions and the current is the newest |
| FileVersioning.ReadFileVersion | file_versioning.cpp:122-151 | `read_file_version` fails when unmounted, reads the key itself for version 0 and the `.v<N>` path otherwise, with no check that N is indexed |
| FileVersioning.ArchiveThenReadVersion | file_versioning.cpp:122-151 | after a successful archive of a non-zero version, reading that version gives the archived content |
| FileVersioning.ArchiveKeepsVolume | file_versioning.cpp:190-246 | archiving leaves the mount state and the faulty paths unchanged |
| FileVersioning.RestoreOutcome | file_versioning.cpp:153-186 | `restore_file_version` on a disk; FileVersioning.RestoreResult characterises it |
| FileVersioning.RestoreResult | file_versioning.cpp:153-186 | `restore_file_version` fails, changing nothing, when unmounted or when the snapshot is empty, missing or unreadable. Otherwise it succeeds exactly when the key can be written, and then the key holds exactly the snapshot's bytes |
| FileVersioning.FileVersioning.constructor | file_versioning.cpp:8-24 | the engine keeps the callbacks it is given |
| FileVersioning.FileVersioning.LoadMetadata | file_versioning.cpp:337-354 | loading always returns true and a fresh object holding FileVersioning.Load's record |
| FileVersioning.FileVersioning.SaveMetadata | file_versioning.cpp:356-365 | saving reports whether the sidecar write succeeds and leaves the disk FileVersioning.Save gives |
| FileVersioning.FileVersioning.ArchiveCurrentVersion | file_versioning.cpp:190-246 | the method's result and new store are those of the archive outcome described by FileVersioning.ArchiveResult and FileVersioning.ArchiveIndexUpdate |
| FileVersioning.FileVersioning.IndexVersion | file_versioning.cpp:233-238 | the in-place capacity branch (evict, then overwrite `versions[count-1]`) gives the record and disk of FileVersioning.Reindex |
| FileVersioning.FileVersioning.ArchiveExisting | file_versioning.cpp:311-313 | archiving when the key exists gives the disk FileVersioning.ArchiveIfPresent describes |
| FileVersioning.FileVersioning.OnBeforeWrite | file_versioning.cpp:298-323 | the hook's result and new store are those described by FileVersioning.WriteHookSavesStaleIndex |
| FileVersioning.FileVersioning.RestoreFileVersion | file_versioning.cpp:153-186 | the method's result and new store are those described by FileVersioning.RestoreResult |
| FileVersioning.FileVersioning.ListFileVersions | file_versioning.cpp:72-118 | the push-back loop and sort return the list described by FileVersioning.VersionListContents |
| FileVersioning.FileVersioning.CollectHistory | file_versioning.cpp:96-110 | the loop over the slots in use returns their history entries |
| FileVersioning.FileVersioning.ListingEntry | file_versioning.cpp:97-109 | one iteration's entry, skipping version 0 and empty snapshots |
| FileVersioning.FileVersioning.CleanupOldVersions | file_versioning.cpp:264-296 | `cleanup_old_versions` removes nothing: the loaded count never exceeds the array, so the loop does not run |
| StorageEsp.Load | storage_esp.cpp:789-810 | `_load_metadata` yields a record with its five slots |
| StorageEsp.LoadAfterSave | storage_esp.cpp:789-826 | after a successful `_save_metadata`, `_load_metadata` returns the saved record, timestamp included |
| StorageEsp.LoadFallsBackToDefault | storage_esp.cpp:794-806 | a missing, short or unreadable sidecar loads as the default record, which keeps the index invariant |
| StorageEsp.LoadIgnoresOtherFiles | storage_esp.cpp:789-810 | the loaded record depends only on the sidecar and the volume state |
| StorageEsp.Save | storage_esp.cpp:812-826 | `_save_metadata`: the sidecar replaced by the encoded record, timestamp included; StorageEsp.LoadAfterSave reads it back |
| StorageEsp.KeyExists | storage_esp.cpp:259-278 | `_exists_internal`: mounted, a valid key and its full path present; StorageEsp.StorageEsp.ExistsInternal computes it |
| StorageEsp.ArchiveFits | storage_esp.cpp:894-911 | the record is in bounds and, at capacity with a new version, the eviction succeeds, whenever the archive copies; Retention.ArchiveFitsOnTracked proves it after every run of writes |
| StorageEsp.ArchiveOutcome | storage_esp.cpp:856-915 | `_archive_current_version` changes neither the record nor the disk when it fails, keeps the volume state, and keeps the count within the array when it succeeds |
| StorageEsp.ArchiveResult | storage_esp.cpp:856-892 | the archive succeeds exactly when the key's file exists and can be read and the snapshot written. On success the snapshot of the current version holds the key's content. The key's file and the stored record are unchanged, and so are the version, timestamp, size and checksum of the in-memory record |
| StorageEsp.ArchiveDisk | storage_esp.cpp:878-911 | when the copy succeeds, the disk afterwards is the copy, with the oldest snapshot also removed when a new version meets a full index |
| StorageEsp.ArchiveIndexUpdate | storage_esp.cpp:894-911 | on success: an indexed version leaves the record as it was; otherwise the new version is indexed, appended with room left, and at capacity appended after the oldest is evicted, so the count stays at five |
| StorageEsp.ArchiveThenAdvanceKeepsInvariant | storage_esp.cpp:149-172 | archiving into a record with the index invariant and then advancing it keeps the invariant |
| StorageEsp.Advanced | storage_esp.cpp:168-172 | advancing the record for the new data leaves the count and the slots as they were |
| StorageEsp.ArchiveIfPresent | storage_esp.cpp:156-165 | the archive step of `write_file` keeps the volume state and leaves a record with its five slots |
| StorageEsp.WriteOutcome | storage_esp.cpp:122-202 | `write_file` on a disk; StorageEsp.WriteResult, StorageEsp.WriteSavesArchivedRecord, StorageEsp.WriteKeepsInvariant, StorageEsp.WriteChangesOnly and StorageEsp.WriteKeepsSnapshot characterise it |
| StorageEsp.WriteResult | storage_esp.cpp:122-202 | `write_file` succeeds exactly when mounted, the key is valid and its file can be written, whatever the archive's result. It changes nothing when unmounted or invalid, saves no record when it fails, and on success the key holds the data |
| StorageEsp.WriteSavesArchivedRecord | storage_esp.cpp:149-198 | after a successful write, with a writable sidecar, the saved record is the archived record advanced. It has the old version plus one, the new timestamp, the new size and CRC-32. It has the loaded index when the archive failed, and indexes the old version when it succeeded |
| StorageEsp.WriteKeepsInvariant | storage_esp.cpp:149-198 | a successful write keeps the index invariant of the stored record |
| StorageEsp.WriteChangesOnly | storage_esp.cpp:122-202 | `write_file` changes no file but the key's file, its record, the snapshot of its current version and, when it evicts, the oldest snapshot |
| StorageEsp.WriteKeepsSnapshot | storage_esp.cpp:122-202 | every other snapshot of the key survives a write |
| StorageEsp.WriteKeepsReplacedContent | storage_esp.cpp:856-892 | after a successful write of an existing key whose archive copies, the snapshot of the old version holds the replaced content |
| StorageEsp.EraseOutcome | storage_esp.cpp:204-231 | `erase_file` on a disk; StorageEsp.EraseLeavesSidecars characterises it |
| StorageEsp.EraseLeavesSidecars | storage_esp.cpp:204-231 | `erase_file` succeeds exactly when the key exists and can be deleted. It removes only the key's file, leaves the record and every snapshot in place, and changes nothing when it fails |
| StorageEsp.GetFileVersion | storage_esp.cpp:555-569 | `get_file_version` returns 0 when unmounted or the key is absent or has no readable record |
| StorageEsp.FileHasChanged | storage_esp.cpp:677-691 | `file_has_changed` holds exactly when the key exists and its current version exceeds the last known one, and never when unmounted |
| StorageEsp.GetFileVersionInfo | storage_esp.cpp:571-590 | `get_file_version_info` succeeds exactly when the key exists, giving a current entry with the current version |
| StorageEsp.WriteAdvancesVersion | storage_esp.cpp:149-198 | after a successful write, with a writable sidecar, the key exists and its version is the old one plus one, wrapping; `file_has_changed` against the old version holds when it did not wrap |
| StorageEsp.EntryFor | storage_esp.cpp:614-628 | one slot contributes at most one listing entry |
| StorageEsp.HistoryEntries | storage_esp.cpp:613-629 | the history loop yields at most one entry per slot |
| StorageEsp.HistoryStep | storage_esp.cpp:613-629 | one more iteration appends that slot's entry |
| StorageEsp.HistoryEntriesMembers | storage_esp.cpp:613-629 | the history entries are exactly the non-current entries of non-zero listed versions whose snapshot exists, however small, with its size |
| StorageEsp.HistoryFromIndex | storage_esp.cpp:613-629 | every history entry is a listed, non-current version |
| StorageEsp.HistoryDistinct | storage_esp.cpp:613-629 | distinct slots give entries with distinct versions |
| StorageEsp.HistoryBelowCurrent | storage_esp.cpp:605-629 | with distinct slots below the current version, the list before sorting has distinct versions and the current is the newest |
| StorageEsp.VersionList | storage_esp.cpp:592-638 | `list_file_versions` on a disk; StorageEsp.VersionListContents and StorageEsp.VersionListNewestFirst characterise it |
| StorageEsp.VersionListContents | storage_esp.cpp:592-638 | `list_file_versions` is empty when the key is absent. Otherwise it is sorted descending and has at most six entries. It has exactly one current entry, with the record's version and size, and its other entries are exactly the indexed non-zero versions whose snapshot exists |
| StorageEsp.VersionListNewestFirst | storage_esp.cpp:592-638 | for an existing key whose record keeps the index invariant, the current entry comes first and the versions strictly decrease |
| StorageEsp.ReadFileVersion | storage_esp.cpp:640-675 | `read_file_version` fails when unmounted, reads the key's full path for version 0 and the `.v<N>` path otherwise |
| StorageEsp.RestoreResult | storage_esp.cpp:693-735 | `restore_file_version` fails, changing nothing, when unmounted or the snapshot is missing or unreadable. Otherwise it is exactly a `write_file` of the snapshot's bytes, even empty ones, which archives the current content and creates a new version; on success the key holds the snapshot's bytes |
| StorageEsp.RestoreOutcome | storage_esp.cpp:693-735 | `restore_file_version` on a disk; StorageEsp.RestoreResult characterises it |
| StorageEsp.StorageEsp.constructor | storage_esp.cpp:16-34 | the driver keeps the volume it is given |
| StorageEsp.StorageEsp.LoadMetadata | storage_esp.cpp:789-810 | loading always returns true and a fresh object holding StorageEsp.Load's record |
| StorageEsp.StorageEsp.SaveMetadata | storage_esp.cpp:812-826 | saving reports whether the sidecar write succeeds and leaves the disk StorageEsp.Save gives |
| StorageEsp.StorageEsp.ExistsInternal | storage_esp.cpp:259-278 | `_exists_internal` holds exactly when mounted, the key is valid and its full path exists |
| StorageEsp.StorageEsp.ArchiveCurrentVersion | storage_esp.cpp:856-915 | the copy, the linear search and the in-place append or evict-and-append on the caller's record give the result, record and disk of StorageEsp.ArchiveOutcome |
| StorageEsp.StorageEsp.WriteFile | storage_esp.cpp:122-202 | one metadata object is threaded through archive, increment and save; the result and new store are StorageEsp.WriteOutcome's |
| StorageEsp.StorageEsp.EraseFile | storage_esp.cpp:204-231 | the result and new store are those described by StorageEsp.EraseLeavesSidecars |
| StorageEsp.StorageEsp.RestoreFileVersion | storage_esp.cpp:693-735 | the result and new store are those described by StorageEsp.RestoreResult |
| StorageEsp.StorageEsp.ListFileVersions | storage_esp.cpp:592-638 | the push-back loop and sort return the list described by StorageEsp.VersionListContents |
| StorageEsp.StorageEsp.CollectHistory | storage_esp.cpp:613-629 | the loop over the slots in use returns their history entries |
| StorageEsp.StorageEsp.ListingEntry | storage_esp.cpp:614-628 | one iteration's entry, skipping version 0 and missing snapshots |
| StorageEsp.StorageEsp.CleanupOldVersions | storage_esp.cpp:737-773 | `cleanup_old_versions` removes nothing: the loaded count never exceeds the array, so the loop does not run |
| Tracking.Range | storage_esp.cpp:894-911 | consecutive versions, oldest first |
| Tracking.Window | storage_esp.cpp:894-911 | the versions kept once version k is current: the min(k-1, 5) versions just below k |
| Tracking.InWindow | storage_esp.cpp:894-911 | a version is in the window of k exactly when it lies between the oldest kept version and k |
| Tracking.Lookup | storage_esp.cpp:640-675 | a path's content is present exactly when the file is |
| Tracking.Snapshots | storage_esp.cpp:782-787 | the content of the snapshot of each indexed version, in index order |
| Tracking.TrackedFacts | storage_esp.cpp:122-202 | a key that shows what a run of writes leaves behind has a valid key on a clean volume and a record with the index invariant; the record names the last version as current and indexes exactly its window; the key's file holds the last data, and each kept snapshot the data of its write |
| Tracking.SnapshotsElim | storage_esp.cpp:782-787 | the expected snapshot view means every kept snapshot holds the data of its write |
| Tracking.SnapshotsIntro | storage_esp.cpp:782-787 | every kept snapshot holding the data of its write gives the expected snapshot view |
| Tracking.TrackedIntro | storage_esp.cpp:122-202 | the converse of Tracking.TrackedFacts |
| Tracking.FreshIsTracked | storage_esp.cpp:789-810 | a key with neither file nor record shows an empty history |
| Retention.WindowStep | storage_esp.cpp:894-911 | the next window adds the current version, and drops the oldest once the window holds five |
| Retention.OldestOfTracked | storage_esp.cpp:924-932 | with a full index after a run of writes, the oldest slot is the first and holds the oldest kept version |
| Retention.SnapshotPathsApart | storage_esp.cpp:777-787 | distinct versions' snapshots, the key's file and the record are at distinct paths |
| Retention.WriteStep | storage_esp.cpp:122-202 | each write to a tracked key succeeds and leaves the key tracked with the data appended to the history |
| Retention.FirstWrite | storage_esp.cpp:149-198 | the first write to a fresh key stores version 1 with an empty index |
| Retention.NextWrite | storage_esp.cpp:149-198 | a later write to a tracked key keeps it tracked |
| Retention.NextRecord | storage_esp.cpp:149-198 | after a later write the record names the next version and indexes exactly its window, and the key holds the new data |
| Retention.NextFiles | storage_esp.cpp:856-950 | after a later write every snapshot of the next window holds the data of its write |
| Retention.WindowOfNext | storage_esp.cpp:894-911 | the kept snapshots plus the new one cover the next window |
| Retention.SnapshotsKept | storage_esp.cpp:917-950 | a later write keeps every snapshot of the window except the evicted oldest one |
| Retention.SnapshotArchived | storage_esp.cpp:856-892 | a later write archives the replaced content as the snapshot of the previous version |
| Retention.ArchiveFitsOnTracked | storage_esp.cpp:903-911 | on a tracked key the archive copies and stays in bounds |
| Retention.EvictionOnTracked | storage_esp.cpp:906-910 | on a tracked key with a full index the eviction succeeds, so the out-of-bounds write cannot happen |
| Retention.TrackedIndex | storage_esp.cpp:894-911 | after a later write the stored index is exactly the next window |
| Retention.SnapshotKept | storage_esp.cpp:917-950 | one snapshot of the window that is not evicted survives a later write |
| Retention.WriteAll | storage_esp.cpp:122-202 | a run of writes to a tracked key keeps it tracked, with the history extended by the data written |
| Retention.WriteFresh | storage_esp.cpp:122-202 | a run of writes to a fresh key leaves it tracked with that history |
| Retention.TrackedRecord | storage_esp.cpp:894-911 | after n > 0 writes the record names version n and holds min(n-1, 5) slots with the consecutive versions just below n, oldest first |
| Retention.TrackedReads | storage_esp.cpp:640-675 | after n > 0 writes, version 0 reads back the last data and each indexed version the data of its write |
| Retention.WindowReads | storage_esp.cpp:640-675 | every version of the window reads back the data of its write |
| Retention.FifoRetention | storage_esp.cpp:894-950 | after n writes to a fresh key on a clean volume: `current_version == n`, the index holds exactly the min(n-1, 5) most recent versions below n, oldest first, and the key and each indexed snapshot read back the data of their writes |

## Left out

- Mounting and the ESP-IDF driver calls (`begin`, `_init_littlefs`, `_init_spiffs`, `_deinit_filesystem`, `total_size`, `used_size`, `format`): they are foreign calls; the volume is the `mounted` flag of the backend.
- `fopen`/`fread`/`fwrite`/`stat`/`unlink` plumbing and `_ensure_directory_exists`: the backend map replaces them. Directories are not modelled. `S_ISREG` is modelled as presence in the map. A write or delete either succeeds whole or changes nothing, so partial writes are not modelled.
- Mutexes, `mutex_guard`, the semaphore timeout and the re-entrant lock taken by restore: concurrency is out of scope.
- `_get_timestamp`: the wall-clock time is a parameter `now` of variant B's write and restore.
- The `timestamp` fields of `file_version_info`, including `st_mtime` in variant B's listing: the modelled listing entry has version, size and current flag only.
- The record read from the sidecar is modelled as little-endian 32-bit words without padding. Variant A's record has no `timestamp`. Variant B's record has a `timestamp` after `current_version`. This follows from `storage_esp.cpp:170,585`, since that record's declaration is not part of this model.
- `%d` formatting of versions above INT_MAX is modelled exactly: a negative number in the path.
- Variant A's callbacks are modelled as raw store operations. In particular `restore_file_version` writes the key through the `write_file` callback and does not re-enter `on_before_write`. `get_full_path` is the callback variant B implements.
- storage_esp.h, storage_config.h beyond its constants, and all logging.
- FileVersioning.Sound / StorageEsp.Sound: a corrupted sidecar whose count exceeds the array makes the source read past `versions[]`, which has no meaning here. The model demands a fitting count only where the source reads the index: both listings for a key that exists, and both archives (through `ArchiveFits`) once they pass their early returns.
- StorageEsp.ArchiveOutcome: requires `ArchiveFits`, which also demands an in-bounds record and a successful eviction at capacity. After a failed eviction the source writes `versions[5]`, one past the end (storage_esp.cpp:906-910).
- StorageEsp.ArchiveOutcome: the `unlink` after a short `fwrite` of the snapshot (storage_esp.cpp:881-891) is not modelled, since a backend write either succeeds whole or fails at `fopen` before writing anything.
- StorageEsp.WriteOutcome / StorageEsp.RestoreOutcome: require `WriteFits` / `RestoreFits`, the same archive precondition reached through `write_file`.
- FileVersioning.FileVersioning.CleanupOldVersions: proved to return 0 only under an in-bounds record; the loop body is unreachable there and not modelled step by step.
- StorageEsp.StorageEsp.CleanupOldVersions: proved to return 0 only under an in-bounds record; the loop body is unreachable there and not modelled step by step.
- Retention.FifoRetention: proved only on a volume without failing paths, starting from a key with neither file nor record, and while the version counter stays below UINT32_MAX.

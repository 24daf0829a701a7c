/**
 * `cleanup_oldest_version`, which both engines carry in identical form:
 * drop the oldest indexed snapshot to make room in the index.
 */
module Eviction {
  import opened Types
  import opened Paths
  import opened Metadata
  import opened Backend

  datatype Evicted = Evicted(ok: bool, meta: Meta, disk: Disk)

  /**
   * The value-level effect: nothing on an empty index; otherwise the slot the
   * min scan settles on is removed from the index if, and only if, its
   * snapshot could be deleted.
   */
  function CleanupOldest(d: Disk, base: BasePath, key: string, m: Meta): (e: Evicted)
    requires InBounds(m)
    ensures InBounds(e.meta) && e.meta.versionCount as int >= m.versionCount as int - 1
    ensures e.ok ==> e.meta.versionCount as int == m.versionCount as int - 1
  {
    if m.versionCount == 0 then Evicted(false, m, d)
    else
      var k := OldestSlot(m);
      var path := VersionPath(base, key, m.versions[k]);
      if DeleteSucceeds(d, path) then Evicted(true, RemoveSlot(m, k), Delete(d, path))
      else Evicted(false, m, d)
  }

  /**
   * Eviction fails, changing neither the record nor the disk, exactly when the
   * index is empty or the snapshot of the oldest version cannot be deleted.
   */
  lemma CleanupOldestFailure(d: Disk, base: BasePath, key: string, m: Meta)
    requires InBounds(m)
    ensures var e := CleanupOldest(d, base, key, m);
      !e.ok <==> m.versionCount == 0 ||
                 !DeleteSucceeds(d, VersionPath(base, key, m.versions[OldestSlot(m)]))
    ensures var e := CleanupOldest(d, base, key, m);
      !e.ok ==> e.meta == m && e.disk == d
  {
  }

  /**
   * A successful eviction from a record that keeps the index invariant
   * deletes the snapshot of the smallest indexed version and nothing else,
   * drops exactly that version from the index with the others kept in their
   * order, zeroes the vacated slot, decrements the count by one and keeps the
   * invariant.
   */
  lemma CleanupOldestSuccess(d: Disk, base: BasePath, key: string, m: Meta)
    requires IndexInvariant(m)
    requires CleanupOldest(d, base, key, m).ok
    ensures var e := CleanupOldest(d, base, key, m);
      var k := OldestSlot(m);
      var oldest := m.versions[k];
      (forall j :: 0 <= j < m.versionCount as int ==> oldest <= m.versions[j]) &&
      Indexed(e.meta) == Without(Indexed(m), k) &&
      (forall v :: v in Indexed(e.meta) <==> v in Indexed(m) && v != oldest) &&
      e.meta.versionCount as int == m.versionCount as int - 1 &&
      e.meta.versions[e.meta.versionCount] == 0 &&
      e.meta.currentVersion == m.currentVersion &&
      IndexInvariant(e.meta) &&
      e.disk == d.(files := d.files - {VersionPath(base, key, oldest)}) &&
      VersionPath(base, key, oldest) in d.files
  {
    EvictOldestKeepsInvariant(m);
    RemoveSlotEffect(m, OldestSlot(m));
  }

  /** Eviction touches no file but the snapshot of the oldest indexed version. */
  lemma CleanupOldestFrame(d: Disk, base: BasePath, key: string, m: Meta, p: string)
    requires InBounds(m)
    requires m.versionCount > 0 ==> p != VersionPath(base, key, m.versions[OldestSlot(m)])
    ensures var e := CleanupOldest(d, base, key, m);
      e.disk.mounted == d.mounted && e.disk.faulty == d.faulty &&
      (p in e.disk.files <==> p in d.files) && (p in d.files ==> e.disk.files[p] == d.files[p])
  {
  }

  /** The in-place operation on the record object and the store. */
  method CleanupOldestVersion(store: Store, key: string, m: VersionMetadata) returns (ok: bool)
    requires InBounds(m.Value())
    modifies store`files, m`versionCount, m.versions
    ensures var e := CleanupOldest(old(store.State()), store.basePath, key, old(m.Value()));
      ok == e.ok && m.Value() == e.meta && store.State() == e.disk
  {
    if m.versionCount == 0 {
      return false;
    }
    var oldestVersion, oldestIndex := m.FindOldest();
    var oldestPath := VersionPath(store.basePath, key, oldestVersion);
    ok := store.DeleteFile(oldestPath);
    if ok {
      m.RemoveAt(oldestIndex);
    }
  }
}

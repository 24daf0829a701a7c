/**
 * The per-key metadata record (`file_version_metadata`): the current version
 * counter, size and checksum of the current content, and a fixed array of
 * MAX_HISTORY slots indexing the snapshots still kept, of which the first
 * `version_count` are in use.
 *
 * The record is modelled twice: as a value (`Meta`), in which the
 * specifications are written, and as the object the source updates in place
 * (`VersionMetadata`, whose `Value()` is a `Meta`).
 */
module Metadata {
  import opened Types

  /** `STORAGE_MAX_VERSION_HISTORY`: the number of slots of `versions`. */
  const MAX_HISTORY: nat := 5

  datatype Meta = Meta(
    currentVersion: uint32,
    timestamp: uint32,
    fileSize: uint32,
    checksum: uint32,
    versionCount: uint32,
    versions: seq<uint32>)

  /** The record has its fixed number of slots. */
  predicate WellFormed(m: Meta)
  {
    |m.versions| == MAX_HISTORY
  }

  /** `version_count` stays within the array: every `versions[i]` with `i < version_count` exists. */
  predicate InBounds(m: Meta)
  {
    WellFormed(m) && m.versionCount as int <= MAX_HISTORY
  }

  /** The slots in use: `versions[0..version_count)`. */
  function Indexed(m: Meta): (s: seq<uint32>)
    requires InBounds(m)
    ensures |s| == m.versionCount as int
  {
    m.versions[..m.versionCount]
  }

  /**
   * The index invariant: the slots in use hold non-zero, pairwise distinct
   * versions older than the current one, and every other slot holds 0.
   */
  predicate IndexInvariant(m: Meta)
  {
    InBounds(m) &&
    (forall i :: 0 <= i < m.versionCount as int ==> 0 < m.versions[i] < m.currentVersion) &&
    (forall i, j :: 0 <= i < j < m.versionCount as int ==> m.versions[i] != m.versions[j]) &&
    (forall i :: m.versionCount as int <= i < MAX_HISTORY ==> m.versions[i] == 0)
  }

  /** What the default constructor of `file_version_metadata` produces. */
  function Default(): Meta
  {
    Meta(0, 0, 0, 0, 0, [0, 0, 0, 0, 0])
  }

  /** The record `load_metadata` falls back to satisfies the index invariant and records no history. */
  lemma DefaultSatisfiesInvariant()
    ensures IndexInvariant(Default())
    ensures Default().currentVersion == 0 && Default().fileSize == 0
    ensures Default().checksum == 0 && Indexed(Default()) == []
    ensures forall i :: 0 <= i < MAX_HISTORY ==> Default().versions[i] == 0
  {
  }

  // ---------------------------------------------------------------- eviction

  /** One step of the min scan of `cleanup_oldest_version`, from slot `i` on, with `best` the slot chosen so far. */
  function ScanFrom(vs: seq<uint32>, count: nat, i: nat, best: nat): (k: nat)
    requires count <= |vs| && best < count
    ensures k < count
    decreases count - i
  {
    if i >= count then best
    else ScanFrom(vs, count, i + 1, if vs[i] < vs[best] && vs[i] != 0 then i else best)
  }

  /** The slot the min scan settles on: it starts at slot 0 and moves to every later, smaller, non-zero entry. */
  function OldestSlot(m: Meta): (k: nat)
    requires InBounds(m) && m.versionCount > 0
    ensures k < m.versionCount as int
  {
    ScanFrom(m.versions, m.versionCount as nat, 1, 0)
  }

  lemma {:induction false} ScanFromFindsMinimum(vs: seq<uint32>, count: nat, i: nat, best: nat)
    requires count <= |vs| && best < count && best < i <= count
    requires forall j :: 0 <= j < count ==> vs[j] != 0
    requires forall j :: 0 <= j < i ==> vs[best] <= vs[j]
    ensures forall j :: 0 <= j < count ==> vs[ScanFrom(vs, count, i, best)] <= vs[j]
    decreases count - i
  {
    if i < count {
      var next := if vs[i] < vs[best] && vs[i] != 0 then i else best;
      ScanFromFindsMinimum(vs, count, i + 1, next);
    }
  }

  /** When no slot in use holds 0, the scan settles on a slot holding the smallest indexed version. */
  lemma OldestSlotIsMinimum(m: Meta)
    requires InBounds(m) && m.versionCount > 0
    requires forall j :: 0 <= j < m.versionCount as int ==> m.versions[j] != 0
    ensures forall j :: 0 <= j < m.versionCount as int ==> m.versions[OldestSlot(m)] <= m.versions[j]
  {
    ScanFromFindsMinimum(m.versions, m.versionCount as nat, 1, 0);
  }

  /** `a` without its element at position `k`, the others in their order. */
  function Without(a: seq<uint32>, k: nat): (r: seq<uint32>)
    requires k < |a|
    ensures |r| == |a| - 1
    ensures forall i :: 0 <= i < k ==> r[i] == a[i]
    ensures forall i :: k <= i < |r| ==> r[i] == a[i + 1]
  {
    a[..k] + a[k + 1..]
  }

  /** The record after slot `k` is removed from the index by shifting the rest left and zeroing the vacated slot. */
  function RemoveSlot(m: Meta, k: nat): (r: Meta)
    requires InBounds(m) && k < m.versionCount as int
    ensures InBounds(r)
  {
    var n := m.versionCount as int;
    m.(versions := m.versions[..k] + m.versions[k + 1..n] + [0] + m.versions[n..],
       versionCount := m.versionCount - 1)
  }

  /**
   * Removing a slot keeps every other indexed version in its relative order,
   * zeroes slot `count - 1`, decrements the count by one and changes no other field.
   */
  lemma RemoveSlotEffect(m: Meta, k: nat)
    requires InBounds(m) && k < m.versionCount as int
    ensures var r := RemoveSlot(m, k);
      Indexed(r) == Without(Indexed(m), k) &&
      r.versions[m.versionCount as int - 1] == 0 &&
      r.versionCount as int == m.versionCount as int - 1 &&
      r.versions[m.versionCount..] == m.versions[m.versionCount..] &&
      r.currentVersion == m.currentVersion && r.fileSize == m.fileSize &&
      r.checksum == m.checksum && r.timestamp == m.timestamp
  {
    var r := RemoveSlot(m, k);
    var n := m.versionCount as int;
    assert Indexed(r) == r.versions[..n - 1];
    assert r.versions[..n - 1] == m.versions[..k] + m.versions[k + 1..n];
    assert Indexed(m)[..k] == m.versions[..k];
    assert Indexed(m)[k + 1..] == m.versions[k + 1..n];
  }

  /** Slot by slot, what `RemoveSlot` leaves in the array. */
  lemma RemoveSlotSlots(m: Meta, k: nat)
    requires InBounds(m) && k < m.versionCount as int
    ensures forall j :: 0 <= j < k ==> RemoveSlot(m, k).versions[j] == m.versions[j]
    ensures forall j :: k <= j < m.versionCount as int - 1 ==> RemoveSlot(m, k).versions[j] == m.versions[j + 1]
    ensures RemoveSlot(m, k).versions[m.versionCount as int - 1] == 0
    ensures forall j :: m.versionCount as int <= j < MAX_HISTORY ==> RemoveSlot(m, k).versions[j] == m.versions[j]
  {
  }

  /** Removing one element of a sequence without duplicates removes exactly that value. */
  lemma WithoutMembers(a: seq<uint32>, k: nat)
    requires k < |a|
    requires forall i, j :: 0 <= i < j < |a| ==> a[i] != a[j]
    ensures forall v :: v in Without(a, k) <==> v in a && v != a[k]
    ensures forall i, j :: 0 <= i < j < |a| - 1 ==> Without(a, k)[i] != Without(a, k)[j]
  {
    var r := Without(a, k);
    forall v ensures v in r <==> v in a && v != a[k] {
      if v in r {
        var j :| 0 <= j < |r| && r[j] == v;
        if j < k { assert a[j] == v; } else { assert a[j + 1] == v; }
      }
      if v in a && v != a[k] {
        var j :| 0 <= j < |a| && a[j] == v;
        if j < k { assert r[j] == v; } else { assert r[j - 1] == v; }
      }
    }
  }

  /** Removing any slot keeps the indexed versions pairwise distinct. */
  lemma RemoveSlotDistinct(m: Meta, k: nat)
    requires IndexInvariant(m) && k < m.versionCount as int
    ensures var r := RemoveSlot(m, k);
      forall i, j :: 0 <= i < j < r.versionCount as int ==> r.versions[i] != r.versions[j]
  {
    RemoveSlotSlots(m, k);
    var r := RemoveSlot(m, k);
    forall i, j | 0 <= i < j < r.versionCount as int ensures r.versions[i] != r.versions[j] {
      var i' := if i < k then i else i + 1;
      var j' := if j < k then j else j + 1;
      assert r.versions[i] == m.versions[i'] && r.versions[j] == m.versions[j'] && i' < j';
    }
  }

  /** Slot by slot: removing the oldest slot of a record that keeps the index invariant keeps it, and leaves only larger versions indexed. */
  lemma EvictOldestSlots(m: Meta)
    requires IndexInvariant(m) && m.versionCount > 0
    ensures var k := OldestSlot(m);
      var r := RemoveSlot(m, k);
      IndexInvariant(r) &&
      (forall j :: 0 <= j < m.versionCount as int ==> m.versions[k] <= m.versions[j]) &&
      (forall i :: 0 <= i < r.versionCount as int ==> m.versions[k] < r.versions[i])
  {
    var k := OldestSlot(m);
    OldestSlotIsMinimum(m);
    RemoveSlotSlots(m, k);
    var r := RemoveSlot(m, k);
    forall i | 0 <= i < r.versionCount as int ensures 0 < r.versions[i] < r.currentVersion && m.versions[k] < r.versions[i] {
      var i' := if i < k then i else i + 1;
      assert r.versions[i] == m.versions[i'] && i' != k;
    }
    RemoveSlotDistinct(m, k);
  }

  /**
   * Evicting the oldest slot of a record that keeps the index invariant
   * removes exactly the smallest indexed version: the remaining ones are the
   * others, all larger, and the invariant still holds.
   */
  lemma EvictOldestKeepsInvariant(m: Meta)
    requires IndexInvariant(m) && m.versionCount > 0
    ensures var k := OldestSlot(m);
      var r := RemoveSlot(m, k);
      IndexInvariant(r) &&
      (forall j :: 0 <= j < m.versionCount as int ==> m.versions[k] <= m.versions[j]) &&
      (forall v :: v in Indexed(r) <==> v in Indexed(m) && v != m.versions[k]) &&
      (forall v :: v in Indexed(r) ==> m.versions[k] < v)
  {
    var k := OldestSlot(m);
    EvictOldestSlots(m);
    RemoveSlotEffect(m, k);
    var r := RemoveSlot(m, k);
    var a := Indexed(m);
    forall i, j | 0 <= i < j < |a| ensures a[i] != a[j] {
      assert a[i] == m.versions[i] && a[j] == m.versions[j];
    }
    WithoutMembers(a, k);
    var b := Indexed(r);
    forall v | v in b ensures m.versions[k] < v {
      var i :| 0 <= i < |b| && b[i] == v;
      assert r.versions[i] == v;
    }
  }

  // ---------------------------------------------------------------- insertion

  /** The record with `v` appended at slot `count` and the count incremented. */
  function Appended(m: Meta, v: uint32): (r: Meta)
    requires InBounds(m) && m.versionCount as int < MAX_HISTORY
    ensures InBounds(r) && Indexed(r) == Indexed(m) + [v]
    ensures r.versions[r.versionCount..] == m.versions[r.versionCount..]
  {
    var r := m.(versions := m.versions[m.versionCount := v], versionCount := m.versionCount + 1);
    assert Indexed(r) == Indexed(m) + [v];
    r
  }

  /** Appending the current version to a record with room, then advancing the counter, keeps the index invariant. */
  lemma AppendCurrentKeepsInvariant(m: Meta)
    requires IndexInvariant(m) && m.versionCount as int < MAX_HISTORY
    requires 0 < m.currentVersion < UINT32_MAX && m.currentVersion !in Indexed(m)
    ensures IndexInvariant(Appended(m, m.currentVersion).(currentVersion := m.currentVersion + 1))
  {
    var r := Appended(m, m.currentVersion).(currentVersion := m.currentVersion + 1);
    forall i | 0 <= i < m.versionCount as int ensures m.versions[i] != m.currentVersion {
      assert m.versions[i] == Indexed(m)[i];
    }
    forall i | 0 <= i < r.versionCount as int ensures 0 < r.versions[i] < r.currentVersion {
    }
  }

  // ---------------------------------------------------------------- sidecar layout

  /** Layout of the sidecar file: variant A stores the record without a timestamp, variant B with one. */
  datatype Layout = Plain | Timestamped

  /** `sizeof(file_version_metadata)`: 4 + MAX_HISTORY 32-bit words, one more with a timestamp. */
  function RecordSize(layout: Layout): nat
  {
    4 * ((if layout == Timestamped then 5 else 4) + MAX_HISTORY)
  }

  lemma ByteRoundTrip(x: int)
    requires 0 <= x < 256
    ensures (x as byte) as int == x
  {
    assert x % 256 == x;
  }

  /** The byte holding a value below 256. */
  function ToByte(x: int): (b: byte)
    requires 0 <= x < 256
    ensures b as int == x
  {
    ByteRoundTrip(x);
    x as byte
  }

  /** A 32-bit word, least significant byte first. */
  function WordBytes(x: uint32): (b: seq<byte>)
    ensures |b| == 4
  {
    var q1 := x as int / 256;
    var q2 := q1 / 256;
    var q3 := q2 / 256;
    [ToByte(x as int % 256), ToByte(q1 % 256), ToByte(q2 % 256), ToByte(q3)]
  }

  function WordOf(b: seq<byte>): uint32
    requires |b| == 4
  {
    (b[0] as int + 256 * (b[1] as int + 256 * (b[2] as int + 256 * b[3] as int))) as uint32
  }

  lemma WordRoundTrip(x: uint32)
    ensures WordOf(WordBytes(x)) == x
  {
    var q1 := x as int / 256;
    var q2 := q1 / 256;
    var q3 := q2 / 256;
    assert x as int == x as int % 256 + 256 * q1;
    assert q1 == q1 % 256 + 256 * q2;
    assert q2 == q2 % 256 + 256 * q3;
  }

  function EncodeWords(ws: seq<uint32>): (b: seq<byte>)
    ensures |b| == 4 * |ws|
  {
    if ws == [] then [] else WordBytes(ws[0]) + EncodeWords(ws[1..])
  }

  function DecodeWords(b: seq<byte>): (ws: seq<uint32>)
    requires |b| % 4 == 0
    ensures |ws| == |b| / 4
  {
    if b == [] then [] else [WordOf(b[..4])] + DecodeWords(b[4..])
  }

  lemma {:induction false} WordsRoundTrip(ws: seq<uint32>)
    ensures DecodeWords(EncodeWords(ws)) == ws
  {
    if ws != [] {
      var b := EncodeWords(ws);
      assert b[..4] == WordBytes(ws[0]);
      assert b[4..] == EncodeWords(ws[1..]);
      WordRoundTrip(ws[0]);
      WordsRoundTrip(ws[1..]);
    }
  }

  /** The fields in the order of the structure. */
  function Fields(m: Meta, layout: Layout): seq<uint32>
  {
    [m.currentVersion] + (if layout == Timestamped then [m.timestamp] else []) +
    [m.fileSize, m.checksum, m.versionCount] + m.versions
  }

  /** The bytes `fwrite(&metadata, sizeof...)` puts in the sidecar. */
  function Encode(m: Meta, layout: Layout): (b: seq<byte>)
    requires WellFormed(m)
    ensures |b| == RecordSize(layout)
  {
    EncodeWords(Fields(m, layout))
  }

  /** The record `fread(&metadata, sizeof...)` reads back from a sidecar's first RecordSize bytes. */
  function Decode(b: seq<byte>, layout: Layout): (m: Meta)
    requires |b| == RecordSize(layout)
    ensures WellFormed(m)
  {
    var w := DecodeWords(b);
    if layout == Timestamped then Meta(w[0], w[1], w[2], w[3], w[4], w[5..])
    else Meta(w[0], 0, w[1], w[2], w[3], w[4..])
  }

  /** Reading back a saved record gives the record that was saved (variant A does not store a timestamp). */
  lemma DecodeEncode(m: Meta, layout: Layout)
    requires WellFormed(m)
    requires layout == Plain ==> m.timestamp == 0
    ensures Decode(Encode(m, layout), layout) == m
  {
    WordsRoundTrip(Fields(m, layout));
  }

  // ---------------------------------------------------------------- the object

  /** The record as the source holds it: an object whose fields and array are updated in place. */
  class VersionMetadata {
    var currentVersion: uint32
    var timestamp: uint32
    var fileSize: uint32
    var checksum: uint32
    var versionCount: uint32
    const versions: array<uint32>

    function Value(): Meta
      reads this, versions
    {
      Meta(currentVersion, timestamp, fileSize, checksum, versionCount, versions[..])
    }

    /** The default constructor: every counter 0 and every slot of `versions` zero-filled. */
    constructor ()
      ensures Value() == Default()
      ensures fresh(versions)
    {
      currentVersion, timestamp, fileSize, checksum, versionCount := 0, 0, 0, 0, 0;
      var slots := new uint32[MAX_HISTORY];
      var i := 0;
      while i < MAX_HISTORY
        invariant 0 <= i <= MAX_HISTORY
        invariant forall j :: 0 <= j < i ==> slots[j] == 0
      {
        slots[i] := 0;
        i := i + 1;
      }
      versions := slots;
      assert slots[..] == [0, 0, 0, 0, 0];
    }

    /** Structure assignment `metadata = m`. */
    method Assign(m: Meta)
      requires WellFormed(m) && versions.Length == MAX_HISTORY
      modifies this, versions
      ensures Value() == m
    {
      currentVersion, timestamp, fileSize, checksum, versionCount :=
        m.currentVersion, m.timestamp, m.fileSize, m.checksum, m.versionCount;
      forall i | 0 <= i < MAX_HISTORY {
        versions[i] := m.versions[i];
      }
      assert versions[..] == m.versions;
    }

    /**
     * The linear search of the archive step: whether `v` is one of
     * `versions[0..version_count)`.
     */
    method IsIndexed(v: uint32) returns (found: bool)
      requires InBounds(Value())
      ensures found <==> v in Indexed(Value())
    {
      found := false;
      var i := 0;
      while i < versionCount as int && !found
        invariant 0 <= i <= versionCount as int
        invariant found <==> v in versions[..i]
      {
        assert versions[..i + 1] == versions[..i] + [versions[i]];
        found := versions[i] == v;
        i := i + 1;
      }
      assert versions[..i] == Indexed(Value())[..i];
      assert !found ==> versions[..i] == Indexed(Value());
    }

    /** `versions[version_count] = v; version_count++`. */
    method Append(v: uint32)
      requires InBounds(Value()) && versionCount as int < MAX_HISTORY
      modifies this`versionCount, versions
      ensures Value() == Appended(old(Value()), v)
    {
      versions[versionCount] := v;
      versionCount := versionCount + 1;
    }

    /** The min scan of `cleanup_oldest_version`: the slot of the oldest indexed version and its value. */
    method FindOldest() returns (oldestVersion: uint32, oldestIndex: nat)
      requires InBounds(Value()) && versionCount > 0
      ensures oldestIndex == OldestSlot(Value())
      ensures oldestVersion == versions[oldestIndex]
    {
      oldestVersion := versions[0];
      oldestIndex := 0;
      var i := 1;
      while i < versionCount as int
        invariant 1 <= i <= versionCount as int
        invariant oldestIndex < versionCount as int && oldestVersion == versions[oldestIndex]
        invariant ScanFrom(versions[..], versionCount as nat, i, oldestIndex) == OldestSlot(Value())
      {
        if versions[i] < oldestVersion && versions[i] != 0 {
          oldestVersion := versions[i];
          oldestIndex := i;
        }
        i := i + 1;
      }
    }

    /** The shift of `cleanup_oldest_version`: slot `k` leaves the index, the rest move left, the tail slot is zeroed. */
    method RemoveAt(k: nat)
      requires InBounds(Value()) && k < versionCount as int
      modifies this`versionCount, versions
      ensures Value() == RemoveSlot(old(Value()), k)
    {
      ghost var m := Value();
      var n := versionCount as int;
      var i := k;
      while i < n - 1
        modifies versions
        invariant k <= i <= n - 1
        invariant forall j :: 0 <= j < k ==> versions[j] == m.versions[j]
        invariant forall j :: k <= j < i ==> versions[j] == m.versions[j + 1]
        invariant forall j :: i <= j < MAX_HISTORY ==> versions[j] == m.versions[j]
      {
        versions[i] := versions[i + 1];
        i := i + 1;
      }
      versions[n - 1] := 0;
      versionCount := versionCount - 1;
      RemoveSlotSlots(m, k);
      ghost var r := RemoveSlot(m, k).versions;
      forall j | 0 <= j < MAX_HISTORY ensures versions[j] == r[j] {
        if j < k {
        } else if j < n - 1 {
        } else if j == n - 1 {
        }
      }
      assert versions[..] == r;
    }
  }
}

/**
 * defragment as written reads the metadata at offset 0 and walks records
 * from offset 8, but create and append keep a free-space count at 0, the
 * free-space table at 4 and the metadata at 804, with records from 812.
 * On a container create has just written, the int at 0 is the free-space
 * count 0, so the loop never runs and the file is cut to 8 bytes: every
 * member is lost. With the metadata at 804 and the records from 812, the
 * same container keeps every record and only total_size changes.
 */
module DefragmentFindings {
  import opened Bytes
  import opened Layout
  import opened Records
  import opened Create
  import opened Defragment

  /** The first eight bytes of a created container: the free-space count 0 and the first, empty, free slot. */
  lemma CreatedLegacyMeta(ms: seq<Member>, img: seq<byte>)
    requires img == CreateImage(ms)
    ensures LEGACY_BASE <= |img| && MetaAt(img, LEGACY_META_OFFSET) == ArchiveMetadata(0, 0)
  {
    var head := EncodeInt(0) + Zeros(SLOT_SIZE * MAX_FREE_SPACES);
    assert img[..LEGACY_BASE] == EncodeInt(0) + [0, 0, 0, 0] by {
      assert Preamble(|ms|) == head + EncodeMeta(ArchiveMetadata(|ms|, 0));
      assert img[..LEGACY_BASE] == head[..LEGACY_BASE];
      assert head[4..LEGACY_BASE] == Zeros(SLOT_SIZE * MAX_FREE_SPACES)[..4];
    }
    DecodeEncodeInt(0);
  }

  /**
   * As written: on any container create writes, defragment leaves only the
   * 8 bytes of metadata it stores at offset 0, and find_file_info no longer
   * finds any name.
   */
  lemma LegacyDefragWipes(ms: seq<Member>, img: seq<byte>)
    requires img == CreateImage(ms)
    ensures DefragReady(img, LEGACY_META_OFFSET, LEGACY_BASE)
    ensures DefragImage(img, LEGACY_META_OFFSET, LEGACY_BASE) == EncodeMeta(ArchiveMetadata(0, LEGACY_BASE))
    ensures forall name :: FindSpec(DefragImage(img, LEGACY_META_OFFSET, LEGACY_BASE), name).None?
  {
    CreatedLegacyMeta(ms, img);
    assert Walked(img, LEGACY_META_OFFSET, LEGACY_BASE) == [];
    var meta := EncodeMeta(ArchiveMetadata(0, LEGACY_BASE));
    assert DefragImage(img, LEGACY_META_OFFSET, LEGACY_BASE) == WriteAt(img[..LEGACY_BASE], 0, meta);
    WriteAtInside(img[..LEGACY_BASE], 0, meta);
  }

  /**
   * The contrast: the first member create stores, when its name has no NUL
   * byte, is found in the created container, and is gone after the
   * as-written defragment.
   */
  lemma LegacyDefragLosesMember(ms: seq<Member>, img: seq<byte>)
    requires img == CreateImage(ms) && |img| < TWO_31 && |ms| < TWO_31
    requires 0 < Readable(ms) && NulFree(ms[0].name)
    ensures FindSpec(img, StoredName(ms[0].name)).Some?
    ensures DefragReady(img, LEGACY_META_OFFSET, LEGACY_BASE)
    ensures FindSpec(DefragImage(img, LEGACY_META_OFFSET, LEGACY_BASE), StoredName(ms[0].name)).None?
  {
    CreateThenFind(ms, 0, img);
    LegacyDefragWipes(ms, img);
  }

  /** Every record create writes is ACTIVE. */
  lemma StoredAllActive(ms: seq<Member>, pos: nat)
    ensures AllActive(Stored(ms, pos))
  {
    var es := Stored(ms, pos);
    forall k | 0 <= k < |es| ensures es[k].header.status == ACTIVE {
      StoredAt(ms, pos, k);
    }
  }

  /**
   * Corrected: with the metadata at 804 and the records from 812, defragment
   * on a container create wrote for members that could all be opened keeps
   * every byte except total_size, which becomes the file's length (create
   * leaves it 0).
   */
  lemma DefragCreated(ms: seq<Member>, img: seq<byte>)
    requires img == CreateImage(ms) && |img| < TWO_31 && |ms| < TWO_31 && Readable(ms) == |ms|
    ensures InPlace(img, META_OFFSET, ENTRY_BASE)
    ensures DefragImage(img, META_OFFSET, ENTRY_BASE) ==
            WriteAt(img, META_OFFSET, EncodeMeta(ArchiveMetadata(|ms|, |img|)))
  {
    CreatedWalk(ms, img);
    DefragKeepsRecords(img, META_OFFSET, ENTRY_BASE);
  }

  /** The records defragment walks in a created container are the stored ones, all ACTIVE and laid out in place. */
  lemma CreatedWalk(ms: seq<Member>, img: seq<byte>)
    requires img == CreateImage(ms) && |img| < TWO_31 && |ms| < TWO_31 && Readable(ms) == |ms|
    ensures DefragReady(img, META_OFFSET, ENTRY_BASE)
    ensures Walked(img, META_OFFSET, ENTRY_BASE) == Stored(ms, ENTRY_BASE)
    ensures InPlace(img, META_OFFSET, ENTRY_BASE)
    ensures Laid(Stored(ms, ENTRY_BASE), ENTRY_BASE)
  {
    var es := Stored(ms, ENTRY_BASE);
    CreateLayout(ms, img, es);
    StoredAllActive(ms, ENTRY_BASE);
    StoredIsConsistent(ms, ENTRY_BASE);
    CreatedIsLaid(ms, img, es);
  }

  /** Corrected: after that defragment, find_file_info answers every name as before. */
  lemma DefragCreatedFinds(ms: seq<Member>, img: seq<byte>, name: seq<byte>)
    requires img == CreateImage(ms) && |img| < TWO_31 && |ms| < TWO_31 && Readable(ms) == |ms|
    ensures DefragReady(img, META_OFFSET, ENTRY_BASE)
    ensures FindSpec(DefragImage(img, META_OFFSET, ENTRY_BASE), name) == FindSpec(img, name)
  {
    var es := Stored(ms, ENTRY_BASE);
    CreatedWalk(ms, img);
    DefragFind(img, name);
    StoredAllActive(ms, ENTRY_BASE);
    StoredIsConsistent(ms, ENTRY_BASE);
    CompactNoop(es, ENTRY_BASE);
    FindInCreated(ms, img, es, name);
  }
}

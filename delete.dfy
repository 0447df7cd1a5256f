/**
 * delete: find a member, rewrite its header with status DELETED, and hand the
 * range it occupied to insert_and_combine_free_space, then save the table.
 *
 * The two iterations of the program differ only in the range released:
 * star.c releases the header and the content, mainTest.c only the content.
 */
module Delete {
  import opened Bytes
  import opened Layout
  import opened FreeSpace
  import opened Records
  import opened Container

  /** Offset of the status field inside a FileInfo (after name, padding, file_size, start_position). */
  const STATUS_FIELD: nat := 264

  /**
   * The range released for a found header: with the header (star.c)
   * {start_position - sizeof(FileInfo), file_size + sizeof(FileInfo)}, the
   * unsigned arithmetic landing back in an int; without it (mainTest.c)
   * {start_position, file_size}.
   */
  function Released(h: FileInfo, withHeader: bool): FreeSpaceInfo
  {
    if withHeader then FreeSpaceInfo(Wrap32(h.startPosition - HDR), Wrap32(h.fileSize + HDR))
    else FreeSpaceInfo(h.startPosition, h.fileSize)
  }

  /** The header delete writes back: the one it found, with status DELETED. */
  function Marked(h: FileInfo): FileInfo
  {
    h.(status := DELETED)
  }

  /** The effect of delete on a record found at loc: status rewrite, then the table load/insert/save. */
  function DeleteAt(img: seq<byte>, loc: Located, withHeader: bool): (r: seq<byte>)
    requires META_OFFSET <= |img| && loc.offset + HDR <= |img|
    ensures |r| == |img|
  {
    var img1 := WriteAt(img, loc.offset, EncodeHeader(Marked(loc.info)));
    WriteAt(img1, TABLE_OFFSET, EncodeTable(Combine(InsertSlot(TableOf(img1), Released(loc.info, withHeader)))))
  }

  /**
   * The container after delete of `name`: unchanged when find_file_info
   * reports it missing (or DELETED); otherwise DeleteAt at the header found.
   */
  function DeleteSpec(img: seq<byte>, name: seq<byte>, withHeader: bool): (r: seq<byte>)
    ensures |r| == |img|
    ensures FindSpec(img, name).None? ==> r == img
  {
    match FindSpec(img, name)
    case None => img
    case Some(loc) =>
      if loc.info.status == DELETED then img
      else
        DeletedBranchUnreachable(img, name);
        DeleteAt(img, loc, withHeader)
  }

  // ---------------------------------------------------------------- properties

  /** The "already marked as deleted" branch of delete is dead: find_file_info never reports a DELETED header. */
  lemma DeletedBranchUnreachable(img: seq<byte>, name: seq<byte>)
    requires FindSpec(img, name).Some?
    ensures var loc := FindSpec(img, name).value;
            && META_OFFSET <= |img| && loc.offset + HDR <= |img|
            && loc.info == HeaderAt(img, loc.offset) && loc.info.status != DELETED
  {
    LocateSound(img, ENTRY_BASE, MetaAt(img, META_OFFSET).numFiles, name);
  }

  /**
   * For a record whose start_position is its own content offset, star.c
   * releases the whole record and mainTest.c the content alone.
   */
  lemma ReleasedRange(h: FileInfo, offset: nat)
    requires h.startPosition == offset + HDR && 0 <= h.fileSize && offset + HDR + h.fileSize < TWO_31
    ensures Released(h, true) == FreeSpaceInfo(offset, HDR + h.fileSize)
    ensures Released(h, false) == FreeSpaceInfo(offset + HDR, h.fileSize)
  {
  }

  /**
   * delete writes exactly two places: the status field of the header found
   * (which then reads back as that header marked DELETED) and the table;
   * every other byte, and the container's length, stay as they were. (A
   * negative file_size can make the scan seek back before the entry region;
   * the header found must lie past the table for the rewrite to read back.)
   */
  lemma DeleteOnlyStatus(img: seq<byte>, name: seq<byte>, withHeader: bool)
    requires FindSpec(img, name).Some? && META_OFFSET <= FindSpec(img, name).value.offset
    ensures var loc := FindSpec(img, name).value;
            var r := DeleteSpec(img, name, withHeader);
            && loc.offset + HDR <= |r|
            && HeaderAt(r, loc.offset) == Marked(loc.info)
            && forall i :: (0 <= i < |img| && !(TABLE_OFFSET <= i < META_OFFSET) &&
                            !(loc.offset + STATUS_FIELD <= i < loc.offset + HDR)) ==> r[i] == img[i]
  {
    var loc := FindSpec(img, name).value;
    DeletedBranchUnreachable(img, name);
    var off := loc.offset;
    var h := Marked(loc.info);
    var img1 := WriteAt(img, off, EncodeHeader(h));
    var tbl := EncodeTable(Combine(InsertSlot(TableOf(img1), Released(loc.info, withHeader))));
    var r := WriteAt(img1, TABLE_OFFSET, tbl);
    assert r == DeleteSpec(img, name, withHeader);
    HeaderAfterWrite(img, off, h);
    HeaderUntouched(img1, off, TABLE_OFFSET, tbl);
    RewriteHeaderInPlace(img, off, h);
    forall i | 0 <= i < |img| && !(TABLE_OFFSET <= i < META_OFFSET) && !(off + STATUS_FIELD <= i < off + HDR)
      ensures r[i] == img[i]
    {
      assert r[i] == img1[i];
      if i < off + STATUS_FIELD {
        assert img1[..off + STATUS_FIELD][i] == img[..off + STATUS_FIELD][i];
      }
    }
  }

  /** The records after the status rewrite of record k: the same, with record k's header marked DELETED. */
  function MarkEntry(es: seq<Entry>, k: nat): (r: seq<Entry>)
    requires k < |es|
    ensures |r| == |es| && r[k].header.status == DELETED
    ensures forall j :: 0 <= j < |es| && j != k ==> r[j] == es[j]
  {
    es[k := es[k].(header := Marked(es[k].header))]
  }

  /**
   * On record lists: once the first record named `name` is marked DELETED the
   * lookup of `name` fails, and the lookup of every other name answers as before.
   */
  lemma LookupAfterMark(es: seq<Entry>, k: nat, name: seq<byte>, other: seq<byte>)
    requires FirstIndex(es, name) == Some(k)
    ensures LookupIn(MarkEntry(es, k), name) == None
    ensures other != name ==> LookupIn(MarkEntry(es, k), other) == LookupIn(es, other)
  {
    var es' := MarkEntry(es, k);
    FirstIndexIs(es', name, k);
    if other != name {
      match FirstIndex(es, other)
      case None =>
        assert FirstIndex(es', other).None?;
      case Some(j) =>
        assert j != k;
        FirstIndexIs(es', other, j);
    }
  }

  /** The status rewrite of delete, before the table is saved, keeps the chain with record k marked. */
  lemma MarkKeepsChain(img: seq<byte>, count: nat, k: nat)
    requires Walkable(img, count) && k < count
    ensures var e := Entries(img, ENTRY_BASE, count)[k];
            var img1 := WriteAt(img, e.offset, EncodeHeader(Marked(e.header)));
            && Walkable(img1, count)
            && Entries(img1, ENTRY_BASE, count) == MarkEntry(Entries(img, ENTRY_BASE, count), k)
            && META_OFFSET <= |img1| && TableOf(img1) == TableOf(img)
  {
    var es := Entries(img, ENTRY_BASE, count);
    var e := es[k];
    var h := Marked(e.header);
    EntryContent(img, ENTRY_BASE, count, k);
    EntriesOffsets(img, ENTRY_BASE, count, k);
    var img1 := WriteAt(img, e.offset, EncodeHeader(h));
    HeaderAfterWrite(img, e.offset, h);
    assert SameOutside(img, img1, e.offset, e.offset + HDR);
    ChainRewriteHeader(img, img1, ENTRY_BASE, count, k, h);
    MetaUntouched(img, META_OFFSET, e.offset, EncodeHeader(h));
    TableUntouched(img, e.offset, EncodeHeader(h));
  }

  /** Saving a table leaves a walkable container walkable, with the same records. */
  lemma SaveTableKeepsChain(img: seq<byte>, count: nat, tbl: seq<byte>)
    requires Walkable(img, count) && |tbl| == MAX_FREE_SPACES * SLOT_SIZE
    ensures var r := WriteAt(img, TABLE_OFFSET, tbl);
            Walkable(r, count) && Entries(r, ENTRY_BASE, count) == Entries(img, ENTRY_BASE, count)
  {
    var r := WriteAt(img, TABLE_OFFSET, tbl);
    WriteAtElsewhere(img, TABLE_OFFSET, tbl, ENTRY_BASE, |img|);
    ChainFrame(img, r, ENTRY_BASE, count);
    MetaUntouched(img, META_OFFSET, TABLE_OFFSET, tbl);
  }

  /**
   * delete on a walkable container keeps it walkable: the same records, the
   * first one named `name` now DELETED. Afterwards find_file_info no longer
   * finds `name`, and answers for every other name as before.
   */
  lemma DeleteHides(img: seq<byte>, count: nat, name: seq<byte>, withHeader: bool)
    requires Walkable(img, count) && FindSpec(img, name).Some?
    ensures var es := Entries(img, ENTRY_BASE, count);
            var r := DeleteSpec(img, name, withHeader);
            && FirstIndex(es, name).Some?
            && Walkable(r, count)
            && Entries(r, ENTRY_BASE, count) == MarkEntry(es, FirstIndex(es, name).value)
            && FindSpec(r, name) == None
            && forall other :: other != name ==> FindSpec(r, other) == FindSpec(img, other)
  {
    var es := Entries(img, ENTRY_BASE, count);
    FindMatchesEntries(img, count, name);
    LookupInSound(es, name);
    var k := FirstIndex(es, name).value;
    var loc := FindSpec(img, name).value;
    assert loc == Located(es[k].header, es[k].offset);
    DeletedBranchUnreachable(img, name);
    MarkKeepsChain(img, count, k);
    var img1 := WriteAt(img, loc.offset, EncodeHeader(Marked(loc.info)));
    var tbl := EncodeTable(Combine(InsertSlot(TableOf(img1), Released(loc.info, withHeader))));
    var r := WriteAt(img1, TABLE_OFFSET, tbl);
    assert r == DeleteSpec(img, name, withHeader);
    SaveTableKeepsChain(img1, count, tbl);
    var es' := MarkEntry(es, k);
    FindMatchesEntries(r, count, name);
    LookupAfterMark(es, k, name, name);
    forall other | other != name
      ensures FindSpec(r, other) == FindSpec(img, other)
    {
      FindMatchesEntries(r, count, other);
      FindMatchesEntries(img, count, other);
      LookupAfterMark(es, k, name, other);
    }
  }

  /**
   * The table delete saves is the one it loaded with the released range
   * inserted and adjacent slots combined. On a walkable container whose
   * headers point at their own content and whose table lies inside the
   * entry region: the released range is the record (star.c) or its content
   * (mainTest.c); afterwards a byte is free exactly when it was free before
   * or is released (the release is lost when all 100 slots are in use); and
   * the table still lies inside the entry region.
   */
  lemma DeleteReleases(img: seq<byte>, count: nat, name: seq<byte>, withHeader: bool)
    requires Walkable(img, count) && Consistent(Entries(img, ENTRY_BASE, count)) && |img| < TWO_31
    requires WithinBounds(TableOf(img), ENTRY_BASE, |img|)
    requires FindSpec(img, name).Some?
    ensures var loc := FindSpec(img, name).value;
            var t := TableOf(img);
            var r := DeleteSpec(img, name, withHeader);
            var lo := if withHeader then loc.offset else loc.offset + HDR;
            var hi := loc.offset + HDR + loc.info.fileSize;
            && Released(loc.info, withHeader) == FreeSpaceInfo(lo, hi - lo)
            && TableOf(r) == Combine(InsertSlot(t, Released(loc.info, withHeader)))
            && WithinBounds(TableOf(r), ENTRY_BASE, |img|)
            && forall p :: Covers(TableOf(r), p) <==> Covers(t, p) || (FirstEmptyFrom(t, 0).Some? && lo <= p < hi)
  {
    var es := Entries(img, ENTRY_BASE, count);
    FindMatchesEntries(img, count, name);
    LookupInSound(es, name);
    var k := FirstIndex(es, name).value;
    var loc := FindSpec(img, name).value;
    EntryContent(img, ENTRY_BASE, count, k);
    EntriesOffsets(img, ENTRY_BASE, count, k);
    assert loc.info.startPosition == loc.offset + HDR;
    var hi := loc.offset + HDR + loc.info.fileSize;
    ReleasedRange(loc.info, loc.offset);
    var s := Released(loc.info, withHeader);
    var t := TableOf(img);
    DeletedBranchUnreachable(img, name);
    MarkKeepsChain(img, count, k);
    var img1 := WriteAt(img, loc.offset, EncodeHeader(Marked(loc.info)));
    var u := Combine(InsertSlot(t, s));
    var r := WriteAt(img1, TABLE_OFFSET, EncodeTable(u));
    assert r == DeleteSpec(img, name, withHeader);
    InsertAndCombineKeepBounds(t, s, ENTRY_BASE, |img|);
    DecodeTableIsInt32(img[TABLE_OFFSET..META_OFFSET]);
    forall j | 0 <= j < |u| ensures IsInt32(u[j].startPosition) {
      ReleaseStarts(t, s, j);
    }
    BoundedIsInt32(u, ENTRY_BASE, |img|);
    TableAfterWrite(img1, u);
    forall p ensures Covers(u, p) <==> Covers(t, p) || (FirstEmptyFrom(t, 0).Some? && s.startPosition <= p < s.startPosition + s.size) {
      ReleaseCoverage(t, s, p);
    }
  }

  // ---------------------------------------------------------------- on the open file

  /**
   * delete: find the member; unless it is missing (or DELETED), rewrite its
   * header with status DELETED where it was read, then load the table,
   * insert and combine the released range, and save the table.
   */
  method DeleteMember(f: ArchiveFile, name: seq<byte>, withHeader: bool)
    modifies f
    ensures f.image == DeleteSpec(old(f.image), name, withHeader)
  {
    var found := FindFileInfo(f, name);
    if found.None? {
      return;
    }
    var loc := found.value;
    if loc.info.status == DELETED {
      return;
    }
    DeletedBranchUnreachable(f.image, name);
    f.Write(loc.offset, EncodeHeader(Marked(loc.info)));
    var freeSpaces := new FreeSpaceInfo[MAX_FREE_SPACES];
    LoadFreeSpaces(f, freeSpaces);
    InsertAndCombine(freeSpaces, Released(loc.info, withHeader));
    SaveFreeSpaces(f, freeSpaces);
  }
}

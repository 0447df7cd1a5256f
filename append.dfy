/**
 * append (star.c): place a new member in the first free slot with room for
 * its header and content, or at the end of the file; trim a "previous"
 * header that claims content past the placement; write the header and the
 * content; bump num_files; save the free-space table.
 */
module Append {
  import opened Bytes
  import opened Layout
  import opened FreeSpace
  import opened Records
  import opened Container

  /** Where append puts a member and the table it saves afterwards. */
  datatype Placement = Placement(start: nat, table: seq<FreeSpaceInfo>)

  /**
   * The allocation step for n bytes (sizeof(FileInfo) + file_size): the
   * lowest slot with room, shrunk from its front, or the end of the file
   * with the table left as loaded.
   */
  function Place(t: seq<FreeSpaceInfo>, n: int, eof: nat): (p: Placement)
    requires WithinBounds(t, ENTRY_BASE, eof) && n > 0
    ensures |p.table| == |t|
  {
    match FirstFit(t, n)
    case Some(k) => Placement(t[k].startPosition, TakeFront(t, k, n))
    case None => Placement(eof, t)
  }

  /**
   * The overlap fix: the sizeof(FileInfo) bytes just before the placement
   * are read as a FileInfo when they lie past the metadata; if that header
   * claims content beyond the placement, its file_size is cut by the overlap
   * and it is written back in place.
   */
  function FixOverlap(img: seq<byte>, start: nat): (r: seq<byte>)
    requires start <= |img|
    ensures |r| == |img|
  {
    var prev := start - HDR;
    if prev > ENTRY_BASE then
      var h := HeaderAt(img, prev);
      var overlap := h.startPosition + h.fileSize - start;
      if overlap > 0 then WriteAt(img, prev, EncodeHeader(h.(fileSize := h.fileSize - overlap))) else img
    else img
  }

  /**
   * The end of append: read the metadata, write it back with num_files + 1,
   * then save_free_spaces.
   */
  function BumpAndSave(img: seq<byte>, table: seq<FreeSpaceInfo>): (r: seq<byte>)
    requires ENTRY_BASE <= |img| && |table| == MAX_FREE_SPACES
    ensures |r| == |img|
  {
    var m := MetaAt(img, META_OFFSET);
    var img1 := WriteAt(img, META_OFFSET, EncodeMeta(m.(numFiles := m.numFiles + 1)));
    WriteAt(img1, TABLE_OFFSET, EncodeTable(table))
  }

  /** The image after the overlap fix, when it runs. */
  function Trimmed(img: seq<byte>, start: nat, trim: bool): (r: seq<byte>)
    requires start <= |img|
    ensures |r| == |img|
  {
    if trim then FixOverlap(img, start) else img
  }

  /** The header of the new member, then its content, written at the placement. */
  function PlaceRecord(img: seq<byte>, start: nat, name: seq<byte>, content: seq<byte>): (r: seq<byte>)
    ensures |r| == Max(|img|, start + HDR + |content|)
  {
    WriteAt(img, start, EncodeHeader(NewHeader(name, |content|, start + HDR)) + content)
  }

  /**
   * The container after appending `content` under `name`; with `trim` the
   * overlap fix runs as in star.c, without it the fix is skipped.
   */
  function AppendWith(img: seq<byte>, name: seq<byte>, content: seq<byte>, trim: bool): (r: seq<byte>)
    requires ENTRY_BASE <= |img| && WithinBounds(TableOf(img), ENTRY_BASE, |img|)
    ensures |img| <= |r|
  {
    var p := Place(TableOf(img), |content| + HDR, |img|);
    BumpAndSave(PlaceRecord(Trimmed(img, p.start, trim), p.start, name, content), p.table)
  }

  /** append as star.c has it. */
  function AppendSpec(img: seq<byte>, name: seq<byte>, content: seq<byte>): (r: seq<byte>)
    requires ENTRY_BASE <= |img| && WithinBounds(TableOf(img), ENTRY_BASE, |img|)
    ensures |img| <= |r|
  {
    AppendWith(img, name, content, true)
  }

  /**
   * append with the overlap fix applied to the record that really precedes
   * the placement in the chain. Records lie back to back, so that record
   * ends exactly at the placement and nothing is ever trimmed: the fix
   * disappears.
   */
  function AppendFixed(img: seq<byte>, name: seq<byte>, content: seq<byte>): (r: seq<byte>)
    requires ENTRY_BASE <= |img| && WithinBounds(TableOf(img), ENTRY_BASE, |img|)
    ensures |img| <= |r|
  {
    AppendWith(img, name, content, false)
  }

  // ---------------------------------------------------------------- allocation

  /**
   * Allocation is first fit. When some slot has room, the placement is the
   * start of the lowest such slot (every lower slot is too small), the n
   * bytes taken were free, that slot loses exactly its first n bytes (and is
   * zeroed when nothing is left) and no other slot changes. When none has
   * room, the placement is the end of the file and the table is unchanged.
   * Either way the table stays inside the entry region and no byte becomes
   * free that was not.
   */
  lemma PlaceFirstFit(t: seq<FreeSpaceInfo>, n: int, eof: nat)
    requires WithinBounds(t, ENTRY_BASE, eof) && n > 0
    ensures var p := Place(t, n, eof);
            && (FirstFit(t, n).Some? ==>
                  var k := FirstFit(t, n).value;
                  && k < |t| && p.start == t[k].startPosition && ENTRY_BASE <= p.start && p.start + n <= eof
                  && t[k].size >= n && (forall j :: 0 <= j < k ==> t[j].size < n)
                  && (forall q :: p.start <= q < p.start + n ==> Covers(t, q))
                  && p.table[k] == (if t[k].size == n then FreeSpaceInfo(0, 0) else FreeSpaceInfo(p.start + n, t[k].size - n))
                  && (forall j :: 0 <= j < |t| && j != k ==> p.table[j] == t[j])
                  && SumSizes(p.table) == SumSizes(t) - n)
            && (FirstFit(t, n).None? ==>
                  p.start == eof && p.table == t && forall j :: 0 <= j < |t| ==> t[j].size < n)
            && WithinBounds(p.table, ENTRY_BASE, eof)
            && forall q :: Covers(p.table, q) ==> Covers(t, q)
  {
    match FirstFit(t, n)
    case None =>
    case Some(k) =>
      TakeFrontShrinks(t, n, ENTRY_BASE, eof);
      forall q | t[k].startPosition <= q < t[k].startPosition + n ensures Covers(t, q) {
        assert 0 < t[k].size && t[k].startPosition <= q < t[k].startPosition + t[k].size;
      }
  }

  /** The table append saves holds C ints when the container is shorter than 2^31 bytes. */
  lemma PlaceIsInt32(t: seq<FreeSpaceInfo>, n: int, eof: nat)
    requires WithinBounds(t, ENTRY_BASE, eof) && n > 0 && eof < TWO_31 && TableIsInt32(t)
    ensures WithinBounds(Place(t, n, eof).table, ENTRY_BASE, eof)
    ensures TableIsInt32(Place(t, n, eof).table)
  {
    PlaceFirstFit(t, n, eof);
    var u := Place(t, n, eof).table;
    assert forall j :: 0 <= j < |u| ==> IsInt32(u[j].startPosition) by {
      forall j | 0 <= j < |u| ensures IsInt32(u[j].startPosition) {
        assert SlotIsInt32(t[j]);
      }
    }
    BoundedIsInt32(u, ENTRY_BASE, eof);
  }

  // ---------------------------------------------------------------- the overlap fix

  /**
   * The overlap fix touches only the header sizeof(FileInfo) before the
   * placement, and only when it lies past the metadata and claims content
   * beyond the placement: then its file_size is reduced by exactly the
   * overlap (so the content it claims now ends at the placement) and every
   * other field and every other byte stay as they were. Otherwise nothing
   * changes.
   */
  lemma FixOverlapTrims(img: seq<byte>, start: nat)
    requires start <= |img|
    ensures var r := FixOverlap(img, start);
            var prev := start - HDR;
            if prev > ENTRY_BASE && HeaderAt(img, prev).startPosition + HeaderAt(img, prev).fileSize > start then
              var h := HeaderAt(img, prev);
              var overlap := h.startPosition + h.fileSize - start;
              && HeaderAt(r, prev) == h.(fileSize := Wrap32(h.fileSize - overlap))
              && (IsInt32(start - h.startPosition) ==> HeaderAt(r, prev).startPosition + HeaderAt(r, prev).fileSize == start)
              && SameOutside(img, r, prev + NAME_SIZE + 1, prev + NAME_SIZE + 1 + INT_SIZE)
            else r == img
  {
    var prev := start - HDR;
    if prev > ENTRY_BASE {
      var h := HeaderAt(img, prev);
      var overlap := h.startPosition + h.fileSize - start;
      if overlap > 0 {
        ResizeInPlace(img, prev, h, h.fileSize - overlap);
      }
    }
  }

  // ---------------------------------------------------------------- what append writes

  /** A header and its content written at off read back as written. */
  lemma RecordAfterWrite(img: seq<byte>, off: nat, h: FileInfo, content: seq<byte>)
    requires HeaderIsInt32(h)
    ensures var r := WriteAt(img, off, EncodeHeader(h) + content);
            && |r| == Max(|img|, off + HDR + |content|)
            && HeaderAt(r, off) == h
            && r[off + HDR..off + HDR + |content|] == content
  {
    var data := EncodeHeader(h) + content;
    var r := WriteAt(img, off, data);
    assert r[off..off + |data|] == data;
    SliceOfSlice(r, off, off + |data|, 0, HDR);
    SliceOfSlice(r, off, off + |data|, HDR, |data|);
    assert data[..HDR] == EncodeHeader(h);
    assert data[HDR..] == content;
    DecodeEncodeHeader(h);
  }

  /**
   * The end of append changes only the metadata, whose num_files goes up by
   * one, and the table, which reads back as saved; the entry region and the
   * length stay as they were.
   */
  lemma BumpAndSaveEffect(img: seq<byte>, table: seq<FreeSpaceInfo>)
    requires ENTRY_BASE <= |img| && |table| == MAX_FREE_SPACES && TableIsInt32(table)
    ensures var r := BumpAndSave(img, table);
            var m := MetaAt(img, META_OFFSET);
            && |r| == |img|
            && MetaAt(r, META_OFFSET) == ArchiveMetadata(Wrap32(m.numFiles + 1), m.totalSize)
            && TableOf(r) == table
            && r[ENTRY_BASE..] == img[ENTRY_BASE..]
  {
    var m := MetaAt(img, META_OFFSET);
    var meta := EncodeMeta(m.(numFiles := m.numFiles + 1));
    var img1 := WriteAt(img, META_OFFSET, meta);
    var tbl := EncodeTable(table);
    var r := WriteAt(img1, TABLE_OFFSET, tbl);
    MetaAfterWrite(img, META_OFFSET, m.(numFiles := m.numFiles + 1));
    MetaUntouched(img1, META_OFFSET, TABLE_OFFSET, tbl);
    TableAfterWrite(img1, table);
    WriteAtElsewhere(img, META_OFFSET, meta, ENTRY_BASE, |img|);
    WriteAtElsewhere(img1, TABLE_OFFSET, tbl, ENTRY_BASE, |img|);
  }

  /** The end of append leaves a record past offset 812 as it was. */
  lemma BumpAndSaveKeepsRecord(img: seq<byte>, table: seq<FreeSpaceInfo>, off: nat, len: nat)
    requires ENTRY_BASE <= off && off + HDR + len <= |img| && |table| == MAX_FREE_SPACES
    ensures var r := BumpAndSave(img, table);
            && off + HDR + len <= |r|
            && HeaderAt(r, off) == HeaderAt(img, off)
            && r[off + HDR..off + HDR + len] == img[off + HDR..off + HDR + len]
  {
    var m := MetaAt(img, META_OFFSET);
    var meta := EncodeMeta(m.(numFiles := m.numFiles + 1));
    var img1 := WriteAt(img, META_OFFSET, meta);
    var tbl := EncodeTable(table);
    var r := WriteAt(img1, TABLE_OFFSET, tbl);
    assert r == BumpAndSave(img, table);
    assert r[off..off + HDR] == img[off..off + HDR] by {
      WriteAtElsewhere(img, META_OFFSET, meta, off, off + HDR);
      WriteAtElsewhere(img1, TABLE_OFFSET, tbl, off, off + HDR);
    }
    assert r[off + HDR..off + HDR + len] == img[off + HDR..off + HDR + len] by {
      WriteAtElsewhere(img, META_OFFSET, meta, off + HDR, off + HDR + len);
      WriteAtElsewhere(img1, TABLE_OFFSET, tbl, off + HDR, off + HDR + len);
    }
  }

  /** The overlap fix leaves everything up to the end of the metadata alone. */
  lemma TrimmedKeepsPreamble(img: seq<byte>, start: nat, trim: bool)
    requires start <= |img| && ENTRY_BASE <= |img|
    ensures Trimmed(img, start, trim)[..ENTRY_BASE] == img[..ENTRY_BASE]
  {
    if trim {
      FixOverlapTrims(img, start);
      var r := FixOverlap(img, start);
      if r != img {
        assert forall i :: 0 <= i < ENTRY_BASE ==> r[i] == img[i];
      }
    }
  }

  /** The record append writes reads back, and the write leaves the bytes before offset 812 alone. */
  lemma PlacedRecord(img: seq<byte>, start: nat, name: seq<byte>, content: seq<byte>)
    requires ENTRY_BASE <= start && ENTRY_BASE <= |img| && start + HDR + |content| < TWO_31
    ensures var r := PlaceRecord(img, start, name, content);
            && HeaderAt(r, start) == NewHeader(name, |content|, start + HDR)
            && r[start + HDR..start + HDR + |content|] == content
            && r[..ENTRY_BASE] == img[..ENTRY_BASE]
  {
    var data := EncodeHeader(NewHeader(name, |content|, start + HDR)) + content;
    NewHeaderIsInt32(name, |content|, start + HDR);
    RecordAfterWrite(img, start, NewHeader(name, |content|, start + HDR), content);
    WriteAtElsewhere(img, start, data, 0, ENTRY_BASE);
  }

  /** The placement lies past the metadata and no further than the end of the file. */
  lemma PlaceStart(t: seq<FreeSpaceInfo>, n: int, eof: nat)
    requires WithinBounds(t, ENTRY_BASE, eof) && n > 0 && ENTRY_BASE <= eof
    ensures ENTRY_BASE <= Place(t, n, eof).start <= eof
  {
    PlaceFirstFit(t, n, eof);
  }

  /** A record written at a placement past offset 812 still reads back after the end of append. */
  lemma SavedRecord(img1: seq<byte>, start: nat, name: seq<byte>, content: seq<byte>, table: seq<FreeSpaceInfo>, r: seq<byte>)
    requires ENTRY_BASE <= start <= |img1| && start + HDR + |content| < TWO_31 && |table| == MAX_FREE_SPACES
    requires r == BumpAndSave(PlaceRecord(img1, start, name, content), table)
    ensures |r| == Max(|img1|, start + HDR + |content|)
    ensures HeaderAt(r, start) == NewHeader(name, |content|, start + HDR)
    ensures r[start + HDR..start + HDR + |content|] == content
  {
    var img2 := PlaceRecord(img1, start, name, content);
    PlacedRecord(img1, start, name, content);
    BumpAndSaveKeepsRecord(img2, table, start, |content|);
  }

  /** The record append writes lies at the placement and reads back. */
  lemma AppendPlacesRecord(img: seq<byte>, name: seq<byte>, content: seq<byte>, trim: bool, p: Placement, r: seq<byte>)
    requires ENTRY_BASE <= |img| && WithinBounds(TableOf(img), ENTRY_BASE, |img|)
    requires |img| + HDR + |content| < TWO_31
    requires p == Place(TableOf(img), |content| + HDR, |img|) && r == AppendWith(img, name, content, trim)
    ensures ENTRY_BASE <= p.start
    ensures |r| == Max(|img|, p.start + HDR + |content|)
    ensures HeaderAt(r, p.start) == NewHeader(name, |content|, p.start + HDR)
    ensures r[p.start + HDR..p.start + HDR + |content|] == content
  {
    PlaceStart(TableOf(img), |content| + HDR, |img|);
    SavedRecord(Trimmed(img, p.start, trim), p.start, name, content, p.table, r);
  }

  /** Trimming and writing a record at or past offset 812 leave the table and the metadata bytes alone. */
  lemma PlaceKeepsPreamble(img: seq<byte>, start: nat, name: seq<byte>, content: seq<byte>, trim: bool)
    requires ENTRY_BASE <= start <= |img|
    ensures ENTRY_BASE <= |PlaceRecord(Trimmed(img, start, trim), start, name, content)|
    ensures PlaceRecord(Trimmed(img, start, trim), start, name, content)[..ENTRY_BASE] == img[..ENTRY_BASE]
  {
    var img1 := Trimmed(img, start, trim);
    TrimmedKeepsPreamble(img, start, trim);
    WriteAtElsewhere(img1, start, EncodeHeader(NewHeader(name, |content|, start + HDR)) + content, 0, ENTRY_BASE);
  }

  /** The end of append, after a record placed past offset 812, bumps num_files and saves the table. */
  lemma SavedMetaAndTable(img: seq<byte>, start: nat, name: seq<byte>, content: seq<byte>, trim: bool, table: seq<FreeSpaceInfo>, r: seq<byte>)
    requires ENTRY_BASE <= start <= |img| && |table| == MAX_FREE_SPACES && TableIsInt32(table)
    requires r == BumpAndSave(PlaceRecord(Trimmed(img, start, trim), start, name, content), table)
    ensures |img| <= |r|
    ensures MetaAt(r, META_OFFSET) == ArchiveMetadata(Wrap32(MetaAt(img, META_OFFSET).numFiles + 1), MetaAt(img, META_OFFSET).totalSize)
    ensures TableOf(r) == table
  {
    var img2 := PlaceRecord(Trimmed(img, start, trim), start, name, content);
    PlaceKeepsPreamble(img, start, name, content, trim);
    BumpAndSaveEffect(img2, table);
    SamePreamble(img2, img);
  }

  /** append saves the allocation's table and bumps num_files, leaving total_size alone. */
  lemma AppendBumpsCount(img: seq<byte>, name: seq<byte>, content: seq<byte>, trim: bool, p: Placement, r: seq<byte>)
    requires ENTRY_BASE <= |img| && WithinBounds(TableOf(img), ENTRY_BASE, |img|)
    requires |img| + HDR + |content| < TWO_31
    requires p == Place(TableOf(img), |content| + HDR, |img|) && r == AppendWith(img, name, content, trim)
    ensures MetaAt(r, META_OFFSET) == ArchiveMetadata(Wrap32(MetaAt(img, META_OFFSET).numFiles + 1), MetaAt(img, META_OFFSET).totalSize)
    ensures TableOf(r) == p.table
    ensures WithinBounds(TableOf(r), ENTRY_BASE, |r|)
  {
    DecodeTableIsInt32(img[TABLE_OFFSET..META_OFFSET]);
    PlaceIsInt32(TableOf(img), |content| + HDR, |img|);
    PlaceStart(TableOf(img), |content| + HDR, |img|);
    SavedMetaAndTable(img, p.start, name, content, trim, p.table, r);
  }

  /**
   * What append writes, with or without the overlap fix: at the placement a
   * header that reads back with the member's name (truncated to 254 bytes),
   * file_size, status ACTIVE and start_position just past itself, then the
   * content; num_files one more than before (total_size untouched); the
   * allocation's table saved, still inside the entry region. The file grows
   * only when the member goes past its end.
   */
  lemma AppendWrites(img: seq<byte>, name: seq<byte>, content: seq<byte>, trim: bool, p: Placement, r: seq<byte>)
    requires ENTRY_BASE <= |img| && WithinBounds(TableOf(img), ENTRY_BASE, |img|)
    requires |img| + HDR + |content| < TWO_31 && NulFree(name)
    requires p == Place(TableOf(img), |content| + HDR, |img|) && r == AppendWith(img, name, content, trim)
    ensures ENTRY_BASE <= p.start
    ensures |r| == Max(|img|, p.start + HDR + |content|)
    ensures HeaderAt(r, p.start) == NewHeader(name, |content|, p.start + HDR)
    ensures CName(HeaderAt(r, p.start).filename) == StoredName(name)
    ensures HeaderAt(r, p.start).status == ACTIVE
    ensures r[p.start + HDR..p.start + HDR + |content|] == content
    ensures MetaAt(r, META_OFFSET) == ArchiveMetadata(Wrap32(MetaAt(img, META_OFFSET).numFiles + 1), MetaAt(img, META_OFFSET).totalSize)
    ensures TableOf(r) == p.table
    ensures WithinBounds(TableOf(r), ENTRY_BASE, |r|)
  {
    AppendPlacesRecord(img, name, content, trim, p, r);
    AppendBumpsCount(img, name, content, trim, p, r);
    CNameOfNameField(name);
  }

  // ---------------------------------------------------------------- on the open file

  /** The first-fit search and the front shrink of the chosen slot, on the loaded table; the end of the file when nothing fits. */
  method Allocate(freeSpaces: array<FreeSpaceInfo>, n: int, eof: nat) returns (start: nat)
    requires freeSpaces.Length == MAX_FREE_SPACES && WithinBounds(freeSpaces[..], ENTRY_BASE, eof) && n > 0
    modifies freeSpaces
    ensures Placement(start, freeSpaces[..]) == Place(old(freeSpaces[..]), n, eof)
  {
    var indexFound := FindFirstFit(freeSpaces, n);
    if indexFound != -1 {
      var position := TakeFromSlot(freeSpaces, indexFound, n);
      start := position;
    } else {
      start := eof;
    }
  }

  /** The overlap fix: read the header-sized block before the placement and trim its file_size if it runs past it. */
  method FixOverlapAt(f: ArchiveFile, start: nat)
    requires start <= |f.image|
    modifies f
    ensures f.image == FixOverlap(old(f.image), start)
  {
    var img := f.image;
    var prevFileEndPos := start - HDR;
    if prevFileEndPos > ENTRY_BASE {
      var prevFileInfo := HeaderAt(img, prevFileEndPos);
      var overlap := prevFileInfo.startPosition + prevFileInfo.fileSize - start;
      if overlap > 0 {
        var trimmed := EncodeHeader(prevFileInfo.(fileSize := prevFileInfo.fileSize - overlap));
        assert FixOverlap(img, start) == WriteAt(img, prevFileEndPos, trimmed);
        f.Write(prevFileEndPos, trimmed);
      } else {
        assert FixOverlap(img, start) == img;
      }
    } else {
      assert FixOverlap(img, start) == img;
    }
  }

  /** append (star.c) on the open container, with the member file's bytes as `content`. */
  method AppendMember(f: ArchiveFile, name: seq<byte>, content: seq<byte>)
    requires ENTRY_BASE <= |f.image| && WithinBounds(TableOf(f.image), ENTRY_BASE, |f.image|)
    modifies f
    ensures f.image == AppendSpec(old(f.image), name, content)
  {
    ghost var img := f.image;
    var fileSize := |content|;
    var freeSpaces := new FreeSpaceInfo[MAX_FREE_SPACES];
    LoadFreeSpaces(f, freeSpaces);
    var start := Allocate(freeSpaces, fileSize + HDR, |f.image|);
    ghost var placed := Place(TableOf(img), fileSize + HDR, |img|);
    ghost var table := freeSpaces[..];
    PlaceStart(TableOf(img), fileSize + HDR, |img|);
    FixOverlapAt(f, start);
    WriteRecord(f, start, name, content);
    assert freeSpaces[..] == table;
    BumpCountAndSave(f, freeSpaces);
  }

  /** The new header at the placement, then the member's bytes right after it. */
  method WriteRecord(f: ArchiveFile, start: nat, name: seq<byte>, content: seq<byte>)
    modifies f
    ensures f.image == PlaceRecord(old(f.image), start, name, content)
  {
    var header := EncodeHeader(NewHeader(name, |content|, start + HDR));
    f.Write(start, header);
    f.Write(start + HDR, content);
    WriteAtSplit(old(f.image), start, header, content);
  }

  /** The end of append: num_files + 1 written back over the metadata, then save_free_spaces. */
  method BumpCountAndSave(f: ArchiveFile, freeSpaces: array<FreeSpaceInfo>)
    requires ENTRY_BASE <= |f.image| && freeSpaces.Length == MAX_FREE_SPACES
    modifies f
    ensures f.image == BumpAndSave(old(f.image), freeSpaces[..])
  {
    ghost var img := f.image;
    var metadata := MetaAt(f.image, META_OFFSET);
    var bumped := EncodeMeta(metadata.(numFiles := metadata.numFiles + 1));
    f.Write(META_OFFSET, bumped);
    ghost var img1 := f.image;
    SaveFreeSpaces(f, freeSpaces);
    BumpAndSaveIs(img, img1, f.image, freeSpaces[..]);
  }

  lemma BumpAndSaveIs(img: seq<byte>, img1: seq<byte>, r: seq<byte>, table: seq<FreeSpaceInfo>)
    requires ENTRY_BASE <= |img| && |table| == MAX_FREE_SPACES
    requires img1 == WriteAt(img, META_OFFSET, EncodeMeta(MetaAt(img, META_OFFSET).(numFiles := MetaAt(img, META_OFFSET).numFiles + 1)))
    requires r == WriteAt(img1, TABLE_OFFSET, EncodeTable(table))
    ensures r == BumpAndSave(img, table)
  {
  }
}

module AppendChain {
  import opened Bytes
  import opened Layout
  import opened FreeSpace
  import opened Records
  import opened Append

  /**
   * On record lists: after a record is added at the end, a lookup answers as
   * before for every name an earlier record holds; a name no earlier record
   * holds is found at the new record (unless it is DELETED).
   */
  lemma LookupSnoc(es: seq<Entry>, e: Entry, name: seq<byte>)
    ensures LookupIn(es + [e], name) ==
              if FirstIndex(es, name).Some? then LookupIn(es, name)
              else if CName(e.header.filename) == name && e.header.status != DELETED then Some(Located(e.header, e.offset))
              else None
  {
    var es' := es + [e];
    match FirstIndex(es, name)
    case Some(k) =>
      FirstIndexIs(es', name, k);
    case None =>
      if CName(e.header.filename) == name {
        FirstIndexIs(es', name, |es|);
      } else {
        assert FirstIndex(es', name).None?;
      }
  }

  /** find_file_info answers every name as the lookup over the records of a walkable container. */
  lemma FindOverEntries(img: seq<byte>, count: nat)
    requires Walkable(img, count)
    ensures forall nm :: FindSpec(img, nm) == LookupIn(Entries(img, ENTRY_BASE, count), nm)
  {
    forall nm ensures FindSpec(img, nm) == LookupIn(Entries(img, ENTRY_BASE, count), nm) {
      FindMatchesEntries(img, count, nm);
    }
  }

  /** A record whose header points just past itself keeps a consistent list consistent. */
  lemma ConsistentSnoc(es: seq<Entry>, e: Entry)
    requires e.header.startPosition == e.offset + HDR
    ensures Consistent(es) ==> Consistent(es + [e])
  {
    if Consistent(es) {
      forall k | 0 <= k < |es| + 1 ensures (es + [e])[k].header.startPosition == (es + [e])[k].offset + HDR {
        if k < |es| {
          assert (es + [e])[k] == es[k];
        }
      }
    }
  }

  /** Past offset 812, the file after writing a record at its end holds the serialized records, old and new. */
  lemma PlacedBytes(img: seq<byte>, count: nat, e: Entry, r: seq<byte>)
    requires ENTRY_BASE <= |img| && Chain(img, ENTRY_BASE, count) && ChainEnd(img, ENTRY_BASE, count) == |img|
    requires r == WriteAt(img, |img|, EncodeHeader(e.header) + e.content)
    ensures ENTRY_BASE + |Serialize(Entries(img, ENTRY_BASE, count) + [e])| == |r|
    ensures r[ENTRY_BASE..|r|] == Serialize(Entries(img, ENTRY_BASE, count) + [e])
  {
    var es := Entries(img, ENTRY_BASE, count);
    assert r == img + RecordBytes(e);
    ChainIsSerialized(img, ENTRY_BASE, count);
    SerializeAppend(es, e);
    assert r[ENTRY_BASE..|r|] == img[ENTRY_BASE..] + RecordBytes(e);
  }

  /** The new record continues the layout of the old ones. */
  lemma PlacedLaid(img: seq<byte>, count: nat, name: seq<byte>, content: seq<byte>)
    requires ENTRY_BASE <= |img| && Chain(img, ENTRY_BASE, count) && ChainEnd(img, ENTRY_BASE, count) == |img|
    requires |img| + HDR + |content| < TWO_31
    ensures Laid(Entries(img, ENTRY_BASE, count) + [Entry(|img|, NewHeader(name, |content|, |img| + HDR), content)], ENTRY_BASE)
  {
    ChainIsSerialized(img, ENTRY_BASE, count);
    EntriesAreLaid(img, ENTRY_BASE, count);
    NewHeaderIsInt32(name, |content|, |img| + HDR);
    LaidSnoc(Entries(img, ENTRY_BASE, count), Entry(|img|, NewHeader(name, |content|, |img| + HDR), content), ENTRY_BASE);
  }

  /** The record append writes at the end of a walkable container extends its chain by one. */
  lemma PlacedAtEnd(img: seq<byte>, count: nat, name: seq<byte>, content: seq<byte>)
    requires ENTRY_BASE <= |img| && Chain(img, ENTRY_BASE, count) && ChainEnd(img, ENTRY_BASE, count) == |img|
    requires |img| + HDR + |content| < TWO_31
    ensures var r := PlaceRecord(img, |img|, name, content);
            var e := Entry(|img|, NewHeader(name, |content|, |img| + HDR), content);
            && Chain(r, ENTRY_BASE, count + 1)
            && ChainEnd(r, ENTRY_BASE, count + 1) == |r|
            && Entries(r, ENTRY_BASE, count + 1) == Entries(img, ENTRY_BASE, count) + [e]
            && r[..ENTRY_BASE] == img[..ENTRY_BASE]
  {
    var e := Entry(|img|, NewHeader(name, |content|, |img| + HDR), content);
    var es := Entries(img, ENTRY_BASE, count);
    var r := PlaceRecord(img, |img|, name, content);
    PlacedBytes(img, count, e, r);
    PlacedLaid(img, count, name, content);
    ParseSerialized(r, ENTRY_BASE, es + [e]);
    WriteAtElsewhere(img, |img|, EncodeHeader(e.header) + content, 0, ENTRY_BASE);
  }

  /** With no free slot large enough, append without the overlap fix writes at the end of the file and keeps the table. */
  lemma AppendFixedIsAtEnd(img: seq<byte>, name: seq<byte>, content: seq<byte>)
    requires ENTRY_BASE <= |img| && WithinBounds(TableOf(img), ENTRY_BASE, |img|)
    requires FirstFit(TableOf(img), |content| + HDR).None?
    ensures AppendFixed(img, name, content) == BumpAndSave(PlaceRecord(img, |img|, name, content), TableOf(img))
  {
    PlaceFirstFit(TableOf(img), |content| + HDR, |img|);
  }

  /** The record append puts at the end of the file. */
  function EndRecord(img: seq<byte>, name: seq<byte>, content: seq<byte>): (e: Entry)
    ensures e.offset == |img| && e.content == content && e.header.fileSize == |content|
  {
    Entry(|img|, NewHeader(name, |content|, |img| + HDR), content)
  }

  /** A chain that fills the file survives any rewrite of the bytes before offset 812. */
  lemma PreambleRewriteKeepsChain(img: seq<byte>, r: seq<byte>, count: nat)
    requires ENTRY_BASE <= |img| && Chain(img, ENTRY_BASE, count) && ChainEnd(img, ENTRY_BASE, count) == |img|
    requires |r| == |img| && r[ENTRY_BASE..] == img[ENTRY_BASE..]
    ensures Chain(r, ENTRY_BASE, count) && ChainEnd(r, ENTRY_BASE, count) == |r|
    ensures Entries(r, ENTRY_BASE, count) == Entries(img, ENTRY_BASE, count)
  {
    assert r[ENTRY_BASE..|img|] == img[ENTRY_BASE..|img|];
    ChainFrame(img, r, ENTRY_BASE, count);
  }

  /** ... and counts the new record in num_files and keeps the table. */
  lemma SavedMeta(img: seq<byte>, name: seq<byte>, content: seq<byte>)
    requires ENTRY_BASE <= |img| && |img| + HDR + |content| < TWO_31
    ensures var r := BumpAndSave(PlaceRecord(img, |img|, name, content), TableOf(img));
            && MetaAt(r, META_OFFSET).numFiles == Wrap32(MetaAt(img, META_OFFSET).numFiles + 1)
            && TableOf(r) == TableOf(img)
  {
    var img2 := PlaceRecord(img, |img|, name, content);
    WriteAtElsewhere(img, |img|, EncodeHeader(NewHeader(name, |content|, |img| + HDR)) + content, 0, ENTRY_BASE);
    SamePreamble(img2, img);
    DecodeTableIsInt32(img[TABLE_OFFSET..META_OFFSET]);
    BumpAndSaveEffect(img2, TableOf(img));
  }

  /** Both containers are walkable and the records of r are those of img followed by e. */
  predicate ExtendedBy(img: seq<byte>, count: nat, r: seq<byte>, e: Entry)
  {
    Walkable(img, count) && Walkable(r, count + 1) &&
    Entries(r, ENTRY_BASE, count + 1) == Entries(img, ENTRY_BASE, count) + [e]
  }

  /** Placing a record at the end and saving keeps the container walkable, with the new record last. */
  lemma SavedAtEnd(img: seq<byte>, count: nat, name: seq<byte>, content: seq<byte>, img2: seq<byte>, r: seq<byte>)
    requires Walkable(img, count)
    requires |img| + HDR + |content| < TWO_31 && MetaAt(img, META_OFFSET).numFiles < TWO_31 - 1
    requires img2 == PlaceRecord(img, |img|, name, content)
    requires r == BumpAndSave(img2, TableOf(img))
    ensures ExtendedBy(img, count, r, EndRecord(img, name, content))
    ensures TableOf(img) == TableOf(r)
  {
    PlacedAtEnd(img, count, name, content);
    DecodeTableIsInt32(img[TABLE_OFFSET..META_OFFSET]);
    BumpAndSaveEffect(img2, TableOf(img));
    PreambleRewriteKeepsChain(img2, r, count + 1);
    SavedMeta(img, name, content);
  }

  /**
   * Appending (without the byte-level overlap fix) to a walkable container
   * when no free slot has room puts the member at the end of the file: the
   * container stays walkable, its records are the old ones followed by the
   * new one, headers still point at their own content, and find_file_info
   * answers over that extended list, so the new member is found unless an
   * earlier record already holds its name.
   */
  lemma AppendFixedExtendsChain(img: seq<byte>, count: nat, name: seq<byte>, content: seq<byte>, r: seq<byte>)
    requires Walkable(img, count) && WithinBounds(TableOf(img), ENTRY_BASE, |img|)
    requires FirstFit(TableOf(img), |content| + HDR).None?
    requires |img| + HDR + |content| < TWO_31 && MetaAt(img, META_OFFSET).numFiles < TWO_31 - 1
    requires r == AppendFixed(img, name, content)
    ensures ExtendedBy(img, count, r, EndRecord(img, name, content))
    ensures Consistent(Entries(img, ENTRY_BASE, count)) ==> Consistent(Entries(r, ENTRY_BASE, count + 1))
    ensures TableOf(r) == TableOf(img)
    ensures forall nm :: FindSpec(r, nm) == LookupIn(Entries(img, ENTRY_BASE, count) + [EndRecord(img, name, content)], nm)
  {
    AppendFixedIsAtEnd(img, name, content);
    SavedAtEnd(img, count, name, content, PlaceRecord(img, |img|, name, content), r);
    FindOverEntries(r, count + 1);
    ConsistentSnoc(Entries(img, ENTRY_BASE, count), EndRecord(img, name, content));
  }
}

module AppendFindings {
  import opened Bytes
  import opened Layout
  import opened FreeSpace
  import opened Records
  import opened Create
  import opened Append
  import opened AppendChain

  /** Two images whose headers at x differ differ on every slice covering that header. */
  lemma HeaderChangeShows(a: seq<byte>, b: seq<byte>, lo: nat, x: nat, hi: nat)
    requires lo <= x && x + HDR <= hi && hi <= |a| && hi <= |b|
    requires HeaderAt(a, x) != HeaderAt(b, x)
    ensures a[lo..hi] != b[lo..hi]
  {
    assert a[x..x + HDR] != b[x..x + HDR];
    var i :| x <= i < x + HDR && a[i] != b[i];
    assert a[lo..hi][i - lo] != b[lo..hi][i - lo];
  }

  /** With no free slot large enough, append as written fixes the overlap at the end of the file and writes there. */
  lemma AppendSpecIsAtEnd(img: seq<byte>, name: seq<byte>, content: seq<byte>)
    requires ENTRY_BASE <= |img| && WithinBounds(TableOf(img), ENTRY_BASE, |img|)
    requires FirstFit(TableOf(img), |content| + HDR).None?
    ensures AppendSpec(img, name, content) ==
              BumpAndSave(PlaceRecord(FixOverlap(img, |img|), |img|, name, content), TableOf(img))
  {
    PlaceFirstFit(TableOf(img), |content| + HDR, |img|);
  }

  /** Bytes from offset 812 up to the old end of the file survive writing a record at the end and saving the table. */
  lemma SavedKeepsBefore(img: seq<byte>, name: seq<byte>, content: seq<byte>, lo: nat)
    requires META_OFFSET <= |img| && ENTRY_BASE <= lo <= |img|
    ensures var r := BumpAndSave(PlaceRecord(img, |img|, name, content), TableOf(img));
            |img| <= |r| && r[lo..|img|] == img[lo..|img|]
  {
    var t := TableOf(img);
    var img2 := PlaceRecord(img, |img|, name, content);
    var r := BumpAndSave(img2, t);
    WriteAtElsewhere(img, |img|, EncodeHeader(NewHeader(name, |content|, |img| + HDR)) + content, lo, |img|);
    DecodeTableIsInt32(img[TABLE_OFFSET..META_OFFSET]);
    BumpAndSaveEffect(img2, t);
    SameFrom(r, img2, ENTRY_BASE, lo, |img|);
  }

  /**
   * The 268 bytes at `tail`, the last ones of the file, decode as a header
   * whose content would run past the end of the file, and trimming it to end
   * there gives it a different file_size.
   */
  predicate TailClaimsPastEnd(img: seq<byte>, tail: nat)
  {
    tail + HDR == |img| &&
    var h := HeaderAt(img, tail);
    h.startPosition + h.fileSize > |img| && Wrap32(|img| - h.startPosition) != h.fileSize
  }

  /** The overlap fix changes the header at `tail`, just before `start`, whenever it trims it to a different file_size. */
  lemma FixOverlapChanges(img: seq<byte>, tail: nat, start: nat)
    requires ENTRY_BASE < tail && tail + HDR == start <= |img|
    requires var h := HeaderAt(img, tail);
             h.startPosition + h.fileSize > start && Wrap32(start - h.startPosition) != h.fileSize
    ensures HeaderAt(FixOverlap(img, start), tail) != HeaderAt(img, tail)
    ensures TableOf(FixOverlap(img, start)) == TableOf(img)
  {
    var h := HeaderAt(img, tail);
    var w := h.fileSize - (h.startPosition + h.fileSize - start);
    assert w == start - h.startPosition;
    FixOverlapTrims(img, start);
    assert HeaderAt(FixOverlap(img, start), tail).fileSize == Wrap32(w);
    SameOutsideSlice(img, FixOverlap(img, start), tail + NAME_SIZE + 1, tail + NAME_SIZE + 1 + INT_SIZE, TABLE_OFFSET, META_OFFSET);
  }

  /** A header lying before the old end of the file reads the same after a record is written at the end and the table saved. */
  lemma SavedKeepsHeader(img: seq<byte>, name: seq<byte>, content: seq<byte>, at: nat)
    requires META_OFFSET <= |img| && ENTRY_BASE <= at && at + HDR <= |img|
    ensures var r := BumpAndSave(PlaceRecord(img, |img|, name, content), TableOf(img));
            at + HDR <= |r| && HeaderAt(r, at) == HeaderAt(img, at)
  {
    var r := BumpAndSave(PlaceRecord(img, |img|, name, content), TableOf(img));
    SavedKeepsBefore(img, name, content, at);
    SliceOfSlice(r, at, |img|, 0, HDR);
    SliceOfSlice(img, at, |img|, 0, HDR);
  }

  /**
   * The setting of the overlap finding: the 268 bytes at `tail`, past the
   * metadata and last in the file, decode as a header claiming bytes past
   * the end, and no free slot has room for the new member.
   */
  predicate RewriteCase(img: seq<byte>, tail: nat, content: seq<byte>)
  {
    ENTRY_BASE < tail && TailClaimsPastEnd(img, tail) &&
    WithinBounds(TableOf(img), ENTRY_BASE, |img|) && FirstFit(TableOf(img), |content| + HDR).None?
  }

  /**
   * In that setting append as written rewrites the 268 bytes at `tail` (with
   * a different file_size) while extending the file.
   */
  lemma AppendRewritesTail(img: seq<byte>, tail: nat, name: seq<byte>, content: seq<byte>, r: seq<byte>)
    requires RewriteCase(img, tail, content) && r == AppendSpec(img, name, content)
    ensures |img| <= |r| && HeaderAt(r, tail) != HeaderAt(img, tail)
  {
    var img1 := FixOverlap(img, |img|);
    var r1 := BumpAndSave(PlaceRecord(img1, |img|, name, content), TableOf(img1));
    assert HeaderAt(r1, tail) != HeaderAt(img, tail) by {
      SavedKeepsHeader(img1, name, content, tail);
      FixOverlapChanges(img, tail, |img|);
    }
    assert r1 == r by {
      FixOverlapChanges(img, tail, |img|);
      AppendSpecIsAtEnd(img, name, content);
    }
  }

  /** The last record of a walkable container: its content runs up to the end of the file. */
  lemma LastRecord(img: seq<byte>, count: nat)
    requires Walkable(img, count) && 0 < count
    ensures var last := Entries(img, ENTRY_BASE, count)[count - 1];
            && ENTRY_BASE <= last.offset && last.offset + HDR + |last.content| == |img|
            && last.content == img[last.offset + HDR..|img|]
  {
    EntriesOffsets(img, ENTRY_BASE, count, count - 1);
    LastEndsChain(img, ENTRY_BASE, count);
    EntryContent(img, ENTRY_BASE, count, count - 1);
  }

  /**
   * When the last record holds at least 268 bytes of content, the 268 bytes
   * at the end of the file lie inside that content, past the metadata: any
   * longer file whose header there reads differently no longer holds that
   * content.
   */
  lemma TailChangeClobbers(img: seq<byte>, count: nat, tail: nat, last: Entry, r: seq<byte>)
    requires Walkable(img, count) && 0 < count && last == Entries(img, ENTRY_BASE, count)[count - 1]
    requires HDR <= |last.content| && tail + HDR == |img|
    ensures ENTRY_BASE < tail
    ensures |img| <= |r| && HeaderAt(r, tail) != HeaderAt(img, tail) ==>
              last.offset + HDR <= |img| && r[last.offset + HDR..|img|] != last.content
  {
    LastRecord(img, count);
    if |img| <= |r| && HeaderAt(r, tail) != HeaderAt(img, tail) {
      HeaderChangeShows(r, img, last.offset + HDR, tail, |img|);
    }
  }

  /**
   * star.c's overlap fix, as written, reads the 268 bytes just before the
   * placement as a header. When the file is extended at its end those bytes
   * are the tail of the last member's content whenever that content is at
   * least 268 bytes long, and when they happen to decode as a header that
   * claims bytes past the end of the file, append overwrites four of them:
   * the last member's stored content is no longer what was stored.
   */
  lemma AppendTrimClobbers(img: seq<byte>, count: nat, tail: nat, name: seq<byte>, content: seq<byte>, last: Entry, r: seq<byte>)
    requires Walkable(img, count) && 0 < count && last == Entries(img, ENTRY_BASE, count)[count - 1]
    requires HDR <= |last.content| && TailClaimsPastEnd(img, tail)
    requires WithinBounds(TableOf(img), ENTRY_BASE, |img|) && FirstFit(TableOf(img), |content| + HDR).None?
    requires r == AppendSpec(img, name, content)
    ensures last.offset + HDR <= |img| && r[last.offset + HDR..|img|] != last.content
  {
    TailChangeClobbers(img, count, tail, last, r);
    AppendRewritesTail(img, tail, name, content, r);
  }
}

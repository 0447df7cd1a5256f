/**
 * The container layout: the fixed-size structures of the archive and where
 * they sit in the file.
 *
 *   offset 0     int free_count (written as 0 and never read)
 *   offset 4     FreeSpaceInfo free_spaces[100]
 *   offset 804   ArchiveMetadata { num_files, total_size }
 *   offset 812   records: FileInfo followed by file_size content bytes, back to back
 *
 * Each structure is encoded exactly as its C struct lies in memory, so a
 * struct read with fread and written back with fwrite gives the same bytes.
 */
module Layout {
  import opened Bytes

  const INT_SIZE: nat := 4
  /** sizeof(FreeSpaceInfo) */
  const SLOT_SIZE: nat := 8
  const MAX_FREE_SPACES: nat := 100
  /** sizeof(ArchiveMetadata) */
  const META_SIZE: nat := 8
  /** char filename[255] */
  const NAME_SIZE: nat := 255
  /** sizeof(FileInfo): 255 name bytes, one padding byte, three ints */
  const HDR: nat := 268
  const TABLE_OFFSET: nat := INT_SIZE
  const META_OFFSET: nat := TABLE_OFFSET + MAX_FREE_SPACES * SLOT_SIZE
  const ENTRY_BASE: nat := META_OFFSET + META_SIZE

  /** The values of the FileStatus enum. */
  const ACTIVE: int := 0
  const DELETED: int := 1

  type NameField = s: seq<byte> | |s| == NAME_SIZE witness Zeros(NAME_SIZE)

  datatype FileInfo = FileInfo(filename: NameField, padding: byte, fileSize: int, startPosition: int, status: int)

  datatype FreeSpaceInfo = FreeSpaceInfo(startPosition: int, size: int)

  datatype ArchiveMetadata = ArchiveMetadata(numFiles: int, totalSize: int)

  // ---------------------------------------------------------------- names

  predicate NulFree(s: seq<byte>) { forall k :: 0 <= k < |s| ==> s[k] != 0 }

  /** The C string held in a filename field: the bytes before its first NUL. */
  function CName(field: seq<byte>): (r: seq<byte>)
    ensures NulFree(r) && r <= field
    ensures |r| < |field| ==> field[|r|] == 0
  {
    if field == [] || field[0] == 0 then [] else [field[0]] + CName(field[1..])
  }

  /** The part of a member's name that survives `strncpy(filename, name, 255); filename[254] = '\0'`. */
  function StoredName(name: seq<byte>): (r: seq<byte>)
    ensures |r| <= NAME_SIZE - 1 && r <= name
    ensures |name| <= NAME_SIZE - 1 ==> r == name
  {
    name[..Min(|name|, NAME_SIZE - 1)]
  }

  /** The filename field strncpy fills from a C string: the stored name, then NUL padding. */
  function NameFieldOf(name: seq<byte>): NameField
  {
    var s := StoredName(name);
    s + Zeros(NAME_SIZE - |s|)
  }

  lemma CNameOfPrefix(s: seq<byte>, field: seq<byte>)
    requires NulFree(s) && |s| < |field| && field[..|s|] == s && field[|s|] == 0
    ensures CName(field) == s
  {
    if s != [] {
      assert field[1..][..|s| - 1] == s[1..];
      CNameOfPrefix(s[1..], field[1..]);
    }
  }

  /** The name strcmp reads back from a freshly written field is the stored name. */
  lemma CNameOfNameField(name: seq<byte>)
    requires NulFree(name)
    ensures CName(NameFieldOf(name)) == StoredName(name)
  {
    var s := StoredName(name);
    var f := NameFieldOf(name);
    assert f[..|s|] == s;
    CNameOfPrefix(s, f);
  }

  /** A header as `append` and `create` fill it in for a new member. */
  function NewHeader(name: seq<byte>, size: int, start: int): FileInfo
  {
    FileInfo(NameFieldOf(name), 0, size, start, ACTIVE)
  }

  /** A header create or append writes, when its ints fit a C int. */
  lemma NewHeaderIsInt32(name: seq<byte>, size: nat, start: nat)
    requires size < TWO_31 && start < TWO_31
    ensures HeaderIsInt32(NewHeader(name, size, start))
  {
  }

  // ---------------------------------------------------------------- FileInfo codec

  function EncodeHeader(h: FileInfo): (r: seq<byte>)
    ensures |r| == HDR
  {
    h.filename + [h.padding] + EncodeInt(h.fileSize) + EncodeInt(h.startPosition) + EncodeInt(h.status)
  }

  function DecodeHeader(b: seq<byte>): FileInfo
    requires |b| == HDR
  {
    FileInfo(b[..NAME_SIZE], b[NAME_SIZE], DecodeInt(b[256..260]), DecodeInt(b[260..264]), DecodeInt(b[264..268]))
  }

  predicate HeaderIsInt32(h: FileInfo)
  {
    IsInt32(h.fileSize) && IsInt32(h.startPosition) && IsInt32(h.status)
  }

  function WrapHeader(h: FileInfo): (r: FileInfo)
    ensures HeaderIsInt32(r)
    ensures HeaderIsInt32(h) ==> r == h
  {
    h.(fileSize := Wrap32(h.fileSize), startPosition := Wrap32(h.startPosition), status := Wrap32(h.status))
  }

  /** Reading back a written FileInfo gives the struct with its ints wrapped to 32 bits. */
  lemma DecodeEncodeHeader(h: FileInfo)
    ensures DecodeHeader(EncodeHeader(h)) == WrapHeader(h)
  {
    var b := EncodeHeader(h);
    assert b[..NAME_SIZE] == h.filename;
    assert b[256..260] == EncodeInt(h.fileSize);
    assert b[260..264] == EncodeInt(h.startPosition);
    assert b[264..268] == EncodeInt(h.status);
    DecodeEncodeInt(h.fileSize);
    DecodeEncodeInt(h.startPosition);
    DecodeEncodeInt(h.status);
  }

  /** Every 268-byte block is the image of the FileInfo read from it. */
  lemma EncodeDecodeHeader(b: seq<byte>)
    requires |b| == HDR
    ensures EncodeHeader(DecodeHeader(b)) == b
  {
    EncodeDecodeInt(b[256..260]);
    EncodeDecodeInt(b[260..264]);
    EncodeDecodeInt(b[264..268]);
    assert b == b[..NAME_SIZE] + [b[NAME_SIZE]] + b[256..260] + b[260..264] + b[264..268];
  }

  // ---------------------------------------------------------------- free-space table codec

  function EncodeSlot(s: FreeSpaceInfo): (r: seq<byte>)
    ensures |r| == SLOT_SIZE
  {
    EncodeInt(s.startPosition) + EncodeInt(s.size)
  }

  function DecodeSlot(b: seq<byte>): FreeSpaceInfo
    requires |b| == SLOT_SIZE
  {
    FreeSpaceInfo(DecodeInt(b[..4]), DecodeInt(b[4..]))
  }

  predicate SlotIsInt32(s: FreeSpaceInfo) { IsInt32(s.startPosition) && IsInt32(s.size) }

  predicate TableIsInt32(t: seq<FreeSpaceInfo>) { forall k :: 0 <= k < |t| ==> SlotIsInt32(t[k]) }

  lemma DecodeEncodeSlot(s: FreeSpaceInfo)
    requires SlotIsInt32(s)
    ensures DecodeSlot(EncodeSlot(s)) == s
  {
    var b := EncodeSlot(s);
    assert b[..4] == EncodeInt(s.startPosition) && b[4..] == EncodeInt(s.size);
    DecodeEncodeInt(s.startPosition);
    DecodeEncodeInt(s.size);
  }

  lemma EncodeDecodeSlot(b: seq<byte>)
    requires |b| == SLOT_SIZE
    ensures EncodeSlot(DecodeSlot(b)) == b
  {
    EncodeDecodeInt(b[..4]);
    EncodeDecodeInt(b[4..]);
    assert b == b[..4] + b[4..];
  }

  /** `fwrite(free_spaces, sizeof(FreeSpaceInfo), n, f)`: the slots back to back. */
  function EncodeTable(t: seq<FreeSpaceInfo>): (r: seq<byte>)
    ensures |r| == SLOT_SIZE * |t|
  {
    if t == [] then [] else EncodeSlot(t[0]) + EncodeTable(t[1..])
  }

  /** `fread(free_spaces, sizeof(FreeSpaceInfo), n, f)` over `b`. */
  function DecodeTable(b: seq<byte>): (t: seq<FreeSpaceInfo>)
    requires |b| % SLOT_SIZE == 0
    ensures |t| == |b| / SLOT_SIZE
  {
    if b == [] then [] else [DecodeSlot(b[..SLOT_SIZE])] + DecodeTable(b[SLOT_SIZE..])
  }

  /** save_free_spaces followed by load_free_spaces gives the table back. */
  lemma {:induction false} DecodeEncodeTable(t: seq<FreeSpaceInfo>)
    requires TableIsInt32(t)
    ensures DecodeTable(EncodeTable(t)) == t
  {
    if t != [] {
      var b := EncodeTable(t);
      assert b[..SLOT_SIZE] == EncodeSlot(t[0]);
      assert b[SLOT_SIZE..] == EncodeTable(t[1..]);
      DecodeEncodeSlot(t[0]);
      DecodeEncodeTable(t[1..]);
    }
  }

  /** load_free_spaces followed by save_free_spaces rewrites the same bytes. */
  lemma {:induction false} EncodeDecodeTable(b: seq<byte>)
    requires |b| % SLOT_SIZE == 0
    ensures EncodeTable(DecodeTable(b)) == b
  {
    if b != [] {
      EncodeDecodeSlot(b[..SLOT_SIZE]);
      EncodeDecodeTable(b[SLOT_SIZE..]);
      assert b == b[..SLOT_SIZE] + b[SLOT_SIZE..];
    }
  }

  /** Decoded slots always hold C ints. */
  lemma {:induction false} DecodeTableIsInt32(b: seq<byte>)
    requires |b| % SLOT_SIZE == 0
    ensures TableIsInt32(DecodeTable(b))
  {
    if b != [] {
      DecodeTableIsInt32(b[SLOT_SIZE..]);
    }
  }

  // ---------------------------------------------------------------- metadata codec

  function EncodeMeta(m: ArchiveMetadata): (r: seq<byte>)
    ensures |r| == META_SIZE
  {
    EncodeInt(m.numFiles) + EncodeInt(m.totalSize)
  }

  function DecodeMeta(b: seq<byte>): ArchiveMetadata
    requires |b| == META_SIZE
  {
    ArchiveMetadata(DecodeInt(b[..4]), DecodeInt(b[4..]))
  }

  /** Reading back written metadata gives its fields wrapped to 32 bits. */
  lemma DecodeEncodeMeta(m: ArchiveMetadata)
    ensures DecodeMeta(EncodeMeta(m)) == ArchiveMetadata(Wrap32(m.numFiles), Wrap32(m.totalSize))
  {
    var b := EncodeMeta(m);
    assert b[..4] == EncodeInt(m.numFiles) && b[4..] == EncodeInt(m.totalSize);
    DecodeEncodeInt(m.numFiles);
    DecodeEncodeInt(m.totalSize);
  }

  // ---------------------------------------------------------------- structures in the image

  function HeaderAt(img: seq<byte>, off: nat): FileInfo
    requires off + HDR <= |img|
  {
    DecodeHeader(img[off..off + HDR])
  }

  function MetaAt(img: seq<byte>, off: nat): ArchiveMetadata
    requires off + META_SIZE <= |img|
  {
    DecodeMeta(img[off..off + META_SIZE])
  }

  /** What load_free_spaces reads: the 100 slots at offset 4. */
  function TableOf(img: seq<byte>): (t: seq<FreeSpaceInfo>)
    requires META_OFFSET <= |img|
    ensures |t| == MAX_FREE_SPACES
  {
    DecodeTable(img[TABLE_OFFSET..META_OFFSET])
  }

  /** fread of a FileInfo just written with fwrite returns it (ints wrapped to 32 bits). */
  lemma HeaderAfterWrite(img: seq<byte>, off: nat, h: FileInfo)
    ensures off + HDR <= |WriteAt(img, off, EncodeHeader(h))|
    ensures HeaderAt(WriteAt(img, off, EncodeHeader(h)), off) == WrapHeader(h)
  {
    DecodeEncodeHeader(h);
  }

  /** Rewriting a FileInfo read from the image with a new file_size touches only the four bytes of that field. */
  lemma ResizeInPlace(img: seq<byte>, off: nat, h: FileInfo, size: int)
    requires off + HDR <= |img| && h == HeaderAt(img, off)
    ensures var r := WriteAt(img, off, EncodeHeader(h.(fileSize := size)));
            && |r| == |img| && HeaderAt(r, off) == h.(fileSize := Wrap32(size))
            && forall i :: 0 <= i < |img| && !(off + NAME_SIZE + 1 <= i < off + NAME_SIZE + 1 + INT_SIZE) ==> r[i] == img[i]
  {
    var h' := h.(fileSize := size);
    var r := WriteAt(img, off, EncodeHeader(h'));
    assert HeaderIsInt32(h);
    HeaderAfterWrite(img, off, h');
    EncodeDecodeHeader(img[off..off + HDR]);
    var a := EncodeHeader(h);
    var b := EncodeHeader(h');
    assert forall j :: 0 <= j < NAME_SIZE + 1 ==> a[j] == b[j] by {
      assert a[..NAME_SIZE + 1] == h.filename + [h.padding] == b[..NAME_SIZE + 1];
    }
    assert a[NAME_SIZE + 1 + INT_SIZE..] == b[NAME_SIZE + 1 + INT_SIZE..];
    forall i | 0 <= i < |img| && !(off + NAME_SIZE + 1 <= i < off + NAME_SIZE + 1 + INT_SIZE) ensures r[i] == img[i] {
      if off <= i < off + HDR {
        assert r[i] == b[i - off];
        assert img[i] == a[i - off];
        if i - off >= NAME_SIZE + 1 + INT_SIZE {
          assert a[i - off] == a[NAME_SIZE + 1 + INT_SIZE..][i - off - (NAME_SIZE + 1 + INT_SIZE)];
          assert b[i - off] == b[NAME_SIZE + 1 + INT_SIZE..][i - off - (NAME_SIZE + 1 + INT_SIZE)];
        }
      }
    }
  }

  /**
   * Rewriting a FileInfo read from the image with only its status changed
   * touches only the four bytes of the status field.
   */
  lemma RewriteHeaderInPlace(img: seq<byte>, off: nat, h: FileInfo)
    requires off + HDR <= |img|
    requires h.filename == HeaderAt(img, off).filename && h.padding == HeaderAt(img, off).padding
    ensures |WriteAt(img, off, EncodeHeader(h))| == |img|
    ensures h.fileSize == HeaderAt(img, off).fileSize && h.startPosition == HeaderAt(img, off).startPosition ==>
              WriteAt(img, off, EncodeHeader(h))[..off + 264] == img[..off + 264]
    ensures h.fileSize == HeaderAt(img, off).fileSize && h.startPosition == HeaderAt(img, off).startPosition ==>
              forall i :: 0 <= i < |img| && !(off + 264 <= i < off + HDR) ==> WriteAt(img, off, EncodeHeader(h))[i] == img[i]
  {
    var old_h := HeaderAt(img, off);
    EncodeDecodeHeader(img[off..off + HDR]);
    var r := WriteAt(img, off, EncodeHeader(h));
    if h.fileSize == old_h.fileSize && h.startPosition == old_h.startPosition {
      assert EncodeHeader(h)[..264] == EncodeHeader(old_h)[..264];
      forall k | 0 <= k < off + 264 ensures r[k] == img[k] {
        if k >= off {
          assert r[k] == EncodeHeader(h)[k - off];
          assert img[k] == img[off..off + HDR][k - off];
        }
      }
      WriteAtBytes(img, off, EncodeHeader(h));
    }
  }

  /** save_free_spaces then load_free_spaces: the table comes back (its ints being C ints). */
  lemma TableAfterWrite(img: seq<byte>, t: seq<FreeSpaceInfo>)
    requires |t| == MAX_FREE_SPACES && TableIsInt32(t)
    ensures META_OFFSET <= |WriteAt(img, TABLE_OFFSET, EncodeTable(t))|
    ensures TableOf(WriteAt(img, TABLE_OFFSET, EncodeTable(t))) == t
  {
    DecodeEncodeTable(t);
  }

  /** Writing metadata, then reading it back, gives its fields wrapped to 32 bits. */
  lemma MetaAfterWrite(img: seq<byte>, off: nat, m: ArchiveMetadata)
    ensures off + META_SIZE <= |WriteAt(img, off, EncodeMeta(m))|
    ensures MetaAt(WriteAt(img, off, EncodeMeta(m)), off) == ArchiveMetadata(Wrap32(m.numFiles), Wrap32(m.totalSize))
  {
    DecodeEncodeMeta(m);
  }

  /** Two images that agree on their first ENTRY_BASE bytes hold the same table and the same metadata. */
  lemma SamePreamble(a: seq<byte>, b: seq<byte>)
    requires ENTRY_BASE <= |a| && ENTRY_BASE <= |b| && a[..ENTRY_BASE] == b[..ENTRY_BASE]
    ensures TableOf(a) == TableOf(b) && MetaAt(a, META_OFFSET) == MetaAt(b, META_OFFSET)
  {
    assert a[TABLE_OFFSET..META_OFFSET] == a[..ENTRY_BASE][TABLE_OFFSET..META_OFFSET];
    assert b[TABLE_OFFSET..META_OFFSET] == b[..ENTRY_BASE][TABLE_OFFSET..META_OFFSET];
    assert a[META_OFFSET..ENTRY_BASE] == a[..ENTRY_BASE][META_OFFSET..];
    assert b[META_OFFSET..ENTRY_BASE] == b[..ENTRY_BASE][META_OFFSET..];
  }

  /** A write that stays clear of the table leaves what load_free_spaces reads unchanged. */
  lemma TableUntouched(img: seq<byte>, off: nat, data: seq<byte>)
    requires META_OFFSET <= |img| && (off + |data| <= TABLE_OFFSET || META_OFFSET <= off)
    ensures META_OFFSET <= |WriteAt(img, off, data)|
    ensures TableOf(WriteAt(img, off, data)) == TableOf(img)
  {
    WriteAtElsewhere(img, off, data, TABLE_OFFSET, META_OFFSET);
  }

  /** A write that stays clear of the metadata at moff leaves it unchanged. */
  lemma MetaUntouched(img: seq<byte>, moff: nat, off: nat, data: seq<byte>)
    requires moff + META_SIZE <= |img| && (off + |data| <= moff || moff + META_SIZE <= off)
    ensures moff + META_SIZE <= |WriteAt(img, off, data)|
    ensures MetaAt(WriteAt(img, off, data), moff) == MetaAt(img, moff)
  {
    WriteAtElsewhere(img, off, data, moff, moff + META_SIZE);
  }

  /** A write that stays clear of a header leaves it unchanged. */
  lemma HeaderUntouched(img: seq<byte>, hoff: nat, off: nat, data: seq<byte>)
    requires hoff + HDR <= |img| && (off + |data| <= hoff || hoff + HDR <= off)
    ensures hoff + HDR <= |WriteAt(img, off, data)|
    ensures HeaderAt(WriteAt(img, off, data), hoff) == HeaderAt(img, hoff)
  {
    WriteAtElsewhere(img, off, data, hoff, hoff + HDR);
  }
}

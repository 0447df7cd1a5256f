/**
 * create: a new container holding the named files, in order. The file
 * starts with the free-space count 0, an all-empty free table and the
 * metadata {num_files, 0}, where num_files is the number of files named;
 * each file that can be opened then follows as a header and its content.
 * The first file that cannot be opened ends create, so num_files may count
 * more files than were stored.
 */
module Create {
  import opened Bytes
  import opened Layout
  import opened Records
  import opened Container

  /** A file named on the command line: its name and, when it can be opened, its bytes. */
  datatype Member = Member(name: seq<byte>, content: Option<seq<byte>>)

  function EmptyTable(): (t: seq<FreeSpaceInfo>)
    ensures |t| == MAX_FREE_SPACES && TableIsInt32(t)
    ensures forall k :: 0 <= k < |t| ==> t[k] == FreeSpaceInfo(0, 0)
  {
    seq(MAX_FREE_SPACES, _ => FreeSpaceInfo(0, 0))
  }

  /** What create writes before the first record: the count 0, the zero-filled table, the metadata. */
  function Preamble(declared: int): (r: seq<byte>)
    ensures |r| == ENTRY_BASE
  {
    EncodeInt(0) + Zeros(SLOT_SIZE * MAX_FREE_SPACES) + EncodeMeta(ArchiveMetadata(declared, 0))
  }

  /** A zero-filled table reads back as n empty slots. */
  lemma {:induction false} ZeroTableIsEmpty(n: nat)
    ensures DecodeTable(Zeros(SLOT_SIZE * n)) == seq(n, _ => FreeSpaceInfo(0, 0))
  {
    if n > 0 {
      var z := Zeros(SLOT_SIZE * n);
      assert z[..SLOT_SIZE] == [0, 0, 0, 0] + [0, 0, 0, 0];
      assert z[SLOT_SIZE..] == Zeros(SLOT_SIZE * (n - 1));
      ZeroTableIsEmpty(n - 1);
      assert seq(n, _ => FreeSpaceInfo(0, 0)) == [FreeSpaceInfo(0, 0)] + seq(n - 1, _ => FreeSpaceInfo(0, 0));
    }
  }

  /** How many members, from the first, can be opened. */
  function Readable(ms: seq<Member>): (n: nat)
    ensures n <= |ms|
    ensures forall k :: 0 <= k < n ==> ms[k].content.Some?
    ensures n < |ms| ==> ms[n].content.None?
  {
    if ms == [] || ms[0].content.None? then 0 else 1 + Readable(ms[1..])
  }

  /**
   * The records create writes for the members, the first header at pos: one
   * per member up to the first that cannot be opened, each header naming its
   * member, its size and the offset of its content.
   */
  function Stored(ms: seq<Member>, pos: nat): (es: seq<Entry>)
    ensures |es| == Readable(ms)
    decreases |ms|
  {
    if ms == [] || ms[0].content.None? then []
    else
      var c := ms[0].content.value;
      [Entry(pos, NewHeader(ms[0].name, |c|, pos + HDR), c)] + Stored(ms[1..], pos + HDR + |c|)
  }

  /** Record k of what create writes: member k's bytes, under a header naming it, its size and its content offset. */
  lemma {:induction false} StoredAt(ms: seq<Member>, pos: nat, k: nat)
    requires k < Readable(ms)
    ensures var e := Stored(ms, pos)[k];
            && ms[k].content.Some? && e.content == ms[k].content.value
            && e.header == NewHeader(ms[k].name, |e.content|, e.offset + HDR)
            && pos <= e.offset && e.offset + HDR + |e.content| <= pos + |Serialize(Stored(ms, pos))|
    decreases |ms|
  {
    var next := pos + HDR + |ms[0].content.value|;
    StoredTailFits(ms, pos, next);
    if k > 0 {
      StoredAt(ms[1..], next, k - 1);
      StoredAtStep(ms, pos, k, next);
    }
  }

  /** What holds of record k - 1 after the first member holds of record k from the first member on. */
  lemma StoredAtStep(ms: seq<Member>, pos: nat, k: nat, next: nat)
    requires 0 < k < Readable(ms) && next == pos + HDR + |ms[0].content.value|
    requires var e := Stored(ms[1..], next)[k - 1];
             && ms[1..][k - 1].content.Some? && e.content == ms[1..][k - 1].content.value
             && e.header == NewHeader(ms[1..][k - 1].name, |e.content|, e.offset + HDR)
             && next <= e.offset && e.offset + HDR + |e.content| <= next + |Serialize(Stored(ms[1..], next))|
    ensures var e := Stored(ms, pos)[k];
            && ms[k].content.Some? && e.content == ms[k].content.value
            && e.header == NewHeader(ms[k].name, |e.content|, e.offset + HDR)
            && pos <= e.offset && e.offset + HDR + |e.content| <= pos + |Serialize(Stored(ms, pos))|
  {
    StoredTailFits(ms, pos, next);
    assert Stored(ms, pos)[k] == Stored(ms[1..], next)[k - 1];
    assert ms[k] == ms[1..][k - 1];
  }

  /** The container create writes for `ms`. */
  function CreateImage(ms: seq<Member>): seq<byte>
  {
    Preamble(|ms|) + Serialize(Stored(ms, ENTRY_BASE))
  }

  /** The records create writes are laid out back to back, each pointing at its own content. */
  lemma {:induction false} StoredIsLaid(ms: seq<Member>, pos: nat)
    requires pos + |Serialize(Stored(ms, pos))| < TWO_31
    ensures Laid(Stored(ms, pos), pos)
    decreases |ms|
  {
    if !(ms == [] || ms[0].content.None?) {
      var next := pos + HDR + |ms[0].content.value|;
      StoredTailFits(ms, pos, next);
      StoredIsLaid(ms[1..], next);
      StoredLaidStep(ms, pos, next);
    }
  }

  /** The records after the first member's start at `next` and end where all of them end. */
  lemma StoredTailFits(ms: seq<Member>, pos: nat, next: nat)
    requires ms != [] && ms[0].content.Some? && next == pos + HDR + |ms[0].content.value|
    ensures Stored(ms, pos) == [Entry(pos, NewHeader(ms[0].name, |ms[0].content.value|, pos + HDR), ms[0].content.value)] + Stored(ms[1..], next)
    ensures pos + |Serialize(Stored(ms, pos))| == next + |Serialize(Stored(ms[1..], next))|
  {
    var es := Stored(ms, pos);
    assert es[1..] == Stored(ms[1..], next);
  }

  /** A first record that fits a C int, followed by laid-out records, is laid out. */
  lemma StoredLaidStep(ms: seq<Member>, pos: nat, next: nat)
    requires ms != [] && ms[0].content.Some? && next == pos + HDR + |ms[0].content.value|
    requires pos + |Serialize(Stored(ms, pos))| < TWO_31 && Laid(Stored(ms[1..], next), next)
    ensures Laid(Stored(ms, pos), pos)
  {
    StoredTailFits(ms, pos, next);
    NewHeaderIsInt32(ms[0].name, |ms[0].content.value|, pos + HDR);
  }

  /** Every header create writes names the offset of its own content. */
  lemma StoredIsConsistent(ms: seq<Member>, pos: nat)
    ensures Consistent(Stored(ms, pos))
  {
    var es := Stored(ms, pos);
    forall k | 0 <= k < |es| ensures es[k].header.startPosition == es[k].offset + HDR {
      StoredAt(ms, pos, k);
    }
  }

  /**
   * What a reader finds in a created container: the empty free table, the
   * declared count with total_size 0, and a chain of exactly the stored
   * records running to the end of the file.
   */
  lemma CreateLayout(ms: seq<Member>, img: seq<byte>, es: seq<Entry>)
    requires img == CreateImage(ms) && es == Stored(ms, ENTRY_BASE)
    requires |img| < TWO_31 && |ms| < TWO_31
    ensures ENTRY_BASE <= |img|
    ensures TableOf(img) == EmptyTable()
    ensures MetaAt(img, META_OFFSET) == ArchiveMetadata(|ms|, 0)
    ensures Chain(img, ENTRY_BASE, |es|) && Entries(img, ENTRY_BASE, |es|) == es
    ensures ChainEnd(img, ENTRY_BASE, |es|) == |img|
  {
    CreatePreamble(ms, img, es);
    CreateChain(ms, img, es);
  }

  /** The free table and the metadata of a created container. */
  lemma CreatePreamble(ms: seq<Member>, img: seq<byte>, es: seq<Entry>)
    requires img == CreateImage(ms) && es == Stored(ms, ENTRY_BASE) && |ms| < TWO_31
    ensures ENTRY_BASE <= |img|
    ensures TableOf(img) == EmptyTable() && MetaAt(img, META_OFFSET) == ArchiveMetadata(|ms|, 0)
  {
    PreambleFields(|ms|, Serialize(es));
  }

  /** The records of a created container form a chain from offset 812 to the end of the file. */
  lemma CreateChain(ms: seq<Member>, img: seq<byte>, es: seq<Entry>)
    requires img == CreateImage(ms) && es == Stored(ms, ENTRY_BASE) && |img| < TWO_31
    ensures Chain(img, ENTRY_BASE, |es|) && Entries(img, ENTRY_BASE, |es|) == es
    ensures ChainEnd(img, ENTRY_BASE, |es|) == |img|
  {
    CreatedIsLaid(ms, img, es);
    ChainOfLaid(ms, img, es);
  }

  /** The records of a created container are laid out back to back from offset 812. */
  lemma CreatedIsLaid(ms: seq<Member>, img: seq<byte>, es: seq<Entry>)
    requires img == CreateImage(ms) && es == Stored(ms, ENTRY_BASE) && |img| < TWO_31
    ensures Laid(es, ENTRY_BASE)
  {
    CreateImageParts(ms, img, es);
    StoredIsLaid(ms, ENTRY_BASE);
  }

  /** Laid out from offset 812, the records create serializes read back as a chain running to the end of the file. */
  lemma ChainOfLaid(ms: seq<Member>, img: seq<byte>, es: seq<Entry>)
    requires img == CreateImage(ms) && es == Stored(ms, ENTRY_BASE) && Laid(es, ENTRY_BASE)
    ensures Chain(img, ENTRY_BASE, |es|) && Entries(img, ENTRY_BASE, |es|) == es
    ensures ChainEnd(img, ENTRY_BASE, |es|) == |img|
  {
    CreateImageParts(ms, img, es);
    ChainOfSerialized(img, es);
  }

  /** A created container is the preamble followed by the serialized records. */
  lemma CreateImageParts(ms: seq<Member>, img: seq<byte>, es: seq<Entry>)
    requires img == CreateImage(ms) && es == Stored(ms, ENTRY_BASE)
    ensures |img| == ENTRY_BASE + |Serialize(es)|
    ensures img[ENTRY_BASE..ENTRY_BASE + |Serialize(es)|] == Serialize(es)
  {
  }

  /** The table and metadata of the preamble read back as written. */
  lemma PreambleFields(declared: int, rest: seq<byte>)
    requires IsInt32(declared)
    ensures TableOf(Preamble(declared) + rest) == EmptyTable()
    ensures MetaAt(Preamble(declared) + rest, META_OFFSET) == ArchiveMetadata(declared, 0)
  {
    var img := Preamble(declared) + rest;
    var tb := Zeros(SLOT_SIZE * MAX_FREE_SPACES);
    var mb := EncodeMeta(ArchiveMetadata(declared, 0));
    assert Preamble(declared) == EncodeInt(0) + tb + mb;
    assert img[TABLE_OFFSET..META_OFFSET] == tb;
    assert img[META_OFFSET..ENTRY_BASE] == mb;
    ZeroTableIsEmpty(MAX_FREE_SPACES);
    DecodeEncodeMeta(ArchiveMetadata(declared, 0));
  }

  /**
   * create then find_file_info: the k-th stored member is found under its
   * stored name (at most 254 bytes) unless an earlier member has the same
   * stored name, and its record's header points just past itself and
   * records the size of the member's bytes, which are the record's content.
   */
  lemma {:induction false} CreateThenFind(ms: seq<Member>, k: nat, img: seq<byte>)
    requires img == CreateImage(ms) && |img| < TWO_31 && |ms| < TWO_31
    requires k < Readable(ms) && NulFree(ms[k].name)
    requires forall j :: 0 <= j < k ==> NulFree(ms[j].name) && StoredName(ms[j].name) != StoredName(ms[k].name)
    ensures var e := Stored(ms, ENTRY_BASE)[k];
            && FindSpec(img, StoredName(ms[k].name)) == Some(Located(e.header, e.offset))
            && e.header.startPosition == e.offset + HDR && e.header.fileSize == |e.content|
            && e.content == ms[k].content.value
  {
    var es := Stored(ms, ENTRY_BASE);
    FindInCreated(ms, img, es, StoredName(ms[k].name));
    StoredLookup(ms, k, es);
  }

  /** find_file_info on a created container answers as the lookup over the stored records. */
  lemma {:induction false} FindInCreated(ms: seq<Member>, img: seq<byte>, es: seq<Entry>, name: seq<byte>)
    requires img == CreateImage(ms) && es == Stored(ms, ENTRY_BASE) && |img| < TWO_31 && |ms| < TWO_31
    ensures FindSpec(img, name) == LookupIn(es, name)
  {
    CreateLayout(ms, img, es);
    LocatePastChain(img, ENTRY_BASE, |es|, |ms|, name);
  }

  /** Over the stored records, the lookup of member k's stored name finds record k, which holds member k's bytes. */
  lemma {:induction false} StoredLookup(ms: seq<Member>, k: nat, es: seq<Entry>)
    requires es == Stored(ms, ENTRY_BASE)
    requires k < Readable(ms) && NulFree(ms[k].name)
    requires forall j :: 0 <= j < k ==> NulFree(ms[j].name) && StoredName(ms[j].name) != StoredName(ms[k].name)
    ensures LookupIn(es, StoredName(ms[k].name)) == Some(Located(es[k].header, es[k].offset))
    ensures es[k].header == NewHeader(ms[k].name, |ms[k].content.value|, es[k].offset + HDR)
    ensures es[k].content == ms[k].content.value
  {
    StoredFirstNamed(ms, k);
    StoredAt(ms, ENTRY_BASE, k);
  }

  /** The bytes of the k-th stored record's content lie in the created container. */
  lemma {:induction false} StoredContent(ms: seq<Member>, k: nat, img: seq<byte>, es: seq<Entry>)
    requires img == CreateImage(ms) && es == Stored(ms, ENTRY_BASE) && |img| < TWO_31 && |ms| < TWO_31
    requires k < Readable(ms)
    ensures es[k].offset + HDR + |es[k].content| <= |img|
    ensures img[es[k].offset + HDR..es[k].offset + HDR + |es[k].content|] == es[k].content
  {
    CreateLayout(ms, img, es);
    EntryContent(img, ENTRY_BASE, |es|, k);
  }

  lemma {:induction false} StoredNameAt(ms: seq<Member>, j: nat)
    requires j < Readable(ms) && NulFree(ms[j].name)
    ensures CName(Stored(ms, ENTRY_BASE)[j].header.filename) == StoredName(ms[j].name)
  {
    StoredAt(ms, ENTRY_BASE, j);
    CNameOfNameField(ms[j].name);
  }

  /** Among the stored records, the first whose name is member k's stored name is record k. */
  lemma {:induction false} StoredFirstNamed(ms: seq<Member>, k: nat)
    requires k < Readable(ms) && NulFree(ms[k].name)
    requires forall j :: 0 <= j < k ==> NulFree(ms[j].name) && StoredName(ms[j].name) != StoredName(ms[k].name)
    ensures FirstIndex(Stored(ms, ENTRY_BASE), StoredName(ms[k].name)) == Some(k)
  {
    var es := Stored(ms, ENTRY_BASE);
    forall j | 0 <= j <= k ensures CName(es[j].header.filename) == StoredName(ms[j].name) {
      StoredNameAt(ms, j);
    }
    FirstIndexIs(es, StoredName(ms[k].name), k);
  }

  // ---------------------------------------------------------------- the loop, on a new file

  /** What create writes for the members from i on, when member i can be opened: its header, its content, then the rest. */
  lemma {:induction false} StoredFrom(ms: seq<Member>, i: nat, pos: nat)
    requires i < |ms| && ms[i].content.Some?
    ensures var c := ms[i].content.value;
            Serialize(Stored(ms[i..], pos)) ==
              EncodeHeader(NewHeader(ms[i].name, |c|, pos + HDR)) + c + Serialize(Stored(ms[i + 1..], pos + HDR + |c|))
  {
    var c := ms[i].content.value;
    var es := Stored(ms[i..], pos);
    assert ms[i..][1..] == ms[i + 1..];
    assert es == [Entry(pos, NewHeader(ms[i].name, |c|, pos + HDR), c)] + Stored(ms[i + 1..], pos + HDR + |c|);
    assert es[1..] == Stored(ms[i + 1..], pos + HDR + |c|);
  }

  /** One turn of create's loop: appending member i's header and content to img moves it from the pending records to the file. */
  lemma {:induction false} CreateStep(ms: seq<Member>, i: nat, img: seq<byte>, r: seq<byte>)
    requires i < |ms| && ms[i].content.Some?
    requires r == img + EncodeHeader(NewHeader(ms[i].name, |ms[i].content.value|, |img| + HDR)) + ms[i].content.value
    ensures r + Serialize(Stored(ms[i + 1..], |r|)) == img + Serialize(Stored(ms[i..], |img|))
  {
    var c := ms[i].content.value;
    var h := EncodeHeader(NewHeader(ms[i].name, |c|, |img| + HDR));
    var rest := Serialize(Stored(ms[i + 1..], |img| + HDR + |c|));
    StoredFrom(ms, i, |img|);
    Regroup(img, h, c, rest);
  }

  lemma Regroup(a: seq<byte>, b: seq<byte>, c: seq<byte>, d: seq<byte>)
    ensures a + b + c + d == a + (b + c + d)
  {
  }

  /**
   * create: write the count, the zero-filled table and the metadata, then
   * for each member in turn its header at the cursor and its content; stop
   * at the first member that cannot be opened.
   */
  method CreateArchive(ms: seq<Member>) returns (f: ArchiveFile)
    ensures fresh(f)
    ensures f.image == CreateImage(ms)
  {
    f := new ArchiveFile([]);
    f.Write(0, EncodeInt(0));
    f.Write(TABLE_OFFSET, Zeros(SLOT_SIZE * MAX_FREE_SPACES));
    f.Write(META_OFFSET, EncodeMeta(ArchiveMetadata(|ms|, 0)));
    assert f.image == Preamble(|ms|);
    assert ms[0..] == ms;
    var i := 0;
    while i < |ms|
      invariant 0 <= i <= |ms|
      invariant f.image + Serialize(Stored(ms[i..], |f.image|)) == CreateImage(ms)
    {
      if ms[i].content.None? {
        assert f.image + [] == f.image;
        return;
      }
      var content := ms[i].content.value;
      var before := f.image;
      var pos := |before|;
      var header := EncodeHeader(NewHeader(ms[i].name, |content|, pos + HDR));
      WriteAtEnd(f.image, header);
      f.Write(pos, header);
      WriteAtEnd(f.image, content);
      f.Write(pos + HDR, content);
      assert f.image == before + header + content;
      CreateStep(ms, i, before, f.image);
      i := i + 1;
    }
    assert f.image + [] == f.image;
  }
}

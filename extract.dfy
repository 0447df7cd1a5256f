/**
 * extract: find a member by name and copy its file_size bytes, read from
 * start_position, to an output file in chunks of at most 1024 bytes.
 */
module Extract {
  import opened Bytes
  import opened Layout
  import opened Records
  import opened Create
  import opened Container

  /** char buffer[1024] */
  const BUFFER_SIZE: nat := 1024

  /** The bytes a header claims lie inside the image (nothing is read when file_size is not positive). */
  predicate ContentReadable(img: seq<byte>, h: FileInfo)
  {
    h.fileSize <= 0 || (0 <= h.startPosition && h.startPosition + h.fileSize <= |img|)
  }

  /** A lookup that, when it succeeds, names content lying inside the image. */
  predicate Extractable(img: seq<byte>, name: seq<byte>)
  {
    FindSpec(img, name).Some? ==> ContentReadable(img, FindSpec(img, name).value.info)
  }

  /** The bytes a found header's content occupies. */
  function ContentOf(img: seq<byte>, h: FileInfo): (r: seq<byte>)
    requires ContentReadable(img, h)
    ensures |r| == Max(0, h.fileSize)
    ensures h.fileSize > 0 ==> r == img[h.startPosition..h.startPosition + h.fileSize]
  {
    if h.fileSize <= 0 then [] else img[h.startPosition..h.startPosition + h.fileSize]
  }

  /** What extract writes to the output file; None when the member is not found and no file is made. */
  function ExtractSpec(img: seq<byte>, name: seq<byte>): (r: Option<seq<byte>>)
    requires Extractable(img, name)
    ensures r.Some? <==> FindSpec(img, name).Some?
  {
    match FindSpec(img, name)
    case None => None
    case Some(loc) => Some(ContentOf(img, loc.info))
  }

  function Flatten(cs: seq<seq<byte>>): seq<byte>
  {
    if cs == [] then [] else cs[0] + Flatten(cs[1..])
  }

  /** The pieces the copy loop moves, min(bytes_left, 1024) bytes at a time. */
  function Chunks(data: seq<byte>): seq<seq<byte>>
    decreases |data|
  {
    if data == [] then []
    else
      var n := Min(|data|, BUFFER_SIZE);
      [data[..n]] + Chunks(data[n..])
  }

  /**
   * The chunks together are the data, every chunk is non-empty and at most
   * 1024 bytes, all but the last are full, and there are |data| / 1024
   * of them, rounded up.
   */
  lemma {:induction false} ChunksShape(data: seq<byte>)
    ensures Flatten(Chunks(data)) == data
    ensures forall k :: 0 <= k < |Chunks(data)| ==> 0 < |Chunks(data)[k]| <= BUFFER_SIZE
    ensures forall k :: 0 <= k < |Chunks(data)| - 1 ==> |Chunks(data)[k]| == BUFFER_SIZE
    ensures |Chunks(data)| == (|data| + BUFFER_SIZE - 1) / BUFFER_SIZE
    decreases |data|
  {
    if data != [] {
      var n := Min(|data|, BUFFER_SIZE);
      var rest := Chunks(data[n..]);
      var cs := Chunks(data);
      ChunksShape(data[n..]);
      assert cs == [data[..n]] + rest;
      assert cs[1..] == rest;
      assert data == data[..n] + data[n..];
      assert forall k :: 1 <= k < |cs| ==> cs[k] == rest[k - 1];
      if n < BUFFER_SIZE {
        assert rest == [];
      } else {
        assert (|data| + BUFFER_SIZE - 1) / BUFFER_SIZE == 1 + (|data[n..]| + BUFFER_SIZE - 1) / BUFFER_SIZE;
      }
    }
  }

  /** create then extract: a stored member whose stored name is not shared with an earlier member is extracted intact. */
  lemma {:induction false} CreateThenExtract(ms: seq<Member>, k: nat, img: seq<byte>)
    requires img == CreateImage(ms) && |img| < TWO_31 && |ms| < TWO_31
    requires k < Readable(ms) && NulFree(ms[k].name)
    requires forall j :: 0 <= j < k ==> NulFree(ms[j].name) && StoredName(ms[j].name) != StoredName(ms[k].name)
    ensures Extractable(img, StoredName(ms[k].name))
    ensures ExtractSpec(img, StoredName(ms[k].name)) == Some(ms[k].content.value)
  {
    var es := Stored(ms, ENTRY_BASE);
    CreateThenFind(ms, k, img);
    StoredContent(ms, k, img, es);
    var e := es[k];
    assert FindSpec(img, StoredName(ms[k].name)) == Some(Located(e.header, e.offset));
    assert ContentReadable(img, e.header);
    assert ContentOf(img, e.header) == e.content;
  }

  // ---------------------------------------------------------------- the copy loop, on the open file

  /** The copy after the first n bytes: one more chunk of min(|data| - n, 1024) bytes, then the rest. */
  lemma ChunksFrom(data: seq<byte>, n: nat, m: nat)
    requires n < |data| && m == Min(|data| - n, BUFFER_SIZE)
    ensures Chunks(data[n..]) == [data[n..n + m]] + Chunks(data[n + m..])
  {
    assert data[n..][..m] == data[n..n + m];
    assert data[n..][m..] == data[n + m..];
  }

  /** One turn of the copy loop: the next chunk extends the output and moves from the chunks pending to the chunks written. */
  lemma CopyStep(content: seq<byte>, done: nat, n: nat, output: seq<byte>, chunks: seq<seq<byte>>, buffer: seq<byte>)
    requires done < |content| && n == Min(|content| - done, BUFFER_SIZE)
    requires output == content[..done] && chunks + Chunks(content[done..]) == Chunks(content)
    requires buffer == content[done..done + n]
    ensures output + buffer == content[..done + n]
    ensures (chunks + [buffer]) + Chunks(content[done + n..]) == Chunks(content)
  {
    var rest := Chunks(content[done + n..]);
    ChunksFrom(content, done, n);
    assert chunks + ([buffer] + rest) == Chunks(content);
    assert (chunks + [buffer]) + rest == chunks + ([buffer] + rest);
    assert content[..done + n] == content[..done] + content[done..done + n];
  }

  /**
   * extract's copy: seek to start_position, then while bytes_left > 0 read
   * min(bytes_left, 1024) bytes and write them to the output. Returns the
   * output file's bytes and the chunks written, in order.
   */
  method CopyContent(f: ArchiveFile, info: FileInfo) returns (output: seq<byte>, chunks: seq<seq<byte>>)
    requires ContentReadable(f.image, info)
    ensures output == ContentOf(f.image, info)
    ensures chunks == Chunks(output)
  {
    var img := f.image;
    ghost var content := ContentOf(img, info);
    ghost var done: nat := 0;
    output, chunks := [], [];
    var bytesLeft := info.fileSize;
    var pos := info.startPosition;
    while bytesLeft > 0
      invariant done <= |content| && Max(0, bytesLeft) == |content| - done
      invariant bytesLeft > 0 ==> pos == info.startPosition + done && info.fileSize > 0
      invariant output == content[..done]
      invariant chunks + Chunks(content[done..]) == Chunks(content)
      decreases bytesLeft
    {
      var bytesToRead := Min(bytesLeft, BUFFER_SIZE);
      var buffer := img[pos..pos + bytesToRead];
      SliceOfSlice(img, info.startPosition, info.startPosition + info.fileSize, done, done + bytesToRead);
      CopyStep(content, done, bytesToRead, output, chunks, buffer);
      output := output + buffer;
      chunks := chunks + [buffer];
      pos := pos + bytesToRead;
      bytesLeft := bytesLeft - bytesToRead;
      done := done + bytesToRead;
    }
    assert content[done..] == [] && content[..done] == content;
  }

  /**
   * extract: find the member; when it is there, copy its content to the
   * output file. None when find_file_info reports it missing.
   */
  method ExtractMember(f: ArchiveFile, name: seq<byte>) returns (output: Option<seq<byte>>)
    requires Extractable(f.image, name)
    ensures output == ExtractSpec(f.image, name)
  {
    var found := FindFileInfo(f, name);
    if found.None? {
      return None;
    }
    var bytes, _ := CopyContent(f, found.value.info);
    return Some(bytes);
  }
}

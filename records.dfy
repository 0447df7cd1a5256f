/**
 * The entry region as a chain of records: a FileInfo header followed by
 * file_size content bytes, the next header right after. Walking the chain
 * is how find_file_info and list locate members.
 */
module Records {
  import opened Bytes
  import opened Layout
  import opened Container

  /** A record found in the image: where its header lies, the header, its content. */
  datatype Entry = Entry(offset: nat, header: FileInfo, content: seq<byte>)

  /** What find_file_info reports: the header it matched and where it lies. */
  datatype Located = Located(info: FileInfo, offset: nat)

  /**
   * Where reading resumes after a header at pos and `fseek(f, size, SEEK_CUR)`;
   * a seek to a negative offset fails and leaves the position where it was.
   */
  function SkipContent(pos: nat, size: int): nat
  {
    if pos + HDR + size >= 0 then pos + HDR + size else pos + HDR
  }

  /** `count` records starting at pos lie entirely inside the image, with sizes that are not negative. */
  predicate Chain(img: seq<byte>, pos: nat, count: nat)
    decreases count
  {
    pos <= |img| &&
    (count == 0 ||
    (pos + HDR <= |img| &&
     var size := HeaderAt(img, pos).fileSize;
     0 <= size && pos + HDR + size <= |img| && Chain(img, pos + HDR + size, count - 1)))
  }

  /** The records of a chain, in file order. */
  function Entries(img: seq<byte>, pos: nat, count: nat): (es: seq<Entry>)
    requires Chain(img, pos, count)
    ensures |es| == count
    decreases count
  {
    if count == 0 then []
    else
      var h := HeaderAt(img, pos);
      [Entry(pos, h, img[pos + HDR..pos + HDR + h.fileSize])] + Entries(img, pos + HDR + h.fileSize, count - 1)
  }

  /** The offset just past the last record of a chain. */
  function ChainEnd(img: seq<byte>, pos: nat, count: nat): (e: nat)
    requires Chain(img, pos, count)
    ensures pos <= e <= |img|
    decreases count
  {
    if count == 0 then pos else ChainEnd(img, pos + HDR + HeaderAt(img, pos).fileSize, count - 1)
  }

  lemma SliceOfSlice(s: seq<byte>, lo: nat, hi: nat, a: nat, b: nat)
    requires lo <= hi <= |s| && a <= b <= hi - lo
    ensures s[lo..hi][a..b] == s[lo + a..lo + b]
  {
    forall k | 0 <= k < b - a
      ensures s[lo..hi][a..b][k] == s[lo + a..lo + b][k]
    {
    }
  }

  /** Two files that agree from `from` on agree on every range past it. */
  lemma SameFrom(a: seq<byte>, b: seq<byte>, from: nat, lo: nat, hi: nat)
    requires |a| == |b| && from <= lo <= hi <= |a| && a[from..] == b[from..]
    ensures a[lo..hi] == b[lo..hi]
  {
    forall k | lo <= k < hi ensures a[k] == b[k] {
      assert a[k] == a[from..][k - from];
    }
  }

  /** The bytes a record occupies: header, then content. */
  function RecordBytes(e: Entry): (r: seq<byte>)
    ensures |r| == HDR + |e.content|
  {
    EncodeHeader(e.header) + e.content
  }

  function Serialize(es: seq<Entry>): (r: seq<byte>)
  {
    if es == [] then [] else RecordBytes(es[0]) + Serialize(es[1..])
  }

  /** Records laid out back to back from pos, each with a file_size equal to its content's length. */
  predicate Laid(es: seq<Entry>, pos: nat)
    decreases |es|
  {
    es == [] ||
    (es[0].offset == pos && es[0].header.fileSize == |es[0].content| && HeaderIsInt32(es[0].header) &&
     Laid(es[1..], pos + HDR + |es[0].content|))
  }

  /** Each header's start_position names the offset of its own content. */
  predicate Consistent(es: seq<Entry>)
  {
    forall k :: 0 <= k < |es| ==> es[k].header.startPosition == es[k].offset + HDR
  }

  lemma {:induction false} SerializeAppend(es: seq<Entry>, e: Entry)
    ensures Serialize(es + [e]) == Serialize(es) + RecordBytes(e)
  {
    if es == [] {
      assert [e][1..] == [];
    } else {
      assert (es + [e])[1..] == es[1..] + [e];
      SerializeAppend(es[1..], e);
    }
  }

  /** A byte range is the concatenation of its three consecutive parts. */
  lemma SliceThree(s: seq<byte>, a: nat, b: nat, c: nat, d: nat)
    requires a <= b <= c <= d <= |s|
    ensures s[a..d] == s[a..b] + s[b..c] + s[c..d]
  {
  }

  /** If the rest of a chain occupies its serialized records, so does the whole chain. */
  lemma SerializedStep(img: seq<byte>, pos: nat, count: nat, next: nat)
    requires Chain(img, pos, count) && 0 < count
    requires next == pos + HDR + HeaderAt(img, pos).fileSize
    requires Chain(img, next, count - 1)
    requires next + |Serialize(Entries(img, next, count - 1))| == ChainEnd(img, next, count - 1)
    requires img[next..ChainEnd(img, next, count - 1)] == Serialize(Entries(img, next, count - 1))
    ensures pos + |Serialize(Entries(img, pos, count))| == ChainEnd(img, pos, count)
    ensures img[pos..ChainEnd(img, pos, count)] == Serialize(Entries(img, pos, count))
  {
    ChainHead(img, pos, count, next);
    EncodeDecodeHeader(img[pos..pos + HDR]);
    SliceThree(img, pos, pos + HDR, next, ChainEnd(img, pos, count));
  }

  /** A chain occupies exactly the bytes of its serialized records. */
  lemma {:induction false} ChainIsSerialized(img: seq<byte>, pos: nat, count: nat)
    requires Chain(img, pos, count)
    ensures pos + |Serialize(Entries(img, pos, count))| == ChainEnd(img, pos, count)
    ensures img[pos..ChainEnd(img, pos, count)] == Serialize(Entries(img, pos, count))
    decreases count
  {
    if count > 0 {
      var next := pos + HDR + HeaderAt(img, pos).fileSize;
      ChainNext(img, pos, count, next);
      ChainIsSerialized(img, next, count - 1);
      SerializedStep(img, pos, count, next);
    }
  }

  /** Where an image holds a + b + c, it holds each part at its place. */
  lemma HoldsThree(img: seq<byte>, pos: nat, a: seq<byte>, b: seq<byte>, c: seq<byte>)
    requires pos + |a + b + c| <= |img| && img[pos..pos + |a + b + c|] == a + b + c
    ensures img[pos..pos + |a|] == a
    ensures img[pos + |a|..pos + |a| + |b|] == b
    ensures img[pos + |a| + |b|..pos + |a + b + c|] == c
  {
    var n := |a + b + c|;
    SliceOfSlice(img, pos, pos + n, 0, |a|);
    SliceOfSlice(img, pos, pos + n, |a|, |a| + |b|);
    SliceOfSlice(img, pos, pos + n, |a| + |b|, n);
    assert (a + b + c)[..|a|] == a;
    assert (a + b + c)[|a|..|a| + |b|] == b;
    assert (a + b + c)[|a| + |b|..] == c;
  }

  /** The three parts of the bytes of a non-empty record list, as found in an image holding them. */
  lemma SerializedParts(img: seq<byte>, pos: nat, es: seq<Entry>)
    requires es != []
    requires pos + |Serialize(es)| <= |img| && img[pos..pos + |Serialize(es)|] == Serialize(es)
    ensures pos + HDR + |es[0].content| + |Serialize(es[1..])| == pos + |Serialize(es)|
    ensures img[pos..pos + HDR] == EncodeHeader(es[0].header)
    ensures img[pos + HDR..pos + HDR + |es[0].content|] == es[0].content
    ensures img[pos + HDR + |es[0].content|..pos + |Serialize(es)|] == Serialize(es[1..])
  {
    assert Serialize(es) == EncodeHeader(es[0].header) + es[0].content + Serialize(es[1..]);
    HoldsThree(img, pos, EncodeHeader(es[0].header), es[0].content, Serialize(es[1..]));
  }

  /** The first of serialized records reads back from the image, and the rest are serialized after it. */
  lemma ParseHead(img: seq<byte>, pos: nat, es: seq<Entry>, next: nat)
    requires Laid(es, pos) && es != []
    requires pos + |Serialize(es)| <= |img| && img[pos..pos + |Serialize(es)|] == Serialize(es)
    requires next == pos + HDR + |es[0].content|
    ensures pos + HDR <= next && next + |Serialize(es[1..])| == pos + |Serialize(es)|
    ensures Laid(es[1..], next) && img[next..next + |Serialize(es[1..])|] == Serialize(es[1..])
    ensures HeaderAt(img, pos) == es[0].header && img[pos + HDR..next] == es[0].content
  {
    SerializedParts(img, pos, es);
    DecodeEncodeHeader(es[0].header);
  }

  /** A first record read back in front of a parsed rest gives the whole list. */
  lemma ParseJoin(img: seq<byte>, pos: nat, es: seq<Entry>, next: nat)
    requires Laid(es, pos) && es != []
    requires pos + HDR <= |img| && HeaderAt(img, pos) == es[0].header
    requires next == pos + HDR + |es[0].content| && next <= |img| && img[pos + HDR..next] == es[0].content
    requires next + |Serialize(es[1..])| == pos + |Serialize(es)|
    requires Chain(img, next, |es[1..]|) && Entries(img, next, |es[1..]|) == es[1..]
    requires ChainEnd(img, next, |es[1..]|) == next + |Serialize(es[1..])|
    ensures Chain(img, pos, |es|) && Entries(img, pos, |es|) == es
    ensures ChainEnd(img, pos, |es|) == pos + |Serialize(es)|
  {
    ChainCons(img, pos, |es|, next);
    assert es == [es[0]] + es[1..];
  }

  /** Serialized records parse back as the same chain: the read-after-write of a record list. */
  /** A file whose bytes past offset 812 are serialized records holds exactly those records, up to its end. */
  lemma ChainOfSerialized(img: seq<byte>, es: seq<Entry>)
    requires Laid(es, ENTRY_BASE) && ENTRY_BASE + |Serialize(es)| == |img|
    requires img[ENTRY_BASE..ENTRY_BASE + |Serialize(es)|] == Serialize(es)
    ensures Chain(img, ENTRY_BASE, |es|) && Entries(img, ENTRY_BASE, |es|) == es
    ensures ChainEnd(img, ENTRY_BASE, |es|) == |img|
  {
    ParseSerialized(img, ENTRY_BASE, es);
  }

  lemma {:induction false} ParseSerialized(img: seq<byte>, pos: nat, es: seq<Entry>)
    requires Laid(es, pos)
    requires pos + |Serialize(es)| <= |img| && img[pos..pos + |Serialize(es)|] == Serialize(es)
    ensures Chain(img, pos, |es|)
    ensures Entries(img, pos, |es|) == es
    ensures ChainEnd(img, pos, |es|) == pos + |Serialize(es)|
    decreases |es|
  {
    if es != [] {
      var next := pos + HDR + |es[0].content|;
      ParseHead(img, pos, es, next);
      ParseSerialized(img, next, es[1..]);
      ParseJoin(img, pos, es, next);
    }
  }

  /** A record laid right after a laid-out list extends it. */
  lemma {:induction false} LaidSnoc(es: seq<Entry>, e: Entry, pos: nat)
    requires Laid(es, pos) && e.offset == pos + |Serialize(es)|
    requires e.header.fileSize == |e.content| && HeaderIsInt32(e.header)
    ensures Laid(es + [e], pos)
    decreases |es|
  {
    if es == [] {
      assert es + [e] == [e];
      assert [e][1..] == [];
    } else {
      var next := pos + HDR + |es[0].content|;
      assert (es + [e])[0] == es[0];
      assert (es + [e])[1..] == es[1..] + [e];
      assert |Serialize(es)| == HDR + |es[0].content| + |Serialize(es[1..])|;
      LaidSnoc(es[1..], e, next);
    }
  }

  /** A chain is determined by the bytes it occupies: bytes outside it may change freely. */
  lemma ChainFrame(img: seq<byte>, img': seq<byte>, pos: nat, count: nat)
    requires Chain(img, pos, count)
    requires ChainEnd(img, pos, count) <= |img'|
    requires img'[pos..ChainEnd(img, pos, count)] == img[pos..ChainEnd(img, pos, count)]
    ensures Chain(img', pos, count) && Entries(img', pos, count) == Entries(img, pos, count)
    ensures ChainEnd(img', pos, count) == ChainEnd(img, pos, count)
  {
    var es := Entries(img, pos, count);
    ChainIsSerialized(img, pos, count);
    EntriesAreLaid(img, pos, count);
    ParseSerialized(img', pos, es);
  }

  /** The records of a chain are laid out back to back from its start. */
  lemma {:induction false} EntriesAreLaid(img: seq<byte>, pos: nat, count: nat)
    requires Chain(img, pos, count)
    ensures Laid(Entries(img, pos, count), pos)
    decreases count
  {
    if count > 0 {
      var h := HeaderAt(img, pos);
      EntriesAreLaid(img, pos + HDR + h.fileSize, count - 1);
      assert Entries(img, pos, count)[1..] == Entries(img, pos + HDR + h.fileSize, count - 1);
    }
  }

  // ---------------------------------------------------------------- find_file_info

  /**
   * The scan of find_file_info from a header at pos with `remaining` headers
   * left to read: a failed read ends it with "not found"; the first header
   * whose name equals `name` decides: found if not DELETED, not found if DELETED.
   */
  function Locate(img: seq<byte>, pos: nat, remaining: int, name: seq<byte>): Option<Located>
    decreases remaining
  {
    if remaining <= 0 || pos + HDR > |img| then None
    else
      var h := HeaderAt(img, pos);
      if CName(h.filename) == name then
        if h.status == DELETED then None else Some(Located(h, pos))
      else
        Locate(img, SkipContent(pos, h.fileSize), remaining - 1, name)
  }

  /** find_file_info on a freshly opened container: metadata at 804, records from 812. */
  function FindSpec(img: seq<byte>, name: seq<byte>): Option<Located>
  {
    if |img| < ENTRY_BASE then None
    else Locate(img, ENTRY_BASE, MetaAt(img, META_OFFSET).numFiles, name)
  }

  /**
   * The container holds `count` records back to back from offset 812 up to
   * its end, and num_files counts at least that many (create stops at the
   * first member it cannot open but still declares every member).
   */
  predicate Walkable(img: seq<byte>, count: nat)
  {
    ENTRY_BASE <= |img| && Chain(img, ENTRY_BASE, count) && ChainEnd(img, ENTRY_BASE, count) == |img| &&
    count <= MetaAt(img, META_OFFSET).numFiles
  }

  /** The index of the first record of a list whose name is `name`. */
  function FirstIndex(es: seq<Entry>, name: seq<byte>): (r: Option<nat>)
    ensures r.Some? ==> r.value < |es| && CName(es[r.value].header.filename) == name
    ensures r.Some? ==> forall k :: 0 <= k < r.value ==> CName(es[k].header.filename) != name
    ensures r.None? ==> forall k :: 0 <= k < |es| ==> CName(es[k].header.filename) != name
  {
    if es == [] then None
    else if CName(es[0].header.filename) == name then Some(0)
    else match FirstIndex(es[1..], name)
      case None => None
      case Some(k) => Some(k + 1)
  }

  /**
   * What a lookup of `name` should answer for a record list: the first record
   * with that name, unless that record is DELETED.
   */
  function LookupIn(es: seq<Entry>, name: seq<byte>): Option<Located>
  {
    match FirstIndex(es, name)
    case None => None
    case Some(k) => if es[k].header.status == DELETED then None else Some(Located(es[k].header, es[k].offset))
  }

  /** A lookup past a first record with another name is the lookup in the rest of the list. */
  lemma LookupSkipsOther(es: seq<Entry>, name: seq<byte>)
    requires es != [] && CName(es[0].header.filename) != name
    ensures LookupIn(es, name) == LookupIn(es[1..], name)
  {
    match FirstIndex(es[1..], name)
    case None =>
    case Some(k) =>
      assert es[1..][k] == es[k + 1];
  }

  /** A lookup whose name the first record holds is decided by that record. */
  lemma LookupFirst(es: seq<Entry>, name: seq<byte>)
    requires es != [] && CName(es[0].header.filename) == name
    ensures LookupIn(es, name) == if es[0].header.status == DELETED then None else Some(Located(es[0].header, es[0].offset))
  {
  }

  /** The first record of a chain, and the chain after it, which starts at `next`. */
  lemma ChainHead(img: seq<byte>, pos: nat, count: nat, next: nat)
    requires Chain(img, pos, count) && 0 < count
    requires next == pos + HDR + HeaderAt(img, pos).fileSize
    ensures pos + HDR <= next <= |img| && Chain(img, next, count - 1)
    ensures Entries(img, pos, count) == [Entry(pos, HeaderAt(img, pos), img[pos + HDR..next])] + Entries(img, next, count - 1)
    ensures Entries(img, pos, count)[0] == Entry(pos, HeaderAt(img, pos), img[pos + HDR..next])
    ensures Entries(img, pos, count)[1..] == Entries(img, next, count - 1)
    ensures ChainEnd(img, pos, count) == ChainEnd(img, next, count - 1)
  {
  }

  /** The chain after the first record starts at `next` and ends where the whole chain ends. */
  lemma ChainTail(img: seq<byte>, pos: nat, count: nat, next: nat)
    requires Chain(img, pos, count) && 0 < count
    requires next == pos + HDR + HeaderAt(img, pos).fileSize
    ensures next <= |img| && Chain(img, next, count - 1)
    ensures ChainEnd(img, pos, count) == ChainEnd(img, next, count - 1)
  {
  }

  /** Over a chain whose first record has another name, the lookup is the lookup in the chain after it. */
  lemma LookupTail(img: seq<byte>, pos: nat, count: nat, next: nat, name: seq<byte>)
    requires Chain(img, pos, count) && 0 < count && CName(HeaderAt(img, pos).filename) != name
    requires next == pos + HDR + HeaderAt(img, pos).fileSize
    ensures Chain(img, next, count - 1)
    ensures LookupIn(Entries(img, pos, count), name) == LookupIn(Entries(img, next, count - 1), name)
  {
    ChainHead(img, pos, count, next);
    LookupSkipsOther(Entries(img, pos, count), name);
  }

  /** Over a chain whose first record has the name, the lookup is decided by that record. */
  lemma LookupHead(img: seq<byte>, pos: nat, count: nat, name: seq<byte>)
    requires Chain(img, pos, count) && 0 < count && CName(HeaderAt(img, pos).filename) == name
    ensures LookupIn(Entries(img, pos, count), name) ==
              if HeaderAt(img, pos).status == DELETED then None else Some(Located(HeaderAt(img, pos), pos))
  {
    ChainHead(img, pos, count, pos + HDR + HeaderAt(img, pos).fileSize);
    LookupFirst(Entries(img, pos, count), name);
  }

  /** The first record of a chain: its header at pos, then file_size bytes of content up to `next`. */
  lemma ChainFirst(img: seq<byte>, pos: nat, count: nat, next: nat)
    requires Chain(img, pos, count) && 0 < count
    requires next == pos + HDR + HeaderAt(img, pos).fileSize
    ensures pos + HDR <= next <= |img|
    ensures Entries(img, pos, count)[0] == Entry(pos, HeaderAt(img, pos), img[pos + HDR..next])
  {
  }

  /** The first record of a chain is inside the image and the rest of the chain starts at `next`. */
  lemma ChainNext(img: seq<byte>, pos: nat, count: nat, next: nat)
    requires Chain(img, pos, count) && 0 < count
    requires next == pos + HDR + HeaderAt(img, pos).fileSize
    ensures pos + HDR <= next <= |img| && Chain(img, next, count - 1)
  {
  }

  /** If the scan agrees with LookupIn after a record of another name, it agrees from that record on. */
  lemma OverChainStep(img: seq<byte>, pos: nat, count: nat, name: seq<byte>, next: nat)
    requires Chain(img, pos, count) && 0 < count && CName(HeaderAt(img, pos).filename) != name
    requires next == pos + HDR + HeaderAt(img, pos).fileSize && Chain(img, next, count - 1)
    requires Locate(img, next, count - 1, name) == LookupIn(Entries(img, next, count - 1), name)
    ensures Locate(img, pos, count, name) == LookupIn(Entries(img, pos, count), name)
  {
    LocateSkip(img, pos, count, name, next);
    LookupTail(img, pos, count, next, name);
  }

  /**
   * A scan told to read exactly the `count` headers of a chain reads them in
   * order, skipping file_size content bytes after each: it answers as LookupIn
   * over the chain's records.
   */
  lemma {:induction false} LocateOverChain(img: seq<byte>, pos: nat, count: nat, name: seq<byte>)
    requires Chain(img, pos, count)
    ensures Locate(img, pos, count, name) == LookupIn(Entries(img, pos, count), name)
    decreases count
  {
    if count > 0 {
      var next := pos + HDR + HeaderAt(img, pos).fileSize;
      if CName(HeaderAt(img, pos).filename) != name {
        ChainNext(img, pos, count, next);
        LocateOverChain(img, next, count - 1, name);
        OverChainStep(img, pos, count, name, next);
      } else {
        LocateHit(img, pos, count, name);
        LookupHead(img, pos, count, name);
      }
    }
  }

  /** `count` records starting at pos fill the image exactly up to its end. */
  predicate FillsToEnd(img: seq<byte>, pos: nat, count: nat)
    decreases count
  {
    if count == 0 then pos == |img|
    else
      pos + HDR <= |img| &&
      var size := HeaderAt(img, pos).fileSize;
      0 <= size && pos + HDR + size <= |img| && FillsToEnd(img, pos + HDR + size, count - 1)
  }

  /** A chain that ends at the end of the image fills it. */
  lemma {:induction false} ChainFillsToEnd(img: seq<byte>, pos: nat, count: nat)
    requires Chain(img, pos, count) && ChainEnd(img, pos, count) == |img|
    ensures FillsToEnd(img, pos, count)
    decreases count
  {
    if count > 0 {
      var next := pos + HDR + HeaderAt(img, pos).fileSize;
      ChainTail(img, pos, count, next);
      ChainFillsToEnd(img, next, count - 1);
    }
  }

  /** If surplus reads change nothing after a record of another name, they change nothing from that record on. */
  lemma SurplusStep(img: seq<byte>, pos: nat, count: nat, remaining: int, name: seq<byte>, next: nat)
    requires FillsToEnd(img, pos, count) && 0 < count && remaining >= count && CName(HeaderAt(img, pos).filename) != name
    requires next == pos + HDR + HeaderAt(img, pos).fileSize
    requires Locate(img, next, remaining - 1, name) == Locate(img, next, count - 1, name)
    ensures Locate(img, pos, remaining, name) == Locate(img, pos, count, name)
  {
    LocateSkip(img, pos, count, name, next);
    LocateSkip(img, pos, remaining, name, next);
  }

  /**
   * When the records fill the image, telling the scan to read more headers
   * than there are records changes nothing: past the last record it meets
   * the end of the image and stops.
   */
  lemma {:induction false} LocateIgnoresSurplus(img: seq<byte>, pos: nat, count: nat, remaining: int, name: seq<byte>)
    requires FillsToEnd(img, pos, count) && remaining >= count
    ensures Locate(img, pos, remaining, name) == Locate(img, pos, count, name)
    decreases count
  {
    if count > 0 {
      var next := pos + HDR + HeaderAt(img, pos).fileSize;
      if CName(HeaderAt(img, pos).filename) != name {
        LocateIgnoresSurplus(img, next, count - 1, remaining - 1, name);
        SurplusStep(img, pos, count, remaining, name, next);
      }
    } else {
      LocateAtEnd(img, pos, remaining, name);
    }
  }

  /**
   * When the chain of `count` records runs to the end of the image, a scan
   * told to read at least that many headers answers as LookupIn over those
   * records, so a declared num_files larger than the number of records
   * stored changes nothing.
   */
  lemma LocatePastChain(img: seq<byte>, pos: nat, count: nat, remaining: int, name: seq<byte>)
    requires Chain(img, pos, count) && ChainEnd(img, pos, count) == |img| && remaining >= count
    ensures Locate(img, pos, remaining, name) == LookupIn(Entries(img, pos, count), name)
  {
    ChainFillsToEnd(img, pos, count);
    LocateIgnoresSurplus(img, pos, count, remaining, name);
    LocateOverChain(img, pos, count, name);
  }

  /** Past a header with another name, the scan goes on at the next header with one fewer left to read. */
  lemma LocateSkip(img: seq<byte>, pos: nat, remaining: int, name: seq<byte>, next: nat)
    requires 0 < remaining && pos + HDR <= |img| && CName(HeaderAt(img, pos).filename) != name
    requires next == pos + HDR + HeaderAt(img, pos).fileSize
    ensures Locate(img, pos, remaining, name) == Locate(img, next, remaining - 1, name)
  {
  }

  /** A header with the name asked for decides the scan. */
  lemma LocateHit(img: seq<byte>, pos: nat, remaining: int, name: seq<byte>)
    requires 0 < remaining && pos + HDR <= |img| && CName(HeaderAt(img, pos).filename) == name
    ensures Locate(img, pos, remaining, name) ==
              if HeaderAt(img, pos).status == DELETED then None else Some(Located(HeaderAt(img, pos), pos))
  {
  }

  /** At the end of the image the scan stops with "not found". */
  lemma LocateAtEnd(img: seq<byte>, pos: nat, remaining: int, name: seq<byte>)
    requires pos == |img|
    ensures Locate(img, pos, remaining, name) == None
  {
  }

  /** On a walkable container find_file_info answers as the lookup over its records. */
  lemma FindMatchesEntries(img: seq<byte>, count: nat, name: seq<byte>)
    requires Walkable(img, count)
    ensures FindSpec(img, name) == LookupIn(Entries(img, ENTRY_BASE, count), name)
  {
    LocatePastChain(img, ENTRY_BASE, count, MetaAt(img, META_OFFSET).numFiles, name);
  }

  /**
   * A record find_file_info reports is a header of the image with exactly the
   * name asked for, and it is never DELETED: the "already deleted" branch of
   * delete cannot be taken.
   */
  lemma {:induction false} LocateSound(img: seq<byte>, pos: nat, remaining: int, name: seq<byte>)
    requires Locate(img, pos, remaining, name).Some?
    ensures var loc := Locate(img, pos, remaining, name).value;
            loc.offset + HDR <= |img| && loc.info == HeaderAt(img, loc.offset) &&
            CName(loc.info.filename) == name && loc.info.status != DELETED
    decreases remaining
  {
    var h := HeaderAt(img, pos);
    if CName(h.filename) != name {
      LocateSound(img, SkipContent(pos, h.fileSize), remaining - 1, name);
    }
  }

  /**
   * A DELETED record shadows every later record of the same name: once the
   * first record named `name` is DELETED, the lookup fails even if an ACTIVE
   * record of that name follows.
   */
  lemma {:induction false} DeletedShadows(es: seq<Entry>, name: seq<byte>, k: nat)
    requires k < |es| && CName(es[k].header.filename) == name && es[k].header.status == DELETED
    requires forall m :: 0 <= m < k ==> CName(es[m].header.filename) != name
    ensures LookupIn(es, name) == None
  {
  }

  lemma FirstIndexIs(es: seq<Entry>, name: seq<byte>, k: nat)
    requires k < |es| && CName(es[k].header.filename) == name
    requires forall m :: 0 <= m < k ==> CName(es[m].header.filename) != name
    ensures FirstIndex(es, name) == Some(k)
  {
  }

  /** The lookup of a name lands on a record of the list, and answers only for a record that is not DELETED. */
  lemma LookupInSound(es: seq<Entry>, name: seq<byte>)
    requires LookupIn(es, name).Some?
    ensures var k := FirstIndex(es, name).value;
            LookupIn(es, name).value == Located(es[k].header, es[k].offset) && es[k].header.status != DELETED
  {
  }

  // ---------------------------------------------------------------- chains under rewriting

  lemma {:induction false} SerializeConcat(a: seq<Entry>, b: seq<Entry>)
    ensures Serialize(a + b) == Serialize(a) + Serialize(b)
    decreases |a|
  {
    if a == [] {
      assert a + b == b;
    } else {
      assert (a + b)[1..] == a[1..] + b;
      SerializeConcat(a[1..], b);
    }
  }

  /** The records of a chain lie at increasing offsets, none before the chain start. */
  lemma {:induction false} EntriesOffsets(img: seq<byte>, pos: nat, count: nat, k: nat)
    requires Chain(img, pos, count) && k < count
    ensures pos <= Entries(img, pos, count)[k].offset
    ensures Entries(img, pos, count)[k].offset + HDR + |Entries(img, pos, count)[k].content| <= ChainEnd(img, pos, count)
    ensures k > 0 ==> pos + HDR + HeaderAt(img, pos).fileSize <= Entries(img, pos, count)[k].offset
    ensures k > 0 ==> Entries(img, pos, count)[k] == Entries(img, pos + HDR + HeaderAt(img, pos).fileSize, count - 1)[k - 1]
    decreases count
  {
    var next := pos + HDR + HeaderAt(img, pos).fileSize;
    if k > 0 {
      EntriesOffsets(img, next, count - 1, k - 1);
    }
  }

  /** Record k of a chain is the header at its offset followed by file_size bytes of content. */
  lemma {:induction false} EntryContent(img: seq<byte>, pos: nat, count: nat, k: nat)
    requires Chain(img, pos, count) && k < count
    ensures var e := Entries(img, pos, count)[k];
            && e.offset + HDR + |e.content| <= |img|
            && e.header == HeaderAt(img, e.offset) && e.header.fileSize == |e.content|
            && e.content == img[e.offset + HDR..e.offset + HDR + |e.content|]
    decreases count
  {
    var next := pos + HDR + HeaderAt(img, pos).fileSize;
    if k == 0 {
      ChainFirst(img, pos, count, next);
    } else {
      ChainNext(img, pos, count, next);
      EntryContent(img, next, count - 1, k - 1);
      LaterEntry(img, pos, count, k, next);
    }
  }

  /** Record k of a chain is record k - 1 of the chain after its first record. */
  lemma LaterEntry(img: seq<byte>, pos: nat, count: nat, k: nat, next: nat)
    requires Chain(img, pos, count) && 0 < k < count
    requires next == pos + HDR + HeaderAt(img, pos).fileSize && Chain(img, next, count - 1)
    ensures Entries(img, pos, count)[k] == Entries(img, next, count - 1)[k - 1]
  {
    ChainHead(img, pos, count, next);
    assert Entries(img, pos, count)[1..][k - 1] == Entries(img, pos, count)[k];
  }

  /** The last record of a chain ends where the chain ends. */
  lemma {:induction false} LastEndsChain(img: seq<byte>, pos: nat, count: nat)
    requires Chain(img, pos, count) && 0 < count
    ensures var e := Entries(img, pos, count)[count - 1];
            e.offset + HDR + |e.content| == ChainEnd(img, pos, count)
    decreases count
  {
    if count > 1 {
      var next := pos + HDR + HeaderAt(img, pos).fileSize;
      EntriesOffsets(img, pos, count, count - 1);
      LastEndsChain(img, next, count - 1);
    }
  }

  /** Two images that agree outside [lo, hi) agree on every slice that stays outside it. */
  predicate SameOutside(a: seq<byte>, b: seq<byte>, lo: nat, hi: nat)
  {
    |a| == |b| && forall i :: 0 <= i < |a| && !(lo <= i < hi) ==> a[i] == b[i]
  }

  lemma SameOutsideSlice(a: seq<byte>, b: seq<byte>, lo: nat, hi: nat, x: nat, y: nat)
    requires SameOutside(a, b, lo, hi) && x <= y <= |a| && (y <= lo || hi <= x)
    ensures a[x..y] == b[x..y]
  {
    assert forall i :: x <= i < y ==> a[i] == b[i];
  }

  /** A chain is its first record followed by the chain after it. */
  lemma ChainCons(img: seq<byte>, pos: nat, count: nat, next: nat)
    requires 0 < count && pos + HDR <= |img| && next == pos + HDR + HeaderAt(img, pos).fileSize
    requires pos + HDR <= next <= |img| && Chain(img, next, count - 1)
    ensures Chain(img, pos, count)
    ensures Entries(img, pos, count) == [Entry(pos, HeaderAt(img, pos), img[pos + HDR..next])] + Entries(img, next, count - 1)
    ensures ChainEnd(img, pos, count) == ChainEnd(img, next, count - 1)
  {
  }

  /** The list with the header of record k replaced by h. */
  function WithHeader(es: seq<Entry>, k: nat, h: FileInfo): (r: seq<Entry>)
    requires k < |es|
    ensures |r| == |es|
    decreases k
  {
    if k == 0 then [es[0].(header := h)] + es[1..] else [es[0]] + WithHeader(es[1..], k - 1, h)
  }

  /** Replacing one header is the sequence update at that index. */
  lemma {:induction false} WithHeaderIsUpdate(es: seq<Entry>, k: nat, h: FileInfo)
    requires k < |es|
    ensures WithHeader(es, k, h) == es[k := es[k].(header := h)]
    decreases k
  {
    if k > 0 {
      WithHeaderIsUpdate(es[1..], k - 1, h);
      assert es == [es[0]] + es[1..];
    }
  }

  /** A chain whose first header was rewritten, with the same file_size, over the same content and the same rest. */
  lemma RewriteFirstJoin(img: seq<byte>, img': seq<byte>, pos: nat, count: nat, h: FileInfo, next: nat)
    requires Chain(img, pos, count) && 0 < count
    requires pos + HDR <= |img'| && HeaderAt(img', pos) == h && h.fileSize == HeaderAt(img, pos).fileSize
    requires next == pos + HDR + h.fileSize && next <= |img| && next <= |img'|
    requires img'[pos + HDR..next] == img[pos + HDR..next]
    requires Chain(img, next, count - 1) && Chain(img', next, count - 1)
    requires Entries(img', next, count - 1) == Entries(img, next, count - 1)
    requires ChainEnd(img', next, count - 1) == ChainEnd(img, next, count - 1)
    ensures Chain(img', pos, count)
    ensures Entries(img', pos, count) == WithHeader(Entries(img, pos, count), 0, h)
    ensures ChainEnd(img', pos, count) == ChainEnd(img, pos, count)
  {
    ChainHead(img, pos, count, next);
    ChainCons(img', pos, count, next);
  }

  /** Rewriting the first header of a chain leaves its content and the rest of the chain as they were. */
  lemma RewriteFirstKeepsRest(img: seq<byte>, img': seq<byte>, pos: nat, count: nat, next: nat)
    requires Chain(img, pos, count) && 0 < count && SameOutside(img, img', pos, pos + HDR)
    requires next == pos + HDR + HeaderAt(img, pos).fileSize
    ensures next <= |img| == |img'| && img'[pos + HDR..next] == img[pos + HDR..next]
    ensures Chain(img, next, count - 1) && Chain(img', next, count - 1)
    ensures Entries(img', next, count - 1) == Entries(img, next, count - 1)
    ensures ChainEnd(img', next, count - 1) == ChainEnd(img, next, count - 1)
  {
    ChainTail(img, pos, count, next);
    var end := ChainEnd(img, next, count - 1);
    SameOutsideSlice(img, img', pos, pos + HDR, pos + HDR, next);
    SameOutsideSlice(img, img', pos, pos + HDR, next, end);
    ChainFrame(img, img', next, count - 1);
  }

  /** Rewriting the first header of a chain in place, with the same file_size. */
  lemma RewriteFirstHeader(img: seq<byte>, img': seq<byte>, pos: nat, count: nat, h: FileInfo, next: nat)
    requires Chain(img, pos, count) && 0 < count
    requires SameOutside(img, img', pos, pos + HDR) && HeaderAt(img', pos) == h
    requires h.fileSize == HeaderAt(img, pos).fileSize && next == pos + HDR + h.fileSize
    ensures Chain(img', pos, count)
    ensures Entries(img', pos, count) == WithHeader(Entries(img, pos, count), 0, h)
    ensures ChainEnd(img', pos, count) == ChainEnd(img, pos, count)
  {
    RewriteFirstKeepsRest(img, img', pos, count, next);
    RewriteFirstJoin(img, img', pos, count, h, next);
  }

  /**
   * Rewriting the header of a record after the first leaves the first record
   * and its content untouched, and the rewritten record is record k - 1 of
   * the rest of the chain.
   */
  lemma RewriteLaterHeaderPre(img: seq<byte>, img': seq<byte>, pos: nat, count: nat, k: nat, next: nat)
    requires Chain(img, pos, count) && 0 < k < count
    requires next == pos + HDR + HeaderAt(img, pos).fileSize
    requires var off := Entries(img, pos, count)[k].offset;
             off + HDR <= |img| && SameOutside(img, img', off, off + HDR)
    ensures Chain(img, next, count - 1)
    ensures Entries(img, next, count - 1)[k - 1] == Entries(img, pos, count)[k]
    ensures pos + HDR <= |img'| && HeaderAt(img', pos) == HeaderAt(img, pos)
    ensures next <= |img'| && img'[pos + HDR..next] == img[pos + HDR..next]
  {
    var off := Entries(img, pos, count)[k].offset;
    ChainHead(img, pos, count, next);
    EntriesOffsets(img, pos, count, k);
    SameOutsideSlice(img, img', off, off + HDR, pos, next);
    assert img'[pos..pos + HDR] == img[pos..pos + HDR];
    assert img'[pos + HDR..next] == img[pos + HDR..next];
  }

  /** If the rest of the chain takes the rewrite of its record k - 1, the whole chain takes that of record k. */
  lemma RewriteLaterHeaderStep(img: seq<byte>, img': seq<byte>, pos: nat, count: nat, k: nat, h: FileInfo, next: nat)
    requires Chain(img, pos, count) && 0 < k < count
    requires next == pos + HDR + HeaderAt(img, pos).fileSize
    requires pos + HDR <= |img'| && HeaderAt(img', pos) == HeaderAt(img, pos)
    requires next <= |img'| && img'[pos + HDR..next] == img[pos + HDR..next]
    requires Chain(img, next, count - 1) && Chain(img', next, count - 1)
    requires Entries(img', next, count - 1) == WithHeader(Entries(img, next, count - 1), k - 1, h)
    requires ChainEnd(img', next, count - 1) == ChainEnd(img, next, count - 1)
    ensures Chain(img', pos, count)
    ensures Entries(img', pos, count) == WithHeader(Entries(img, pos, count), k, h)
    ensures ChainEnd(img', pos, count) == ChainEnd(img, pos, count)
  {
    ChainHead(img, pos, count, next);
    ChainCons(img', pos, count, next);
  }

  /** The header rewrite of record k, with the list update spelled out record by record. */
  lemma {:induction false} RewriteHeaderAt(img: seq<byte>, img': seq<byte>, pos: nat, count: nat, k: nat, h: FileInfo)
    requires Chain(img, pos, count) && k < count
    requires var off := Entries(img, pos, count)[k].offset;
             off + HDR <= |img| && SameOutside(img, img', off, off + HDR) && HeaderAt(img', off) == h
    requires h.fileSize == Entries(img, pos, count)[k].header.fileSize
    ensures Chain(img', pos, count)
    ensures Entries(img', pos, count) == WithHeader(Entries(img, pos, count), k, h)
    ensures ChainEnd(img', pos, count) == ChainEnd(img, pos, count)
    decreases count
  {
    var next := pos + HDR + HeaderAt(img, pos).fileSize;
    if k == 0 {
      RewriteFirstHeader(img, img', pos, count, h, next);
    } else {
      RewriteLaterHeaderPre(img, img', pos, count, k, next);
      RewriteHeaderAt(img, img', next, count - 1, k - 1, h);
      RewriteLaterHeaderStep(img, img', pos, count, k, h, next);
    }
  }

  /**
   * Rewriting the header of record k in place, with the same file_size and
   * nothing else touched, leaves a chain of the same records in which only
   * record k's header changed.
   */
  lemma ChainRewriteHeader(img: seq<byte>, img': seq<byte>, pos: nat, count: nat, k: nat, h: FileInfo)
    requires Chain(img, pos, count) && k < count
    requires var off := Entries(img, pos, count)[k].offset;
             off + HDR <= |img| && SameOutside(img, img', off, off + HDR) && HeaderAt(img', off) == h
    requires h.fileSize == Entries(img, pos, count)[k].header.fileSize
    ensures Chain(img', pos, count)
    ensures Entries(img', pos, count) == Entries(img, pos, count)[k := Entries(img, pos, count)[k].(header := h)]
    ensures ChainEnd(img', pos, count) == ChainEnd(img, pos, count)
  {
    RewriteHeaderAt(img, img', pos, count, k, h);
    WithHeaderIsUpdate(Entries(img, pos, count), k, h);
  }

  // ---------------------------------------------------------------- list

  /**
   * The walk of list (star.c): up to n headers; a failed read ends it; the name
   * of each ACTIVE record is reported; the next header is read at
   * start_position + file_size (a seek to a negative offset fails and
   * reading continues right after the header).
   */
  function ListWalk(img: seq<byte>, pos: nat, remaining: int): seq<seq<byte>>
    decreases remaining
  {
    if remaining <= 0 || pos + HDR > |img| then []
    else
      var h := HeaderAt(img, pos);
      var next := if h.startPosition + h.fileSize >= 0 then h.startPosition + h.fileSize else pos + HDR;
      (if h.status == ACTIVE then [CName(h.filename)] else []) + ListWalk(img, next, remaining - 1)
  }

  /** The names of the ACTIVE records of a list, in order. */
  function ActiveNames(es: seq<Entry>): seq<seq<byte>>
  {
    if es == [] then []
    else (if es[0].header.status == ACTIVE then [CName(es[0].header.filename)] else []) + ActiveNames(es[1..])
  }

  /**
   * When every header's start_position is its own content offset, list's
   * absolute seeks follow the same chain as find_file_info's relative skips,
   * and list reports the names of the ACTIVE records in file order.
   */
  lemma {:induction false} ListWalkMatchesEntries(img: seq<byte>, pos: nat, count: nat)
    requires Chain(img, pos, count) && Consistent(Entries(img, pos, count))
    ensures ListWalk(img, pos, count) == ActiveNames(Entries(img, pos, count))
    decreases count
  {
    if count > 0 {
      var next := pos + HDR + HeaderAt(img, pos).fileSize;
      ListTail(img, pos, count, next);
      ListWalkMatchesEntries(img, next, count - 1);
      ListStep(img, pos, count, next);
    }
  }

  /**
   * When a consistent chain fills the image, telling list to read more
   * headers than there are records changes nothing: past the last record
   * the read fails and the walk stops.
   */
  lemma {:induction false} ListIgnoresSurplus(img: seq<byte>, pos: nat, count: nat, remaining: int)
    requires Chain(img, pos, count) && Consistent(Entries(img, pos, count))
    requires FillsToEnd(img, pos, count) && remaining >= count
    ensures ListWalk(img, pos, remaining) == ListWalk(img, pos, count)
    decreases count
  {
    if count > 0 {
      var next := pos + HDR + HeaderAt(img, pos).fileSize;
      ListTail(img, pos, count, next);
      ListIgnoresSurplus(img, next, count - 1, remaining - 1);
      ChainHead(img, pos, count, next);
      assert Entries(img, pos, count)[0].header.startPosition == pos + HDR;
      ListWalkCons(img, pos, count, next);
      ListWalkCons(img, pos, remaining, next);
    }
  }

  /**
   * When a consistent chain of `count` records runs to the end of the image,
   * list told to read at least that many headers reports the names of its
   * ACTIVE records.
   */
  lemma ListPastChain(img: seq<byte>, pos: nat, count: nat, remaining: int)
    requires Chain(img, pos, count) && ChainEnd(img, pos, count) == |img| && remaining >= count
    requires Consistent(Entries(img, pos, count))
    ensures ListWalk(img, pos, remaining) == ActiveNames(Entries(img, pos, count))
  {
    ChainFillsToEnd(img, pos, count);
    ListIgnoresSurplus(img, pos, count, remaining);
    ListWalkMatchesEntries(img, pos, count);
  }

  /** The records after the first of a consistent chain form a consistent chain. */
  lemma ListTail(img: seq<byte>, pos: nat, count: nat, next: nat)
    requires Chain(img, pos, count) && 0 < count && Consistent(Entries(img, pos, count))
    requires next == pos + HDR + HeaderAt(img, pos).fileSize
    ensures Chain(img, next, count - 1) && Consistent(Entries(img, next, count - 1))
  {
    var es := Entries(img, pos, count);
    ChainHead(img, pos, count, next);
    forall k | 0 <= k < |es[1..]| ensures es[1..][k].header.startPosition == es[1..][k].offset + HDR {
      assert es[1..][k] == es[k + 1];
    }
  }

  /** If list agrees with the records after the first, it agrees from the first on. */
  lemma ListStep(img: seq<byte>, pos: nat, count: nat, next: nat)
    requires Chain(img, pos, count) && 0 < count && Consistent(Entries(img, pos, count))
    requires next == pos + HDR + HeaderAt(img, pos).fileSize && Chain(img, next, count - 1)
    requires ListWalk(img, next, count - 1) == ActiveNames(Entries(img, next, count - 1))
    ensures ListWalk(img, pos, count) == ActiveNames(Entries(img, pos, count))
  {
    var es := Entries(img, pos, count);
    var h := HeaderAt(img, pos);
    ChainHead(img, pos, count, next);
    assert es[0].header == h && es[0].header.startPosition == es[0].offset + HDR;
    ListWalkCons(img, pos, count, next);
    assert ActiveNames(es) == (if h.status == ACTIVE then [CName(h.filename)] else []) + ActiveNames(es[1..]);
  }

  /** list reports the header at pos (when ACTIVE), then seeks to where that header says its content ends. */
  lemma ListWalkCons(img: seq<byte>, pos: nat, remaining: int, next: nat)
    requires 0 < remaining && pos + HDR <= |img|
    requires HeaderAt(img, pos).startPosition + HeaderAt(img, pos).fileSize == next
    ensures ListWalk(img, pos, remaining) ==
              (if HeaderAt(img, pos).status == ACTIVE then [CName(HeaderAt(img, pos).filename)] else []) + ListWalk(img, next, remaining - 1)
  {
  }

  // ---------------------------------------------------------------- the scans, on the open file

  /** list stops when no header is left to read or a header read fails: nothing more is reported. */
  lemma ListStop(img: seq<byte>, pos: nat, remaining: int, names: seq<seq<byte>>)
    requires remaining <= 0 || pos + HDR > |img|
    ensures names + ListWalk(img, pos, remaining) == names
  {
    assert ListWalk(img, pos, remaining) == [];
  }

  /** One turn of list's loop: the names reported so far, then this header's, then the rest of the walk. */
  lemma ListVisit(img: seq<byte>, pos: nat, remaining: int, names: seq<seq<byte>>, reported: seq<seq<byte>>, next: nat)
    requires 0 < remaining && pos + HDR <= |img|
    requires reported == if HeaderAt(img, pos).status == ACTIVE then [CName(HeaderAt(img, pos).filename)] else []
    requires next == if HeaderAt(img, pos).startPosition + HeaderAt(img, pos).fileSize >= 0
                     then HeaderAt(img, pos).startPosition + HeaderAt(img, pos).fileSize else pos + HDR
    ensures names + ListWalk(img, pos, remaining) == (names + reported) + ListWalk(img, next, remaining - 1)
  {
    assert ListWalk(img, pos, remaining) == reported + ListWalk(img, next, remaining - 1);
  }

  /**
   * find_file_info: read the metadata, then up to num_files headers, each
   * followed by a relative seek over its content; the first header named
   * `name` ends the scan.
   */
  method FindFileInfo(f: ArchiveFile, name: seq<byte>) returns (r: Option<Located>)
    ensures r == FindSpec(f.image, name)
  {
    if |f.image| < ENTRY_BASE {
      return None;
    }
    var img := f.image;
    var metadata := MetaAt(img, META_OFFSET);
    var pos: nat := ENTRY_BASE;
    var i := 0;
    while i < metadata.numFiles
      invariant 0 <= i && (metadata.numFiles >= 0 ==> i <= metadata.numFiles)
      invariant Locate(img, pos, metadata.numFiles - i, name) == FindSpec(img, name)
      decreases metadata.numFiles - i
    {
      if pos + HDR > |img| {
        return None;
      }
      var info := HeaderAt(img, pos);
      if CName(info.filename) == name {
        if info.status == DELETED {
          return None;
        }
        return Some(Located(info, pos));
      }
      pos := SkipContent(pos, info.fileSize);
      i := i + 1;
    }
    return None;
  }

  /**
   * list (star.c): read up to num_files headers, report the name of each
   * ACTIVE one, and seek to start_position + file_size for the next.
   */
  method ListNames(f: ArchiveFile) returns (names: seq<seq<byte>>)
    requires ENTRY_BASE <= |f.image|
    ensures names == ListWalk(f.image, ENTRY_BASE, MetaAt(f.image, META_OFFSET).numFiles)
  {
    var img := f.image;
    var metadata := MetaAt(img, META_OFFSET);
    names := [];
    var pos: nat := ENTRY_BASE;
    var i := 0;
    var left := metadata.numFiles;
    while i < metadata.numFiles
      invariant 0 <= i && (metadata.numFiles >= 0 ==> i <= metadata.numFiles) && left == metadata.numFiles - i
      invariant names + ListWalk(img, pos, left) == ListWalk(img, ENTRY_BASE, metadata.numFiles)
      decreases left
    {
      if pos + HDR > |img| {
        break;
      }
      var info := HeaderAt(img, pos);
      var reported := if info.status == ACTIVE then [CName(info.filename)] else [];
      var next: nat := if info.startPosition + info.fileSize >= 0 then info.startPosition + info.fileSize else pos + HDR;
      ListVisit(img, pos, left, names, reported, next);
      names := names + reported;
      pos := next;
      i := i + 1;
      left := left - 1;
    }
    ListStop(img, pos, left, names);
  }
}

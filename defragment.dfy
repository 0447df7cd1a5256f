/**
 * defragment (mainTest.c): walk num_files records with a read index and a
 * write index, copy every ACTIVE record down to the write index with its
 * start_position rewritten, skip the others, then cut the file at the write
 * index and store that length as total_size.
 *
 * The code reads the metadata at offset 0 and starts the records right after
 * it, at offset 8: the layout of an earlier container without the leading int
 * and the free-space table. Both offsets are parameters here; (0, 8) is the
 * code as written, (804, 812) the layout create and append produce.
 */
module Defragment {
  import opened Bytes
  import opened Layout
  import opened Records
  import opened Create
  import opened Container

  /** Where the code as written reads the metadata and where it starts the records. */
  const LEGACY_META_OFFSET: nat := 0
  const LEGACY_BASE: nat := META_SIZE

  /** A record copied to offset `at`: same header except start_position, which names the new content offset. */
  function Moved(e: Entry, at: nat): Entry
  {
    Entry(at, e.header.(startPosition := at + HDR), e.content)
  }

  predicate AllActive(es: seq<Entry>)
  {
    forall k :: 0 <= k < |es| ==> es[k].header.status == ACTIVE
  }

  /**
   * The records defragment leaves when the first is written at w: the ACTIVE
   * records in file order, each copied right after the previous one; the
   * others are dropped.
   */
  function Compact(es: seq<Entry>, w: nat): (cs: seq<Entry>)
    ensures |cs| <= |es|
    ensures AllActive(cs) && Consistent(cs)
    decreases |es|
  {
    if es == [] then []
    else if es[0].header.status == ACTIVE then
      [Moved(es[0], w)] + Compact(es[1..], w + HDR + |es[0].content|)
    else
      Compact(es[1..], w)
  }

  /** The ACTIVE records of a list, in order. */
  function Kept(es: seq<Entry>): seq<Entry>
  {
    if es == [] then []
    else (if es[0].header.status == ACTIVE then [es[0]] else []) + Kept(es[1..])
  }

  lemma SerializeCons(e: Entry, es: seq<Entry>)
    ensures Serialize([e] + es) == RecordBytes(e) + Serialize(es)
  {
    assert ([e] + es)[1..] == es;
  }

  /** Compacting one more record appends its copy, right after the bytes already compacted, when it is ACTIVE. */
  lemma {:induction false} CompactSnoc(es: seq<Entry>, e: Entry, w: nat)
    ensures Compact(es + [e], w) ==
            Compact(es, w) + (if e.header.status == ACTIVE then [Moved(e, w + |Serialize(Compact(es, w))|)] else [])
    decreases |es|
  {
    if es == [] {
      assert [e][1..] == [];
    } else {
      assert (es + [e])[0] == es[0] && (es + [e])[1..] == es[1..] + [e];
      var w' := if es[0].header.status == ACTIVE then w + HDR + |es[0].content| else w;
      CompactSnoc(es[1..], e, w');
      if es[0].header.status == ACTIVE {
        SerializeCons(Moved(es[0], w), Compact(es[1..], w'));
      }
    }
  }

  /**
   * write_index never passes read_index: the compacted records take no more
   * bytes than the originals, and exactly as many only when every record is
   * ACTIVE.
   */
  lemma {:induction false} CompactShrinks(es: seq<Entry>, w: nat)
    ensures |Serialize(Compact(es, w))| <= |Serialize(es)|
    ensures |Serialize(Compact(es, w))| == |Serialize(es)| <==> AllActive(es)
    decreases |es|
  {
    if es != [] {
      var w' := if es[0].header.status == ACTIVE then w + HDR + |es[0].content| else w;
      CompactShrinks(es[1..], w');
      ShrinkStep(es, w, w');
    }
  }

  lemma AllActiveCons(es: seq<Entry>)
    requires es != []
    ensures AllActive(es) <==> es[0].header.status == ACTIVE && AllActive(es[1..])
  {
    if es[0].header.status == ACTIVE && AllActive(es[1..]) {
      forall k | 0 <= k < |es| ensures es[k].header.status == ACTIVE {
        if k > 0 { assert es[k] == es[1..][k - 1]; }
      }
    }
  }

  lemma ShrinkStep(es: seq<Entry>, w: nat, w': nat)
    requires es != [] && w' == if es[0].header.status == ACTIVE then w + HDR + |es[0].content| else w
    requires |Serialize(Compact(es[1..], w'))| <= |Serialize(es[1..])|
    requires |Serialize(Compact(es[1..], w'))| == |Serialize(es[1..])| <==> AllActive(es[1..])
    ensures |Serialize(Compact(es, w))| <= |Serialize(es)|
    ensures |Serialize(Compact(es, w))| == |Serialize(es)| <==> AllActive(es)
  {
    SerializeCons(es[0], es[1..]);
    assert es == [es[0]] + es[1..];
    AllActiveCons(es);
    if es[0].header.status == ACTIVE {
      SerializeCons(Moved(es[0], w), Compact(es[1..], w'));
    }
  }

  /**
   * Order is preserved: record k of the result is the k-th ACTIVE record,
   * with the same content and the same header except start_position.
   */
  lemma {:induction false} CompactIsKept(es: seq<Entry>, w: nat)
    ensures |Compact(es, w)| == |Kept(es)|
    ensures forall k :: 0 <= k < |Kept(es)| ==>
              Compact(es, w)[k].content == Kept(es)[k].content &&
              Compact(es, w)[k].header == Kept(es)[k].header.(startPosition := Compact(es, w)[k].offset + HDR)
    decreases |es|
  {
    if es != [] {
      var w' := if es[0].header.status == ACTIVE then w + HDR + |es[0].content| else w;
      CompactIsKept(es[1..], w');
    }
  }

  /** list reports the same names, in the same order, after compaction. */
  lemma {:induction false} CompactKeepsNames(es: seq<Entry>, w: nat)
    ensures ActiveNames(Compact(es, w)) == ActiveNames(es)
    decreases |es|
  {
    if es != [] {
      var w' := if es[0].header.status == ACTIVE then w + HDR + |es[0].content| else w;
      CompactKeepsNames(es[1..], w');
      if es[0].header.status == ACTIVE {
        var cs := Compact(es, w);
        assert cs[0] == Moved(es[0], w) && cs[1..] == Compact(es[1..], w');
      }
    }
  }

  /** The compacted records are laid out back to back from w, as the chain walk requires. */
  lemma {:induction false} CompactIsLaid(es: seq<Entry>, pos: nat, w: nat)
    requires Laid(es, pos) && w + |Serialize(es)| < TWO_31
    ensures Laid(Compact(es, w), w)
    decreases |es|
  {
    if es != [] {
      var w' := if es[0].header.status == ACTIVE then w + HDR + |es[0].content| else w;
      SerializeCons(es[0], es[1..]);
      assert es == [es[0]] + es[1..];
      CompactIsLaid(es[1..], pos + HDR + |es[0].content|, w');
      if es[0].header.status == ACTIVE {
        var cs := Compact(es, w);
        assert cs[0] == Moved(es[0], w) && cs[1..] == Compact(es[1..], w');
      }
    }
  }

  /** With nothing to drop, records already laid out from w with consistent headers stay exactly as they are. */
  lemma {:induction false} CompactNoop(es: seq<Entry>, w: nat)
    requires Laid(es, w) && Consistent(es) && AllActive(es)
    ensures Compact(es, w) == es
    decreases |es|
  {
    if es != [] {
      assert es[0].header.(startPosition := w + HDR) == es[0].header;
      assert Consistent(es[1..]) by {
        forall k | 0 <= k < |es[1..]| ensures es[1..][k].header.startPosition == es[1..][k].offset + HDR {
          assert es[1..][k] == es[k + 1];
        }
      }
      assert AllActive(es[1..]) by {
        forall k | 0 <= k < |es[1..]| ensures es[1..][k].header.status == ACTIVE {
          assert es[1..][k] == es[k + 1];
        }
      }
      CompactNoop(es[1..], w + HDR + |es[0].content|);
      assert es == [es[0]] + es[1..];
    }
  }

  // ---------------------------------------------------------------- the container after defragment

  /** How many times the loop runs for a num_files of n: none when n is not positive. */
  function LoopCount(n: int): (c: nat)
    ensures n <= 0 ==> c == 0
    ensures n > 0 ==> c == n
  {
    if n < 0 then 0 else n
  }

  /**
   * What defragment needs of the file: the metadata it reads lies before
   * the first record, and the num_files records it walks from base lie
   * inside the file.
   */
  predicate DefragReady(img: seq<byte>, metaOffset: nat, base: nat)
  {
    metaOffset + META_SIZE <= base <= |img| &&
    Chain(img, base, LoopCount(MetaAt(img, metaOffset).numFiles))
  }

  /** The records defragment walks. */
  function Walked(img: seq<byte>, metaOffset: nat, base: nat): (es: seq<Entry>)
    requires DefragReady(img, metaOffset, base)
    ensures |es| == LoopCount(MetaAt(img, metaOffset).numFiles)
  {
    Entries(img, base, LoopCount(MetaAt(img, metaOffset).numFiles))
  }

  /**
   * The file defragment leaves: the bytes before base as they were, then the
   * compacted records, cut right after them, with total_size set to that
   * length and num_files kept.
   */
  function DefragImage(img: seq<byte>, metaOffset: nat, base: nat): seq<byte>
    requires DefragReady(img, metaOffset, base)
  {
    Rebuilt(img, metaOffset, base, Compact(Walked(img, metaOffset, base), base))
  }

  /**
   * The bytes before base, then the records cs, with the metadata at
   * metaOffset keeping num_files and giving that length as total_size.
   */
  function Rebuilt(img: seq<byte>, metaOffset: nat, base: nat, cs: seq<Entry>): seq<byte>
    requires metaOffset + META_SIZE <= base <= |img|
  {
    var body := Serialize(cs);
    WriteAt(img[..base] + body, metaOffset, EncodeMeta(ArchiveMetadata(MetaAt(img, metaOffset).numFiles, base + |body|)))
  }

  /** The records es are the chain of |es| records from base. */
  predicate Walks(img: seq<byte>, es: seq<Entry>, base: nat)
  {
    Chain(img, base, |es|) && Entries(img, base, |es|) == es
  }

  /**
   * The loop state after i of the walked records es: read_index is just past
   * the first i records, write_index no further than it, the file up to
   * write_index holds the bytes before base and the compacted first i
   * records, and nothing from read_index on has been touched.
   */
  ghost predicate DefragState(img: seq<byte>, cur: seq<byte>, es: seq<Entry>, base: nat, i: nat, read: nat, write: nat)
  {
    i <= |es| && |cur| == |img| && base <= write <= read <= |img| &&
    read == base + |Serialize(es[..i])| &&
    write == base + |Serialize(Compact(es[..i], base))| &&
    cur[..write] == img[..base] + Serialize(Compact(es[..i], base)) &&
    cur[read..] == img[read..]
  }

  /** Records laid out from pos: record k starts right after the first k. */
  lemma {:induction false} LaidOffset(es: seq<Entry>, pos: nat, k: nat)
    requires Laid(es, pos) && k < |es|
    ensures es[k].offset == pos + |Serialize(es[..k])|
    decreases k
  {
    if k > 0 {
      LaidOffset(es[1..], pos + HDR + |es[0].content|, k - 1);
      assert es[..k] == [es[0]] + es[1..][..k - 1];
      SerializeCons(es[0], es[1..][..k - 1]);
    }
  }

  /** Record i of the walk: where it starts, its header and its content, as they lie in the file. */
  lemma RecordAt(img: seq<byte>, es: seq<Entry>, base: nat, i: nat)
    requires Walks(img, es, base) && i < |es|
    ensures es[i].offset == base + |Serialize(es[..i])|
    ensures es[i].offset + HDR + |es[i].content| <= |img|
    ensures es[i].header == HeaderAt(img, es[i].offset) && es[i].header.fileSize == |es[i].content|
    ensures es[i].content == img[es[i].offset + HDR..es[i].offset + HDR + |es[i].content|]
    ensures base + |Serialize(es[..i + 1])| == es[i].offset + HDR + |es[i].content|
  {
    EntryContent(img, base, |es|, i);
    RecordOffset(img, es, base, i);
  }

  /** Record i of the walk starts right after the first i, and ends where the first i + 1 end. */
  lemma RecordOffset(img: seq<byte>, es: seq<Entry>, base: nat, i: nat)
    requires Walks(img, es, base) && i < |es|
    ensures es[i].offset == base + |Serialize(es[..i])|
    ensures base + |Serialize(es[..i + 1])| == es[i].offset + HDR + |es[i].content|
  {
    EntriesAreLaid(img, base, |es|);
    LaidOffset(es, base, i);
    SerializeSnocLength(es, i);
  }

  lemma SerializeSnocLength(es: seq<Entry>, i: nat)
    requires i < |es|
    ensures |Serialize(es[..i + 1])| == |Serialize(es[..i])| + HDR + |es[i].content|
  {
    assert es[..i + 1] == es[..i] + [es[i]];
    SerializeAppend(es[..i], es[i]);
  }

  /** The header read at read_index is the header of record i, and its content lies inside the file. */
  lemma DefragPeek(img: seq<byte>, cur: seq<byte>, es: seq<Entry>, base: nat, i: nat, read: nat)
    requires Walks(img, es, base) && i < |es|
    requires |cur| == |img| && read == base + |Serialize(es[..i])| && read <= |img| && cur[read..] == img[read..]
    ensures read + HDR + |es[i].content| <= |cur|
    ensures HeaderAt(cur, read) == es[i].header && es[i].header.fileSize == |es[i].content|
    ensures cur[read + HDR..read + HDR + |es[i].content|] == es[i].content
  {
    RecordAt(img, es, base, i);
    SameRecord(cur, img, read, es[i]);
  }

  /** A record that lies in the untouched part of the file reads the same from both files. */
  lemma SameRecord(cur: seq<byte>, img: seq<byte>, read: nat, e: Entry)
    requires |cur| == |img| && read + HDR + |e.content| <= |img| && cur[read..] == img[read..]
    requires HeaderAt(img, read) == e.header && img[read + HDR..read + HDR + |e.content|] == e.content
    ensures HeaderAt(cur, read) == e.header && cur[read + HDR..read + HDR + |e.content|] == e.content
  {
    SameFrom(cur, img, read, read, read + HDR);
    SameFrom(cur, img, read, read + HDR, read + HDR + |e.content|);
  }

  /** Skipping a record that is not ACTIVE adds nothing to the compacted prefix. */
  lemma SkipKeeps(es: seq<Entry>, base: nat, i: nat)
    requires i < |es| && es[i].header.status != ACTIVE
    ensures Compact(es[..i + 1], base) == Compact(es[..i], base)
  {
    assert es[..i + 1] == es[..i] + [es[i]];
    CompactSnoc(es[..i], es[i], base);
  }

  /** Past read_index, a file that agrees with the original still agrees past any later offset. */
  lemma SuffixKept(cur: seq<byte>, img: seq<byte>, read: nat, read': nat)
    requires |cur| == |img| && read <= read' <= |img| && cur[read..] == img[read..]
    ensures cur[read'..] == img[read'..]
  {
    SameFrom(cur, img, read, read', |cur|);
  }

  /** A DELETED record is passed over: read_index moves past it, nothing is written. */
  lemma DefragSkip(img: seq<byte>, cur: seq<byte>, es: seq<Entry>, base: nat, i: nat, read: nat, write: nat, read': nat)
    requires Walks(img, es, base) && DefragState(img, cur, es, base, i, read, write) && i < |es|
    requires es[i].header.status != ACTIVE && read' == read + HDR + |es[i].content|
    ensures DefragState(img, cur, es, base, i + 1, read', write)
  {
    RecordAt(img, es, base, i);
    SkipKeeps(es, base, i);
    SuffixKept(cur, img, read, read');
  }

  /** Writing the moved header at write_index leaves record i's content, still to be read, in place. */
  lemma DefragHeaderWritten(img: seq<byte>, cur: seq<byte>, es: seq<Entry>, base: nat, i: nat, read: nat, write: nat, cur1: seq<byte>)
    requires Walks(img, es, base) && DefragState(img, cur, es, base, i, read, write) && i < |es|
    requires cur1 == WriteAt(cur, write, EncodeHeader(es[i].header.(startPosition := write + HDR)))
    ensures |cur1| == |cur| && read + HDR + |es[i].content| <= |cur1|
    ensures cur1[read + HDR..read + HDR + |es[i].content|] == es[i].content
  {
    DefragPeek(img, cur, es, base, i, read);
    WriteAtElsewhere(cur, write, EncodeHeader(es[i].header.(startPosition := write + HDR)), read + HDR, read + HDR + |es[i].content|);
  }

  /** The file after record e is written, header first, at write. */
  function MoveImage(cur: seq<byte>, write: nat, e: Entry): seq<byte>
  {
    WriteAt(WriteAt(cur, write, EncodeHeader(e.header.(startPosition := write + HDR))), write + HDR, e.content)
  }

  /** The two writes of the loop, header then content, are MoveImage when they write record e's header and content. */
  lemma MoveWrites(cur: seq<byte>, write: nat, e: Entry, info: FileInfo, buffer: seq<byte>)
    requires info == e.header && buffer == e.content
    ensures WriteAt(WriteAt(cur, write, EncodeHeader(info.(startPosition := write + HDR))), write + HDR, buffer) == MoveImage(cur, write, e)
  {
  }

  /** The bytes of a header and content copied down from read to write. */
  lemma MoveBytes(cur: seq<byte>, read: nat, write: nat, e: Entry, read': nat)
    requires write <= read && read' == read + HDR + |e.content| <= |cur|
    ensures |MoveImage(cur, write, e)| == |cur|
    ensures MoveImage(cur, write, e)[..write + HDR + |e.content|] == cur[..write] + RecordBytes(Moved(e, write))
    ensures MoveImage(cur, write, e)[read'..] == cur[read'..]
  {
    var h := EncodeHeader(e.header.(startPosition := write + HDR));
    var cur1 := WriteAt(cur, write, h);
    WriteAtInside(cur, write, h);
    WriteAtInside(cur1, write + HDR, e.content);
    assert MoveImage(cur, write, e)[..write + HDR + |e.content|] == cur1[..write + HDR] + e.content;
    assert cur1[..write + HDR] == cur[..write] + h;
  }

  /** The compacted first i + 1 records: the first i, then record i moved to write_index. */
  lemma MoveExtends(es: seq<Entry>, base: nat, i: nat, write: nat)
    requires i < |es| && es[i].header.status == ACTIVE && write == base + |Serialize(Compact(es[..i], base))|
    ensures Serialize(Compact(es[..i + 1], base)) == Serialize(Compact(es[..i], base)) + RecordBytes(Moved(es[i], write))
  {
    assert es[..i + 1] == es[..i] + [es[i]];
    CompactSnoc(es[..i], es[i], base);
    SerializeAppend(Compact(es[..i], base), Moved(es[i], write));
  }

  /** Appending the same bytes to both sides of a prefix equation. */
  lemma PrefixGrows(p: seq<byte>, q: seq<byte>, a: seq<byte>, s: seq<byte>, s': seq<byte>, r: seq<byte>)
    requires q == a + s && p == q + r && s' == s + r
    ensures p == a + s'
  {
  }

  /** Record i, once its header and content are written at write_index, extends the compacted prefix by its moved copy. */
  lemma DefragMove(img: seq<byte>, cur: seq<byte>, es: seq<Entry>, base: nat, i: nat, read: nat, write: nat,
                   read': nat, write': nat)
    requires Walks(img, es, base) && DefragState(img, cur, es, base, i, read, write) && i < |es|
    requires es[i].header.status == ACTIVE
    requires read' == read + HDR + |es[i].content| && write' == write + HDR + |es[i].content|
    ensures DefragState(img, MoveImage(cur, write, es[i]), es, base, i + 1, read', write')
  {
    var cur2 := MoveImage(cur, write, es[i]);
    RecordAt(img, es, base, i);
    MoveBytes(cur, read, write, es[i], read');
    MoveExtends(es, base, i, write);
    PrefixGrows(cur2[..write'], cur[..write], img[..base], Serialize(Compact(es[..i], base)),
                Serialize(Compact(es[..i + 1], base)), RecordBytes(Moved(es[i], write)));
    SuffixKept(cur, img, read, read');
  }

  /**
   * The file, read_index and write_index after the loop has handled the
   * first i of the walked records es.
   */
  ghost function Run(img: seq<byte>, es: seq<Entry>, base: nat, i: nat): (seq<byte>, nat, nat)
    requires i <= |es|
    decreases i
  {
    if i == 0 then (img, base, base)
    else
      var (cur, read, write) := Run(img, es, base, i - 1);
      var e := es[i - 1];
      if e.header.status == ACTIVE then (MoveImage(cur, write, e), read + HDR + |e.content|, write + HDR + |e.content|)
      else (cur, read + HDR + |e.content|, write)
  }

  /** Every turn of the loop keeps the loop state, from the untouched file on. */
  lemma {:induction false} RunKeepsState(img: seq<byte>, es: seq<Entry>, base: nat, i: nat)
    requires Walks(img, es, base) && base <= |img| && i <= |es|
    ensures DefragState(img, Run(img, es, base, i).0, es, base, i, Run(img, es, base, i).1, Run(img, es, base, i).2)
    decreases i
  {
    if i == 0 {
      assert es[..0] == [];
    } else {
      RunKeepsState(img, es, base, i - 1);
      var (cur, read, write) := Run(img, es, base, i - 1);
      if es[i - 1].header.status == ACTIVE {
        DefragMove(img, cur, es, base, i - 1, read, write, Run(img, es, base, i).1, Run(img, es, base, i).2);
      } else {
        DefragSkip(img, cur, es, base, i - 1, read, write, Run(img, es, base, i).1);
      }
    }
  }

  /** The header the loop reads at read_index on its turn for record i. */
  lemma LoopPeek(img: seq<byte>, es: seq<Entry>, base: nat, i: nat, cur: seq<byte>, read: nat, write: nat)
    requires Walks(img, es, base) && base <= |img| && i < |es|
    requires cur == Run(img, es, base, i).0 && read == Run(img, es, base, i).1 && write == Run(img, es, base, i).2
    ensures write <= read && read + HDR + |es[i].content| <= |cur|
    ensures HeaderAt(cur, read) == es[i].header && es[i].header.fileSize == |es[i].content|
  {
    RunKeepsState(img, es, base, i);
    DefragPeek(img, cur, es, base, i, read);
  }

  /** The content the loop reads at read_index + HDR, after it has written the moved header, is record i's. */
  lemma LoopContent(img: seq<byte>, es: seq<Entry>, base: nat, i: nat, cur: seq<byte>, read: nat, write: nat, cur1: seq<byte>)
    requires Walks(img, es, base) && base <= |img| && i < |es|
    requires cur == Run(img, es, base, i).0 && read == Run(img, es, base, i).1 && write == Run(img, es, base, i).2
    requires cur1 == WriteAt(cur, write, EncodeHeader(es[i].header.(startPosition := write + HDR)))
    ensures read + HDR + es[i].header.fileSize <= |cur1| && es[i].header.fileSize == |es[i].content|
    ensures cur1[read + HDR..read + HDR + es[i].header.fileSize] == es[i].content
  {
    RunKeepsState(img, es, base, i);
    DefragPeek(img, cur, es, base, i, read);
    DefragHeaderWritten(img, cur, es, base, i, read, write, cur1);
  }

  /** When the loop ends, cutting the file at write_index and storing the metadata gives DefragImage. */
  lemma LoopDone(img: seq<byte>, metaOffset: nat, base: nat, es: seq<Entry>)
    requires DefragReady(img, metaOffset, base) && es == Walked(img, metaOffset, base)
    ensures var (cur, read, write) := Run(img, es, base, |es|);
            && write <= |cur|
            && WriteAt(cur[..write], metaOffset, EncodeMeta(MetaAt(img, metaOffset).(totalSize := write))) == DefragImage(img, metaOffset, base)
  {
    RunKeepsState(img, es, base, |es|);
    var (cur, read, write) := Run(img, es, base, |es|);
    DefragFinish(img, cur, es, metaOffset, base, read, write);
  }

  /** After the last record, cutting the file at write_index and storing the metadata gives DefragImage. */
  lemma DefragFinish(img: seq<byte>, cur: seq<byte>, es: seq<Entry>, metaOffset: nat, base: nat, read: nat, write: nat)
    requires DefragReady(img, metaOffset, base) && es == Walked(img, metaOffset, base)
    requires DefragState(img, cur, es, base, |es|, read, write)
    ensures write <= |cur|
    ensures WriteAt(cur[..write], metaOffset, EncodeMeta(MetaAt(img, metaOffset).(totalSize := write))) == DefragImage(img, metaOffset, base)
  {
    assert es[..|es|] == es;
    RebuiltFrom(img, metaOffset, base, Compact(es, base), cur[..write], write);
  }

  /** The file cut after the bytes before base and the records cs, with the metadata stored, is Rebuilt. */
  lemma RebuiltFrom(img: seq<byte>, metaOffset: nat, base: nat, cs: seq<Entry>, pre: seq<byte>, w: nat)
    requires metaOffset + META_SIZE <= base <= |img|
    requires pre == img[..base] + Serialize(cs) && w == base + |Serialize(cs)|
    ensures WriteAt(pre, metaOffset, EncodeMeta(MetaAt(img, metaOffset).(totalSize := w))) == Rebuilt(img, metaOffset, base, cs)
  {
    assert MetaAt(img, metaOffset).(totalSize := w) == ArchiveMetadata(MetaAt(img, metaOffset).numFiles, base + |Serialize(cs)|);
  }

  /** One more turn of the loop, as Run unfolds it. */
  lemma RunStep(img: seq<byte>, es: seq<Entry>, base: nat, i: nat)
    requires i < |es|
    ensures Run(img, es, base, i + 1).1 == Run(img, es, base, i).1 + HDR + |es[i].content|
    ensures Run(img, es, base, i + 1).2 ==
            if es[i].header.status == ACTIVE then Run(img, es, base, i).2 + HDR + |es[i].content| else Run(img, es, base, i).2
    ensures Run(img, es, base, i + 1).0 ==
            if es[i].header.status == ACTIVE then MoveImage(Run(img, es, base, i).0, Run(img, es, base, i).2, es[i])
            else Run(img, es, base, i).0
  {
  }

  /**
   * One turn of defragment's loop: the header at read_index is read; an
   * ACTIVE record gets its header, with start_position rewritten, and its
   * content written at write_index, which moves past them; read_index always
   * moves past the record.
   */
  method CopyDown(f: ArchiveFile, ghost img: seq<byte>, ghost es: seq<Entry>, base: nat, ghost i: nat, read: nat, write: nat)
    returns (read': nat, write': nat)
    requires Walks(img, es, base) && base <= |img| && i < |es|
    requires f.image == Run(img, es, base, i).0 && read == Run(img, es, base, i).1 && write == Run(img, es, base, i).2
    modifies f
    ensures f.image == Run(img, es, base, i + 1).0
    ensures read' == Run(img, es, base, i + 1).1 && write' == Run(img, es, base, i + 1).2
  {
    LoopPeek(img, es, base, i, f.image, read, write);
    RunStep(img, es, base, i);
    var info := HeaderAt(f.image, read);
    write' := write;
    if info.status == ACTIVE {
      ghost var cur := f.image;
      f.Write(write, EncodeHeader(info.(startPosition := write + HDR)));
      LoopContent(img, es, base, i, cur, read, write, f.image);
      var buffer := f.image[read + HDR..read + HDR + info.fileSize];
      f.Write(write + HDR, buffer);
      MoveWrites(cur, write, es[i], info, buffer);
      write' := write + HDR + info.fileSize;
    }
    read' := read + HDR + info.fileSize;
  }

  /**
   * defragment: records from base are walked with read_index, each ACTIVE
   * one is copied down to write_index with its start_position rewritten, the
   * file is cut at write_index and the metadata gets total_size =
   * write_index.
   */
  method Defragment(f: ArchiveFile, metaOffset: nat, base: nat)
    requires DefragReady(f.image, metaOffset, base)
    modifies f
    ensures f.image == DefragImage(old(f.image), metaOffset, base)
  {
    ghost var img := f.image;
    var metadata := MetaAt(f.image, metaOffset);
    ghost var es := Walked(img, metaOffset, base);
    var read: nat := base;
    var write: nat := base;
    var i: nat := 0;
    assert Walks(img, es, base) && |es| == LoopCount(metadata.numFiles);
    while i < metadata.numFiles
      invariant i <= |es| && f.image == Run(img, es, base, i).0
      invariant read == Run(img, es, base, i).1 && write == Run(img, es, base, i).2
    {
      read, write := CopyDown(f, img, es, base, i, read, write);
      i := i + 1;
    }
    assert i == |es|;
    LoopDone(img, metaOffset, base, es);
    f.Truncate(write);
    metadata := metadata.(totalSize := write);
    f.Write(metaOffset, EncodeMeta(metadata));
  }

  // ---------------------------------------------------------------- what defragment leaves

  lemma {:induction false} CompactKeepsAll(es: seq<Entry>, w: nat)
    requires AllActive(es)
    ensures |Compact(es, w)| == |es|
    decreases |es|
  {
    if es != [] {
      AllActiveCons(es);
      CompactKeepsAll(es[1..], w + HDR + |es[0].content|);
    }
  }

  /** The compacted records fit where the walked ones were and are laid out from base. */
  lemma CompactFits(img: seq<byte>, metaOffset: nat, base: nat)
    requires DefragReady(img, metaOffset, base) && |img| < TWO_31
    ensures base + |Serialize(Compact(Walked(img, metaOffset, base), base))| <= |img|
    ensures Laid(Compact(Walked(img, metaOffset, base), base), base)
  {
    var n := LoopCount(MetaAt(img, metaOffset).numFiles);
    var es := Walked(img, metaOffset, base);
    ChainIsSerialized(img, base, n);
    EntriesAreLaid(img, base, n);
    CompactShrinks(es, base);
    CompactIsLaid(es, base, base);
  }

  /**
   * Bytes written at metaOffset over the bytes before base followed by
   * `body`: everything else stays where it was.
   */
  lemma WriteOverPrefix(img: seq<byte>, metaOffset: nat, base: nat, body: seq<byte>, meta: seq<byte>, r: seq<byte>)
    requires metaOffset + |meta| <= base <= |img| && r == WriteAt(img[..base] + body, metaOffset, meta)
    ensures |r| == base + |body|
    ensures r[..metaOffset] == img[..metaOffset]
    ensures r[metaOffset..metaOffset + |meta|] == meta
    ensures r[metaOffset + |meta|..base] == img[metaOffset + |meta|..base]
    ensures r[base..base + |body|] == body
  {
    var pre := img[..base] + body;
    WriteAtElsewhere(pre, metaOffset, meta, 0, metaOffset);
    WriteAtElsewhere(pre, metaOffset, meta, metaOffset + |meta|, base);
    WriteAtElsewhere(pre, metaOffset, meta, base, base + |body|);
    assert r[..metaOffset] == r[0..metaOffset];
    assert pre[..metaOffset] == pre[0..metaOffset] == img[..metaOffset];
    assert pre[base..base + |body|] == body;
  }

  /**
   * Rebuilt around the records: as long as the bytes before base and the
   * records; the bytes before the metadata and between the metadata and base
   * as they were; num_files kept and total_size the new length.
   */
  lemma RebuiltAround(img: seq<byte>, metaOffset: nat, base: nat, cs: seq<Entry>)
    requires metaOffset + META_SIZE <= base <= |img| && base + |Serialize(cs)| < TWO_31
    ensures var r := Rebuilt(img, metaOffset, base, cs);
            && |r| == base + |Serialize(cs)|
            && r[..metaOffset] == img[..metaOffset]
            && r[metaOffset + META_SIZE..base] == img[metaOffset + META_SIZE..base]
            && MetaAt(r, metaOffset) == MetaAt(img, metaOffset).(totalSize := |r|)
  {
    var body := Serialize(cs);
    var meta := ArchiveMetadata(MetaAt(img, metaOffset).numFiles, base + |body|);
    WriteOverPrefix(img, metaOffset, base, body, EncodeMeta(meta), Rebuilt(img, metaOffset, base, cs));
    DecodeEncodeMeta(meta);
  }

  /** From base on, Rebuilt holds exactly the records cs, up to its end, when they are laid out from base. */
  lemma RebuiltRecords(img: seq<byte>, metaOffset: nat, base: nat, cs: seq<Entry>)
    requires metaOffset + META_SIZE <= base <= |img| && Laid(cs, base)
    ensures var r := Rebuilt(img, metaOffset, base, cs);
            Chain(r, base, |cs|) && Entries(r, base, |cs|) == cs && ChainEnd(r, base, |cs|) == |r|
  {
    var body := Serialize(cs);
    var meta := ArchiveMetadata(MetaAt(img, metaOffset).numFiles, base + |body|);
    var r := Rebuilt(img, metaOffset, base, cs);
    WriteOverPrefix(img, metaOffset, base, body, EncodeMeta(meta), r);
    ParseSerialized(r, base, cs);
  }

  /**
   * The file after defragment, around the records: as long as the bytes
   * before base and the compacted records, no longer than before; the bytes
   * before the metadata and between the metadata and base (with the layout
   * of create, the free-space table) as they were; num_files kept and
   * total_size the new length.
   */
  lemma DefragAround(img: seq<byte>, metaOffset: nat, base: nat)
    requires DefragReady(img, metaOffset, base) && |img| < TWO_31
    ensures var r := DefragImage(img, metaOffset, base);
            && |r| == base + |Serialize(Compact(Walked(img, metaOffset, base), base))| <= |img|
            && r[..metaOffset] == img[..metaOffset]
            && r[metaOffset + META_SIZE..base] == img[metaOffset + META_SIZE..base]
            && MetaAt(r, metaOffset) == MetaAt(img, metaOffset).(totalSize := |r|)
  {
    CompactFits(img, metaOffset, base);
    RebuiltAround(img, metaOffset, base, Compact(Walked(img, metaOffset, base), base));
  }

  /** From base on, the file after defragment holds exactly the compacted records, up to its end. */
  lemma DefragRecords(img: seq<byte>, metaOffset: nat, base: nat)
    requires DefragReady(img, metaOffset, base) && |img| < TWO_31
    ensures var r := DefragImage(img, metaOffset, base);
            var cs := Compact(Walked(img, metaOffset, base), base);
            && Chain(r, base, |cs|) && Entries(r, base, |cs|) == cs && ChainEnd(r, base, |cs|) == |r|
  {
    CompactFits(img, metaOffset, base);
    RebuiltRecords(img, metaOffset, base, Compact(Walked(img, metaOffset, base), base));
  }

  /** Writing back the metadata just read changes nothing. */
  lemma MetaRewrite(img: seq<byte>, off: nat)
    requires off + META_SIZE <= |img|
    ensures WriteAt(img, off, EncodeMeta(MetaAt(img, off))) == img
  {
    var b := img[off..off + META_SIZE];
    EncodeDecodeInt(b[..4]);
    EncodeDecodeInt(b[4..]);
    assert EncodeMeta(MetaAt(img, off)) == b;
    WriteAtInside(img, off, b);
  }

  /**
   * When every record walked is ACTIVE, already points at its own content
   * and the records run to the end of the file, defragment moves nothing and
   * only stores the file's length as total_size.
   */
  lemma DefragKeepsRecords(img: seq<byte>, metaOffset: nat, base: nat)
    requires InPlace(img, metaOffset, base)
    ensures DefragImage(img, metaOffset, base) ==
            WriteAt(img, metaOffset, EncodeMeta(MetaAt(img, metaOffset).(totalSize := |img|)))
  {
    InPlaceChain(img, metaOffset, base);
    RebuiltFrom(img, metaOffset, base, Compact(Walked(img, metaOffset, base), base), img, |img|);
  }

  /**
   * The records defragment walks are all ACTIVE, each points at its own
   * content, and they run to the end of the file.
   */
  predicate InPlace(img: seq<byte>, metaOffset: nat, base: nat)
  {
    DefragReady(img, metaOffset, base) &&
    AllActive(Walked(img, metaOffset, base)) && Consistent(Walked(img, metaOffset, base)) &&
    ChainEnd(img, base, LoopCount(MetaAt(img, metaOffset).numFiles)) == |img|
  }

  /** Records in place are their own compaction. */
  lemma InPlaceChain(img: seq<byte>, metaOffset: nat, base: nat)
    requires InPlace(img, metaOffset, base)
    ensures img[..base] + Serialize(Compact(Walked(img, metaOffset, base), base)) == img
  {
    var n := LoopCount(MetaAt(img, metaOffset).numFiles);
    var es := Walked(img, metaOffset, base);
    EntriesAreLaid(img, base, n);
    CompactNoop(es, base);
    ChainIsSerialized(img, base, n);
    assert img == img[..base] + img[base..];
  }

  /**
   * Defragmenting twice is defragmenting once when no record was dropped:
   * the second run walks the same number of records, finds them all ACTIVE
   * and in place, and the length it stores is already there.
   */
  lemma DefragTwice(img: seq<byte>, metaOffset: nat, base: nat)
    requires DefragReady(img, metaOffset, base) && |img| < TWO_31
    requires AllActive(Walked(img, metaOffset, base))
    ensures DefragReady(DefragImage(img, metaOffset, base), metaOffset, base)
    ensures DefragImage(DefragImage(img, metaOffset, base), metaOffset, base) == DefragImage(img, metaOffset, base)
  {
    var r := DefragImage(img, metaOffset, base);
    var es := Walked(img, metaOffset, base);
    var cs := Compact(es, base);
    DefragAround(img, metaOffset, base);
    DefragRecords(img, metaOffset, base);
    CompactKeepsAll(es, base);
    assert LoopCount(MetaAt(r, metaOffset).numFiles) == |cs|;
    assert Walked(r, metaOffset, base) == cs;
    assert InPlace(r, metaOffset, base);
    DefragKeepsRecords(r, metaOffset, base);
    MetaRewrite(r, metaOffset);
  }

  /**
   * After compaction a name is found exactly when some ACTIVE record had it:
   * with the DELETED records gone, a DELETED record no longer hides a later
   * ACTIVE one of the same name.
   */
  lemma {:induction false} LookupCompact(es: seq<Entry>, w: nat, name: seq<byte>)
    ensures LookupIn(Compact(es, w), name).Some? <==> name in ActiveNames(es)
    decreases |es|
  {
    if es != [] {
      var w' := if es[0].header.status == ACTIVE then w + HDR + |es[0].content| else w;
      LookupCompact(es[1..], w', name);
      var cs := Compact(es, w);
      if es[0].header.status == ACTIVE {
        assert cs[0] == Moved(es[0], w) && cs[1..] == Compact(es[1..], w');
        if CName(es[0].header.filename) != name {
          LookupSkipsOther(cs, name);
        }
      }
    }
  }

  /**
   * find_file_info on the container defragment leaves, laid out as create
   * writes it: the lookup over the compacted records, which finds a name
   * exactly when some ACTIVE record walked had it.
   */
  lemma DefragFind(img: seq<byte>, name: seq<byte>)
    requires DefragReady(img, META_OFFSET, ENTRY_BASE) && |img| < TWO_31
    ensures FindSpec(DefragImage(img, META_OFFSET, ENTRY_BASE), name) ==
            LookupIn(Compact(Walked(img, META_OFFSET, ENTRY_BASE), ENTRY_BASE), name)
    ensures FindSpec(DefragImage(img, META_OFFSET, ENTRY_BASE), name).Some? <==>
            name in ActiveNames(Walked(img, META_OFFSET, ENTRY_BASE))
  {
    var r := DefragImage(img, META_OFFSET, ENTRY_BASE);
    var es := Walked(img, META_OFFSET, ENTRY_BASE);
    var cs := Compact(es, ENTRY_BASE);
    var n := MetaAt(img, META_OFFSET).numFiles;
    DefragAround(img, META_OFFSET, ENTRY_BASE);
    DefragRecords(img, META_OFFSET, ENTRY_BASE);
    LookupCompact(es, ENTRY_BASE, name);
    if n > 0 {
      LocatePastChain(r, ENTRY_BASE, |cs|, n, name);
    }
  }

  /**
   * list on the container defragment leaves, laid out as create writes it:
   * the names of the ACTIVE records walked, in file order, as before.
   */
  lemma DefragList(img: seq<byte>)
    requires DefragReady(img, META_OFFSET, ENTRY_BASE) && |img| < TWO_31
    ensures var r := DefragImage(img, META_OFFSET, ENTRY_BASE);
            ListWalk(r, ENTRY_BASE, MetaAt(r, META_OFFSET).numFiles) == ActiveNames(Walked(img, META_OFFSET, ENTRY_BASE))
  {
    var r := DefragImage(img, META_OFFSET, ENTRY_BASE);
    var es := Walked(img, META_OFFSET, ENTRY_BASE);
    var cs := Compact(es, ENTRY_BASE);
    DefragAround(img, META_OFFSET, ENTRY_BASE);
    DefragRecords(img, META_OFFSET, ENTRY_BASE);
    CompactKeepsNames(es, ENTRY_BASE);
    if MetaAt(img, META_OFFSET).numFiles > 0 {
      ListPastChain(r, ENTRY_BASE, |cs|, MetaAt(img, META_OFFSET).numFiles);
    }
  }
}

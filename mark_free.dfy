/**
 * mark_free_space (mainTest.c): the older way of releasing a range, on a
 * file whose free-space slots follow an 8-byte metadata block and run to
 * the end of the file. It reads whole slots one after another from offset
 * 8 and extends the first one the range touches: a slot ending where the
 * range starts grows at its end, a slot starting where the range ends
 * moves its start back and grows. When no slot touches the range, a new
 * slot is written where reading stopped.
 */
module MarkFree {
  import opened Bytes
  import opened Layout
  import opened Container

  /** Offset of slot k: after the 8-byte metadata. */
  function SlotPos(k: nat): nat
  {
    META_SIZE + SLOT_SIZE * k
  }

  /** Slot k lies entirely inside the file, so fread returns it. */
  predicate HasSlot(img: seq<byte>, k: nat)
  {
    SlotPos(k) + SLOT_SIZE <= |img|
  }

  function SlotAt(img: seq<byte>, k: nat): FreeSpaceInfo
    requires HasSlot(img, k)
  {
    DecodeSlot(img[SlotPos(k)..SlotPos(k) + SLOT_SIZE])
  }

  /** The slot ends where the range starts. */
  predicate EndsAt(s: FreeSpaceInfo, start: int)
  {
    s.startPosition + s.size == start
  }

  /** The range ends where the slot starts. */
  predicate StartsAfter(s: FreeSpaceInfo, start: int, size: int)
  {
    start + size == s.startPosition
  }

  predicate Touches(s: FreeSpaceInfo, start: int, size: int)
  {
    EndsAt(s, start) || StartsAfter(s, start, size)
  }

  /** A touching slot extended over the range; the first test wins when both hold. */
  function Grown(s: FreeSpaceInfo, start: int, size: int): (g: FreeSpaceInfo)
    requires Touches(s, start, size)
    ensures g.size == s.size + size
    ensures g.startPosition == if EndsAt(s, start) then s.startPosition else start
    ensures g.startPosition + g.size == if EndsAt(s, start) then start + size else s.startPosition + s.size
  {
    if EndsAt(s, start) then s.(size := s.size + size) else FreeSpaceInfo(start, s.size + size)
  }

  /** The first slot at index k or later that the range touches, reading while whole slots remain. */
  function FirstTouching(img: seq<byte>, start: int, size: int, k: nat): (r: Option<nat>)
    ensures r.Some? ==> k <= r.value && HasSlot(img, r.value) && Touches(SlotAt(img, r.value), start, size)
    ensures r.Some? ==> forall j :: k <= j < r.value ==> HasSlot(img, j) && !Touches(SlotAt(img, j), start, size)
    ensures r.None? ==> forall j :: k <= j && HasSlot(img, j) ==> !Touches(SlotAt(img, j), start, size)
    decreases |img| - SlotPos(k)
  {
    if !HasSlot(img, k) then None
    else if Touches(SlotAt(img, k), start, size) then Some(k)
    else FirstTouching(img, start, size, k + 1)
  }

  /**
   * Where the new slot goes when none touches the range: the position after
   * the last read. A final partial slot is consumed by the failed fread, and
   * a file shorter than 8 bytes leaves the position at 8.
   */
  function EndOfScan(img: seq<byte>): nat
  {
    Max(|img|, META_SIZE)
  }

  /** The file after mark_free_space(start, size). */
  function MarkSpec(img: seq<byte>, start: int, size: int): (r: seq<byte>)
  {
    match FirstTouching(img, start, size, 0)
    case Some(k) => WriteAt(img, SlotPos(k), EncodeSlot(Grown(SlotAt(img, k), start, size)))
    case None => WriteAt(img, EndOfScan(img), EncodeSlot(FreeSpaceInfo(start, size)))
  }

  // ---------------------------------------------------------------- properties

  /**
   * When some slot touches the range, the first one does, and only it
   * changes: it is grown over the range (when its new fields fit in an int),
   * and every other byte of the file stays as it was.
   */
  lemma MarkGrowsFirstTouching(img: seq<byte>, start: int, size: int, k: nat)
    requires FirstTouching(img, start, size, 0) == Some(k)
    requires SlotIsInt32(Grown(SlotAt(img, k), start, size))
    ensures forall j :: 0 <= j < k ==> !Touches(SlotAt(img, j), start, size)
    ensures |MarkSpec(img, start, size)| == |img|
    ensures SlotAt(MarkSpec(img, start, size), k) == Grown(SlotAt(img, k), start, size)
    ensures forall i :: 0 <= i < |img| && !(SlotPos(k) <= i < SlotPos(k) + SLOT_SIZE) ==> MarkSpec(img, start, size)[i] == img[i]
  {
    var g := Grown(SlotAt(img, k), start, size);
    var r := MarkSpec(img, start, size);
    assert r == WriteAt(img, SlotPos(k), EncodeSlot(g));
    WriteAtBytes(img, SlotPos(k), EncodeSlot(g));
    DecodeEncodeSlot(g);
  }

  /**
   * When no slot touches the range, the file keeps its bytes and gains the
   * new slot {start, size} right where the scan stopped.
   */
  lemma MarkAppendsSlot(img: seq<byte>, start: int, size: int)
    requires FirstTouching(img, start, size, 0).None?
    requires SlotIsInt32(FreeSpaceInfo(start, size))
    ensures forall j :: HasSlot(img, j) ==> !Touches(SlotAt(img, j), start, size)
    ensures |MarkSpec(img, start, size)| == EndOfScan(img) + SLOT_SIZE
    ensures MarkSpec(img, start, size)[..|img|] == img
    ensures DecodeSlot(MarkSpec(img, start, size)[EndOfScan(img)..]) == FreeSpaceInfo(start, size)
  {
    var r := MarkSpec(img, start, size);
    var b := EncodeSlot(FreeSpaceInfo(start, size));
    assert r == WriteAt(img, EndOfScan(img), b);
    WriteAtElsewhere(img, EndOfScan(img), b, 0, |img|);
    assert r[EndOfScan(img)..] == b;
    DecodeEncodeSlot(FreeSpaceInfo(start, size));
  }

  // ---------------------------------------------------------------- the scan, on the open file

  /** mark_free_space: read slots from offset 8 until one touches the range or a read fails. */
  method MarkFreeSpace(f: ArchiveFile, start: int, size: int)
    modifies f
    ensures f.image == MarkSpec(old(f.image), start, size)
  {
    var img := f.image;
    var k := 0;
    var found := false;
    while HasSlot(img, k)
      invariant f.image == img
      invariant FirstTouching(img, start, size, k) == FirstTouching(img, start, size, 0)
      decreases |img| - SlotPos(k)
    {
      var spaceInfo := SlotAt(img, k);
      if EndsAt(spaceInfo, start) {
        f.Write(SlotPos(k), EncodeSlot(spaceInfo.(size := spaceInfo.size + size)));
        found := true;
        break;
      } else if StartsAfter(spaceInfo, start, size) {
        f.Write(SlotPos(k), EncodeSlot(FreeSpaceInfo(start, spaceInfo.size + size)));
        found := true;
        break;
      }
      k := k + 1;
    }
    if !found {
      f.Write(EndOfScan(img), EncodeSlot(FreeSpaceInfo(start, size)));
    }
  }
}

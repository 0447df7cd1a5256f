/**
 * The free-space allocator: a table of MAX_FREE_SPACES slots, each a byte
 * range {start_position, size} of the container that no record uses; a slot
 * with size 0 is empty.
 *
 * Functions here state what each step does to the table (as a sequence);
 * the methods do the same in place on the array that load_free_spaces fills.
 */
module FreeSpace {
  import opened Bytes
  import opened Layout
  import opened Container

  // ---------------------------------------------------------------- specification

  /** The lowest empty slot at index i or later. */
  function FirstEmptyFrom(t: seq<FreeSpaceInfo>, i: nat): (r: Option<nat>)
    decreases |t| - i
    ensures r.Some? ==> i <= r.value < |t| && t[r.value].size == 0
    ensures r.Some? ==> forall k :: i <= k < r.value ==> t[k].size != 0
    ensures r.None? ==> forall k :: i <= k < |t| ==> t[k].size != 0
  {
    if i >= |t| then None
    else if t[i].size == 0 then Some(i)
    else FirstEmptyFrom(t, i + 1)
  }

  /**
   * The insertion step of insert_and_combine_free_space: the released range
   * goes into the lowest-indexed empty slot; with no empty slot it is dropped.
   */
  function InsertSlot(t: seq<FreeSpaceInfo>, s: FreeSpaceInfo): (r: seq<FreeSpaceInfo>)
    ensures |r| == |t|
    ensures forall e :: 0 <= e < |t| && t[e].size == 0 && (forall k :: 0 <= k < e ==> t[k].size != 0) ==>
              r == t[e := s]
    ensures (forall k :: 0 <= k < |t| ==> t[k].size != 0) ==> r == t
  {
    match FirstEmptyFrom(t, 0)
    case Some(e) => t[e := s]
    case None => t
  }

  /** One (i, j) step of the combining pass. */
  function MergeStep(t: seq<FreeSpaceInfo>, i: nat, j: nat): (r: seq<FreeSpaceInfo>)
    requires i < j < |t|
    ensures |r| == |t|
  {
    if t[i].startPosition + t[i].size == t[j].startPosition then
      t[i := t[i].(size := t[i].size + t[j].size)][j := t[j].(size := 0)]
    else if t[j].startPosition + t[j].size == t[i].startPosition then
      t[j := t[j].(size := t[j].size + t[i].size)][i := t[i].(size := 0)]
    else
      t
  }

  /** The inner loop of the combining pass: pairs (i, j), (i, j + 1), ..., (i, |t| - 1). */
  function MergeRow(t: seq<FreeSpaceInfo>, i: nat, j: nat): (r: seq<FreeSpaceInfo>)
    requires i < j <= |t|
    ensures |r| == |t|
    decreases |t| - j
  {
    if j == |t| then t else MergeRow(MergeStep(t, i, j), i, j + 1)
  }

  /** The outer loop of the combining pass, from row i on. */
  function MergeFrom(t: seq<FreeSpaceInfo>, i: nat): (r: seq<FreeSpaceInfo>)
    requires i <= |t|
    ensures |r| == |t|
    decreases |t| - i
  {
    if i + 1 >= |t| then t else MergeFrom(MergeRow(t, i, i + 1), i + 1)
  }

  /** The whole combining pass of insert_and_combine_free_space. */
  function Combine(t: seq<FreeSpaceInfo>): (r: seq<FreeSpaceInfo>)
    ensures |r| == |t|
  {
    MergeFrom(t, 0)
  }

  /** The lowest slot at index i or later whose size is at least n. */
  function FirstFitFrom(t: seq<FreeSpaceInfo>, n: int, i: nat): (r: Option<nat>)
    decreases |t| - i
    ensures r.Some? ==> i <= r.value < |t| && t[r.value].size >= n
    ensures r.Some? ==> forall k :: i <= k < r.value ==> t[k].size < n
    ensures r.None? ==> forall k :: i <= k < |t| ==> t[k].size < n
  {
    if i >= |t| then None
    else if t[i].size >= n then Some(i)
    else FirstFitFrom(t, n, i + 1)
  }

  /** First fit: the lowest-indexed slot with room for n bytes. */
  function FirstFit(t: seq<FreeSpaceInfo>, n: int): Option<nat>
  {
    FirstFitFrom(t, n, 0)
  }

  /** Taking n bytes from the front of slot k; a slot that reaches size 0 is zeroed (memset). */
  function TakeFront(t: seq<FreeSpaceInfo>, k: nat, n: int): (r: seq<FreeSpaceInfo>)
    requires k < |t|
  {
    var rest := t[k].size - n;
    t[k := if rest == 0 then FreeSpaceInfo(0, 0) else FreeSpaceInfo(t[k].startPosition + n, rest)]
  }

  function SumSizes(t: seq<FreeSpaceInfo>): int
  {
    if t == [] then 0 else t[0].size + SumSizes(t[1..])
  }

  predicate SizesNonNegative(t: seq<FreeSpaceInfo>)
  {
    forall k :: 0 <= k < |t| ==> t[k].size >= 0
  }

  /** Byte p lies in the range of some non-empty slot. */
  predicate Covers(t: seq<FreeSpaceInfo>, p: int)
  {
    exists k :: 0 <= k < |t| && 0 < t[k].size && t[k].startPosition <= p < t[k].startPosition + t[k].size
  }

  /** Every slot has a non-negative size and every non-empty slot lies inside [lo, hi). */
  predicate WithinBounds(t: seq<FreeSpaceInfo>, lo: int, hi: int)
  {
    forall k :: 0 <= k < |t| ==>
      t[k].size >= 0 && (t[k].size > 0 ==> lo <= t[k].startPosition && t[k].startPosition + t[k].size <= hi)
  }

  // ---------------------------------------------------------------- properties

  lemma {:induction false} SumSizesUpdate(t: seq<FreeSpaceInfo>, k: nat, v: FreeSpaceInfo)
    requires k < |t|
    ensures SumSizes(t[k := v]) == SumSizes(t) - t[k].size + v.size
  {
    if k > 0 {
      assert t[k := v][1..] == t[1..][k - 1 := v];
      SumSizesUpdate(t[1..], k - 1, v);
    } else {
      assert t[k := v][1..] == t[1..];
    }
  }

  lemma MergeStepSum(t: seq<FreeSpaceInfo>, i: nat, j: nat)
    requires i < j < |t|
    ensures SumSizes(MergeStep(t, i, j)) == SumSizes(t)
  {
    if t[i].startPosition + t[i].size == t[j].startPosition {
      var t1 := t[i := t[i].(size := t[i].size + t[j].size)];
      SumSizesUpdate(t, i, t[i].(size := t[i].size + t[j].size));
      SumSizesUpdate(t1, j, t[j].(size := 0));
    } else if t[j].startPosition + t[j].size == t[i].startPosition {
      var t1 := t[j := t[j].(size := t[j].size + t[i].size)];
      SumSizesUpdate(t, j, t[j].(size := t[j].size + t[i].size));
      SumSizesUpdate(t1, i, t[i].(size := 0));
    }
  }

  lemma {:induction false} MergeRowSum(t: seq<FreeSpaceInfo>, i: nat, j: nat)
    requires i < j <= |t|
    ensures SumSizes(MergeRow(t, i, j)) == SumSizes(t)
    decreases |t| - j
  {
    if j < |t| {
      MergeStepSum(t, i, j);
      MergeRowSum(MergeStep(t, i, j), i, j + 1);
    }
  }

  lemma {:induction false} MergeFromSum(t: seq<FreeSpaceInfo>, i: nat)
    requires i <= |t|
    ensures SumSizes(MergeFrom(t, i)) == SumSizes(t)
    decreases |t| - i
  {
    if i + 1 < |t| {
      MergeRowSum(t, i, i + 1);
      MergeFromSum(MergeRow(t, i, i + 1), i + 1);
    }
  }

  /** The combining pass only moves sizes between slots: their total is unchanged. */
  lemma CombineKeepsTotal(t: seq<FreeSpaceInfo>)
    ensures SumSizes(Combine(t)) == SumSizes(t)
  {
    MergeFromSum(t, 0);
  }

  lemma {:induction false} MergeRowStarts(t: seq<FreeSpaceInfo>, i: nat, j: nat)
    requires i < j <= |t|
    ensures forall k :: 0 <= k < |t| ==> MergeRow(t, i, j)[k].startPosition == t[k].startPosition
    decreases |t| - j
  {
    if j < |t| {
      MergeRowStarts(MergeStep(t, i, j), i, j + 1);
    }
  }

  lemma {:induction false} MergeFromStarts(t: seq<FreeSpaceInfo>, i: nat)
    requires i <= |t|
    ensures forall k :: 0 <= k < |t| ==> MergeFrom(t, i)[k].startPosition == t[k].startPosition
    decreases |t| - i
  {
    if i + 1 < |t| {
      MergeRowStarts(t, i, i + 1);
      MergeFromStarts(MergeRow(t, i, i + 1), i + 1);
    }
  }

  /** The combining pass never changes a start_position. */
  lemma CombineKeepsStarts(t: seq<FreeSpaceInfo>)
    ensures forall k :: 0 <= k < |t| ==> Combine(t)[k].startPosition == t[k].startPosition
  {
    MergeFromStarts(t, 0);
  }

  lemma MergeStepCoverage(t: seq<FreeSpaceInfo>, i: nat, j: nat, p: int)
    requires i < j < |t| && SizesNonNegative(t)
    ensures SizesNonNegative(MergeStep(t, i, j))
    ensures Covers(MergeStep(t, i, j), p) <==> Covers(t, p)
  {
    var r := MergeStep(t, i, j);
    if t[i].startPosition + t[i].size == t[j].startPosition {
      JoinCoverage(t, i, j, p);
    } else if t[j].startPosition + t[j].size == t[i].startPosition {
      JoinCoverage(t, j, i, p);
    }
  }

  /** Slot a absorbing its right neighbour b keeps the covered bytes. */
  lemma JoinCoverage(t: seq<FreeSpaceInfo>, a: nat, b: nat, p: int)
    requires a < |t| && b < |t| && a != b && SizesNonNegative(t)
    requires t[a].startPosition + t[a].size == t[b].startPosition
    ensures var r := t[a := t[a].(size := t[a].size + t[b].size)][b := t[b].(size := 0)];
            SizesNonNegative(r) && (Covers(r, p) <==> Covers(t, p))
  {
    var r := t[a := t[a].(size := t[a].size + t[b].size)][b := t[b].(size := 0)];
    if Covers(t, p) {
      var k :| 0 <= k < |t| && 0 < t[k].size && t[k].startPosition <= p < t[k].startPosition + t[k].size;
      if k == a || k == b {
        assert 0 < r[a].size && r[a].startPosition <= p < r[a].startPosition + r[a].size;
      } else {
        assert r[k] == t[k];
      }
    }
    if Covers(r, p) {
      var k :| 0 <= k < |r| && 0 < r[k].size && r[k].startPosition <= p < r[k].startPosition + r[k].size;
      if k == a {
        if p < t[a].startPosition + t[a].size {
          assert 0 < t[a].size;
        } else {
          assert t[b].startPosition <= p < t[b].startPosition + t[b].size;
        }
      } else {
        assert r[k] == t[k];
      }
    }
  }

  lemma {:induction false} MergeRowCoverage(t: seq<FreeSpaceInfo>, i: nat, j: nat, p: int)
    requires i < j <= |t| && SizesNonNegative(t)
    ensures SizesNonNegative(MergeRow(t, i, j))
    ensures Covers(MergeRow(t, i, j), p) <==> Covers(t, p)
    decreases |t| - j
  {
    if j < |t| {
      MergeStepCoverage(t, i, j, p);
      MergeRowCoverage(MergeStep(t, i, j), i, j + 1, p);
    }
  }

  lemma {:induction false} MergeFromCoverage(t: seq<FreeSpaceInfo>, i: nat, p: int)
    requires i <= |t| && SizesNonNegative(t)
    ensures SizesNonNegative(MergeFrom(t, i))
    ensures Covers(MergeFrom(t, i), p) <==> Covers(t, p)
    decreases |t| - i
  {
    if i + 1 < |t| {
      MergeRowCoverage(t, i, i + 1, p);
      MergeFromCoverage(MergeRow(t, i, i + 1), i + 1, p);
    }
  }

  /**
   * Merging neither loses nor invents free bytes: a byte lies in some
   * non-empty slot after the combining pass exactly when it did before.
   */
  lemma CombineKeepsCoverage(t: seq<FreeSpaceInfo>, p: int)
    requires SizesNonNegative(t)
    ensures SizesNonNegative(Combine(t))
    ensures Covers(Combine(t), p) <==> Covers(t, p)
  {
    MergeFromCoverage(t, 0, p);
  }

  lemma MergeStepBounds(t: seq<FreeSpaceInfo>, i: nat, j: nat, lo: int, hi: int)
    requires i < j < |t| && WithinBounds(t, lo, hi)
    ensures WithinBounds(MergeStep(t, i, j), lo, hi)
  {
  }

  lemma {:induction false} MergeRowBounds(t: seq<FreeSpaceInfo>, i: nat, j: nat, lo: int, hi: int)
    requires i < j <= |t| && WithinBounds(t, lo, hi)
    ensures WithinBounds(MergeRow(t, i, j), lo, hi)
    decreases |t| - j
  {
    if j < |t| {
      MergeStepBounds(t, i, j, lo, hi);
      MergeRowBounds(MergeStep(t, i, j), i, j + 1, lo, hi);
    }
  }

  lemma {:induction false} MergeFromBounds(t: seq<FreeSpaceInfo>, i: nat, lo: int, hi: int)
    requires i <= |t| && WithinBounds(t, lo, hi)
    ensures WithinBounds(MergeFrom(t, i), lo, hi)
    decreases |t| - i
  {
    if i + 1 < |t| {
      MergeRowBounds(t, i, i + 1, lo, hi);
      MergeFromBounds(MergeRow(t, i, i + 1), i + 1, lo, hi);
    }
  }

  /**
   * Releasing a range that lies inside [lo, hi) keeps every non-empty slot
   * inside [lo, hi) with a non-negative size.
   */
  lemma InsertAndCombineKeepBounds(t: seq<FreeSpaceInfo>, s: FreeSpaceInfo, lo: int, hi: int)
    requires WithinBounds(t, lo, hi)
    requires s.size >= 0 && (s.size > 0 ==> lo <= s.startPosition && s.startPosition + s.size <= hi)
    ensures WithinBounds(Combine(InsertSlot(t, s)), lo, hi)
  {
    MergeFromBounds(InsertSlot(t, s), 0, lo, hi);
  }

  /**
   * insert_and_combine_free_space neither loses nor invents free bytes: after
   * it a byte is free exactly when it was free before or lies in the released
   * range, which counts only when the table had an empty slot to hold it.
   */
  lemma ReleaseCoverage(t: seq<FreeSpaceInfo>, s: FreeSpaceInfo, p: int)
    requires SizesNonNegative(t) && s.size >= 0
    ensures SizesNonNegative(Combine(InsertSlot(t, s)))
    ensures Covers(Combine(InsertSlot(t, s)), p) <==>
              Covers(t, p) || (FirstEmptyFrom(t, 0).Some? && s.startPosition <= p < s.startPosition + s.size)
  {
    var u := InsertSlot(t, s);
    match FirstEmptyFrom(t, 0)
    case None =>
      CombineKeepsCoverage(u, p);
    case Some(e) =>
      assert u == t[e := s];
      assert SizesNonNegative(u);
      CombineKeepsCoverage(u, p);
      if Covers(t, p) {
        var k :| 0 <= k < |t| && 0 < t[k].size && t[k].startPosition <= p < t[k].startPosition + t[k].size;
        assert u[k] == t[k];
      }
      if s.startPosition <= p < s.startPosition + s.size {
        assert u[e] == s;
      }
      if Covers(u, p) {
        var k :| 0 <= k < |u| && 0 < u[k].size && u[k].startPosition <= p < u[k].startPosition + u[k].size;
        if k != e {
          assert t[k] == u[k];
        }
      }
  }

  /**
   * A table whose slots hold C ints as start positions and stay inside
   * [lo, hi) of a container shorter than 2^31 bytes holds only C ints, so
   * save_free_spaces stores it without wrap-around.
   */
  lemma BoundedIsInt32(t: seq<FreeSpaceInfo>, lo: int, hi: int)
    requires WithinBounds(t, lo, hi) && 0 <= lo && hi < TWO_31
    requires forall k :: 0 <= k < |t| ==> IsInt32(t[k].startPosition)
    ensures TableIsInt32(t)
  {
  }

  /** The start positions after a release are the old ones and the released range's. */
  lemma ReleaseStarts(t: seq<FreeSpaceInfo>, s: FreeSpaceInfo, k: nat)
    requires k < |t|
    ensures Combine(InsertSlot(t, s))[k].startPosition == t[k].startPosition ||
            Combine(InsertSlot(t, s))[k].startPosition == s.startPosition
  {
    CombineKeepsStarts(InsertSlot(t, s));
    match FirstEmptyFrom(t, 0)
    case None =>
    case Some(e) =>
      assert InsertSlot(t, s) == t[e := s];
  }

  /**
   * Taking n bytes from the front of the first-fit slot leaves that slot's
   * range minus its first n bytes and keeps the table within bounds.
   */
  lemma TakeFrontShrinks(t: seq<FreeSpaceInfo>, n: int, lo: int, hi: int)
    requires FirstFit(t, n).Some? && n > 0 && WithinBounds(t, lo, hi)
    ensures var k := FirstFit(t, n).value;
            var r := TakeFront(t, k, n);
            && WithinBounds(r, lo, hi)
            && SumSizes(r) == SumSizes(t) - n
            && (forall m :: 0 <= m < |t| && m != k ==> r[m] == t[m])
            && (forall p :: Covers(r, p) ==> Covers(t, p))
            && (forall p :: t[k].startPosition + n <= p < t[k].startPosition + t[k].size ==> Covers(r, p))
  {
    var k := FirstFit(t, n).value;
    var r := TakeFront(t, k, n);
    SumSizesUpdate(t, k, r[k]);
    forall p | Covers(r, p) ensures Covers(t, p) {
      var m :| 0 <= m < |r| && 0 < r[m].size && r[m].startPosition <= p < r[m].startPosition + r[m].size;
      assert 0 < t[m].size && t[m].startPosition <= p < t[m].startPosition + t[m].size;
    }
    forall p | t[k].startPosition + n <= p < t[k].startPosition + t[k].size ensures Covers(r, p) {
      assert 0 < r[k].size && r[k].startPosition <= p < r[k].startPosition + r[k].size;
    }
  }

  // ---------------------------------------------------------------- in place, on the loaded array

  /** load_free_spaces: one fread of the 100 slots at offset 4 into the caller's array. */
  method LoadFreeSpaces(f: ArchiveFile, t: array<FreeSpaceInfo>)
    requires META_OFFSET <= |f.image| && t.Length == MAX_FREE_SPACES
    modifies t
    ensures t[..] == TableOf(f.image)
  {
    var slots := TableOf(f.image);
    forall k | 0 <= k < t.Length {
      t[k] := slots[k];
    }
  }

  /** save_free_spaces: one fwrite of the 100 slots at offset 4. */
  method SaveFreeSpaces(f: ArchiveFile, t: array<FreeSpaceInfo>)
    modifies f
    ensures f.image == WriteAt(old(f.image), TABLE_OFFSET, EncodeTable(t[..]))
  {
    f.Write(TABLE_OFFSET, EncodeTable(t[..]));
  }

  /** insert_and_combine_free_space: insert into the first empty slot, then merge adjacent slots. */
  method InsertAndCombine(t: array<FreeSpaceInfo>, s: FreeSpaceInfo)
    requires t.Length == MAX_FREE_SPACES
    modifies t
    ensures t[..] == Combine(InsertSlot(old(t[..]), s))
  {
    InsertIntoFirstEmpty(t, s);
    CombineInPlace(t);
  }

  /** The insertion loop: the new slot goes into the first slot of size 0; a full table is left as it was. */
  method InsertIntoFirstEmpty(t: array<FreeSpaceInfo>, s: FreeSpaceInfo)
    modifies t
    ensures t[..] == InsertSlot(old(t[..]), s)
  {
    var i := 0;
    while i < t.Length
      invariant 0 <= i <= t.Length
      invariant t[..] == old(t[..])
      invariant forall k :: 0 <= k < i ==> t[k].size != 0
    {
      if t[i].size == 0 {
        t[i] := s;
        return;
      }
      i := i + 1;
    }
  }

  /** The combining pass: every pair (i, j) with i < j, row by row. */
  method CombineInPlace(t: array<FreeSpaceInfo>)
    modifies t
    ensures t[..] == Combine(old(t[..]))
  {
    var i := 0;
    while i + 1 < t.Length
      invariant 0 <= i <= t.Length
      invariant MergeFrom(t[..], i) == Combine(old(t[..]))
    {
      MergeRowInPlace(t, i);
      i := i + 1;
    }
  }

  /** One row of the combining pass: slot i against every later slot. */
  method MergeRowInPlace(t: array<FreeSpaceInfo>, i: nat)
    requires i + 1 < t.Length
    modifies t
    ensures t[..] == MergeRow(old(t[..]), i, i + 1)
  {
    var j := i + 1;
    while j < t.Length
      invariant i + 1 <= j <= t.Length
      invariant MergeRow(t[..], i, j) == MergeRow(old(t[..]), i, i + 1)
    {
      MergeStepInPlace(t, i, j);
      j := j + 1;
    }
  }

  /** One (i, j) step: when one slot ends where the other starts, the lower one absorbs the other, which is emptied. */
  method MergeStepInPlace(t: array<FreeSpaceInfo>, i: nat, j: nat)
    requires i < j < t.Length
    modifies t
    ensures t[..] == MergeStep(old(t[..]), i, j)
  {
    if t[i].startPosition + t[i].size == t[j].startPosition {
      t[i] := t[i].(size := t[i].size + t[j].size);
      t[j] := t[j].(size := 0);
    } else if t[j].startPosition + t[j].size == t[i].startPosition {
      t[j] := t[j].(size := t[j].size + t[i].size);
      t[i] := t[i].(size := 0);
    }
  }

  /** The first-fit scan of append: the lowest index whose size is at least n, or -1. */
  method FindFirstFit(t: array<FreeSpaceInfo>, n: int) returns (index: int)
    requires t.Length == MAX_FREE_SPACES
    ensures -1 <= index < MAX_FREE_SPACES
    ensures index >= 0 ==> t[index].size >= n && forall k :: 0 <= k < index ==> t[k].size < n
    ensures index == -1 ==> forall k :: 0 <= k < MAX_FREE_SPACES ==> t[k].size < n
    ensures FirstFit(t[..], n) == if index < 0 then None else Some(index)
  {
    index := -1;
    var i := 0;
    while i < MAX_FREE_SPACES
      invariant 0 <= i <= MAX_FREE_SPACES
      invariant forall k :: 0 <= k < i ==> t[k].size < n
      invariant FirstFitFrom(t[..], n, i) == FirstFit(t[..], n)
    {
      if t[i].size >= n {
        index := i;
        break;
      }
      i := i + 1;
    }
  }

  /** Shrinking the chosen slot from its front by n bytes; returns where the slot started. */
  method TakeFromSlot(t: array<FreeSpaceInfo>, k: nat, n: int) returns (start: int)
    requires k < t.Length
    modifies t
    ensures start == old(t[k].startPosition)
    ensures t[..] == TakeFront(old(t[..]), k, n)
  {
    start := t[k].startPosition;
    t[k] := t[k].(startPosition := t[k].startPosition + n, size := t[k].size - n);
    if t[k].size == 0 {
      t[k] := FreeSpaceInfo(0, 0);
    }
  }
}

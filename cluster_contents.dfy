/** The bookkeeping of one data cluster (class data_cluster_contents_info):
    an ordered map from disk offset to the extent of inode data stored there,
    and a running count of the live data bytes the cluster holds. */
module ClusterContents {
  import opened Units

  /** An inode number. */
  type Inode = nat

  /** An extent: `dataRange` of the file of inode `dataOwner`, stored in the
      cluster at the disk offset that maps to it (cluster_data_vec). */
  datatype ClusterDataVec = ClusterDataVec(dataOwner: Inode, dataRange: Range)

  type Extents = map<nat, ClusterDataVec>

  /** Every stored file range is well formed. */
  ghost predicate RangesValid(m: Extents) {
    forall k :: k in m ==> m[k].dataRange.Valid()
  }

  /** The disk ranges [k, k + size) of the stored extents do not overlap. */
  ghost predicate Disjoint(m: Extents)
    requires RangesValid(m)
  {
    forall k1, k2 :: k1 in m && k2 in m && k1 < k2 ==> k1 + m[k1].dataRange.Size() <= k2
  }

  ghost predicate WellFormed(m: Extents) {
    RangesValid(m) && Disjoint(m)
  }

  /** The total size of the stored file ranges. */
  ghost function SumSizes(m: Extents): nat
    requires RangesValid(m)
    decreases m.Keys
  {
    if m == map[] then 0
    else
      var k :| k in m;
      m[k].dataRange.Size() + SumSizes(m - {k})
  }

  /** std::map::emplace: inserts only when the key is absent. */
  function Emplace(m: Extents, k: nat, v: ClusterDataVec): (r: Extents)
    ensures k in r && (k !in m ==> r == m[k := v]) && (k in m ==> r == m)
  {
    if k in m then m else m[k := v]
  }

  /** The sum of sizes can be split at any stored key. */
  lemma {:induction false} SumSizesRemove(m: Extents, j: nat)
    requires RangesValid(m) && j in m
    ensures SumSizes(m) == m[j].dataRange.Size() + SumSizes(m - {j})
    decreases m.Keys
  {
    var k :| k in m && SumSizes(m) == m[k].dataRange.Size() + SumSizes(m - {k});
    if k != j {
      SumSizesRemove(m - {k}, j);
      SumSizesRemove(m - {j}, k);
      assert m - {k} - {j} == m - {j} - {k};
    }
  }

  /** Storing an extent at a fresh key adds its size to the sum. */
  lemma SumSizesInsert(m: Extents, k: nat, v: ClusterDataVec)
    requires RangesValid(m) && k !in m && v.dataRange.Valid()
    ensures RangesValid(m[k := v])
    ensures SumSizes(m[k := v]) == SumSizes(m) + v.dataRange.Size()
  {
    SumSizesRemove(m[k := v], k);
    assert m[k := v] - {k} == m;
  }

  /** The sum of sizes is zero exactly when every stored range is empty. */
  lemma {:induction false} SumZero(m: Extents)
    requires RangesValid(m)
    ensures SumSizes(m) == 0 <==> forall k :: k in m ==> m[k].dataRange.IsEmpty()
    decreases m.Keys
  {
    if m != map[] {
      var k :| k in m;
      SumSizesRemove(m, k);
      SumZero(m - {k});
      assert forall j :: j in m && j != k ==> j in m - {k} && (m - {k})[j] == m[j];
    }
  }

  /** A non-empty finite set of offsets has a largest element. */
  lemma {:induction false} MaxOf(s: set<nat>) returns (p: nat)
    requires s != {}
    ensures p in s && forall k :: k in s ==> k <= p
    decreases s
  {
    var x :| x in s;
    if s == {x} {
      p := x;
    } else {
      var q := MaxOf(s - {x});
      p := if x < q then q else x;
      assert forall k :: k in s ==> k == x || k in s - {x};
    }
  }

  /** A non-empty finite set of offsets has a smallest element. */
  lemma {:induction false} MinOf(s: set<nat>) returns (p: nat)
    requires s != {}
    ensures p in s && forall k :: k in s ==> p <= k
    decreases s
  {
    var x :| x in s;
    if s == {x} {
      p := x;
    } else {
      var q := MinOf(s - {x});
      p := if x < q then x else q;
      assert forall k :: k in s ==> k == x || k in s - {x};
    }
  }

  /** p is the key just before `off`: std::prev of the entry stored at `off`. */
  ghost predicate IsPredecessor(m: Extents, p: nat, off: nat) {
    p in m && p < off && forall k :: k in m && k < off ==> k <= p
  }

  /** n is the key just after `off`: std::next of the entry stored at `off`. */
  ghost predicate IsSuccessor(m: Extents, n: nat, off: nat) {
    n in m && off < n && forall k :: k in m && off < k ==> n <= k
  }

  /** add_data's overlap checks: a new extent of `size` bytes at `off` starts
      no earlier than its predecessor ends and ends no later than its
      successor starts. */
  ghost predicate FitsBetweenNeighbours(m: Extents, off: nat, size: nat)
    requires RangesValid(m)
  {
    && (forall p: nat :: IsPredecessor(m, p, off) ==> p + m[p].dataRange.Size() <= off)
    && (forall n: nat :: IsSuccessor(m, n, off) ==> off + size <= n)
  }

  /** The new extent does not overlap any stored extent. */
  ghost predicate FitsAmongAll(m: Extents, off: nat, size: nat)
    requires RangesValid(m)
  {
    forall k :: k in m ==> (k < off ==> k + m[k].dataRange.Size() <= off) && (off < k ==> off + size <= k)
  }

  /** Checking the two neighbours is enough, and necessary: in a map of
      disjoint extents, an extent clear of its neighbours is clear of all. */
  lemma NeighbourChecksSuffice(m: Extents, off: nat, size: nat)
    requires WellFormed(m) && off !in m
    ensures FitsBetweenNeighbours(m, off, size) <==> FitsAmongAll(m, off, size)
  {
    if FitsBetweenNeighbours(m, off, size) {
      ClearOfPredecessorIsClearBelow(m, off);
      ClearOfSuccessorIsClearAbove(m, off, size);
    }
  }

  lemma ClearOfPredecessorIsClearBelow(m: Extents, off: nat)
    requires WellFormed(m)
    requires forall p: nat :: IsPredecessor(m, p, off) ==> p + m[p].dataRange.Size() <= off
    ensures forall k :: k in m && k < off ==> k + m[k].dataRange.Size() <= off
  {
    var below := set k | k in m && k < off;
    assert forall k :: k in m && k < off ==> k in below;
    if below != {} {
      var p := MaxOf(below);
      assert IsPredecessor(m, p, off);
    }
  }

  lemma ClearOfSuccessorIsClearAbove(m: Extents, off: nat, size: nat)
    requires WellFormed(m)
    requires forall n: nat :: IsSuccessor(m, n, off) ==> off + size <= n
    ensures forall k :: k in m && off < k ==> off + size <= k
  {
    var above := set k | k in m && off < k;
    assert forall k :: k in m && off < k ==> k in above;
    if above != {} {
      var n := MinOf(above);
      assert IsSuccessor(m, n, off);
    }
  }

  /** Storing an extent that is clear of all others keeps the map well formed. */
  lemma InsertKeepsWellFormed(m: Extents, off: nat, v: ClusterDataVec)
    requires WellFormed(m) && off !in m && v.dataRange.Valid()
    requires FitsAmongAll(m, off, v.dataRange.Size())
    ensures WellFormed(m[off := v])
  {
    var m' := m[off := v];
    assert forall k :: k in m && k != off ==> m'[k] == m[k];
  }

  /** cut_data's checks as the corrected code makes them: an extent at `off`
      holds `former`; the left piece starts at former.beg, the right piece
      ends at former.end, they do not cross, and each is well formed. */
  ghost predicate CutPrecondition(m: Extents, off: nat, former: Range, left: Range, right: Range) {
    && off in m && m[off].dataRange == former
    && former.beg == left.beg && former.end == right.end
    && left.end <= right.beg
    && left.Valid() && right.Valid()
  }

  /** The disk offset at which cut_data stores the right piece: the tail of
      the former extent, right.Size() bytes before its end. */
  function RightPieceKey(off: nat, former: Range, right: Range): (r: nat)
    requires former.Valid() && right.Valid() && right.Size() <= former.Size()
    ensures off <= r && r + right.Size() == off + former.Size()
  {
    off + former.Size() - right.Size()
  }

  /** The map after cut_data: the extent at `off` is taken out, a non-empty
      left piece goes back at `off`, a non-empty right piece is emplaced at
      the tail, both owned by the former extent's inode. */
  ghost function AfterCut(m: Extents, off: nat, former: Range, left: Range, right: Range): (r: Extents)
    requires CutPrecondition(m, off, former, left, right) && RangesValid(m)
    ensures forall k :: k in m && k != off ==> k in r && r[k] == m[k]
    ensures !left.IsEmpty() ==> off in r && r[off] == ClusterDataVec(m[off].dataOwner, left)
    ensures left.IsEmpty() && (right.IsEmpty() || RightPieceKey(off, former, right) != off) ==> off !in r
    ensures forall k :: k in r ==> k in m || k == RightPieceKey(off, former, right)
  {
    var inode := m[off].dataOwner;
    var m0 := m - {off};
    var m1 := if !left.IsEmpty() then m0[off := ClusterDataVec(inode, left)] else m0;
    if !right.IsEmpty() then Emplace(m1, RightPieceKey(off, former, right), ClusterDataVec(inode, right))
    else m1
  }

  /** The bytes cut_data removes from the live count. */
  function CutAway(former: Range, left: Range, right: Range): (r: nat)
    requires former.Valid() && left.Valid() && right.Valid()
    requires former.beg == left.beg && former.end == right.end && left.end <= right.beg
    ensures r + left.Size() + right.Size() == former.Size()
    ensures r == right.beg - left.end
  {
    former.Size() - left.Size() - right.Size()
  }

  /** The emplace of a non-empty right piece always inserts: no extent, and
      not a non-empty left piece, starts at the tail key. */
  lemma RightKeyFresh(m: Extents, off: nat, former: Range, left: Range, right: Range)
    requires WellFormed(m) && CutPrecondition(m, off, former, left, right) && !right.IsEmpty()
    ensures RightPieceKey(off, former, right) !in
              (if !left.IsEmpty() then (m - {off})[off := ClusterDataVec(m[off].dataOwner, left)] else m - {off})
  {
    RemoveExtent(m, off);
    var rk := RightPieceKey(off, former, right);
    SubExtentFits(m - {off}, off, former.Size(), rk, right.Size());
    if !left.IsEmpty() {
      assert off < rk;
    }
  }

  /** cut_data keeps the map well formed, and the sum of sizes drops by
      exactly the bytes cut away. */
  lemma CutKeepsInvariant(m: Extents, off: nat, former: Range, left: Range, right: Range)
    requires WellFormed(m) && CutPrecondition(m, off, former, left, right)
    ensures WellFormed(AfterCut(m, off, former, left, right))
    ensures SumSizes(AfterCut(m, off, former, left, right)) + CutAway(former, left, right) == SumSizes(m)
  {
    var inode := m[off].dataOwner;
    var f := former.Size();
    var m0 := m - {off};
    RemoveExtent(m, off);
    var m1 := m0;
    if !left.IsEmpty() {
      var vl := ClusterDataVec(inode, left);
      SubExtentFits(m0, off, f, off, left.Size());
      InsertKeepsWellFormed(m0, off, vl);
      SumSizesInsert(m0, off, vl);
      m1 := m0[off := vl];
    }
    if !right.IsEmpty() {
      var rk := RightPieceKey(off, former, right);
      var vr := ClusterDataVec(inode, right);
      SubExtentFits(m0, off, f, rk, right.Size());
      if !left.IsEmpty() {
        FitsAfterInsert(m0, off, ClusterDataVec(inode, left), rk, right.Size());
      }
      InsertKeepsWellFormed(m1, rk, vr);
      SumSizesInsert(m1, rk, vr);
    }
  }

  /** Taking out the extent at `off` keeps the others well formed, removes its
      size from the sum, and leaves its disk range [off, off + size) clear. */
  lemma RemoveExtent(m: Extents, off: nat)
    requires WellFormed(m) && off in m
    ensures WellFormed(m - {off}) && off !in m - {off}
    ensures SumSizes(m - {off}) + m[off].dataRange.Size() == SumSizes(m)
    ensures FitsAmongAll(m - {off}, off, m[off].dataRange.Size())
  {
    SumSizesRemove(m, off);
    assert forall k :: k in m - {off} ==> k in m && (m - {off})[k] == m[k];
  }

  /** A sub-range [b, b + size) of a clear disk range [off, off + f) is clear,
      and a non-empty one starts at no stored key. */
  lemma SubExtentFits(m: Extents, off: nat, f: nat, b: nat, size: nat)
    requires RangesValid(m) && off !in m && FitsAmongAll(m, off, f)
    requires off <= b && b + size <= off + f
    ensures FitsAmongAll(m, b, size)
    ensures size > 0 ==> b !in m
  {
  }

  /** A range clear of the stored extents and of a newly stored one, which
      it does not share a key with, is clear of the new map. */
  lemma FitsAfterInsert(m: Extents, k: nat, v: ClusterDataVec, b: nat, size: nat)
    requires RangesValid(m) && v.dataRange.Valid() && FitsAmongAll(m, b, size) && k != b
    requires k < b ==> k + v.dataRange.Size() <= b
    requires b < k ==> b + size <= k
    ensures RangesValid(m[k := v]) && FitsAmongAll(m[k := v], b, size)
  {
  }

  /** Where cut_data puts the pieces: exactly the keys of the other extents,
      plus `off` for a non-empty left piece and the tail key for a non-empty
      right piece, each owned by the former inode; other entries untouched. */
  lemma CutPlacesPieces(m: Extents, off: nat, former: Range, left: Range, right: Range)
    requires WellFormed(m) && CutPrecondition(m, off, former, left, right)
    ensures var m' := AfterCut(m, off, former, left, right);
            var rk := RightPieceKey(off, former, right);
            && m'.Keys == (m.Keys - {off}) + (if !left.IsEmpty() then {off} else {})
                          + (if !right.IsEmpty() then {rk} else {})
            && (!left.IsEmpty() ==> m'[off] == ClusterDataVec(m[off].dataOwner, left))
            && (!right.IsEmpty() ==> m'[rk] == ClusterDataVec(m[off].dataOwner, right))
            && (forall k :: k in m && k != off ==> m'[k] == m[k])
  {
    var inode := m[off].dataOwner;
    var m0 := m - {off};
    var m1 := if !left.IsEmpty() then m0[off := ClusterDataVec(inode, left)] else m0;
    assert forall k :: k in m && k != off ==> k in m1 && m1[k] == m[k];
    if !right.IsEmpty() {
      RightKeyFresh(m, off, former, left, right);
    }
  }

  /** The size of a file range in the source's unsigned arithmetic: end - beg
      wraps modulo 2^64 when the range is inverted. */
  function UnsignedSize(r: Range): (s: nat)
    ensures s < U64_MODULUS && (r.Valid() && r.end - r.beg < U64_MODULUS ==> s == r.Size())
  {
    (r.end - r.beg) % U64_MODULUS
  }

  /** cut_data's checks as written: `size() >= 0` on an unsigned size is
      always true, so inverted pieces are not rejected. */
  ghost predicate CutAssertionsAsWritten(m: Extents, off: nat, former: Range, left: Range, right: Range) {
    && off in m && m[off].dataRange == former
    && former.beg == left.beg && former.end == right.end
    && left.end <= right.beg
    && UnsignedSize(left) >= 0 && UnsignedSize(right) >= 0
  }

  /** For every stored extent `former`, the checks as written admit the
      inverted right piece [former.end + 1, former.end) beside an empty left
      piece; its unsigned size is SIZE_MAX, so the emplace key as written lands
      one byte past the former extent's end. */
  lemma CutAssertionsAdmitInvertedPiece(m: Extents, off: nat, former: Range, left: Range, right: Range)
    requires RangesValid(m) && off in m && former == m[off].dataRange
    requires left == Range(former.beg, former.beg) && right == Range(former.end + 1, former.end)
    requires off + former.Size() + 1 < U64_MODULUS
    ensures CutAssertionsAsWritten(m, off, former, left, right)
    ensures !CutPrecondition(m, off, former, left, right)
    ensures UnsignedSize(right) == SIZE_MAX
    ensures (off + former.Size() - UnsignedSize(right)) % U64_MODULUS == off + former.Size() + 1
  {
    WrapAround(right.end - right.beg);
    WrapAround(off + former.Size() - UnsignedSize(right));
  }

  /** A negative value above -2^64 wraps to itself plus 2^64. */
  lemma WrapAround(v: int)
    requires -(U64_MODULUS as int) <= v < 0
    ensures v % U64_MODULUS == v + U64_MODULUS
  {
  }

  class DataClusterContentsInfo {
    var upToDateDataSize: nat
    var data: Extents

    /** The extents are well formed and the counter is their total size. */
    ghost predicate Valid()
      reads this
    {
      WellFormed(data) && upToDateDataSize == SumSizes(data)
    }

    constructor ()
      ensures Valid() && data == map[] && upToDateDataSize == 0
    {
      upToDateDataSize := 0;
      data := map[];
    }

    /** get_data(): the stored extents, disjoint and summing to the counter. */
    function GetData(): (m: Extents)
      reads this
      requires Valid()
      ensures WellFormed(m) && SumSizes(m) == upToDateDataSize
    {
      data
    }

    /** is_empty(): no live data bytes, that is, every stored range is empty. */
    function IsEmpty(): (b: bool)
      reads this
      requires Valid()
      ensures b <==> forall k :: k in data ==> data[k].dataRange.IsEmpty()
    {
      SumZero(data);
      upToDateDataSize == 0
    }

    /** add_data(): stores a new extent at a fresh key between its neighbours. */
    method AddData(diskOffset: nat, inode: Inode, dataRange: Range)
      requires Valid() && dataRange.Valid()
      requires diskOffset !in data
      requires FitsBetweenNeighbours(data, diskOffset, dataRange.Size())
      modifies this
      ensures Valid()
      ensures data == old(data)[diskOffset := ClusterDataVec(inode, dataRange)]
      ensures upToDateDataSize == old(upToDateDataSize) + dataRange.Size()
    {
      var v := ClusterDataVec(inode, dataRange);
      NeighbourChecksSuffice(data, diskOffset, dataRange.Size());
      InsertKeepsWellFormed(data, diskOffset, v);
      SumSizesInsert(data, diskOffset, v);
      data := data[diskOffset := v];
      upToDateDataSize := upToDateDataSize + dataRange.Size();
    }

    /** cut_data(): replaces the extent at diskOffset by its surviving pieces. */
    method CutData(diskOffset: nat, formerRange: Range, newLeftRange: Range, newRightRange: Range)
      requires Valid() && CutPrecondition(data, diskOffset, formerRange, newLeftRange, newRightRange)
      modifies this
      ensures Valid()
      ensures data == AfterCut(old(data), diskOffset, formerRange, newLeftRange, newRightRange)
      ensures upToDateDataSize + CutAway(formerRange, newLeftRange, newRightRange) == old(upToDateDataSize)
    {
      CutKeepsInvariant(data, diskOffset, formerRange, newLeftRange, newRightRange);
      var inode := data[diskOffset].dataOwner;
      data := data - {diskOffset};
      if !newLeftRange.IsEmpty() {
        data := data[diskOffset := ClusterDataVec(inode, newLeftRange)];
      }
      if !newRightRange.IsEmpty() {
        data := Emplace(data, RightPieceKey(diskOffset, formerRange, newRightRange),
                        ClusterDataVec(inode, newRightRange));
      }
      upToDateDataSize := upToDateDataSize - CutAway(formerRange, newLeftRange, newRightRange);
    }
  }

  /** Two extents stored side by side: the whole 4096 bytes of inode 1 at
      disk offset 0, then 100 bytes of inode 2 right after them. */
  method AddScenario() returns (c: DataClusterContentsInfo)
    ensures c.Valid() && c.upToDateDataSize == 4196
    ensures c.data == map[0 := ClusterDataVec(1, Range(0, 4096)), 4096 := ClusterDataVec(2, Range(0, 100))]
  {
    c := new DataClusterContentsInfo();
    c.AddData(0, 1, Range(0, 4096));
    assert forall n: nat :: IsSuccessor(c.data, n, 4096) ==> 4096 + 100 <= n;
    c.AddData(4096, 2, Range(0, 100));
  }

  /** Cutting bytes [1000, 3000) out of the first extent keeps its head at key
      0 and moves its tail to key 3000; the live count drops by 2000. */
  method CutScenario(c: DataClusterContentsInfo)
    requires c.Valid() && c.upToDateDataSize == 4196
    requires c.data == map[0 := ClusterDataVec(1, Range(0, 4096)), 4096 := ClusterDataVec(2, Range(0, 100))]
    modifies c
    ensures c.Valid() && c.upToDateDataSize == 2196
    ensures c.data == map[0 := ClusterDataVec(1, Range(0, 1000)), 3000 := ClusterDataVec(1, Range(3000, 4096)),
                          4096 := ClusterDataVec(2, Range(0, 100))]
  {
    ghost var before := c.data;
    c.CutData(0, Range(0, 4096), Range(0, 1000), Range(3000, 4096));
    CutPlacesPieces(before, 0, Range(0, 4096), Range(0, 1000), Range(3000, 4096));
    assert c.data.Keys == {0, 3000, 4096};
    assert c.data[3000] == ClusterDataVec(1, Range(3000, 4096));
    assert c.upToDateDataSize == 2196;
  }
}

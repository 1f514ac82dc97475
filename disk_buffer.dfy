/** The alignment-constrained write buffer of the filesystem's write path
    (class to_disk_buffer): bytes are appended into a fixed-size buffer and
    flushed to the block device in aligned, zero-padded, contiguous writes. */
module DiskBuffer {
  import opened Units
  import opened Bitwise

  /** The configuration errors init reports, in the order it checks them. */
  datatype InitError =
    | AlignmentIsNot2Power
    | MaxSizeIsNotAligned
    | ClusterBegOffsetIsNotAligned
    | MaxSizeTooBig

  /** The one condition a completed flush can report. */
  datatype FlushError = PartialWrite

  datatype Outcome = Pass | Fail(error: FlushError)

  /** One device write as the buffer issues it: `length` bytes taken from the
      buffer at `bufferBeg`, written at the absolute disk offset `diskOffset`;
      `data` are the bytes handed over. */
  datatype WriteRequest = WriteRequest(diskOffset: u64, bufferBeg: nat, length: nat, data: seq<u8>)

  /** The disk offset of a buffer position: a 64-bit unsigned sum, which wraps. */
  function DiskAddress(clusterBegOffset: u64, bufferOffset: nat): (r: u64)
    ensures clusterBegOffset + bufferOffset < U64_MODULUS ==> r == clusterBegOffset + bufferOffset
    ensures U64_MODULUS <= clusterBegOffset + bufferOffset < 2 * U64_MODULUS ==>
              r == clusterBegOffset + bufferOffset - U64_MODULUS
  {
    (clusterBegOffset + bufferOffset) % U64_MODULUS
  }

  function Zeros(n: nat): (z: seq<u8>)
    ensures |z| == n && forall i :: 0 <= i < n ==> z[i] == 0
  {
    seq(n, _ => 0)
  }

  /** The parameters init accepts. */
  predicate ValidConfiguration(maxSize: nat, alignment: nat, clusterBegOffset: nat) {
    && IsPowerOf2(alignment)
    && maxSize % alignment == 0
    && clusterBegOffset % alignment == 0
    && maxSize <= SIZE_MAX
  }

  /** init's validation: the first check that fails, in the source's order. */
  function InitCheck(alignedMaxSize: u64, alignment: u64, clusterBegOffset: u64): (r: Option<InitError>)
    ensures r == None <==> ValidConfiguration(alignedMaxSize, alignment, clusterBegOffset)
    ensures r == Some(AlignmentIsNot2Power) <==> !IsPowerOf2(alignment)
    ensures r == Some(MaxSizeIsNotAligned) <==>
      IsPowerOf2(alignment) && alignedMaxSize % alignment != 0
    ensures r == Some(ClusterBegOffsetIsNotAligned) <==>
      IsPowerOf2(alignment) && alignedMaxSize % alignment == 0 && clusterBegOffset % alignment != 0
    ensures r == Some(MaxSizeTooBig) <==>
      IsPowerOf2(alignment) && alignedMaxSize % alignment == 0 && clusterBegOffset % alignment == 0
      && alignedMaxSize > SIZE_MAX
  {
    if !IsPowerOf2(alignment) then Some(AlignmentIsNot2Power)
    else if ModByPowerOf2(alignedMaxSize, alignment) != 0 then Some(MaxSizeIsNotAligned)
    else if ModByPowerOf2(clusterBegOffset, alignment) != 0 then Some(ClusterBegOffsetIsNotAligned)
    else if alignedMaxSize > SIZE_MAX then Some(MaxSizeTooBig)
    else None
  }

  /** The continuation run when the device reports how many bytes it wrote. */
  function CompleteWrite(req: WriteRequest, writtenBytes: nat): (r: Outcome)
    ensures r == Fail(PartialWrite) <==> writtenBytes != req.length
    ensures r == Pass <==> writtenBytes == req.length
  {
    if writtenBytes != req.length then Fail(PartialWrite) else Pass
  }

  /** The writes lie end to end in the buffer, from offset 0 up to `next`. */
  ghost predicate Chained(ws: seq<WriteRequest>, next: nat) {
    && (forall i :: 0 < i < |ws| ==> ws[i].bufferBeg == ws[i - 1].bufferBeg + ws[i - 1].length)
    && (if ws == [] then next == 0
        else ws[0].bufferBeg == 0 && ws[|ws| - 1].bufferBeg + ws[|ws| - 1].length == next)
  }

  /** A write starts inside the buffer, ends within it, is aligned in start
      and length, goes to the disk offset of its start and carries its bytes. */
  ghost predicate WriteIssued(w: WriteRequest, clusterBegOffset: u64, alignment: nat, maxSize: nat) {
    && w.bufferBeg < maxSize
    && w.bufferBeg + w.length <= maxSize
    && alignment > 0
    && w.bufferBeg % alignment == 0
    && w.length % alignment == 0
    && w.diskOffset == DiskAddress(clusterBegOffset, w.bufferBeg)
    && |w.data| == w.length
  }

  ghost predicate IssuedWithin(ws: seq<WriteRequest>, clusterBegOffset: u64, alignment: nat, maxSize: nat) {
    forall i :: 0 <= i < |ws| ==> WriteIssued(ws[i], clusterBegOffset, alignment, maxSize)
  }

  /** The buffer `b` still holds, at the write's place, the bytes it hands to the device. */
  ghost predicate WriteIntact(w: WriteRequest, b: seq<u8>) {
    w.bufferBeg + w.length <= |b| && b[w.bufferBeg .. w.bufferBeg + w.length] == w.data
  }

  /** Nothing stored since disturbs a write in flight. */
  ghost predicate InFlightIntact(ws: seq<WriteRequest>, b: seq<u8>) {
    forall i :: 0 <= i < |ws| ==> WriteIntact(ws[i], b)
  }

  /** Chained writes are in increasing order, pairwise disjoint, and all end by `next`. */
  lemma {:induction false} ChainedInOrder(ws: seq<WriteRequest>, next: nat)
    requires Chained(ws, next)
    ensures forall i, j :: 0 <= i < j < |ws| ==> ws[i].bufferBeg + ws[i].length <= ws[j].bufferBeg
    ensures forall i :: 0 <= i < |ws| ==> ws[i].bufferBeg + ws[i].length <= next
  {
    if ws != [] {
      var n := |ws| - 1;
      var front := ws[..n];
      assert Chained(front, ws[n].bufferBeg) by {
        assert forall i :: 0 <= i < |front| ==> front[i] == ws[i];
      }
      ChainedInOrder(front, ws[n].bufferBeg);
      assert forall i :: 0 <= i < n ==> front[i] == ws[i];
    }
  }

  /** When the cluster lies below 2^64, the device writes go to increasing,
      contiguous, pairwise disjoint disk ranges: each starts exactly where the
      previous one ended. */
  lemma DiskWritesInOrder(ws: seq<WriteRequest>, next: nat, clusterBegOffset: u64, alignment: nat, maxSize: nat)
    requires Chained(ws, next) && IssuedWithin(ws, clusterBegOffset, alignment, maxSize)
    requires clusterBegOffset + maxSize <= U64_MODULUS
    ensures forall i :: 0 <= i < |ws| ==> ws[i].diskOffset == clusterBegOffset + ws[i].bufferBeg
    ensures forall i :: 0 < i < |ws| ==> ws[i].diskOffset == ws[i - 1].diskOffset + ws[i - 1].length
    ensures forall i, j :: 0 <= i < j < |ws| ==> ws[i].diskOffset + ws[i].length <= ws[j].diskOffset
  {
    ChainedInOrder(ws, next);
  }

  /** Every device write is aligned on disk, in offset and in length. */
  lemma DiskWritesAligned(ws: seq<WriteRequest>, clusterBegOffset: u64, alignment: nat, maxSize: nat)
    requires IssuedWithin(ws, clusterBegOffset, alignment, maxSize)
    requires IsPowerOf2(alignment) && alignment < U64_MODULUS && clusterBegOffset % alignment == 0
    ensures forall i :: 0 <= i < |ws| ==> ws[i].diskOffset % alignment == 0 && ws[i].length % alignment == 0
  {
    forall i | 0 <= i < |ws| ensures ws[i].diskOffset % alignment == 0 {
      AlignedAddress(clusterBegOffset, ws[i].bufferBeg, alignment);
    }
  }

  /** An aligned offset inside an aligned cluster has an aligned disk address,
      even when the 64-bit sum wraps, because the alignment divides 2^64. */
  lemma AlignedAddress(clusterBegOffset: u64, beg: nat, alignment: nat)
    requires IsPowerOf2(alignment) && alignment < U64_MODULUS
    requires clusterBegOffset % alignment == 0 && beg % alignment == 0
    ensures DiskAddress(clusterBegOffset, beg) % alignment == 0
  {
    PowerOf2DividesModulus(alignment);
    var a, n := alignment, U64_MODULUS;
    var m := n / a;
    assert n == a * m;
    var x, y := clusterBegOffset / a, beg / a;
    var s := clusterBegOffset + beg;
    assert s == a * (x + y);
    var q, r := s / n, s % n;
    assert s == n * q + r;
    assert n * q == a * (m * q);
    var k: int := x + y - m * q;
    assert r == k * a;
    MultipleMod(k, a);
    assert DiskAddress(clusterBegOffset, beg) == r;
  }

  /** Changing the buffer only from `next` on keeps every chained write intact. */
  lemma KeptPrefixKeepsWrites(ws: seq<WriteRequest>, next: nat, b: seq<u8>, b': seq<u8>)
    requires Chained(ws, next) && InFlightIntact(ws, b)
    requires next <= |b| == |b'| && b[..next] == b'[..next]
    ensures InFlightIntact(ws, b')
  {
    ChainedInOrder(ws, next);
    forall i | 0 <= i < |ws| ensures WriteIntact(ws[i], b') {
      KeptPrefixKeepsWrite(ws[i], next, b, b');
    }
  }

  /** A write below `next` stays intact when only bytes from `next` on change. */
  lemma KeptPrefixKeepsWrite(w: WriteRequest, next: nat, b: seq<u8>, b': seq<u8>)
    requires WriteIntact(w, b) && w.bufferBeg + w.length <= next <= |b| == |b'| && b[..next] == b'[..next]
    ensures WriteIntact(w, b')
  {
    var lo, hi := w.bufferBeg, w.bufferBeg + w.length;
    assert forall k :: lo <= k < hi ==> b'[k] == b'[..next][k] == b[..next][k] == b[k];
    assert b'[lo..hi] == b[lo..hi];
  }

  /** The buffer after memset zeroes [end, realEnd). */
  function Padded(b: seq<u8>, end: nat, realEnd: nat): seq<u8>
    requires end <= realEnd <= |b|
  {
    b[..end] + Zeros(realEnd - end) + b[realEnd..]
  }

  /** The device write a flush issues for the buffer range [beg, realEnd) of `b`. */
  function IssuedRequest(clusterBegOffset: u64, beg: nat, realEnd: nat, b: seq<u8>): WriteRequest
    requires beg <= realEnd <= |b|
  {
    WriteRequest(DiskAddress(clusterBegOffset, beg), beg, realEnd - beg, b[beg..realEnd])
  }

  /** The buffer's invariant, over the values of its fields: the range and
      alignment facts, and a chained, in-bounds, intact log of device writes. */
  ghost predicate BufferInvariant(maxSize: nat, alignment: nat, clusterBegOffset: u64, unflushed: Range,
                                  writes: seq<WriteRequest>, contents: seq<u8>) {
    && |contents| == maxSize
    && unflushed.Valid() && unflushed.end <= maxSize
    && (alignment == 0 ==> maxSize == 0 && clusterBegOffset == 0 && writes == [])
    && (alignment != 0 ==>
          ValidConfiguration(maxSize, alignment, clusterBegOffset) && unflushed.beg % alignment == 0)
    && Chained(writes, unflushed.beg)
    && IssuedWithin(writes, clusterBegOffset, alignment, maxSize)
    && InFlightIntact(writes, contents)
  }

  /** A flush of a non-empty remainder [beg, end): the padded end realEnd stays
      within the buffer, the write hands the device the segment's bytes followed
      by zeros, and the state after the flush satisfies the invariant again. */
  lemma FlushKeepsInvariant(maxSize: nat, alignment: nat, clusterBegOffset: u64, unflushed: Range,
                            writes: seq<WriteRequest>, before: seq<u8>)
    requires BufferInvariant(maxSize, alignment, clusterBegOffset, unflushed, writes, before)
    requires unflushed.beg < maxSize
    ensures IsPowerOf2(alignment)
    ensures unflushed.end <= RoundUpToMultipleOfPowerOf2(unflushed.end, alignment) <= maxSize
    ensures var realEnd := RoundUpToMultipleOfPowerOf2(unflushed.end, alignment);
            var after := Padded(before, unflushed.end, realEnd);
            var w := IssuedRequest(clusterBegOffset, unflushed.beg, realEnd, after);
            && w.data == before[unflushed.beg..unflushed.end] + Zeros(realEnd - unflushed.end)
            && BufferInvariant(maxSize, alignment, clusterBegOffset, Range(realEnd, realEnd), writes + [w], after)
  {
    var beg, end := unflushed.beg, unflushed.end;
    var realEnd := RoundUpToMultipleOfPowerOf2(end, alignment);
    RoundUpIsLeast(end, alignment, maxSize);
    var after := Padded(before, end, realEnd);
    assert after[..beg] == before[..beg] by {
      assert forall k :: 0 <= k < beg ==> after[k] == before[k];
    }
    KeptPrefixKeepsWrites(writes, beg, before, after);
    var w := IssuedRequest(clusterBegOffset, beg, realEnd, after);
    assert w.data == before[beg..end] + Zeros(realEnd - end) by {
      assert forall k :: 0 <= k < end - beg ==> w.data[k] == before[beg + k];
      assert forall k :: end - beg <= k < realEnd - beg ==> w.data[k] == 0;
    }
    AlignedDifference(realEnd, beg, alignment);
    assert WriteIssued(w, clusterBegOffset, alignment, maxSize);
    AppendKeepsLog(writes, beg, w, clusterBegOffset, alignment, maxSize, after);
  }

  /** Appending a write that starts where the log ends, is issued within the
      buffer and is intact keeps the log chained, in bounds and intact. */
  lemma AppendKeepsLog(ws: seq<WriteRequest>, next: nat, w: WriteRequest,
                       clusterBegOffset: u64, alignment: nat, maxSize: nat, b: seq<u8>)
    requires Chained(ws, next) && IssuedWithin(ws, clusterBegOffset, alignment, maxSize) && InFlightIntact(ws, b)
    requires w.bufferBeg == next && WriteIssued(w, clusterBegOffset, alignment, maxSize) && WriteIntact(w, b)
    ensures Chained(ws + [w], next + w.length)
    ensures IssuedWithin(ws + [w], clusterBegOffset, alignment, maxSize)
    ensures InFlightIntact(ws + [w], b)
  {
    var ws' := ws + [w];
    assert forall i :: 0 <= i < |ws| ==> ws'[i] == ws[i];
  }

  /** The buffer `b` with `bytes` stored from offset `at` on. */
  function Stored(b: seq<u8>, at: nat, bytes: seq<u8>): (r: seq<u8>)
    requires at + |bytes| <= |b|
  {
    b[..at] + bytes + b[at + |bytes|..]
  }

  /** Storing bytes at the write position, within the room left, disturbs no
      write in flight: every issued write lies below the flushed mark. */
  lemma StoreKeepsInvariant(maxSize: nat, alignment: nat, clusterBegOffset: u64, unflushed: Range,
                            writes: seq<WriteRequest>, before: seq<u8>, bytes: seq<u8>)
    requires BufferInvariant(maxSize, alignment, clusterBegOffset, unflushed, writes, before)
    requires unflushed.end + |bytes| <= maxSize
    ensures BufferInvariant(maxSize, alignment, clusterBegOffset, unflushed, writes,
                            Stored(before, unflushed.end, bytes))
  {
    var after := Stored(before, unflushed.end, bytes);
    assert after[..unflushed.beg] == before[..unflushed.beg] by {
      assert forall k :: 0 <= k < unflushed.beg ==> after[k] == before[k];
    }
    KeptPrefixKeepsWrites(writes, unflushed.beg, before, after);
  }

  /** memset(a + lo, 0, hi - lo). */
  method ZeroFill(a: array<u8>, lo: nat, hi: nat)
    requires lo <= hi <= a.Length
    modifies a
    ensures a[..] == Padded(old(a[..]), lo, hi)
  {
    forall i | lo <= i < hi {
      a[i] := 0;
    }
    assert a[..] == Padded(old(a[..]), lo, hi);
  }

  class ToDiskBuffer {
    var buff: array<u8>
    var maxSize: u64
    var alignment: u64
    var clusterBegOffset: u64   // disk offset of buff[0]
    var unflushed: Range        // appended bytes not yet handed to the device
    /** The device writes issued since the last successful init, oldest first. */
    ghost var writes: seq<WriteRequest>

    ghost predicate Valid()
      reads this, buff
    {
      && buff.Length == maxSize
      && BufferInvariant(maxSize, alignment, clusterBegOffset, unflushed, writes, buff[..])
    }

    /** The default-constructed buffer: empty, to be completed by Init. */
    constructor ()
      ensures Valid() && fresh(buff)
      ensures maxSize == 0 && alignment == 0 && clusterBegOffset == 0
      ensures unflushed == Range(0, 0) && writes == []
    {
      buff := new u8[0];
      maxSize, alignment, clusterBegOffset := 0, 0, 0;
      unflushed := Range(0, 0);
      writes := [];
    }

    /** Validates the parameters and, when they pass, installs them with a
        fresh buffer of `alignedMaxSize` bytes and an empty segment at 0. */
    method Init(alignedMaxSize: u64, alignment: u64, clusterBegOffset: u64) returns (err: Option<InitError>)
      requires Valid()
      modifies this
      ensures Valid()
      ensures err == InitCheck(alignedMaxSize, alignment, clusterBegOffset)
      ensures err != None ==>
        && buff == old(buff) && maxSize == old(maxSize) && this.alignment == old(this.alignment)
        && this.clusterBegOffset == old(this.clusterBegOffset)
        && unflushed == old(unflushed) && writes == old(writes)
      ensures err == None ==>
        && maxSize == alignedMaxSize && this.alignment == alignment
        && this.clusterBegOffset == clusterBegOffset
        && unflushed == Range(0, 0) && fresh(buff) && buff.Length == alignedMaxSize
        && writes == [] && BytesLeft() == alignedMaxSize
    {
      if !IsPowerOf2(alignment) {
        return Some(AlignmentIsNot2Power);
      }
      if ModByPowerOf2(alignedMaxSize, alignment) != 0 {
        return Some(MaxSizeIsNotAligned);
      }
      if ModByPowerOf2(clusterBegOffset, alignment) != 0 {
        return Some(ClusterBegOffsetIsNotAligned);
      }
      if alignedMaxSize > SIZE_MAX {
        return Some(MaxSizeTooBig);
      }
      maxSize := alignedMaxSize;
      this.alignment := alignment;
      this.clusterBegOffset := clusterBegOffset;
      unflushed := Range(0, 0);
      buff := new u8[maxSize];
      writes := [];
      StartNewUnflushedData();
      return None;
    }

    /** Hook run when a new segment begins; empty in this class. */
    method StartNewUnflushedData()
      ensures unchanged(this) && unchanged(buff)
    {
    }

    /** Hook run before a flush computes its write range; empty in this class. */
    method PrepareUnflushedDataForFlush()
      ensures unchanged(this) && unchanged(buff)
    {
    }

    /** Hands the unflushed segment, zero-padded up to the next aligned offset,
        to the device, and opens a new empty segment at that aligned offset
        before the write completes. Returns the write issued, if any. */
    method FlushToDisk() returns (req: Option<WriteRequest>)
      requires Valid()
      modifies this, buff
      ensures Valid()
      ensures buff == old(buff) && maxSize == old(maxSize) && alignment == old(alignment)
      ensures clusterBegOffset == old(clusterBegOffset)
      ensures old(unflushed.beg) == maxSize ==>
        req == None && unflushed == old(unflushed) && buff[..] == old(buff[..]) && writes == old(writes)
      ensures old(unflushed.beg) < maxSize ==>
        var beg, end := old(unflushed.beg), old(unflushed.end);
        var realEnd := RoundUpToMultipleOfPowerOf2(end, alignment);
        && realEnd <= maxSize
        && buff[..] == Padded(old(buff[..]), end, realEnd)
        && unflushed == Range(realEnd, realEnd)
        && req == Some(IssuedRequest(clusterBegOffset, beg, realEnd, buff[..]))
        && req.value.data == old(buff[..])[beg..end] + Zeros(realEnd - end)
        && writes == old(writes) + [req.value]
      ensures alignment != 0 ==> BytesLeft() == old(BytesLeftAfterFlushIfDoneNow())
    {
      if unflushed.beg == maxSize {
        if alignment != 0 {
          RoundUpOfMultiple(maxSize, alignment);
        }
        return None;
      }
      PrepareUnflushedDataForFlush();
      FlushKeepsInvariant(maxSize, alignment, clusterBegOffset, unflushed, writes, buff[..]);
      assert ModByPowerOf2(unflushed.beg, alignment) == 0;
      var realWrite := Range(unflushed.beg, RoundUpToMultipleOfPowerOf2(unflushed.end, alignment));
      var padding := Range(unflushed.end, realWrite.end);
      ZeroFill(buff, padding.beg, padding.end);
      unflushed := Range(realWrite.end, realWrite.end);
      StartNewUnflushedData();
      var w := IssuedRequest(clusterBegOffset, realWrite.beg, realWrite.end, buff[..]);
      writes := writes + [w];
      req := Some(w);
    }

    /** The position get_write() points at: where the next appended byte goes. */
    function GetWrite(): (p: nat)
      reads this, buff
      requires Valid()
      ensures p + BytesLeft() == maxSize
      ensures unflushed.beg <= p
      ensures forall i :: 0 <= i < |writes| ==> writes[i].bufferBeg + writes[i].length <= p
    {
      ChainedInOrder(writes, unflushed.beg);
      unflushed.end
    }

    /** What a caller does through the position get_write() returns: stores
        `bytes` at the write position, within the room bytes_left() reports. */
    method StoreAtWritePosition(bytes: seq<u8>)
      requires Valid() && |bytes| <= BytesLeft()
      modifies buff
      ensures Valid()
      ensures buff[..] == Stored(old(buff[..]), unflushed.end, bytes)
    {
      ghost var before := buff[..];
      var at := GetWrite();
      forall i | 0 <= i < |bytes| {
        buff[at + i] := bytes[i];
      }
      assert buff[..] == Stored(before, at, bytes);
      StoreKeepsInvariant(maxSize, alignment, clusterBegOffset, unflushed, writes, before, bytes);
    }

    /** Marks `len` more bytes at the write position as appended. */
    method AcknowledgeWrite(len: nat)
      requires Valid() && len <= BytesLeft()
      modifies this`unflushed
      ensures Valid()
      ensures unflushed == Range(old(unflushed.beg), old(unflushed.end) + len)
      ensures BytesLeft() == old(BytesLeft()) - len
    {
      unflushed := Range(unflushed.beg, unflushed.end + len);
    }

    /** Room left before the buffer is full. */
    function BytesLeft(): (r: nat)
      reads this, buff
      requires Valid()
      ensures unflushed.end + r == maxSize
    {
      maxSize - unflushed.end
    }

    /** Room there would be right after a flush issued now: the room left,
        less the padding up to the next aligned offset. */
    function BytesLeftAfterFlushIfDoneNow(): (r: nat)
      reads this, buff
      requires Valid() && alignment != 0
      ensures r <= BytesLeft() < r + alignment
      ensures r % alignment == 0
    {
      var realEnd := RoundUpToMultipleOfPowerOf2(unflushed.end, alignment);
      RoundUpIsLeast(unflushed.end, alignment, maxSize);
      AlignedDifference(maxSize, realEnd, alignment);
      maxSize - realEnd
    }
  }

  /** A 4096-byte buffer with 512-byte alignment whose cluster starts at disk
      offset 8192 passes init and starts with all 4096 bytes free. */
  method InitScenario() returns (b: ToDiskBuffer)
    ensures b.Valid() && b.maxSize == 4096 && b.alignment == 512 && b.clusterBegOffset == 8192
    ensures b.unflushed == Range(0, 0) && b.BytesLeft() == 4096
  {
    b := new ToDiskBuffer();
    assert ValidConfiguration(4096, 512, 8192) by {
      assert IsPowerOf2(512);
    }
    var err := b.Init(4096, 512, 8192);
    assert err == None;
  }

  /** The first flush of that buffer: 100 stored bytes go out at disk offset
      8192, padded with zeros to 512 bytes. */
  method FirstFlushScenario(b: ToDiskBuffer) returns (w: WriteRequest)
    requires b.Valid() && b.maxSize == 4096 && b.alignment == 512 && b.clusterBegOffset == 8192
    requires b.unflushed == Range(0, 0)
    modifies b, b.buff
    ensures b.Valid() && b.maxSize == 4096 && b.alignment == 512 && b.clusterBegOffset == 8192
    ensures b.unflushed == Range(512, 512)
    ensures w.diskOffset == 8192 && w.bufferBeg == 0 && w.length == 512 && |w.data| == 512
    ensures w.data[..100] == seq(100, _ => 7) && w.data[100..] == Zeros(412)
  {
    var bytes := seq(100, _ => 7);
    b.StoreAtWritePosition(bytes);
    assert b.buff[..100] == bytes;
    b.AcknowledgeWrite(100);
    assert b.BytesLeft() == 3996;
    assert RoundUpToMultipleOfPowerOf2(100, 512) == 512;
    var r := b.FlushToDisk();
    w := r.value;
    assert w.diskOffset == 8192 && w.length == 512;
    assert w.data[100..] == Zeros(412);
  }

  /** The second flush of that buffer: 50 more bytes start at the aligned
      offset 512 and go out at disk offset 8704, again padded to 512 bytes;
      only a completion of all 512 bytes passes. */
  method SecondFlushScenario(b: ToDiskBuffer) returns (w: WriteRequest)
    requires b.Valid() && b.maxSize == 4096 && b.alignment == 512 && b.clusterBegOffset == 8192
    requires b.unflushed == Range(512, 512)
    modifies b, b.buff
    ensures b.Valid() && b.unflushed == Range(1024, 1024)
    ensures w.diskOffset == 8704 && w.bufferBeg == 512 && w.length == 512
    ensures CompleteWrite(w, 512) == Pass && CompleteWrite(w, 100) == Fail(PartialWrite)
  {
    b.StoreAtWritePosition(seq(50, _ => 9));
    b.AcknowledgeWrite(50);
    assert b.unflushed.end == 562;
    assert RoundUpToMultipleOfPowerOf2(562, 512) == 1024;
    var r := b.FlushToDisk();
    w := r.value;
    assert w.diskOffset == 8704 && w.length == 512;
    assert b.unflushed == Range(1024, 1024);
  }
}

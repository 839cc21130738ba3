/** The segment geometry of pipelined retrieval (retrieval/orchestrator_v2.go),
    computed from the manifest alone, and its agreement with the encoder. */
module Geometry {
  import opened Prelude
  import opened ReedSolomon
  import opened Erasure

  function FileShardSize(fileSize: nat, k: nat): nat
    requires k >= 1
  {
    CeilDiv(fileSize, k)
  }

  function TotalSegments(fileSize: nat, k: nat, blockSize: nat): nat
    requires k >= 1 && blockSize >= 1
  {
    CeilDiv(FileShardSize(fileSize, k), blockSize)
  }

  function Offset(blockSize: nat, seg: nat): nat { seg * blockSize }

  function Length(fileSize: nat, k: nat, blockSize: nat, seg: nat): int
    requires k >= 1
  {
    if Offset(blockSize, seg) + blockSize > FileShardSize(fileSize, k)
    then FileShardSize(fileSize, k) - Offset(blockSize, seg)
    else blockSize
  }

  function StripeLen(fileSize: nat, k: nat, blockSize: nat, seg: nat): int
    requires k >= 1
  {
    var stripeLen := Length(fileSize, k, blockSize, seg) * k;
    var maxWrite := fileSize - seg * blockSize * k;
    if stripeLen > maxWrite then maxWrite else stripeLen
  }

  /** The bytes of a file that segment `seg` carries. */
  function StripeAt(file: Bytes, size: nat, seg: nat): Bytes {
    Take(Drop(file, seg * size), size)
  }

  /** The first segment is the encoder's first read. */
  lemma FirstSegment(n: nat, k: nat, blockSize: nat)
    requires k >= 1 && blockSize >= 1 && n >= 1
    ensures TotalSegments(n, k, blockSize) >= 1
    ensures Length(n, k, blockSize, 0) == CeilDiv(Min(n, k * blockSize), k) >= 1
    ensures StripeLen(n, k, blockSize, 0) == Min(n, k * blockSize)
  {
    CeilDivBounds(n, k);
    CeilDivMultiple(k, blockSize);
    var p := CeilDiv(n, k);
    MulMonotone(k, 1, blockSize);
    if n >= k * blockSize {
      CeilDivMonotone(k * blockSize, n, k);
    } else {
      CeilDivMonotone(n, k * blockSize, k);
    }
    CeilDivMonotone(1, n, k);
    CeilDivUnique(1, k, 1);
    CeilDivMonotone(1, p, blockSize);
    CeilDivUnique(1, blockSize, 1);
  }

  /** Taking the first stripe off shifts every later segment down by one. */
  lemma ShiftSegment(n: nat, k: nat, blockSize: nat, seg: nat)
    requires k >= 1 && blockSize >= 1 && n >= k * blockSize && seg >= 1
    ensures FileShardSize(n, k) == blockSize + FileShardSize(n - k * blockSize, k)
    ensures TotalSegments(n, k, blockSize) == 1 + TotalSegments(n - k * blockSize, k, blockSize)
    ensures Offset(blockSize, seg) == blockSize + Offset(blockSize, seg - 1)
    ensures Length(n, k, blockSize, seg) == Length(n - k * blockSize, k, blockSize, seg - 1)
    ensures StripeLen(n, k, blockSize, seg) == StripeLen(n - k * blockSize, k, blockSize, seg - 1)
  {
    var n' := n - k * blockSize;
    CeilDivShift(n', k, blockSize);
    CeilDivShift(FileShardSize(n', k), blockSize, 1);
    MulStep(seg, blockSize);
    assert seg * blockSize * k == blockSize * k + (seg - 1) * blockSize * k;
  }

  /** A file no longer than one stripe has one segment. */
  lemma OneSegment(n: nat, k: nat, blockSize: nat)
    requires k >= 1 && blockSize >= 1 && 1 <= n <= k * blockSize
    ensures TotalSegments(n, k, blockSize) == 1 && FileShardSize(n, k) == Length(n, k, blockSize, 0) <= blockSize
  {
    CeilDivMultiple(k, blockSize);
    CeilDivMonotone(n, k * blockSize, k);
    CeilDivMonotone(1, n, k);
    CeilDivUnique(1, k, 1);
    CeilDivUnique(CeilDiv(n, k), blockSize, 1);
  }

  // ----- agreement with the encoder -----

  /** Every shard file has the length the retriever computes. */
  lemma {:induction false} ShardFileLength(c: Codec, file: Bytes, blockSize: nat, j: nat)
    requires c.Valid() && blockSize >= 1 && j < c.Total()
    ensures |ShardFile(c, file, blockSize, j)| == FileShardSize(|file|, c.k)
    decreases |file|
  {
    hide StripeBlocks;
    if file == [] {
      CeilDivUnique(0, c.k, 0);
    } else {
      var s := StripeSize(c, blockSize);
      StripeSizePositive(c, blockSize);
      StripeShape(c, Take(file, s));
      ShardFileLength(c, Drop(file, s), blockSize, j);
      if |file| >= s {
        ShiftSegment(|file|, c.k, blockSize, 1);
        CeilDivMultiple(c.k, blockSize);
      } else {
        CeilDivUnique(0, c.k, 0);
      }
    }
  }

  /** The retriever asks for as many segments as the encoder writes stripes. */
  lemma {:induction false} SegmentsAreStripes(n: nat, k: nat, blockSize: nat)
    requires k >= 1 && blockSize >= 1
    ensures k * blockSize >= 1
    ensures TotalSegments(n, k, blockSize) == StripeCount(n, k * blockSize)
    decreases n
  {
    MulMonotone(k, 1, blockSize);
    var s := k * blockSize;
    if n == 0 {
      CeilDivUnique(0, k, 0);
      CeilDivUnique(0, blockSize, 0);
    } else {
      SegmentsAreStripes(n - Min(n, s), k, blockSize);
      if n >= s {
        ShiftSegment(n, k, blockSize, 1);
      } else {
        OneSegment(n, k, blockSize);
      }
    }
  }

  /** Segments are non-empty, each starts where the one before ends, the first at 0 and the last ending at the shard size. */
  lemma {:induction false} SegmentsTile(n: nat, k: nat, blockSize: nat, seg: nat)
    requires k >= 1 && blockSize >= 1 && seg < TotalSegments(n, k, blockSize)
    ensures 1 <= Length(n, k, blockSize, seg) <= blockSize
    ensures Offset(blockSize, seg) + Length(n, k, blockSize, seg)
      == if seg + 1 < TotalSegments(n, k, blockSize) then Offset(blockSize, seg + 1) else FileShardSize(n, k)
    ensures 1 <= StripeLen(n, k, blockSize, seg) <= k * blockSize
    decreases seg
  {
    MulMonotone(k, 1, blockSize);
    if n == 0 {
      CeilDivUnique(0, k, 0);
      CeilDivUnique(0, blockSize, 0);
    } else if n <= k * blockSize {
      OneSegment(n, k, blockSize);
      FirstSegment(n, k, blockSize);
    } else if seg == 0 {
      FirstSegment(n, k, blockSize);
      ShiftSegment(n, k, blockSize, 1);
      FirstSegment(n - k * blockSize, k, blockSize);
    } else {
      ShiftSegment(n, k, blockSize, seg);
      ShiftSegment(n, k, blockSize, seg + 1);
      SegmentsTile(n - k * blockSize, k, blockSize, seg - 1);
    }
  }

  function SumStripeLens(n: nat, k: nat, blockSize: nat, segs: nat): int
    requires k >= 1
  {
    if segs == 0 then 0 else SumStripeLens(n, k, blockSize, segs - 1) + StripeLen(n, k, blockSize, segs - 1)
  }

  /** After any number of segments, min(fileSize, segs * k * blockSize) bytes are out; after the last one, all of them. */
  lemma {:induction false} StripeLensSum(n: nat, k: nat, blockSize: nat, segs: nat)
    requires k >= 1 && blockSize >= 1 && segs <= TotalSegments(n, k, blockSize)
    ensures SumStripeLens(n, k, blockSize, segs) == Min(n, segs * (k * blockSize))
    ensures segs == TotalSegments(n, k, blockSize) ==> SumStripeLens(n, k, blockSize, segs) == n
  {
    var s := k * blockSize;
    MulMonotone(k, 1, blockSize);
    CeilDivNested(n, k, blockSize);
    CeilDivBounds(n, s);
    assert segs == TotalSegments(n, k, blockSize) ==> segs * s == s * segs >= n;
    if segs > 0 {
      StripeLensSum(n, k, blockSize, segs - 1);
      StripeLenClosed(n, k, blockSize, segs - 1);
      MulStep(segs, s);
    }
  }

  lemma {:induction false} StripeLenClosed(n: nat, k: nat, blockSize: nat, seg: nat)
    requires k >= 1 && blockSize >= 1 && seg < TotalSegments(n, k, blockSize)
    ensures seg * (k * blockSize) < n
    ensures StripeLen(n, k, blockSize, seg) == Min(n - seg * (k * blockSize), k * blockSize)
    decreases seg
  {
    var s := k * blockSize;
    MulMonotone(k, 1, blockSize);
    if n == 0 {
      CeilDivUnique(0, k, 0);
      CeilDivUnique(0, blockSize, 0);
    } else if seg == 0 {
      FirstSegment(n, k, blockSize);
    } else {
      if n <= s { OneSegment(n, k, blockSize); }
      ShiftSegment(n, k, blockSize, seg);
      StripeLenClosed(n - s, k, blockSize, seg - 1);
      MulStep(seg, s);
    }
  }

  /** The bytes [offset, offset + length) of shard file j are its block of stripe `seg`,
      and the stripe has exactly the length the retriever cuts the decoded segment to. */
  ghost predicate IsBlockOf(c: Codec, file: Bytes, blockSize: nat, seg: nat, j: nat)
    requires c.Valid() && blockSize >= 1 && j < c.Total()
  {
    var o, l := Offset(blockSize, seg), Length(|file|, c.k, blockSize, seg);
    var stripe := StripeAt(file, StripeSize(c, blockSize), seg);
    && |stripe| == StripeLen(|file|, c.k, blockSize, seg) >= 1
    && |StripeBlocks(c, stripe)| == c.Total()
    && 1 <= l && o + l <= |ShardFile(c, file, blockSize, j)|
    && ShardFile(c, file, blockSize, j)[o..o + l] == StripeBlocks(c, stripe)[j] != []
  }

  lemma {:induction false} SegmentIsBlock(c: Codec, file: Bytes, blockSize: nat, seg: nat, j: nat)
    requires c.Valid() && blockSize >= 1 && j < c.Total() && seg < TotalSegments(|file|, c.k, blockSize)
    ensures IsBlockOf(c, file, blockSize, seg, j)
    decreases seg
  {
    hide StripeBlocks, IsBlockOf, ShardFile, Length, StripeLen;
    var n, s := |file|, StripeSize(c, blockSize);
    StripeSizePositive(c, blockSize);
    if n == 0 {
      CeilDivUnique(0, c.k, 0);
      CeilDivUnique(0, blockSize, 0);
    } else if seg == 0 {
      FirstBlockOf(c, file, blockSize, j);
    } else {
      if n <= s { OneSegment(n, c.k, blockSize); }
      ShiftSegment(n, c.k, blockSize, seg);
      SegmentIsBlock(c, Drop(file, s), blockSize, seg - 1, j);
      NextBlockOf(c, file, blockSize, seg, j);
    }
  }

  lemma FirstBlockOf(c: Codec, file: Bytes, blockSize: nat, j: nat)
    requires c.Valid() && blockSize >= 1 && j < c.Total() && file != []
    ensures IsBlockOf(c, file, blockSize, 0, j)
  {
    hide StripeBlocks, ShardFile, Length, StripeLen;
    var s := StripeSize(c, blockSize);
    FirstSegment(|file|, c.k, blockSize);
    FirstBlock(c, file, blockSize, j);
    StripeShape(c, Take(file, s));
    assert StripeAt(file, s, 0) == Take(file, s);
  }

  lemma NextBlockOf(c: Codec, file: Bytes, blockSize: nat, seg: nat, j: nat)
    requires c.Valid() && blockSize >= 1 && j < c.Total() && seg >= 1 && |file| > StripeSize(c, blockSize)
    requires IsBlockOf(c, Drop(file, StripeSize(c, blockSize)), blockSize, seg - 1, j)
    ensures IsBlockOf(c, file, blockSize, seg, j)
  {
    hide StripeBlocks, ShardFile, Length, StripeLen, Offset, StripeAt;
    ShiftSegment(|file|, c.k, blockSize, seg);
    StripeShift(file, StripeSize(c, blockSize), seg);
    FirstBlock(c, file, blockSize, j);
    var shard, o', l := ShardFile(c, file, blockSize, j), Offset(blockSize, seg - 1), Length(|file|, c.k, blockSize, seg);
    DropSlice(shard, blockSize, o', l);
  }

  lemma DropSlice(s: Bytes, n: nat, o: nat, l: nat)
    requires l >= 1 && o + l <= |Drop(s, n)|
    ensures n + o + l <= |s| && s[n + o..n + o + l] == Drop(s, n)[o..o + l]
  {
  }

  lemma StripeShift(file: Bytes, s: nat, seg: nat)
    requires seg >= 1
    ensures StripeAt(file, s, seg) == StripeAt(Drop(file, s), s, seg - 1)
  {
    MulStep(seg, s);
    assert Drop(file, seg * s) == Drop(Drop(file, s), (seg - 1) * s);
  }

  // ----- machine integers -----

  lemma CeilDivAtMost(n: nat, k: nat)
    requires k >= 1
    ensures CeilDiv(n, k) <= n
  {
    CeilDivBounds(n, k);
    var p := CeilDiv(n, k);
    if p > n {
      MulMonotone(k, n + 1, p);
      MulMonotone(n, 1, k);
    }
  }

  /** Every sum and product of the segment geometry stays below 2^63. */
  ghost predicate Fits(n: nat, k: nat, blockSize: nat)
    requires k >= 1 && blockSize >= 1
  {
    && n + k - 1 <= I64_MAX && FileShardSize(n, k) + blockSize - 1 <= I64_MAX
    && forall seg: nat {:trigger Length(n, k, blockSize, seg)} :: seg < TotalSegments(n, k, blockSize) ==>
         (Offset(blockSize, seg) + blockSize <= I64_MAX && Length(n, k, blockSize, seg) * k <= I64_MAX && seg * blockSize * k <= I64_MAX)
  }

  /** Within the manifest's limits the geometry fits 64 bits exactly when the file size leaves room for the
      rounding: k - 1 bytes, or one block less a byte when there is a single data shard. */
  lemma GeometryFitsInt64(n: nat, k: nat, blockSize: nat)
    requires 1 <= k <= 255 && 1 <= blockSize <= MAX_BLOCK_SIZE && n <= I64_MAX
    ensures Fits(n, k, blockSize) <==> n + (if k == 1 then blockSize - 1 else k - 1) <= I64_MAX
  {
    if k == 1 { CeilDivUnique(n, 1, n); }
    if n + (if k == 1 then blockSize - 1 else k - 1) <= I64_MAX {
      ShardSizeFits(n, k, blockSize);
      forall seg: nat | seg < TotalSegments(n, k, blockSize)
        ensures Offset(blockSize, seg) + blockSize <= I64_MAX && Length(n, k, blockSize, seg) * k <= I64_MAX && seg * blockSize * k <= I64_MAX
      {
        SegmentFits(n, k, blockSize, seg);
      }
    }
  }

  lemma ShardSizeFits(n: nat, k: nat, blockSize: nat)
    requires 1 <= k <= 255 && 1 <= blockSize <= MAX_BLOCK_SIZE && n <= I64_MAX
    requires n + (if k == 1 then blockSize - 1 else k - 1) <= I64_MAX
    ensures FileShardSize(n, k) + blockSize - 1 <= I64_MAX
  {
    CeilDivBounds(n, k);
    var c := CeilDiv(n, k);
    if k == 1 {
      CeilDivUnique(n, 1, n);
    } else if c >= 1 {
      assert k * c - k == (c - 1) * k;
      MulMonotone(c - 1, 2, k);
    }
  }

  lemma SegmentFits(n: nat, k: nat, blockSize: nat, seg: nat)
    requires 1 <= k <= 255 && 1 <= blockSize <= MAX_BLOCK_SIZE && n <= I64_MAX && seg < TotalSegments(n, k, blockSize)
    requires FileShardSize(n, k) + blockSize - 1 <= I64_MAX
    ensures Offset(blockSize, seg) + blockSize <= I64_MAX && Length(n, k, blockSize, seg) * k <= I64_MAX && seg * blockSize * k <= I64_MAX
  {
    SegmentsTile(n, k, blockSize, seg);
    StripeLenClosed(n, k, blockSize, seg);
    ProductOrder(seg, blockSize, k);
    ProductBound(Length(n, k, blockSize, seg), k);
  }

  lemma ProductOrder(x: nat, y: nat, z: nat)
    ensures x * y * z == x * (z * y) >= 0
  {
  }

  lemma ProductBound(l: int, k: nat)
    requires 0 <= l <= MAX_BLOCK_SIZE && k <= 255
    ensures 0 <= l * k <= I64_MAX
  {
    MulMonotone(k, l, MAX_BLOCK_SIZE);
    MulMonotone(k, 0, l);
  }
}

/** Pipelined retrieval decodes every segment from its own set of chunks
    (retrieval/orchestrator_v2.go); together they give what batch decoding gives. */
module Streaming {
  import opened Prelude
  import opened ReedSolomon
  import opened Erasure
  import opened Geometry

  /** The chunk of shard j that is fetched for a segment. */
  ghost function Chunk(c: Codec, file: Bytes, blockSize: nat, seg: nat, j: nat): Bytes
    requires c.Valid() && blockSize >= 1 && j < c.Total() && seg < TotalSegments(|file|, c.k, blockSize)
  {
    SegmentIsBlock(c, file, blockSize, seg, j);
    var o, l := Offset(blockSize, seg), Length(|file|, c.k, blockSize, seg);
    ShardFile(c, file, blockSize, j)[o..o + l]
  }

  /** Chunks of a segment, at least k of them, from whichever shards answered. */
  ghost predicate Fetched(c: Codec, file: Bytes, blockSize: nat, seg: nat, slots: seq<Bytes>)
    requires c.Valid() && blockSize >= 1 && seg < TotalSegments(|file|, c.k, blockSize)
  {
    && |slots| == c.Total()
    && (forall j :: 0 <= j < c.Total() ==> slots[j] == [] || slots[j] == Chunk(c, file, blockSize, seg, j))
    && |Present(slots)| >= c.k
  }

  /** When every shard answers, the chunks are enough: no chunk of any segment is empty. */
  lemma AllAnswer(c: Codec, file: Bytes, blockSize: nat, seg: nat)
    requires c.Valid() && blockSize >= 1 && seg < TotalSegments(|file|, c.k, blockSize)
    ensures Fetched(c, file, blockSize, seg, seq(c.Total(), j requires 0 <= j < c.Total() => Chunk(c, file, blockSize, seg, j)))
  {
    hide StripeBlocks, ShardFile, Chunk, TotalSegments;
    var slots := seq(c.Total(), j requires 0 <= j < c.Total() => Chunk(c, file, blockSize, seg, j));
    forall j: nat | j < c.Total() ensures slots[j] != [] { ChunkNotEmpty(c, file, blockSize, seg, j); }
    AllPresent(slots);
  }

  lemma ChunkNotEmpty(c: Codec, file: Bytes, blockSize: nat, seg: nat, j: nat)
    requires c.Valid() && blockSize >= 1 && j < c.Total() && seg < TotalSegments(|file|, c.k, blockSize)
    ensures Chunk(c, file, blockSize, seg, j) != []
  {
    SegmentIsBlock(c, file, blockSize, seg, j);
  }

  /** What the decoding step of a segment hands to the writer. */
  function DecodedSegment(c: Codec, fileSize: nat, blockSize: nat, seg: nat, slots: seq<Bytes>): Result<Bytes, Error>
    requires c.k >= 1
  {
    var n := StripeLen(fileSize, c.k, blockSize, seg);
    if n < 0 then Err(ShortData) else SegmentData(c, slots, n)
  }

  /** Any k chunks of a segment decode to the bytes of that segment. */
  lemma SegmentDecodes(c: Codec, file: Bytes, blockSize: nat, seg: nat, slots: seq<Bytes>)
    requires c.Valid() && blockSize >= 1 && seg < TotalSegments(|file|, c.k, blockSize)
    requires Fetched(c, file, blockSize, seg, slots)
    ensures DecodedSegment(c, |file|, blockSize, seg, slots) == Ok(StripeAt(file, StripeSize(c, blockSize), seg))
  {
    hide SegmentData, Segment, StripeBlocks, StripeAt, StripeLen, ShardFile, Length, Offset;
    var stripe := StripeAt(file, StripeSize(c, blockSize), seg);
    SegmentIsBlock(c, file, blockSize, seg, 0);
    forall j: nat | j < c.Total() ensures slots[j] == [] || slots[j] == StripeBlocks(c, stripe)[j] {
      SegmentIsBlock(c, file, blockSize, seg, j);
    }
    SegmentRoundTrip(c, stripe, slots);
  }

  /** The decoded segments 0 .. segs - 1 one after the other. */
  function Streamed(c: Codec, fileSize: nat, blockSize: nat, chunks: seq<seq<Bytes>>, segs: nat): Result<Bytes, Error>
    requires c.k >= 1 && segs <= |chunks|
  {
    if segs == 0 then Ok([])
    else match Streamed(c, fileSize, blockSize, chunks, segs - 1)
      case Err(e) => Err(e)
      case Ok(bytes) => Prefixed(bytes, DecodedSegment(c, fileSize, blockSize, segs - 1, chunks[segs - 1]))
  }

  /** The first `segs` stripes of a file. */
  function StripesBelow(file: Bytes, size: nat, segs: nat): Bytes {
    Take(file, segs * size)
  }

  lemma NextStripe(file: Bytes, size: nat, seg: nat)
    ensures StripesBelow(file, size, seg + 1) == StripesBelow(file, size, seg) + StripeAt(file, size, seg)
  {
    MulStep(seg + 1, size);
  }

  lemma {:induction false} StreamedIsPrefix(c: Codec, file: Bytes, blockSize: nat, chunks: seq<seq<Bytes>>, segs: nat)
    requires c.Valid() && blockSize >= 1 && segs <= |chunks| == TotalSegments(|file|, c.k, blockSize)
    requires forall i: nat :: i < |chunks| ==> Fetched(c, file, blockSize, i, chunks[i])
    ensures Streamed(c, |file|, blockSize, chunks, segs) == Ok(StripesBelow(file, StripeSize(c, blockSize), segs))
  {
    hide DecodedSegment, StripeAt, Fetched;
    if segs > 0 {
      StreamedIsPrefix(c, file, blockSize, chunks, segs - 1);
      SegmentDecodes(c, file, blockSize, segs - 1, chunks[segs - 1]);
      NextStripe(file, StripeSize(c, blockSize), segs - 1);
    }
  }

  lemma AllStripes(c: Codec, file: Bytes, blockSize: nat)
    requires c.k >= 1 && blockSize >= 1
    ensures StripesBelow(file, StripeSize(c, blockSize), TotalSegments(|file|, c.k, blockSize)) == file
  {
    StripeSizePositive(c, blockSize);
    CeilDivNested(|file|, c.k, blockSize);
    CeilDivBounds(|file|, StripeSize(c, blockSize));
  }

  /** Streaming and batch agree: whichever k or more chunks each segment was decoded from, the
      segments add up to what ReconstructFile makes of any k or more whole shard files. */
  lemma StreamingIsBatch(c: Codec, file: Bytes, blockSize: nat, chunks: seq<seq<Bytes>>, present: map<int, Bytes>)
    requires c.Valid() && blockSize >= 1 && |chunks| == TotalSegments(|file|, c.k, blockSize)
    requires forall i: nat :: i < |chunks| ==> Fetched(c, file, blockSize, i, chunks[i])
    requires forall i: nat :: i in present && i < c.Total() ==> present[i] == ShardFile(c, file, blockSize, i)
    requires |Surviving(c, present)| >= c.k
    ensures Streamed(c, |file|, blockSize, chunks, |chunks|)
      == Decoded(c, Opened(c, present), blockSize, |file|) == Ok(file)
  {
    hide Fetched;
    StreamedIsPrefix(c, file, blockSize, chunks, |chunks|);
    AllStripes(c, file, blockSize);
    RoundTrip(c, file, blockSize, present);
  }
}

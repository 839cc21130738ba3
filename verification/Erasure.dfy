/** Striping of a file over k + m shard files and back (erasure/erasure.go). */
module Erasure {
  import opened Prelude
  import opened ReedSolomon

  // ----- what the shard files are -----

  /** All blocks of one stripe. */
  function StripeBlocks(c: Codec, stripe: Bytes): seq<Bytes>
    requires c.k >= 1
  {
    c.Codeword(SplitBlocks(stripe, c.k))
  }

  lemma StripeShape(c: Codec, stripe: Bytes)
    requires c.Valid() && stripe != []
    ensures IsData(SplitBlocks(stripe, c.k), c.k)
    ensures |StripeBlocks(c, stripe)| == c.Total() && CeilDiv(|stripe|, c.k) >= 1
    ensures forall j :: 0 <= j < c.Total() ==> |StripeBlocks(c, stripe)[j]| == CeilDiv(|stripe|, c.k)
  {
    SplitIsData(stripe, c.k);
    CodewordShape(c, SplitBlocks(stripe, c.k));
  }

  /** Bytes of file data in one full stripe. */
  function StripeSize(c: Codec, blockSize: nat): nat { c.k * blockSize }

  lemma StripeSizePositive(c: Codec, blockSize: nat)
    requires c.k >= 1 && blockSize >= 1
    ensures StripeSize(c, blockSize) >= blockSize
  {
    MulMonotone(blockSize, 1, c.k);
  }

  /** Shard file j of a file: its block of every stripe, in stripe order. */
  ghost function ShardFile(c: Codec, file: Bytes, blockSize: nat, j: nat): Bytes
    requires c.Valid() && blockSize >= 1 && j < c.Total()
    decreases |file|
  {
    if file == [] then []
    else
      StripeSizePositive(c, blockSize);
      var s := StripeSize(c, blockSize);
      StripeShape(c, Take(file, s));
      StripeBlocks(c, Take(file, s))[j] + ShardFile(c, Drop(file, s), blockSize, j)
  }

  /** A full read of one block returns the block of the first stripe, even when it
      is the short padded one, and leaves the shard file of the other stripes. */
  lemma FirstBlock(c: Codec, file: Bytes, blockSize: nat, j: nat)
    requires c.Valid() && blockSize >= 1 && j < c.Total() && file != []
    ensures var s := StripeSize(c, blockSize);
      && s >= 1
      && |StripeBlocks(c, Take(file, s))| == c.Total()
      && StripeBlocks(c, Take(file, s))[j] != []
      && Take(ShardFile(c, file, blockSize, j), blockSize) == StripeBlocks(c, Take(file, s))[j]
      && Drop(ShardFile(c, file, blockSize, j), blockSize) == ShardFile(c, Drop(file, s), blockSize, j)
  {
    StripeSizePositive(c, blockSize);
    var s := StripeSize(c, blockSize);
    StripeShape(c, Take(file, s));
    CeilDivMultiple(c.k, blockSize);
    CeilDivMonotone(|Take(file, s)|, s, c.k);
  }

  // ----- encoding -----

  /** Appends to every shard file its block of the stripe. */
  method WriteBlocks(writers: seq<Bytes>, shards: seq<Bytes>) returns (w: seq<Bytes>)
    requires |writers| == |shards|
    ensures |w| == |writers| && forall j :: 0 <= j < |w| ==> w[j] == writers[j] + shards[j]
  {
    w := writers;
    for i := 0 to |shards|
      invariant |w| == |writers|
      invariant forall j :: 0 <= j < |w| ==> w[j] == if j < i then writers[j] + shards[j] else writers[j]
    {
      w := w[i := w[i] + shards[i]];
    }
  }

  /** How many stripes a file of n bytes has. */
  function StripeCount(n: nat, size: nat): nat
    requires size >= 1
    decreases n
  {
    if n == 0 then 0 else 1 + StripeCount(n - Min(n, size), size)
  }

  /** What is written, followed by the shard files of the unread rest, is the shard files of the whole. */
  ghost predicate Progress(c: Codec, writers: seq<Bytes>, rest: Bytes, file: Bytes, blockSize: nat)
    requires c.Valid() && blockSize >= 1
  {
    && |writers| == c.Total()
    && forall j :: 0 <= j < c.Total() ==>
         writers[j] + ShardFile(c, rest, blockSize, j) == ShardFile(c, file, blockSize, j)
  }

  lemma ProgressStep(c: Codec, writers: seq<Bytes>, written: seq<Bytes>, rest: Bytes, file: Bytes, blockSize: nat)
    requires c.Valid() && blockSize >= 1 && rest != [] && Progress(c, writers, rest, file, blockSize)
    requires var s := StripeSize(c, blockSize);
      s >= 1 && |written| == |writers| == |StripeBlocks(c, Take(rest, s))|
      && forall j :: 0 <= j < |written| ==> written[j] == writers[j] + StripeBlocks(c, Take(rest, s))[j]
    ensures Progress(c, written, Drop(rest, StripeSize(c, blockSize)), file, blockSize)
  {
    hide StripeBlocks;
    var s := StripeSize(c, blockSize);
    forall j | 0 <= j < c.Total()
      ensures written[j] + ShardFile(c, Drop(rest, s), blockSize, j) == ShardFile(c, file, blockSize, j)
    {
      assert writers[j] + ShardFile(c, rest, blockSize, j) == ShardFile(c, file, blockSize, j);
    }
  }

  method EncodeFile(c: Codec, file: Bytes, blockSize: nat) returns (r: Result<seq<Bytes>, Error>, ghost stripes: nat)
    requires c.Valid()
    ensures blockSize == 0 ==> r == Err(ShortData)
    ensures blockSize >= 1 ==> r.Ok? && |r.value| == c.Total()
    ensures blockSize >= 1 ==> forall j :: 0 <= j < c.Total() ==> r.value[j] == ShardFile(c, file, blockSize, j)
    ensures blockSize >= 1 ==> StripeSize(c, blockSize) >= 1 && stripes == StripeCount(|file|, StripeSize(c, blockSize))
  {
    stripes := 0;
    var writers := seq(c.Total(), _ => []);
    var bufLen := c.k * blockSize;
    var rest := file;
    if blockSize >= 1 { StripeSizePositive(c, blockSize); }
    while true
      invariant |writers| == c.Total()
      invariant blockSize == 0 ==> bufLen == 0
      invariant blockSize >= 1 ==> bufLen == StripeSize(c, blockSize) || (bufLen >= 1 && rest == [])
      invariant blockSize >= 1 ==> Progress(c, writers, rest, file, blockSize)
      invariant blockSize >= 1 ==> StripeSize(c, blockSize) >= 1
      invariant blockSize >= 1 ==> stripes + StripeCount(|rest|, StripeSize(c, blockSize)) == StripeCount(|file|, StripeSize(c, blockSize))
      decreases |rest|
    {
      var n := Min(bufLen, |rest|);
      if n == 0 && bufLen > 0 {
        break;  // end of file
      }
      if n < bufLen {
        bufLen := n;  // short read: the buffer is cut to what was read
      }
      var buf := rest[..n];
      ghost var before := rest;
      rest := rest[n..];
      match Split(buf, c.k) {
        case Err(e) =>
          return Err(e), stripes;
        case Ok(data) =>
          StripeShape(c, buf);
          var shards := c.Codeword(data);
          assert shards == StripeBlocks(c, buf);
          assert buf == Take(before, StripeSize(c, blockSize)) && rest == Drop(before, StripeSize(c, blockSize));
          var written := WriteBlocks(writers, shards);
          ProgressStep(c, writers, written, before, file, blockSize);
          writers := written;
          stripes := stripes + 1;
          // The source now tests n < len(buf); the buffer was cut to n, so only end of file leaves the loop.
          assert n == bufLen;
      }
    }
    return Ok(writers), stripes;
  }

  // ----- one segment from memory -----

  /** Fills all missing blocks of a stripe and writes `size` bytes of its data blocks. */
  function Segment(c: Codec, slots: seq<Bytes>, size: nat): Result<Bytes, Error> {
    match Reconstruct(c, slots)
    case Err(e) => Err(e)
    case Ok(blocks) => Join(blocks, c.k, size)
  }

  /** The same, but parity blocks that are missing stay missing. */
  function SegmentData(c: Codec, slots: seq<Bytes>, size: nat): Result<Bytes, Error> {
    match ReconstructData(c, slots)
    case Err(e) => Err(e)
    case Ok(blocks) => Join(blocks, c.k, size)
  }

  /** Any k blocks of a stripe give back the bytes of the stripe. */
  lemma StripeRoundTrip(c: Codec, stripe: Bytes, slots: seq<Bytes>, wanted: seq<bool>)
    requires c.Valid() && stripe != [] && |slots| == |wanted| == c.Total()
    requires Erased(slots, StripeBlocks(c, stripe), c.k)
    requires forall i :: 0 <= i < c.k ==> wanted[i]
    ensures var r := ReconstructSome(c, slots, wanted);
      r.Ok? && Join(r.value, c.k, |stripe|) == Ok(stripe)
  {
    StripeShape(c, stripe);
    var data := SplitBlocks(stripe, c.k);
    ReconstructErased(c, data, slots, wanted);
    var blocks := ReconstructSome(c, slots, wanted).value;
    assert blocks[..c.k] == data;
    assert blocks == data + blocks[c.k..];
    JoinSplit(stripe, c.k, blocks[c.k..]);
  }

  /** Skipping the parity blocks changes nothing: both segment decoders return the stripe from any k of its blocks. */
  lemma SegmentRoundTrip(c: Codec, stripe: Bytes, slots: seq<Bytes>)
    requires c.Valid() && stripe != [] && |slots| == c.Total()
    requires Erased(slots, StripeBlocks(c, stripe), c.k)
    ensures SegmentData(c, slots, |stripe|) == Ok(stripe)
    ensures Segment(c, slots, |stripe|) == Ok(stripe)
  {
    StripeRoundTrip(c, stripe, slots, seq(|slots|, i => i < c.k));
    StripeRoundTrip(c, stripe, slots, seq(|slots|, _ => true));
  }

  // ----- decoding -----

  function Heads(cursors: seq<Bytes>, blockSize: nat): (h: seq<Bytes>)
    ensures |h| == |cursors|
  {
    seq(|cursors|, i requires 0 <= i < |cursors| => Take(cursors[i], blockSize))
  }

  function Tails(cursors: seq<Bytes>, blockSize: nat): (t: seq<Bytes>)
    ensures |t| == |cursors|
  {
    seq(|cursors|, i requires 0 <= i < |cursors| => Drop(cursors[i], blockSize))
  }

  function Prefixed(head: Bytes, tail: Result<Bytes, Error>): Result<Bytes, Error> {
    match tail case Ok(bytes) => Ok(head + bytes) case Err(e) => Err(e)
  }

  lemma PrefixedTwice(a: Bytes, b: Bytes, r: Result<Bytes, Error>)
    ensures Prefixed(a, Prefixed(b, r)) == Prefixed(a + b, r)
    ensures Prefixed([], r) == r && Prefixed(a, Ok([])) == Ok(a)
  {
    if r.Ok? {
      assert a + (b + r.value) == (a + b) + r.value;
      assert [] + r.value == r.value;
    }
    assert a + [] == a;
  }

  /** The bytes written while `remaining` bytes are decoded from the unread parts of the shard files. */
  ghost function Decoded(c: Codec, cursors: seq<Bytes>, blockSize: nat, remaining: int): Result<Bytes, Error>
    requires c.k >= 1
    decreases if remaining > 0 then remaining else 0
  {
    if remaining <= 0 then Ok([])
    else if blockSize == 0 then Err(NoShardData)
    else
      StripeSizePositive(c, blockSize);
      var n := Min(remaining, StripeSize(c, blockSize));
      match Segment(c, Heads(cursors, blockSize), n)
      case Err(e) => Err(e)
      case Ok(bytes) => Prefixed(bytes, Decoded(c, Tails(cursors, blockSize), blockSize, remaining - n))
  }

  /** Contents of the k + m shard files; a shard that is not in `present` reads as empty, which the library takes as missing. */
  function Opened(c: Codec, present: map<int, Bytes>): (cursors: seq<Bytes>)
    ensures |cursors| == c.Total()
  {
    seq(c.Total(), i requires 0 <= i < c.Total() => if i in present then present[i] else [])
  }

  lemma {:induction false} NoShardSize(slots: seq<Bytes>)
    requires forall i :: 0 <= i < |slots| ==> slots[i] == []
    ensures ShardSize(slots) == 0
  {
    if slots != [] { NoShardSize(slots[1..]); }
  }

  lemma NothingRead(c: Codec, slots: seq<Bytes>, size: nat)
    requires |slots| == c.Total() && forall i :: 0 <= i < |slots| ==> slots[i] == []
    ensures Segment(c, slots, size) == Err(NoShardData)
  {
    NoShardSize(slots);
  }

  /** One full read of up to n bytes from every shard file. */
  method ReadBlocks(files: seq<Bytes>, n: nat) returns (shards: seq<Bytes>, unread: seq<Bytes>)
    ensures shards == Heads(files, n) && unread == Tails(files, n)
  {
    shards, unread := [], [];
    for i := 0 to |files|
      invariant shards == Heads(files, n)[..i] && unread == Tails(files, n)[..i]
    {
      shards := shards + [Take(files[i], n)];
      unread := unread + [Drop(files[i], n)];
    }
  }

  method ReconstructFile(c: Codec, present: map<int, Bytes>, blockSize: nat, origSize: int)
    returns (r: Result<Bytes, Error>)
    requires c.Valid()
    ensures r == Decoded(c, Opened(c, present), blockSize, origSize)
  {
    hide Segment;
    var files := Opened(c, present);
    var out: Bytes := [];
    var remaining := origSize;
    if blockSize >= 1 { StripeSizePositive(c, blockSize); }
    PrefixedTwice([], [], Decoded(c, files, blockSize, remaining));
    while remaining > 0
      invariant |files| == c.Total()
      invariant Decoded(c, Opened(c, present), blockSize, origSize) == Prefixed(out, Decoded(c, files, blockSize, remaining))
      decreases remaining
    {
      var stripeLen := c.k * blockSize;
      if remaining < stripeLen {
        stripeLen := remaining;
      }
      var shards, unread := ReadBlocks(files, blockSize);
      if blockSize == 0 { NothingRead(c, shards, stripeLen); }
      match Segment(c, shards, stripeLen) {
        case Err(e) => return Err(e);
        case Ok(bytes) =>
          PrefixedTwice(out, bytes, Decoded(c, unread, blockSize, remaining - stripeLen));
          files := unread;
          out := out + bytes;
          remaining := remaining - stripeLen;
      }
    }
    PrefixedTwice(out, [], Ok([]));
    return Ok(out);
  }

  /** Whatever the shard files hold, decoding that works writes exactly as many bytes as the file had. */
  lemma {:induction false} DecodedLength(c: Codec, cursors: seq<Bytes>, blockSize: nat, remaining: nat)
    requires c.k >= 1 && Decoded(c, cursors, blockSize, remaining).Ok?
    ensures |Decoded(c, cursors, blockSize, remaining).value| == remaining
    decreases remaining
  {
    hide Reconstruct, Join;
    if remaining > 0 {
      StripeSizePositive(c, blockSize);
      var n := Min(remaining, StripeSize(c, blockSize));
      JoinExactly(Reconstruct(c, Heads(cursors, blockSize)).value, c.k, n);
      DecodedLength(c, Tails(cursors, blockSize), blockSize, remaining - n);
    }
  }

  /** Every cursor holds the rest of its shard file, or nothing. */
  ghost predicate Honest(c: Codec, cursors: seq<Bytes>, file: Bytes, blockSize: nat)
    requires c.Valid() && blockSize >= 1
  {
    && |cursors| == c.Total()
    && forall i :: 0 <= i < c.Total() ==> cursors[i] == [] || cursors[i] == ShardFile(c, file, blockSize, i)
  }

  lemma HonestStep(c: Codec, cursors: seq<Bytes>, file: Bytes, blockSize: nat)
    requires c.Valid() && blockSize >= 1 && file != [] && Honest(c, cursors, file, blockSize)
    ensures var s := StripeSize(c, blockSize);
      && s >= 1
      && Honest(c, Tails(cursors, blockSize), Drop(file, s), blockSize)
      && Present(Heads(cursors, blockSize)) == Present(cursors)
      && (Drop(file, s) != [] ==> Present(Tails(cursors, blockSize)) == Present(cursors))
      && Agree(Heads(cursors, blockSize), StripeBlocks(c, Take(file, s)))
  {
    var s := StripeSize(c, blockSize);
    StripeSizePositive(c, blockSize);
    StripeShape(c, Take(file, s));
    forall i | 0 <= i < c.Total()
      ensures Tails(cursors, blockSize)[i] == [] || Tails(cursors, blockSize)[i] == ShardFile(c, Drop(file, s), blockSize, i)
      ensures Heads(cursors, blockSize)[i] == [] || Heads(cursors, blockSize)[i] == StripeBlocks(c, Take(file, s))[i]
      ensures Heads(cursors, blockSize)[i] == [] <==> cursors[i] == []
      ensures Drop(file, s) != [] ==> (Tails(cursors, blockSize)[i] == [] <==> cursors[i] == [])
    {
      FirstBlock(c, file, blockSize, i);
      if Drop(file, s) != [] { FirstBlock(c, Drop(file, s), blockSize, i); }
    }
  }

  lemma {:induction false} DecodeHonest(c: Codec, cursors: seq<Bytes>, file: Bytes, blockSize: nat)
    requires c.Valid() && blockSize >= 1 && Honest(c, cursors, file, blockSize)
    requires file == [] || |Present(cursors)| >= c.k
    ensures Decoded(c, cursors, blockSize, |file|) == Ok(file)
    decreases |file|
  {
    hide Segment, SegmentData, StripeBlocks;
    if file != [] {
      HonestStep(c, cursors, file, blockSize);
      var s := StripeSize(c, blockSize);
      var slots := Heads(cursors, blockSize);
      SegmentRoundTrip(c, Take(file, s), slots);
      DecodeHonest(c, Tails(cursors, blockSize), Drop(file, s), blockSize);
      assert Take(file, s) + Drop(file, s) == file;
    }
  }

  lemma AllPresent(slots: seq<Bytes>)
    requires forall i: nat :: i < |slots| ==> slots[i] != []
    ensures |Present(slots)| == |slots|
  {
    assert Present(slots) == Range(|slots|);
  }

  lemma DecodeTooFew(c: Codec, cursors: seq<Bytes>, file: Bytes, blockSize: nat)
    requires c.Valid() && blockSize >= 1 && Honest(c, cursors, file, blockSize)
    requires file != [] && |Present(cursors)| < c.k
    ensures Decoded(c, cursors, blockSize, |file|).Err?
  {
    HonestStep(c, cursors, file, blockSize);
    var slots := Heads(cursors, blockSize);
    if forall i: nat :: i < |slots| ==> slots[i] != [] {
      AllPresent(slots);
    } else {
      var i: nat :| i < |slots| && slots[i] == [];
      TooFewRefused(c, slots, seq(|slots|, _ => true), i);
    }
  }

  /** The surviving shard files that the decoder looks at. */
  function Surviving(c: Codec, present: map<int, Bytes>): set<nat> {
    set i: nat | i < c.Total() && i in present
  }

  /** Decoding any k intact shard files gives back the file, whatever its size;
      with fewer than k of them the decoder reports an error, unless the file is empty. */
  lemma RoundTrip(c: Codec, file: Bytes, blockSize: nat, present: map<int, Bytes>)
    requires c.Valid() && blockSize >= 1
    requires forall i: nat :: i in present && i < c.Total() ==> present[i] == ShardFile(c, file, blockSize, i)
    ensures var r := Decoded(c, Opened(c, present), blockSize, |file|);
      if file == [] || |Surviving(c, present)| >= c.k then r == Ok(file) else r.Err?
  {
    var cursors := Opened(c, present);
    if file == [] {
      DecodeHonest(c, cursors, file, blockSize);
    } else {
      forall i: nat | i < c.Total() ensures cursors[i] != [] <==> i in present {
        FirstBlock(c, file, blockSize, i);
      }
      assert Surviving(c, present) == Present(cursors);
      if |Present(cursors)| >= c.k {
        DecodeHonest(c, cursors, file, blockSize);
      } else {
        DecodeTooFew(c, cursors, file, blockSize);
      }
    }
  }

  /** The two methods composed: what EncodeFile writes, ReconstructFile reads back from any k of the files. */
  method EncodeThenReconstruct(c: Codec, file: Bytes, blockSize: nat, kept: set<nat>)
    returns (r: Result<Bytes, Error>)
    requires c.Valid() && blockSize >= 1
    requires (forall i :: i in kept ==> i < c.Total()) && |kept| >= c.k
    ensures r == Ok(file)
  {
    var shards, _ := EncodeFile(c, file, blockSize);
    var present := map i: int | i in kept :: shards.value[i];
    r := ReconstructFile(c, present, blockSize, |file|);
    assert Surviving(c, present) == kept;
    RoundTrip(c, file, blockSize, present);
  }

}

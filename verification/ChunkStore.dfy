/** A node's ranged shard store: version 2 push and storage handlers (node/node.go) and the
    client's acceptance test for a chunk response (retrieval/orchestrator_v2.go). */
module ChunkStore {
  import opened Prelude
  import opened FileId

  const MAX_SHARD_INDEX: int := 255

  type Key = (string, int)

  predicate ValidShardRequest(fileId: string, shard: int) {
    ValidFileId(fileId) && 0 <= shard <= MAX_SHARD_INDEX
  }

  // ----- pushing -----

  datatype PushRequest = PushRequest(fileId: string, shard: int, offset: int, length: int, totalShardSize: int)

  datatype PushResponse = Rejected | NotOpened | Received(bytes: nat, complete: bool, advertised: bool)

  predicate ValidPush(r: PushRequest) {
    && ValidShardRequest(r.fileId, r.shard) && r.offset >= 0 && r.length > 0
    && 0 < r.totalShardSize <= MAX_SHARD_SIZE && r.offset <= r.totalShardSize && r.length <= r.totalShardSize - r.offset
  }

  /** A file after a push: offset 0 starts it over, every other offset writes into what is there. */
  function AfterPush(content: Bytes, offset: nat, data: Bytes): Bytes {
    WriteAt(if offset == 0 then [] else content, offset, data)
  }

  function ContentOf(files: map<Key, Bytes>, key: Key): Bytes {
    if key in files then files[key] else []
  }

  // ----- reading -----

  datatype ReadRequest = ReadRequest(fileId: string, shard: int, offset: int, length: int)

  datatype ReadResponse =
    | Error
    | Chunk(fileId: string, shard: int, offset: int, length: int, totalShardSize: int, data: Bytes)

  /** The version 2 storage handler: length 0 or too long means up to the end of the shard. */
  function Served(files: map<Key, Bytes>, r: ReadRequest): ReadResponse {
    if !ValidShardRequest(r.fileId, r.shard) || r.offset < 0 || r.length < 0 then Error
    else if (r.fileId, r.shard) !in files then Error
    else
      var content := files[(r.fileId, r.shard)];
      if r.offset > |content| then Error
      else
        var length := if r.length == 0 || r.length > |content| - r.offset then |content| - r.offset else r.length;
        Chunk(r.fileId, r.shard, r.offset, length, |content|, content[r.offset..r.offset + length])
  }

  /** Two's complement wrap-around of a 64-bit sum. */
  function Wrap64(x: int): int {
    (x + I64_MAX + 1) % (2 * (I64_MAX + 1)) - (I64_MAX + 1)
  }

  predicate ValidChunkRequest(r: ReadRequest) {
    0 < r.length <= MAX_BLOCK_SIZE && r.offset >= 0 && r.shard >= 0
  }

  /** What the client returns for a response; None for every error. */
  function FetchChunk(r: ReadRequest, response: ReadResponse): Option<Bytes> {
    if !ValidChunkRequest(r) then None
    else match response
      case Error => None
      case Chunk(fileId, shard, offset, length, total, data) =>
        if fileId != r.fileId || shard != r.shard || offset != r.offset || length != r.length || total < Wrap64(r.offset + length) then None
        else if |data| < r.length then None
        else Some(data[..r.length])
  }

  /** What an accepted response has told, whoever sent it: it names the requested file, shard, offset and length, claims
      a shard that the range fits, and carries the bytes returned, exactly as many as asked for. */
  lemma AcceptedResponse(r: ReadRequest, response: ReadResponse)
    requires FetchChunk(r, response).Some? && r.offset + r.length <= I64_MAX
    ensures 0 < r.length <= MAX_BLOCK_SIZE && r.offset >= 0 && r.shard >= 0
    ensures response.Chunk? && response.fileId == r.fileId && response.shard == r.shard && response.offset == r.offset && response.length == r.length
    ensures response.totalShardSize >= r.offset + r.length
    ensures |FetchChunk(r, response).value| == r.length && FetchChunk(r, response).value <= response.data
  {
    NoWrap(r.offset + r.length);
  }

  /** Which pushes are accepted: for a plain identifier, a shard number up to 255 and a non-empty range within a shard
      of at most 8 GiB. The identifier of an accepted push is one directory name. */
  lemma AcceptedPush(r: PushRequest)
    ensures ValidPush(r) <==>
      ValidFileId(r.fileId) && 0 <= r.shard <= 255 && 0 <= r.offset && 0 < r.length && r.offset + r.length <= r.totalShardSize <= 0x2_0000_0000
    ensures ValidPush(r) ==> r.fileId != "" && r.fileId != "." && r.fileId != ".." && '/' !in r.fileId && '\\' !in r.fileId
  {
    if ValidFileId(r.fileId) { StaysInDirectory(r.fileId); }
  }

  class Store {
    var files: map<Key, Bytes>

    constructor ()
      ensures files == map[]
    {
      files := map[];
    }

    /** `opens` says whether the file can be opened, `payload` what arrives on the stream before it ends. */
    method Push(r: PushRequest, payload: Bytes, opens: bool) returns (response: PushResponse)
      modifies this
      ensures !ValidPush(r) ==> response == Rejected && files == old(files)
      ensures ValidPush(r) && !opens ==> response == NotOpened && files == old(files)
      ensures ValidPush(r) && opens ==>
        files == old(files)[(r.fileId, r.shard) := AfterPush(ContentOf(old(files), (r.fileId, r.shard)), r.offset, Take(payload, r.length))]
      ensures ValidPush(r) && opens ==>
        response == Received(Min(r.length, |payload|), |payload| >= r.length, |payload| >= r.length && r.offset + r.length == r.totalShardSize)
    {
      if !ValidPush(r) {
        return Rejected;
      }
      if !opens {
        return NotOpened;
      }
      var content := ContentOf(files, (r.fileId, r.shard));
      if r.offset == 0 {
        content := [];
      }
      var written := Min(r.length, |payload|);
      files := files[(r.fileId, r.shard) := WriteAt(content, r.offset, payload[..written])];
      var complete := written == r.length;
      return Received(written, complete, complete && r.offset + written == r.totalShardSize);
    }

    method Read(r: ReadRequest) returns (response: ReadResponse)
      ensures response.Error? <==>
        !ValidShardRequest(r.fileId, r.shard) || r.offset < 0 || r.length < 0
        || (r.fileId, r.shard) !in files || r.offset > |files[(r.fileId, r.shard)]|
      ensures response.Chunk? ==>
        var content := files[(r.fileId, r.shard)];
        && response.fileId == r.fileId && response.shard == r.shard && response.offset == r.offset
        && response.totalShardSize == |content| && response.length == |response.data|
        && response.data <= content[r.offset..]
        && if 0 < r.length <= |content| - r.offset then |response.data| == r.length else response.data == content[r.offset..]
      ensures response == Served(files, r)
    {
      if !ValidShardRequest(r.fileId, r.shard) || r.offset < 0 || r.length < 0 {
        return Error;
      }
      if (r.fileId, r.shard) !in files {
        return Error;
      }
      var content := files[(r.fileId, r.shard)];
      var totalSize := |content|;
      if r.offset > totalSize {
        return Error;
      }
      var length := r.length;
      if length == 0 || length > totalSize - r.offset {
        length := totalSize - r.offset;
      }
      var rest := content[r.offset..];  // seek
      return Chunk(r.fileId, r.shard, r.offset, length, totalSize, rest[..length]);
    }
  }

  // ----- pushing a shard in chunks -----

  /** A chunk of a shard: [offset, offset + length). */
  datatype Span = Span(offset: nat, length: nat)

  ghost predicate InShard(shard: Bytes, chunks: seq<Span>) {
    forall c :: 0 <= c < |chunks| ==> chunks[c].length > 0 && chunks[c].offset + chunks[c].length <= |shard|
  }

  function SliceOf(shard: Bytes, r: Span): Bytes
    requires r.offset + r.length <= |shard|
  {
    shard[r.offset..r.offset + r.length]
  }

  /** The stored file after the chunks are pushed in list order onto `content`. */
  ghost function PushedAll(content: Bytes, shard: Bytes, chunks: seq<Span>): Bytes
    requires InShard(shard, chunks)
  {
    if chunks == [] then content
    else
      var last := chunks[|chunks| - 1];
      AfterPush(PushedAll(content, shard, chunks[..|chunks| - 1]), last.offset, SliceOf(shard, last))
  }

  /** Some chunk holds position p. */
  ghost predicate Covers(chunks: seq<Span>, p: int) {
    exists c :: 0 <= c < |chunks| && chunks[c].offset <= p < chunks[c].offset + chunks[c].length
  }

  /** The chunks that are left once every push at offset 0 has started the file over: the last of them and
      what follows it, or all of them. */
  function Effective(chunks: seq<Span>): (r: seq<Span>)
    ensures |r| <= |chunks| && chunks[|chunks| - |r|..] == r
  {
    if chunks == [] then []
    else
      var init, last := chunks[..|chunks| - 1], chunks[|chunks| - 1];
      assert chunks == init + [last];
      if last.offset == 0 then [last] else Effective(init) + [last]
  }

  /** What they are pushed onto: nothing, once some chunk had offset 0. */
  function Base(content: Bytes, chunks: seq<Span>): Bytes {
    if exists c :: 0 <= c < |chunks| && chunks[c].offset == 0 then [] else content
  }

  /** The file holds the covered bytes of the shard, elsewhere what was there before with zeros past its end, and
      ends where the longer of the two ends. */
  ghost predicate Holds(after: Bytes, before: Bytes, shard: Bytes, chunks: seq<Span>) {
    && |before| <= |after|
    && (forall p {:trigger Covers(chunks, p)} :: Covers(chunks, p) ==> 0 <= p < |after| && p < |shard|)
    && (|after| > |before| ==> Covers(chunks, |after| - 1))
    && (forall p :: 0 <= p < |after| ==> after[p] == if Covers(chunks, p) then shard[p] else if p < |before| then before[p] else 0)
  }

  lemma CoversMore(init: seq<Span>, last: Span, p: int)
    ensures Covers(init + [last], p) <==> Covers(init, p) || last.offset <= p < last.offset + last.length
  {
    var all := init + [last];
    if Covers(init, p) {
      var c :| 0 <= c < |init| && init[c].offset <= p < init[c].offset + init[c].length;
      assert all[c] == init[c];
    }
    if last.offset <= p < last.offset + last.length { assert all[|init|] == last; }
    if Covers(all, p) {
      var c :| 0 <= c < |all| && all[c].offset <= p < all[c].offset + all[c].length;
      assert c < |init| ==> init[c] == all[c];
    }
  }

  lemma WriteHolds(content: Bytes, before: Bytes, shard: Bytes, init: seq<Span>, last: Span)
    requires Holds(content, before, shard, init) && last.length > 0 && last.offset + last.length <= |shard|
    ensures Holds(WriteAt(content, last.offset, SliceOf(shard, last)), before, shard, init + [last])
  {
    hide Covers;
    var after := WriteAt(content, last.offset, SliceOf(shard, last));
    forall p ensures Covers(init + [last], p) <==> Covers(init, p) || last.offset <= p < last.offset + last.length {
      CoversMore(init, last, p);
    }
    assert |after| == if last.offset + last.length > |content| then last.offset + last.length else |content|;
    forall p | 0 <= p < |after|
      ensures after[p] == if Covers(init + [last], p) then shard[p] else if p < |before| then before[p] else 0
    {
      assert after[p] == if last.offset <= p < last.offset + last.length then shard[p] else if p < |content| then content[p] else 0;
    }
  }

  lemma {:induction false} PushedHolds(content: Bytes, shard: Bytes, chunks: seq<Span>)
    requires InShard(shard, chunks)
    ensures Holds(PushedAll(content, shard, chunks), Base(content, chunks), shard, Effective(chunks))
  {
    hide Holds;
    if chunks == [] {
      NothingHeld(content, shard);
    } else {
      var init, last := chunks[..|chunks| - 1], chunks[|chunks| - 1];
      assert chunks == init + [last];
      if last.offset == 0 {
        NothingHeld([], shard);
        WriteHolds([], [], shard, [], last);
        assert [] + [last] == [last] == Effective(chunks);
        assert chunks[|init|].offset == 0;
      } else {
        PushedHolds(content, shard, init);
        BaseMore(content, init, last);
        WriteHolds(PushedAll(content, shard, init), Base(content, init), shard, Effective(init), last);
      }
    }
  }

  lemma BaseMore(content: Bytes, init: seq<Span>, last: Span)
    requires last.offset != 0
    ensures Base(content, init + [last]) == Base(content, init)
  {
    var all := init + [last];
    if c :| 0 <= c < |init| && init[c].offset == 0 { assert all[c].offset == 0; }
    if c :| 0 <= c < |all| && all[c].offset == 0 { assert init[c] == all[c]; }
  }

  lemma NothingHeld(content: Bytes, shard: Bytes)
    ensures Holds(content, content, shard, [])
  {
  }

  /** What pushing any chunks of a shard in any order leaves. Only the last chunk at offset 0 and what follows it
      count, or all of them and the old file if there is none: the file is exactly the shard if and only if the old
      file is not longer, one of the two reaches the end, and every byte no chunk covers is the old one, or zero
      past the old end. */
  lemma PushRoundTrip(content: Bytes, shard: Bytes, chunks: seq<Span>)
    requires InShard(shard, chunks)
    ensures var base, rest := Base(content, chunks), Effective(chunks);
      PushedAll(content, shard, chunks) == shard <==>
        && |base| <= |shard| && (|base| == |shard| || Covers(rest, |shard| - 1))
        && forall p {:trigger Covers(rest, p)} :: 0 <= p < |shard| && !Covers(rest, p) ==> shard[p] == if p < |base| then base[p] else 0
  {
    hide Covers, PushedAll, Base, Effective;
    PushedHolds(content, shard, chunks);
    var after := PushedAll(content, shard, chunks);
    if after != shard && |after| == |shard| {
      var p :| 0 <= p < |shard| && after[p] != shard[p];
      assert !Covers(Effective(chunks), p);
    }
  }

  /** In particular the documented use: the offset-0 chunk first, the others in any order, all of the shard covered. */
  lemma CoveringPush(content: Bytes, shard: Bytes, chunks: seq<Span>)
    requires InShard(shard, chunks) && chunks != [] && chunks[0].offset == 0 && forall c :: 1 <= c < |chunks| ==> chunks[c].offset > 0
    requires forall p :: 0 <= p < |shard| ==> Covers(chunks, p)
    ensures PushedAll(content, shard, chunks) == shard
  {
    hide PushedAll, Covers, InShard;
    EffectiveFromZero(chunks);
    PushRoundTrip(content, shard, chunks);
  }

  lemma {:induction false} EffectiveFromZero(chunks: seq<Span>)
    requires chunks != [] && chunks[0].offset == 0 && forall c :: 1 <= c < |chunks| ==> chunks[c].offset > 0
    ensures Effective(chunks) == chunks
  {
    if |chunks| > 1 {
      EffectiveFromZero(chunks[..|chunks| - 1]);
    }
  }

  /** An offset-0 chunk pushed after others throws them away. */
  lemma LateFirstChunk(content: Bytes, shard: Bytes, chunks: seq<Span>)
    requires InShard(shard, chunks) && chunks != [] && chunks[|chunks| - 1].offset == 0
    ensures PushedAll(content, shard, chunks) == shard[..chunks[|chunks| - 1].length]
  {
  }

  /** Every chunk of a shard within the size limit is a request the handler accepts, and none of its sums leaves 64 bits. */
  lemma ChunkIsValidPush(shard: Bytes, fileId: string, index: int, r: Span)
    requires ValidShardRequest(fileId, index) && |shard| <= MAX_SHARD_SIZE && r.length > 0 && r.offset + r.length <= |shard|
    ensures ValidPush(PushRequest(fileId, index, r.offset, r.length, |shard|))
    ensures Wrap64(r.offset + r.length) == r.offset + r.length && Wrap64(|shard| - r.offset) == |shard| - r.offset
  {
  }

  // ----- reading it back -----

  /** A request within the limits is accepted from an honest node exactly when the node has the shard and
      the range fits it, and then yields exactly those bytes; no wrap-around can make a range that does not fit pass. */
  lemma HonestFetch(files: map<Key, Bytes>, r: ReadRequest)
    requires ValidChunkRequest(r) && r.offset <= I64_MAX
    requires (r.fileId, r.shard) in files ==> |files[(r.fileId, r.shard)]| <= I64_MAX
    ensures var fits := ValidShardRequest(r.fileId, r.shard) && (r.fileId, r.shard) in files && r.offset + r.length <= |files[(r.fileId, r.shard)]|;
      FetchChunk(r, Served(files, r)) == if fits then Some(files[(r.fileId, r.shard)][r.offset..r.offset + r.length]) else None
  {
    hide Wrap64;
    if r.offset + r.length <= I64_MAX { NoWrap(r.offset + r.length); }
    if (r.fileId, r.shard) in files && r.offset + r.length <= |files[(r.fileId, r.shard)]| {
      var data := files[(r.fileId, r.shard)][r.offset..r.offset + r.length];
      assert data[..r.length] == data;
    }
  }

  lemma NoWrap(x: int)
    requires 0 <= x <= I64_MAX
    ensures Wrap64(x) == x
  {
  }

  /** A 64-bit sum differs from the exact one by a multiple of 2^64 and lies in the 64-bit range. */
  lemma WrapExactly(x: int)
    ensures -I64_MAX - 1 <= Wrap64(x) <= I64_MAX
    ensures exists q :: x - Wrap64(x) == q * 0x1_0000_0000_0000_0000
  {
    var y := x + I64_MAX + 1;
    assert y == (y / 0x1_0000_0000_0000_0000) * 0x1_0000_0000_0000_0000 + y % 0x1_0000_0000_0000_0000;
    assert x - Wrap64(x) == (y / 0x1_0000_0000_0000_0000) * 0x1_0000_0000_0000_0000;
  }
}

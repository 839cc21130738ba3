/** The erasure coding library as its documented contract states it: the matrix
    algebra is a parameter (`parity`, `solve`) bound by the laws of a systematic
    code in which any k of the k + m blocks determine all of them; Split, Join
    and the argument checks of the reconstruction calls are concrete. A block of
    length zero stands for a missing one, as it does for the library. */
module ReedSolomon {
  import opened Prelude

  datatype Error = ShortData | TooFewShards | NoShardData | ShardSizeMismatch | ReconstructRequired

  datatype Codec = Codec(k: nat, m: nat, parity: seq<Bytes> -> seq<Bytes>, solve: seq<Bytes> -> seq<Bytes>)
  {
    function Total(): nat { k + m }

    /** All k + m blocks of a stripe: the data blocks themselves, then the parity blocks. */
    function Codeword(data: seq<Bytes>): seq<Bytes> { data + parity(data) }

    ghost predicate Valid() {
      && k >= 1
      && (forall data {:trigger parity(data)} | IsData(data, k) ::
            |parity(data)| == m && forall j :: 0 <= j < m ==> |parity(data)[j]| == |data[0]|)
      && (forall data, slots {:trigger Erased(slots, Codeword(data), k)} |
            IsData(data, k) && Erased(slots, Codeword(data), k) :: solve(slots) == Codeword(data))
    }
  }

  /** k blocks of one common positive length. */
  ghost predicate IsData(data: seq<Bytes>, k: nat) {
    |data| == k && k >= 1 && |data[0]| >= 1 && forall i :: 0 <= i < k ==> |data[i]| == |data[0]|
  }

  /** The blocks of w, some of them missing. */
  ghost predicate Agree(slots: seq<Bytes>, w: seq<Bytes>) {
    |slots| == |w| && forall i :: 0 <= i < |w| ==> slots[i] == [] || slots[i] == w[i]
  }

  /** The codeword w with some blocks missing, at least k of them left. */
  ghost predicate Erased(slots: seq<Bytes>, w: seq<Bytes>, k: nat) {
    Agree(slots, w) && |Present(slots)| >= k
  }

  function Present(slots: seq<Bytes>): set<nat> {
    set i: nat | i < |slots| && slots[i] != []
  }

  lemma CodewordShape(c: Codec, data: seq<Bytes>)
    requires c.Valid() && IsData(data, c.k)
    ensures |c.Codeword(data)| == c.Total()
    ensures forall j :: 0 <= j < c.Total() ==> |c.Codeword(data)[j]| == |data[0]|
  {
    assert |c.parity(data)| == c.m;
  }

  // ----- Split and Join -----

  function Cut(s: Bytes, per: nat, n: nat): (blocks: seq<Bytes>)
    requires |s| == n * per
    ensures |blocks| == n && forall j :: 0 <= j < n ==> |blocks[j]| == per
  {
    if n == 0 then [] else
      MulStep(n, per);
      [s[..per]] + Cut(s[per..], per, n - 1)
  }

  function Concat<T>(blocks: seq<seq<T>>): seq<T> {
    if blocks == [] then [] else blocks[0] + Concat(blocks[1..])
  }

  lemma ConcatCons<T>(head: seq<T>, rest: seq<seq<T>>)
    ensures Concat([head] + rest) == head + Concat(rest)
  {
    assert ([head] + rest)[1..] == rest;
  }

  lemma {:induction false} ConcatCut(s: Bytes, per: nat, n: nat)
    requires |s| == n * per
    ensures Concat(Cut(s, per, n)) == s
  {
    if n > 0 {
      MulStep(n, per);
      var head, tail := s[..per], s[per..];
      ConcatCut(tail, per, n - 1);
      ConcatCons(head, Cut(tail, per, n - 1));
      assert s == head + tail;
    }
  }

  /** The data blocks of a non-empty buffer: zero padded to k blocks of equal length. */
  function SplitBlocks(data: Bytes, k: nat): (blocks: seq<Bytes>)
    requires k > 0
    ensures |blocks| == k && forall j :: 0 <= j < k ==> |blocks[j]| == CeilDiv(|data|, k)
  {
    CeilDivBounds(|data|, k);
    var per := CeilDiv(|data|, k);
    Cut(data + Zeros(k * per - |data|), per, k)
  }

  /** The blocks one after the other are the data and then zeros, to the next multiple of k. */
  lemma SplitPads(data: Bytes, k: nat)
    requires k > 0
    ensures Concat(SplitBlocks(data, k)) == data + Zeros(k * CeilDiv(|data|, k) - |data|)
  {
    CeilDivBounds(|data|, k);
    ConcatCut(data + Zeros(k * CeilDiv(|data|, k) - |data|), CeilDiv(|data|, k), k);
  }

  function Split(data: Bytes, k: nat): Result<seq<Bytes>, Error>
    requires k > 0
  {
    if data == [] then Err(ShortData) else Ok(SplitBlocks(data, k))
  }

  lemma SplitIsData(data: Bytes, k: nat)
    requires k > 0 && data != []
    ensures IsData(SplitBlocks(data, k), k)
  {
    CeilDivBounds(|data|, k);
    var per := CeilDiv(|data|, k);
    if per <= 0 {
      MulMonotone(k, per, 0);
    }
  }

  /** The checks Join makes while it adds up block lengths until `need` bytes are covered. */
  function JoinError(blocks: seq<Bytes>, need: int): Option<Error> {
    if blocks == [] then (if need > 0 then Some(ShortData) else None)
    else if blocks[0] == [] then Some(ReconstructRequired)
    else if |blocks[0]| >= need then None
    else JoinError(blocks[1..], need - |blocks[0]|)
  }

  function Join(blocks: seq<Bytes>, k: nat, size: nat): Result<Bytes, Error> {
    if |blocks| < k then Err(TooFewShards)
    else match JoinError(blocks[..k], size)
      case Some(e) => Err(e)
      case None => Ok(Take(Concat(blocks[..k]), size))
  }

  lemma {:induction false} JoinAccepts(blocks: seq<Bytes>, need: int)
    requires forall i :: 0 <= i < |blocks| ==> blocks[i] != []
    requires need <= |Concat(blocks)|
    ensures JoinError(blocks, need) == None
  {
    if blocks != [] && |blocks[0]| < need {
      JoinAccepts(blocks[1..], need - |blocks[0]|);
    }
  }

  /** A join that works returns exactly as many bytes as were asked for, the first ones of the data blocks. */
  lemma JoinExactly(blocks: seq<Bytes>, k: nat, size: nat)
    requires Join(blocks, k, size).Ok?
    ensures |blocks| >= k && |Join(blocks, k, size).value| == size && Join(blocks, k, size).value <= Concat(blocks[..k])
  {
    JoinCovers(blocks[..k], size);
  }

  lemma {:induction false} JoinCovers(blocks: seq<Bytes>, need: int)
    requires JoinError(blocks, need) == None
    ensures |Concat(blocks)| >= need
  {
    if blocks != [] && |blocks[0]| < need {
      JoinCovers(blocks[1..], need - |blocks[0]|);
    }
  }

  /** Join undoes Split: padding is cut off again. */
  lemma JoinSplit(data: Bytes, k: nat, tail: seq<Bytes>)
    requires k > 0 && data != []
    ensures Join(SplitBlocks(data, k) + tail, k, |data|) == Ok(data)
  {
    SplitIsData(data, k);
    CeilDivBounds(|data|, k);
    var per, blocks := CeilDiv(|data|, k), SplitBlocks(data, k);
    var padded := data + Zeros(k * per - |data|);
    ConcatCut(padded, per, k);
    assert (blocks + tail)[..k] == blocks;
    JoinAccepts(blocks, |data|);
    assert Take(padded, |data|) == data;
  }

  // ----- reconstruction -----

  /** Length of the first block that is there, 0 when none is. */
  function ShardSize(slots: seq<Bytes>): nat {
    if slots == [] then 0 else if slots[0] != [] then |slots[0]| else ShardSize(slots[1..])
  }

  lemma {:induction false} ShardSizeOf(slots: seq<Bytes>, i: nat, n: nat)
    requires i < |slots| && slots[i] != []
    requires forall j :: 0 <= j < |slots| && slots[j] != [] ==> |slots[j]| == n
    ensures ShardSize(slots) == n
  {
    if slots[0] == [] {
      ShardSizeOf(slots[1..], i - 1, n);
    }
  }

  function SlotError(c: Codec, slots: seq<Bytes>): Option<Error> {
    var size := ShardSize(slots);
    if |slots| != c.Total() then Some(TooFewShards)
    else if size == 0 then Some(NoShardData)
    else if exists i :: 0 <= i < |slots| && slots[i] != [] && |slots[i]| != size then Some(ShardSizeMismatch)
    else None
  }

  /** Fills the missing blocks that `wanted` asks for and leaves the others as they are. */
  function ReconstructSome(c: Codec, slots: seq<Bytes>, wanted: seq<bool>): Result<seq<Bytes>, Error>
    requires |wanted| == |slots|
  {
    match SlotError(c, slots)
    case Some(e) => Err(e)
    case None =>
      if forall i :: 0 <= i < |slots| && wanted[i] ==> slots[i] != [] then Ok(slots)
      else if |Present(slots)| < c.k then Err(TooFewShards)
      else
        var all := c.solve(slots);
        Ok(seq(|slots|, i requires 0 <= i < |slots| =>
          if slots[i] == [] && wanted[i] && i < |all| then all[i] else slots[i]))
  }

  function Reconstruct(c: Codec, slots: seq<Bytes>): Result<seq<Bytes>, Error> {
    ReconstructSome(c, slots, seq(|slots|, _ => true))
  }

  /** Fills missing data blocks only. */
  function ReconstructData(c: Codec, slots: seq<Bytes>): Result<seq<Bytes>, Error> {
    ReconstructSome(c, slots, seq(|slots|, i => i < c.k))
  }

  /** Any k blocks of a codeword bring back every block that is asked for, and no other. */
  lemma ReconstructErased(c: Codec, data: seq<Bytes>, slots: seq<Bytes>, wanted: seq<bool>)
    requires c.Valid() && IsData(data, c.k)
    requires Erased(slots, c.Codeword(data), c.k) && |wanted| == |slots|
    ensures var r := ReconstructSome(c, slots, wanted);
      r.Ok? && |r.value| == c.Total()
      && (forall i :: 0 <= i < c.Total() && (wanted[i] || slots[i] != []) ==> r.value[i] == c.Codeword(data)[i])
      && (forall i :: 0 <= i < c.Total() && !wanted[i] && slots[i] == [] ==> r.value[i] == [])
  {
    CodewordShape(c, data);
    assert Present(slots) != {};
    var i :| i in Present(slots);
    ShardSizeOf(slots, i, |data[0]|);
    assert c.solve(slots) == c.Codeword(data);
  }

  /** Fewer than k blocks are refused as soon as one wanted block is missing. */
  lemma TooFewRefused(c: Codec, slots: seq<Bytes>, wanted: seq<bool>, i: nat)
    requires |wanted| == |slots| && i < |slots| && wanted[i] && slots[i] == [] && |Present(slots)| < c.k
    ensures ReconstructSome(c, slots, wanted).Err?
  {
  }
}

/** Two concrete codes that satisfy the laws, so that they are not vacuous:
    a single xor parity block for any k, and plain replication for any m. */
module WitnessCodecs {
  import opened Prelude
  import opened ReedSolomon

  function XorAt(blocks: seq<Bytes>, p: nat): byte {
    if blocks == [] then 0
    else (if p < |blocks[0]| then blocks[0][p] else 0) ^ XorAt(blocks[1..], p)
  }

  function XorBlock(blocks: seq<Bytes>): Bytes {
    seq(ShardSize(blocks), p requires p >= 0 => XorAt(blocks, p))
  }

  function FillWith(slots: seq<Bytes>, b: Bytes): seq<Bytes> {
    seq(|slots|, i requires 0 <= i < |slots| => if slots[i] == [] then b else slots[i])
  }

  function XorCodec(k: nat): Codec {
    Codec(k, 1, data => [XorBlock(data)], slots => FillWith(slots, XorBlock(slots)))
  }

  lemma {:induction false} XorAtAppend(s: seq<Bytes>, b: Bytes, p: nat)
    requires p < |b|
    ensures XorAt(s + [b], p) == XorAt(s, p) ^ b[p]
  {
    if s == [] {
      assert s + [b] == [b];
    } else {
      XorAtAppend(s[1..], b, p);
      assert (s + [b])[1..] == s[1..] + [b];
    }
  }

  lemma {:induction false} XorAtErase(w: seq<Bytes>, i: nat, p: nat)
    requires i < |w| && p < |w[i]|
    ensures XorAt(w[i := []], p) == XorAt(w, p) ^ w[i][p]
  {
    if i == 0 {
      assert w[i := []][1..] == w[1..];
    } else {
      XorAtErase(w[1..], i - 1, p);
      assert w[i := []][1..] == w[1..][i - 1 := []];
    }
  }

  lemma XorBlockErase(data: seq<Bytes>, i: nat)
    requires IsData(data, |data|) && i <= |data|
    ensures var w := data + [XorBlock(data)];
      |w[|data|]| == |data[0]| && XorBlock(w[i := []]) == w[i]
  {
    var n := |data[0]|;
    ShardSizeOf(data, 0, n);
    var w := data + [XorBlock(data)];
    var slots := w[i := []];
    ShardSizeOf(slots, if i == 0 then |data| else 0, n);
    forall p: nat | p < n ensures XorAt(slots, p) == w[i][p] {
      XorAtAppend(data, XorBlock(data), p);
      XorAtErase(w, i, p);
    }
    assert XorBlock(slots) == w[i];
  }

  /** With one block missing, at most one index lies outside the present ones. */
  lemma OneMissing(slots: seq<Bytes>, i: nat, j: nat)
    requires i < j < |slots| && slots[i] == [] && slots[j] == []
    ensures |Present(slots)| <= |slots| - 2
  {
    var rest := Range(|slots|) - {i, j};
    assert Range(|slots|) == rest + {i, j};
    SubsetCardinality(Present(slots), rest);
  }

  lemma XorSolves(k: nat, data: seq<Bytes>, slots: seq<Bytes>)
    requires IsData(data, k) && Erased(slots, XorCodec(k).Codeword(data), k)
    ensures FillWith(slots, XorBlock(slots)) == XorCodec(k).Codeword(data)
  {
    var w := XorCodec(k).Codeword(data);
    assert w == data + [XorBlock(data)];
    XorBlockErase(data, 0);
    if i :| 0 <= i < |slots| && slots[i] == [] {
      forall j | 0 <= j < |slots| && j != i ensures slots[j] == w[j] {
        if slots[j] == [] { OneMissing(slots, Min(i, j), if i < j then j else i); }
      }
      assert slots == w[i := []];
      XorBlockErase(data, i);
    }
    assert FillWith(slots, XorBlock(slots)) == w;
  }

  lemma XorCodecValid(k: nat)
    requires k >= 1
    ensures XorCodec(k).Valid() && XorCodec(k).k == k && XorCodec(k).m == 1
  {
    var c := XorCodec(k);
    forall data | IsData(data, k)
      ensures |c.parity(data)| == 1 && |c.parity(data)[0]| == |data[0]|
    {
      ShardSizeOf(data, 0, |data[0]|);
    }
    forall data, slots | IsData(data, k) && Erased(slots, c.Codeword(data), k)
      ensures c.solve(slots) == c.Codeword(data)
    {
      XorSolves(k, data, slots);
    }
  }

  function FirstPresent(slots: seq<Bytes>): Bytes {
    if slots == [] then [] else if slots[0] != [] then slots[0] else FirstPresent(slots[1..])
  }

  function ReplicationCodec(m: nat): Codec {
    Codec(1, m, data => seq(m, _ => FirstPresent(data)), slots => FillWith(slots, FirstPresent(slots)))
  }

  lemma {:induction false} FirstPresentOf(slots: seq<Bytes>, i: nat, b: Bytes)
    requires i < |slots| && slots[i] != []
    requires forall j :: 0 <= j < |slots| ==> slots[j] == [] || slots[j] == b
    ensures FirstPresent(slots) == b
  {
    if slots[0] == [] {
      FirstPresentOf(slots[1..], i - 1, b);
    }
  }

  lemma ReplicationCodecValid(m: nat)
    ensures ReplicationCodec(m).Valid() && ReplicationCodec(m).k == 1 && ReplicationCodec(m).m == m
  {
    var c := ReplicationCodec(m);
    forall data, slots | IsData(data, 1) && Erased(slots, c.Codeword(data), 1)
      ensures c.solve(slots) == c.Codeword(data)
    {
      assert Present(slots) != {};
      var i :| i in Present(slots);
      FirstPresentOf(slots, i, data[0]);
      assert c.solve(slots) == c.Codeword(data);
    }
  }
}

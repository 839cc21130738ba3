/** Shard availability bitmaps (watchdog/bitmap.go): bit i of byte b stands for shard 8 * b + i. */
module Bitmap {
  import opened Prelude

  /** 1 << b */
  function Mask(b: nat): byte
    requires b < 8
  {
    match b case 0 => 1 case 1 => 2 case 2 => 4 case 3 => 8 case 4 => 16 case 5 => 32 case 6 => 64 case _ => 128
  }

  function Power(b: nat): nat {
    if b == 0 then 1 else 2 * Power(b - 1)
  }

  /** Shard 0 is the lowest bit of a byte. */
  lemma {:induction false} MaskIsPower(b: nat)
    requires b < 8
    ensures Mask(b) as int == Power(b)
  {
    if b > 0 { MaskIsPower(b - 1); }
  }

  predicate HasBit(x: byte, b: nat)
    requires b < 8
  {
    x & Mask(b) != 0
  }

  /** Bit i of a bitmap; bits past its end are clear. */
  predicate Bit(bitmap: Bytes, i: nat) {
    i / 8 < |bitmap| && HasBit(bitmap[i / 8], i % 8)
  }

  lemma OrSetsOneBit(x: byte, a: nat, b: nat)
    requires a < 8 && b < 8
    ensures HasBit(x | Mask(a), b) <==> a == b || HasBit(x, b)
  {
  }

  lemma SameBitsSameByte(x: byte, y: byte)
    requires forall b: nat :: b < 8 ==> (HasBit(x, b) <==> HasBit(y, b))
    ensures x == y
  {
    assert HasBit(x, 0) == HasBit(y, 0) && HasBit(x, 1) == HasBit(y, 1) && HasBit(x, 2) == HasBit(y, 2) && HasBit(x, 3) == HasBit(y, 3);
    assert HasBit(x, 4) == HasBit(y, 4) && HasBit(x, 5) == HasBit(y, 5) && HasBit(x, 6) == HasBit(y, 6) && HasBit(x, 7) == HasBit(y, 7);
  }

  lemma SameBitsSameBitmap(x: Bytes, y: Bytes)
    requires |x| == |y| && forall i: nat :: Bit(x, i) <==> Bit(y, i)
    ensures x == y
  {
    forall p | 0 <= p < |x| ensures x[p] == y[p] {
      forall b: nat | b < 8 ensures HasBit(x[p], b) <==> HasBit(y[p], b) {
        assert Bit(x, 8 * p + b) <==> Bit(y, 8 * p + b);
      }
      SameBitsSameByte(x[p], y[p]);
    }
  }

  // ----- encoding -----

  function SetBit(bitmap: Bytes, i: nat): Bytes
    requires i / 8 < |bitmap|
  {
    bitmap[i / 8 := bitmap[i / 8] | Mask(i % 8)]
  }

  lemma SetBitSets(bitmap: Bytes, i: nat, j: nat)
    requires i / 8 < |bitmap|
    ensures Bit(SetBit(bitmap, i), j) <==> i == j || Bit(bitmap, j)
  {
    OrSetsOneBit(bitmap[i / 8], i % 8, j % 8);
  }

  /** A bitmap for shards 0 .. total - 1 with the listed ones set; other indices are skipped. */
  function Encode(total: int, indices: seq<int>): (bitmap: Bytes)
    ensures |bitmap| == if total <= 0 then 0 else (total + 7) / 8
  {
    if total <= 0 then []
    else if indices == [] then Zeros((total + 7) / 8)
    else
      var rest, last := Encode(total, indices[..|indices| - 1]), indices[|indices| - 1];
      if last < 0 || last >= total then rest else SetBit(rest, last)
  }

  lemma {:induction false} EncodeBits(total: int, indices: seq<int>, i: nat)
    ensures Bit(Encode(total, indices), i) <==> i < total && i in indices
  {
    if total > 0 {
      if indices == [] {
        ZeroHasNoBit(i % 8);
      } else {
        var init, last := indices[..|indices| - 1], indices[|indices| - 1];
        assert indices == init + [last];
        EncodeBits(total, init, i);
        if 0 <= last < total { SetBitSets(Encode(total, init), last, i); }
      }
    }
  }

  method BitmapFromShardIndices(total: int, indices: seq<int>) returns (bitmap: Bytes)
    ensures bitmap == Encode(total, indices)
  {
    if total <= 0 {
      return [];
    }
    bitmap := Zeros((total + 7) / 8);
    for n := 0 to |indices|
      invariant bitmap == Encode(total, indices[..n])
    {
      assert indices[..n + 1][..n] == indices[..n];
      var idx := indices[n];
      if 0 <= idx < total {
        bitmap := SetBit(bitmap, idx);
      }
    }
    assert indices[..|indices|] == indices;
  }

  // ----- decoding -----

  /** The set bits among the first n of a byte, as shard indices from `base` on. */
  function ByteShards(x: byte, base: nat, n: nat): seq<nat>
    requires n <= 8
  {
    if n == 0 then [] else ByteShards(x, base, n - 1) + if HasBit(x, n - 1) then [base + n - 1] else []
  }

  function Decode(bitmap: Bytes): seq<nat> {
    if bitmap == [] then []
    else
      var n := |bitmap| - 1;
      Decode(bitmap[..n]) + ByteShards(bitmap[n], 8 * n, 8)
  }

  lemma {:induction false} ByteShardsAre(x: byte, base: nat, n: nat)
    requires n <= 8
    ensures forall i: nat :: i in ByteShards(x, base, n) <==> base <= i < base + n && HasBit(x, i - base)
    ensures StrictlyIncreasing(ByteShards(x, base, n))
  {
    if n > 0 {
      ByteShardsAre(x, base, n - 1);
      var low, high: seq<nat> := ByteShards(x, base, n - 1), if HasBit(x, n - 1) then [base + n - 1] else [];
      assert ByteShards(x, base, n) == low + high;
      forall i: nat ensures i in low + high <==> i in low || i in high { }
      IncreasingConcat(low, high, base + n - 1);
    }
  }

  /** Decoding lists exactly the set bits, in increasing order and once each. */
  lemma {:induction false} DecodeBits(bitmap: Bytes)
    ensures forall i: nat :: i in Decode(bitmap) <==> Bit(bitmap, i)
    ensures StrictlyIncreasing(Decode(bitmap))
  {
    if bitmap != [] {
      var n := |bitmap| - 1;
      DecodeBits(bitmap[..n]);
      ByteShardsAre(bitmap[n], 8 * n, 8);
      var low, high := Decode(bitmap[..n]), ByteShards(bitmap[n], 8 * n, 8);
      assert Decode(bitmap) == low + high;
      forall i: nat ensures i in Decode(bitmap) <==> Bit(bitmap, i) {
        assert i in low + high <==> i in low || i in high;
        BitOfPrefix(bitmap, i);
      }
      forall i: nat | i in low ensures i < 8 * n {
        assert Bit(bitmap[..n], i);
      }
      IncreasingConcat(low, high, 8 * n);
    }
  }

  lemma BitOfPrefix(bitmap: Bytes, i: nat)
    requires bitmap != []
    ensures var n := |bitmap| - 1;
      Bit(bitmap, i) <==> Bit(bitmap[..n], i) || (8 * n <= i < 8 * n + 8 && HasBit(bitmap[n], i - 8 * n))
  {
  }

  lemma IncreasingConcat(low: seq<nat>, high: seq<nat>, bound: nat)
    requires StrictlyIncreasing(low) && StrictlyIncreasing(high)
    requires (forall i: nat :: i in low ==> i < bound) && (forall i: nat :: i in high ==> i >= bound)
    ensures StrictlyIncreasing(low + high)
  {
    forall p, q | 0 <= p < q < |low + high| ensures (low + high)[p] < (low + high)[q] {
      if p < |low| <= q {
        assert low[p] in low && high[q - |low|] in high;
      }
    }
  }

  method DecodeBitmap(bitmap: Bytes) returns (shards: seq<nat>)
    ensures shards == Decode(bitmap)
  {
    shards := [];
    for byteIndex := 0 to |bitmap|
      invariant shards == Decode(bitmap[..byteIndex])
    {
      ghost var before := shards;
      for bitIndex := 0 to 8
        invariant shards == before + ByteShards(bitmap[byteIndex], 8 * byteIndex, bitIndex)
      {
        if bitmap[byteIndex] & Mask(bitIndex) != 0 {
          shards := shards + [byteIndex * 8 + bitIndex];
        }
      }
      assert bitmap[..byteIndex + 1][..byteIndex] == bitmap[..byteIndex];
    }
    assert bitmap[..|bitmap|] == bitmap;
  }

  // ----- both ways round -----

  /** Decoding an encoded list gives its in-range part, sorted and without duplicates. */
  lemma DecodeEncode(total: int, indices: seq<int>)
    ensures StrictlyIncreasing(Decode(Encode(total, indices)))
    ensures forall i: nat :: i in Decode(Encode(total, indices)) <==> i in indices && i < total
  {
    DecodeBits(Encode(total, indices));
    forall i: nat ensures i in Decode(Encode(total, indices)) <==> i in indices && i < total {
      EncodeBits(total, indices, i);
    }
  }

  /** Encoding a decoded bitmap restores it byte for byte. */
  lemma EncodeDecode(bitmap: Bytes)
    ensures Encode(8 * |bitmap|, Decode(bitmap)) == bitmap
  {
    DecodeBits(bitmap);
    forall i: nat ensures Bit(Encode(8 * |bitmap|, Decode(bitmap)), i) <==> Bit(bitmap, i) {
      EncodeBits(8 * |bitmap|, Decode(bitmap), i);
    }
    SameBitsSameBitmap(Encode(8 * |bitmap|, Decode(bitmap)), bitmap);
  }

  function MaxShard(shards: seq<nat>): (m: int)
    ensures if shards == [] then m == -1 else m >= 0 && m in shards
    ensures forall i: nat :: i in shards ==> i <= m
  {
    if shards == [] then -1
    else
      var last, m := shards[|shards| - 1], MaxShard(shards[..|shards| - 1]);
      assert shards == shards[..|shards| - 1] + [last];
      if last > m then last else m
  }

  /** The bitmap of whichever shard files are there, sized by the largest number. */
  method BuildBitmap(shards: seq<nat>) returns (bitmap: Bytes)
    ensures bitmap == Encode(MaxShard(shards) + 1, shards)
  {
    hide SetBit;
    var maxShard: int := -1;
    for n := 0 to |shards|
      invariant maxShard == MaxShard(shards[..n])
    {
      assert shards[..n + 1][..n] == shards[..n];
      if shards[n] > maxShard {
        maxShard := shards[n];
      }
    }
    assert shards[..|shards|] == shards;
    if maxShard == -1 {
      return [];
    }
    bitmap := Zeros(maxShard / 8 + 1);
    for n := 0 to |shards|
      invariant bitmap == Encode(maxShard + 1, shards[..n])
    {
      assert shards[..n + 1][..n] == shards[..n];
      assert shards[n] in shards;
      bitmap := SetBit(bitmap, shards[n]);
    }
  }

  /** It lists exactly the files that are there and has no byte to spare. */
  lemma BuiltBitmap(shards: seq<nat>)
    ensures var bitmap := Encode(MaxShard(shards) + 1, shards);
      && (forall i: nat :: i in Decode(bitmap) <==> i in shards)
      && (shards != [] ==> bitmap != [] && bitmap[|bitmap| - 1] != 0)
  {
    hide Encode, Decode;
    var m := MaxShard(shards);
    DecodeEncode(m + 1, shards);
    if shards != [] {
      EncodeBits(m + 1, shards, m);
      ZeroHasNoBit(m % 8);
    }
  }

  lemma ZeroHasNoBit(b: nat)
    requires b < 8
    ensures !HasBit(0, b)
  {
  }

  /** The bitmap of one shard i: byte i / 8 is the (i % 8)-th power of two, all others are zero. */
  lemma OneShard(total: int, i: nat)
    requires i < total
    ensures var bitmap := Encode(total, [i]);
      forall p :: 0 <= p < |bitmap| ==> bitmap[p] as int == if p == i / 8 then Power(i % 8) else 0
  {
    MaskIsPower(i % 8);
    assert [i][..0] == [];
    ZeroOr(Mask(i % 8));
  }

  lemma ZeroOr(x: byte)
    ensures 0 | x == x
  {
  }
}

/** The sample format Buffer16BitStereo produces: signed 16-bit PCM, low byte
    first, the two channels interleaved frame by frame. A frame is four bytes:
    the left sample's two bytes, then the right sample's two bytes. */
module Pcm16 {

  /** An unsigned 8-bit value (C# `byte`). */
  newtype Byte = x: int | 0 <= x < 0x100

  /** A signed 16-bit value (C# `short`). */
  type Short = x: int | -0x8000 <= x < 0x8000

  /** The largest magnitude a block append stores. */
  const SAMPLE_LIMIT: int := 32767

  /** `(byte)(v & 0xff)`: the low eight bits of the two's-complement value. */
  function LowByte(v: int): (r: Byte)
    ensures (v - r as int) % 0x100 == 0
  {
    (v % 0x100) as Byte
  }

  /** `(byte)(v >> 8)`: `>>` on a signed value shifts arithmetically, which is
      floor division by 256 (Dafny's `/` for a positive divisor), and the cast
      keeps the low eight bits. */
  function HighByte(v: int): (r: Byte)
    ensures ((v - LowByte(v) as int) / 0x100 - r as int) % 0x100 == 0
  {
    (v / 0x100 % 0x100) as Byte
  }

  /** How a consumer reads a stored sample back: `lo | (hi << 8)` taken as a
      signed 16-bit value. */
  function Decode(lo: Byte, hi: Byte): Short
  {
    var u := lo as int + 0x100 * hi as int;
    if u < 0x8000 then u else u - 0x10000
  }

  /** Splitting a sample into its two bytes loses nothing. */
  lemma DecodeEncode(v: Short)
    ensures Decode(LowByte(v), HighByte(v)) == v
  {
    if v >= 0 {
      assert 0 <= v / 0x100 < 0x80;
    } else {
      assert -0x80 <= v / 0x100 < 0;
      assert HighByte(v) as int == v / 0x100 + 0x100;
    }
  }

  /** Every pair of bytes is the encoding of exactly one sample. */
  lemma EncodeDecode(lo: Byte, hi: Byte)
    ensures LowByte(Decode(lo, hi)) == lo && HighByte(Decode(lo, hi)) == hi
  {
    var u := lo as int + 0x100 * hi as int;
    if u >= 0x8000 {
      assert (u - 0x10000) / 0x100 == hi as int - 0x100;
    } else {
      assert u / 0x100 == hi as int;
    }
  }

  /** The C# cast `(int)x` of a value already within range: truncation toward zero. */
  function Truncate(x: real): (r: int)
    ensures 0.0 <= x ==> r as real <= x < r as real + 1.0
    ensures x < 0.0 ==> r as real - 1.0 < x <= r as real
  {
    if x >= 0.0 then x.Floor else -((-x).Floor)
  }

  /** One sample of a block append: clamped to [-32767, 32767], then truncated
      toward zero. Out-of-range values saturate instead of wrapping, and
      -32768 is never produced. */
  function Saturate(x: real): (r: Short)
    ensures -SAMPLE_LIMIT <= r <= SAMPLE_LIMIT
    ensures x >= SAMPLE_LIMIT as real ==> r == SAMPLE_LIMIT
    ensures x <= -SAMPLE_LIMIT as real ==> r == -SAMPLE_LIMIT
    ensures 0.0 <= x <= SAMPLE_LIMIT as real ==> r as real <= x < r as real + 1.0
    ensures -SAMPLE_LIMIT as real <= x < 0.0 ==> r as real - 1.0 < x <= r as real
  {
    if x > SAMPLE_LIMIT as real then SAMPLE_LIMIT
    else if x < -SAMPLE_LIMIT as real then -SAMPLE_LIMIT
    else Truncate(x)
  }

  /** A block of values as stored by a block append, element by element. */
  function Saturated(f: seq<real>): (r: seq<Short>)
    ensures |r| == |f|
    ensures forall i | 0 <= i < |r| :: -SAMPLE_LIMIT <= r[i] <= SAMPLE_LIMIT
  {
    seq(|f|, i requires 0 <= i < |f| => Saturate(f[i]))
  }

  /** Channel `c` (0 or 1) of `bytes` holds `samples`: the `j`-th sample sits
      at bytes `4j + 2c` (low) and `4j + 2c + 1` (high). */
  ghost predicate StoresChannel(bytes: seq<Byte>, c: nat, samples: seq<Short>)
  {
    c < 2 && 4 * |samples| <= |bytes| &&
    forall j | 0 <= j < |samples| ::
      bytes[4 * j + 2 * c] == LowByte(samples[j]) && bytes[4 * j + 2 * c + 1] == HighByte(samples[j])
  }

  /** `bytes` with sample `v` written at position `p`, low byte first. */
  function StoreSample(bytes: seq<Byte>, p: nat, v: Short): (r: seq<Byte>)
    requires p + 1 < |bytes|
    ensures |r| == |bytes|
    ensures Decode(r[p], r[p + 1]) == v
    ensures forall k | 0 <= k < |bytes| && k != p && k != p + 1 :: r[k] == bytes[k]
  {
    DecodeEncode(v);
    bytes[p := LowByte(v)][p + 1 := HighByte(v)]
  }

  /** `bytes` with `block` written from position `p` on, one sample every
      four bytes (one frame apart). */
  function StoreBlock(bytes: seq<Byte>, p: nat, block: seq<Short>): (r: seq<Byte>)
    requires p + 4 * |block| <= |bytes| + 2
    ensures |r| == |bytes|
    decreases |block|
  {
    if |block| == 0 then bytes
    else
      var n := |block| - 1;
      StoreSample(StoreBlock(bytes, p, block[..n]), p + 4 * n, block[n])
  }

  /** A block write puts the `i`-th sample at `p + 4i` and `p + 4i + 1`. */
  lemma {:induction false} StoreBlockWrites(bytes: seq<Byte>, p: nat, block: seq<Short>)
    requires p + 4 * |block| <= |bytes| + 2
    ensures forall i | 0 <= i < |block| ::
      StoreBlock(bytes, p, block)[p + 4 * i] == LowByte(block[i]) &&
      StoreBlock(bytes, p, block)[p + 4 * i + 1] == HighByte(block[i])
    decreases |block|
  {
    if |block| > 0 {
      var n := |block| - 1;
      var prefix := block[..n];
      StoreBlockWrites(bytes, p, prefix);
      var mid := StoreBlock(bytes, p, prefix);
      var r := StoreBlock(bytes, p, block);
      assert r == mid[p + 4 * n := LowByte(block[n])][p + 4 * n + 1 := HighByte(block[n])];
      forall i | 0 <= i < n
        ensures r[p + 4 * i] == LowByte(block[i]) && r[p + 4 * i + 1] == HighByte(block[i])
      {
        assert prefix[i] == block[i];
        assert r[p + 4 * i] == mid[p + 4 * i];
        assert r[p + 4 * i + 1] == mid[p + 4 * i + 1];
      }
    }
  }

  /** A block write leaves every other byte alone: those before `p`, those
      after the block, and the two bytes of each frame that belong to the
      other channel. */
  lemma {:induction false} StoreBlockKeeps(bytes: seq<Byte>, p: nat, block: seq<Short>)
    requires p + 4 * |block| <= |bytes| + 2
    ensures forall k | 0 <= k < |bytes| && (k < p || p + 4 * |block| <= k || (k - p) % 4 >= 2) ::
      StoreBlock(bytes, p, block)[k] == bytes[k]
    decreases |block|
  {
    if |block| > 0 {
      var n := |block| - 1;
      var prefix := block[..n];
      StoreBlockKeeps(bytes, p, prefix);
      var mid := StoreBlock(bytes, p, prefix);
      var r := StoreBlock(bytes, p, block);
      assert r == mid[p + 4 * n := LowByte(block[n])][p + 4 * n + 1 := HighByte(block[n])];
      forall k | 0 <= k < |bytes| && (k < p || p + 4 * |block| <= k || (k - p) % 4 >= 2)
        ensures r[k] == bytes[k]
      {
        if k < p {
          assert mid[k] == bytes[k];
        } else if p + 4 * |block| <= k {
          assert p + 4 * n <= k;
          assert mid[k] == bytes[k];
        } else {
          var q := (k - p) / 4;
          assert k - p == 4 * q + (k - p) % 4 && 2 <= (k - p) % 4;
          assert k != p + 4 * n && k != p + 4 * n + 1;
          assert mid[k] == bytes[k];
        }
      }
    }
  }

  /** A block write at channel `c`'s next position `p` of a stereo layout:
      afterwards the bytes hold channel `c` extended by the block, and the
      other channel as before. */
  lemma StoreBlockLayout(bytes: seq<Byte>, channels: seq<seq<Short>>, c: nat, p: nat, block: seq<Short>)
    requires |channels| == 2 && c < 2 && p == 4 * |channels[c]| + 2 * c
    requires StoresChannel(bytes, 0, channels[0]) && StoresChannel(bytes, 1, channels[1])
    requires 4 * (|channels[c]| + |block|) <= |bytes|
    ensures StoresChannel(StoreBlock(bytes, p, block), 0, channels[c := channels[c] + block][0])
    ensures StoresChannel(StoreBlock(bytes, p, block), 1, channels[c := channels[c] + block][1])
  {
    var grown := channels[c := channels[c] + block];
    if c == 0 {
      StoreBlockStores(bytes, 0, 1, p, channels[0], channels[1], block);
      assert grown[0] == channels[0] + block && grown[1] == channels[1];
    } else {
      StoreBlockStores(bytes, 1, 0, p, channels[1], channels[0], block);
      assert grown[1] == channels[1] + block && grown[0] == channels[0];
    }
  }

  /** Writing a block at channel `c`'s next position `p` extends what channel
      `c` holds by that block and keeps what the other channel `o` holds. */
  lemma StoreBlockStores(bytes: seq<Byte>, c: nat, o: nat, p: nat, samples: seq<Short>, other: seq<Short>, block: seq<Short>)
    requires c < 2 && o == 1 - c && p == 4 * |samples| + 2 * c
    requires StoresChannel(bytes, c, samples) && StoresChannel(bytes, o, other)
    requires 4 * (|samples| + |block|) <= |bytes|
    ensures StoresChannel(StoreBlock(bytes, p, block), c, samples + block)
    ensures StoresChannel(StoreBlock(bytes, p, block), o, other)
  {
    var r := StoreBlock(bytes, p, block);
    var all := samples + block;
    StoreBlockWrites(bytes, p, block);
    StoreBlockKeeps(bytes, p, block);
    forall j | 0 <= j < |all|
      ensures r[4 * j + 2 * c] == LowByte(all[j]) && r[4 * j + 2 * c + 1] == HighByte(all[j])
    {
      if j < |samples| {
        assert all[j] == samples[j];
      } else {
        var i := j - |samples|;
        assert all[j] == block[i];
        assert 4 * j + 2 * c == p + 4 * i;
      }
    }
    forall j | 0 <= j < |other|
      ensures r[4 * j + 2 * o] == bytes[4 * j + 2 * o]
      ensures r[4 * j + 2 * o + 1] == bytes[4 * j + 2 * o + 1]
    {
      var k := 4 * j + 2 * o;
      if p <= k {
        assert k - p == 4 * (j - |samples| - c) + 2;
        assert (k - p) % 4 == 2 && (k + 1 - p) % 4 == 3;
      }
    }
  }

  /** One interleaved frame. */
  function Frame(left: Short, right: Short): seq<Byte>
  {
    [LowByte(left), HighByte(left), LowByte(right), HighByte(right)]
  }

  /** The reference layout: equally many samples of each channel, frame after frame. */
  function Interleave(left: seq<Short>, right: seq<Short>): (bytes: seq<Byte>)
    requires |left| == |right|
    ensures |bytes| == 4 * |left|
  {
    if |left| == 0 then [] else Frame(left[0], right[0]) + Interleave(left[1..], right[1..])
  }

  /** The consumer's view: splits whole frames back into the two channels. */
  function Deinterleave(bytes: seq<Byte>): (channels: (seq<Short>, seq<Short>))
    requires |bytes| % 4 == 0
    ensures |channels.0| == |channels.1| == |bytes| / 4
  {
    if |bytes| == 0 then ([], [])
    else
      var rest := Deinterleave(bytes[4..]);
      ([Decode(bytes[0], bytes[1])] + rest.0, [Decode(bytes[2], bytes[3])] + rest.1)
  }

  /** Both channels sit where the positional layout says they do. */
  lemma {:induction false} InterleaveStores(left: seq<Short>, right: seq<Short>)
    requires |left| == |right|
    ensures StoresChannel(Interleave(left, right), 0, left)
    ensures StoresChannel(Interleave(left, right), 1, right)
  {
    if |left| > 0 {
      var bytes := Interleave(left, right);
      var tail := Interleave(left[1..], right[1..]);
      InterleaveStores(left[1..], right[1..]);
      assert bytes == Frame(left[0], right[0]) + tail;
      forall j, c | 1 <= j < |left| && 0 <= c < 2
        ensures bytes[4 * j + 2 * c] == tail[4 * (j - 1) + 2 * c]
        ensures bytes[4 * j + 2 * c + 1] == tail[4 * (j - 1) + 2 * c + 1]
      {
      }
      forall j | 1 <= j < |left|
        ensures bytes[4 * j] == LowByte(left[j]) && bytes[4 * j + 1] == HighByte(left[j])
        ensures bytes[4 * j + 2] == LowByte(right[j]) && bytes[4 * j + 3] == HighByte(right[j])
      {
        assert left[1..][j - 1] == left[j] && right[1..][j - 1] == right[j];
      }
    }
  }

  /** Conversely, bytes that hold equally many samples on both channels are,
      up to the last full frame, exactly the interleaved layout. */
  lemma InterleaveLayout(bytes: seq<Byte>, left: seq<Short>, right: seq<Short>)
    requires |left| == |right|
    requires StoresChannel(bytes, 0, left) && StoresChannel(bytes, 1, right)
    ensures bytes[..4 * |left|] == Interleave(left, right)
  {
    InterleaveStores(left, right);
    forall k | 0 <= k < 4 * |left|
      ensures bytes[k] == Interleave(left, right)[k]
    {
      SameByte(bytes, Interleave(left, right), left, right, k);
    }
  }

  /** Two byte sequences that store the same samples on both channels agree
      on every byte of a full frame. */
  lemma SameByte(a: seq<Byte>, b: seq<Byte>, left: seq<Short>, right: seq<Short>, k: nat)
    requires |left| == |right| && k < 4 * |left|
    requires StoresChannel(a, 0, left) && StoresChannel(a, 1, right)
    requires StoresChannel(b, 0, left) && StoresChannel(b, 1, right)
    ensures a[k] == b[k]
  {
    if k % 4 < 2 {
      ByteAt(a, 0, left, k);
      ByteAt(b, 0, left, k);
    } else {
      ByteAt(a, 1, right, k);
      ByteAt(b, 1, right, k);
    }
  }

  /** Byte `k` of a frame slot of channel `c` is the low or the high byte of
      the sample in frame k / 4, as `k` is even or odd. */
  lemma ByteAt(bytes: seq<Byte>, c: nat, samples: seq<Short>, k: nat)
    requires StoresChannel(bytes, c, samples)
    requires k < 4 * |samples| && k % 4 / 2 == c
    ensures bytes[k] == if k % 2 == 0 then LowByte(samples[k / 4]) else HighByte(samples[k / 4])
  {
    var j := k / 4;
    if k % 2 == 0 {
      assert k == 4 * j + 2 * c;
    } else {
      assert k == 4 * j + 2 * c + 1;
    }
  }

  /** Round trip: de-interleaving the interleaved layout gives back both channels. */
  lemma {:induction false} DeinterleaveInterleave(left: seq<Short>, right: seq<Short>)
    requires |left| == |right|
    ensures Deinterleave(Interleave(left, right)) == (left, right)
  {
    if |left| > 0 {
      var bytes := Interleave(left, right);
      assert bytes[4..] == Interleave(left[1..], right[1..]);
      DeinterleaveInterleave(left[1..], right[1..]);
      DecodeEncode(left[0]);
      DecodeEncode(right[0]);
      assert left == [left[0]] + left[1..];
      assert right == [right[0]] + right[1..];
    }
  }
}

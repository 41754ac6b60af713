/** The output buffer MP3Sharp fills with decoded samples: 16-bit stereo PCM,
    appended one channel at a time and drained by a frame-aligned Read. */
module MP3Sharp {
  import opened Pcm16

  /** This buffer is stereo. */
  const CHANNELS: int := 2

  /** The number of write cursors. The base class ABuffer declares it; it is
      not part of this model and is taken here as the two channels served. */
  const MAXCHANNELS: int := 2

  /** C#'s `count % (2 * CHANNELS)`: the remainder takes the sign of the
      dividend (truncated division), unlike Dafny's Euclidean `%`. */
  function FrameRemainder(count: int): (r: int)
    ensures 0 <= count ==> 0 <= r < 2 * CHANNELS
    ensures count < 0 ==> -2 * CHANNELS < r <= 0
    ensures (count - r) % (2 * CHANNELS) == 0
  {
    if count >= 0 then count % (2 * CHANNELS)
    else
      var m := -count;
      assert m == 4 * (m / 4) + m % 4;
      -(m % (2 * CHANNELS))
  }

  /** The number of bytes Read hands out when `count` are asked for and
      `remaining` are available. */
  function CopySize(count: int, remaining: int): (r: int)
    ensures count > remaining ==> r == remaining
    ensures count <= remaining ==> r % (2 * CHANNELS) == 0
    ensures 0 <= count <= remaining ==> r <= count < r + 2 * CHANNELS
    ensures count < 0 && count <= remaining ==> count <= r <= 0
  {
    if count > remaining then remaining else count - FrameRemainder(count)
  }

  /** A read drains everything when more is asked for than is left, and
      otherwise hands out the largest whole number of frames within `count`. */
  lemma CopySizeIsFrameAligned(count: int, remaining: int)
    requires 0 <= count && 0 <= remaining
    ensures 0 <= CopySize(count, remaining) <= count
    ensures CopySize(count, remaining) <= remaining
    ensures count > remaining ==> CopySize(count, remaining) == remaining
    ensures count <= remaining ==>
      CopySize(count, remaining) % (2 * CHANNELS) == 0 &&
      count < CopySize(count, remaining) + 2 * CHANNELS
  {
  }

  /** A negative count asks for nothing: it copies zero bytes, except that a
      count of -4 or less yields a negative length, which Array.Copy rejects. */
  lemma CopySizeOfNegativeCount(count: int, remaining: int)
    requires count < 0 <= remaining
    ensures 0 <= CopySize(count, remaining) <==> -2 * CHANNELS < count
    ensures 0 <= CopySize(count, remaining) ==> CopySize(count, remaining) == 0
  {
  }

  /** When the whole-frame content fits in the request, one read drains it. */
  lemma ReadDrainsAll(count: int, remaining: int)
    requires 0 <= remaining <= count && remaining % (2 * CHANNELS) == 0
    ensures CopySize(count, remaining) == remaining
  {
  }

  /** A channel whose next cursor `4n + 2c` leaves room for the last of
      `frames` more samples fits them within a whole-frame array. */
  lemma RoomForFrames(n: nat, c: nat, frames: nat, length: nat)
    requires c < 2 && 0 < frames && length % 4 == 0
    requires 4 * n + 2 * c + 4 * (frames - 1) + 1 < length
    ensures 4 * (n + frames) <= length
  {
    var q := length / 4;
    assert length == 4 * q;
  }

  class Buffer16BitStereo {
    /** m_Buffer: all channels interleaved, two bytes per sample. */
    const buffer: array<Byte>
    /** m_Bufferp: where each channel writes its next sample. */
    const bufferp: array<int>
    /** m_End: one past the last byte a reader may take. */
    var end: int
    /** m_Offset: the next byte a reader takes. */
    var offset: int
    /** The samples appended to each channel since the last ClearBuffer. */
    ghost var Samples: seq<seq<Short>>

    /** The object invariant: the read window lies within the array and holds
        whole frames, each cursor sits after its channel's samples (channel 1
        two bytes behind channel 0's frame start), and the bytes hold those
        samples interleaved. */
    ghost predicate Valid()
      reads this, buffer, bufferp
    {
      buffer.Length % (2 * CHANNELS) == 0 &&
      bufferp.Length == MAXCHANNELS &&
      |Samples| == CHANNELS &&
      0 <= offset <= end <= buffer.Length &&
      offset % (2 * CHANNELS) == 0 && end % (2 * CHANNELS) == 0 &&
      bufferp[0] == 2 * CHANNELS * |Samples[0]| && StoresChannel(buffer[..], 0, Samples[0]) &&
      bufferp[1] == 2 * CHANNELS * |Samples[1]| + 2 && StoresChannel(buffer[..], 1, Samples[1])
    }

    /** Builds an empty buffer of 2 * obufferSize zero bytes. The size must be
        even, so that the array holds whole 4-byte frames. */
    constructor (obufferSize: nat)
      requires obufferSize % 2 == 0
      ensures Valid() && fresh(buffer) && fresh(bufferp)
      ensures buffer.Length == 2 * obufferSize
      ensures forall i | 0 <= i < buffer.Length :: buffer[i] == 0
      ensures offset == 0 && end == 0 && Samples == [[], []]
      ensures forall c | 0 <= c < CHANNELS :: bufferp[c] == 2 * c
    {
      buffer := new Byte[2 * obufferSize](_ => 0);
      bufferp := new int[MAXCHANNELS](_ => 0);
      new;
      ClearBuffer();
    }

    /** The number of bytes a reader may still take: never negative, whole
        frames, and within the array. */
    function BytesLeft(): (n: int)
      reads this, buffer, bufferp
      requires Valid()
      ensures 0 <= n && n % (2 * CHANNELS) == 0
      ensures offset + n <= buffer.Length
    {
      end - offset
    }

    /** Copies up to `count` bytes, in whole frames unless it drains the
        rest, to bufferOut[outOffset..]. The requires are those of Array.Copy:
        a non-negative length and a destination range that fits. */
    method Read(bufferOut: array<Byte>, outOffset: int, count: int) returns (copySize: int)
      requires Valid()
      requires bufferOut != buffer
      requires 0 <= CopySize(count, end - offset)
      requires 0 <= outOffset && outOffset + CopySize(count, end - offset) <= bufferOut.Length
      modifies this, bufferOut
      ensures Valid()
      ensures copySize == CopySize(count, old(end - offset))
      ensures offset == old(offset) + copySize && end == old(end) && Samples == old(Samples)
      ensures bufferOut[outOffset..outOffset + copySize] == buffer[old(offset)..offset]
      ensures bufferOut[..outOffset] == old(bufferOut[..outOffset])
      ensures bufferOut[outOffset + copySize..] == old(bufferOut[outOffset + copySize..])
    {
      ghost var bytes := buffer[..];
      var remaining := BytesLeft();
      if count > remaining {
        copySize := remaining;
      } else {
        // copy whole sample frames only
        var remainder := FrameRemainder(count);
        copySize := count - remainder;
        if count < 0 {
          CopySizeOfNegativeCount(count, remaining);
        }
      }
      forall i | 0 <= i < copySize {
        bufferOut[outOffset + i] := buffer[offset + i];
      }
      assert buffer[..] == bytes;
      assert bufferOut[outOffset..outOffset + copySize] == buffer[offset..offset + copySize];
      offset := offset + copySize;
    }

    /** Stores one sample on `channel`, low byte at the cursor and high byte
        after it, and moves that cursor on by one frame. */
    method Append(channel: int, value: Short)
      requires Valid()
      requires 0 <= channel < MAXCHANNELS
      requires bufferp[channel] + 1 < buffer.Length
      modifies this, buffer, bufferp
      ensures Valid()
      ensures Samples == old(Samples)[channel := old(Samples[channel]) + [value]]
      ensures buffer[..] == StoreSample(old(buffer[..]), old(bufferp[channel]), value)
      ensures bufferp[channel] == old(bufferp[channel]) + 2 * CHANNELS
      ensures forall c | 0 <= c < MAXCHANNELS && c != channel :: bufferp[c] == old(bufferp[c])
      ensures end == old(end) && offset == old(offset)
    {
      ghost var before, p := buffer[..], bufferp[channel];
      RoomForFrames(|Samples[channel]|, channel, 1, |before|);
      StoreBlockLayout(before, Samples, channel, p, [value]);
      assert StoreBlock(before, p, [value]) == StoreSample(before, p, value) by {
        assert [value][..0] == [];
      }
      buffer[bufferp[channel]] := LowByte(value);
      buffer[bufferp[channel] + 1] := HighByte(value);
      assert buffer[..] == StoreSample(before, p, value);
      bufferp[channel] := bufferp[channel] + CHANNELS * 2;
      Samples := Samples[channel := Samples[channel] + [value]];
    }

    /** Stores the first 32 values of `f` on `channel`, each saturated to
        [-32767, 32767] and truncated toward zero, one frame apart, and moves
        that cursor on by 32 frames. */
    method AppendSamples(channel: int, f: seq<real>)
      requires Valid()
      requires 0 <= channel < MAXCHANNELS
      requires |f| >= 32
      requires bufferp[channel] + 2 * CHANNELS * 31 + 1 < buffer.Length
      modifies this, buffer, bufferp
      ensures Valid()
      ensures Samples == old(Samples)[channel := old(Samples[channel]) + Saturated(f[..32])]
      ensures buffer[..] == StoreBlock(old(buffer[..]), old(bufferp[channel]), Saturated(f[..32]))
      ensures bufferp[channel] == old(bufferp[channel]) + 32 * 2 * CHANNELS
      ensures forall c | 0 <= c < MAXCHANNELS && c != channel :: bufferp[c] == old(bufferp[c])
      ensures end == old(end) && offset == old(offset)
    {
      var pos := bufferp[channel];
      ghost var start, before, block := pos, buffer[..], Saturated(f[..32]);
      for i := 0 to 32
        modifies buffer
        invariant pos == start + 4 * i
        invariant buffer[..] == StoreBlock(before, start, block[..i])
      {
        var sample := Saturate(f[i]);
        assert sample == block[i];
        assert block[..i + 1][..i] == block[..i];
        buffer[pos] := LowByte(sample);
        buffer[pos + 1] := HighByte(sample);
        pos := pos + CHANNELS * 2;
      }
      assert block[..32] == block;
      assert buffer[..] == StoreBlock(before, start, block);
      RoomForFrames(|Samples[channel]|, channel, |block|, |before|);
      StoreBlockLayout(before, Samples, channel, start, block);
      bufferp[channel] := pos;
      Samples := Samples[channel := Samples[channel] + block];
    }

    /** Resets the cursors and the read window. The stored bytes are left as
        they are. */
    method ClearBuffer()
      requires buffer.Length % (2 * CHANNELS) == 0 && bufferp.Length == MAXCHANNELS
      modifies this, bufferp
      ensures Valid()
      ensures offset == 0 && end == 0 && BytesLeft() == 0
      ensures forall c | 0 <= c < CHANNELS :: bufferp[c] == 2 * c
      ensures Samples == [[], []]
      ensures buffer[..] == old(buffer[..])
    {
      offset := 0;
      end := 0;
      for i := 0 to CHANNELS
        modifies bufferp
        invariant forall c | 0 <= c < i :: bufferp[c] == 2 * c
      {
        bufferp[i] := i * 2;
      }
      Samples := [[], []];
    }

    /** Ends a write cycle: the read window becomes everything channel 0 has
        written. `val` is ignored. When both channels hold equally many
        samples, the window is exactly their interleaved layout. */
    method WriteBuffer(val: int)
      requires Valid()
      modifies this
      ensures Valid()
      ensures offset == 0 && end == bufferp[0] && Samples == old(Samples)
      ensures BytesLeft() == 2 * CHANNELS * |Samples[0]|
      ensures |Samples[0]| == |Samples[1]| ==> buffer[offset..end] == Interleave(Samples[0], Samples[1])
    {
      offset := 0;
      end := bufferp[0];
      if |Samples[0]| == |Samples[1]| {
        InterleaveLayout(buffer[..], Samples[0], Samples[1]);
      }
    }
  }
}

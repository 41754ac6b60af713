# Buffer16BitStereo in Dafny

MP3Sharp decodes an MP3 stream into PCM samples. It queues them in
`Buffer16BitStereo` until the caller reads them as bytes. The buffer holds
signed 16-bit stereo PCM:

- Each sample takes two bytes, low byte first.
- The two channels are interleaved in four-byte frames: left low, left high,
  right low, right high.
- The decoder fills the buffer one channel at a time. `Append` stores one
  sample and `AppendSamples` stores a block of 32 clamped floats. Each
  channel has its own write cursor, `m_Bufferp[c]`, which starts at `2c` and
  moves on by one frame per sample.
- `WriteBuffer` ends a write cycle: the read window becomes everything
  channel 0 has written. `Read` then hands that window out in whole frames,
  unless it drains the rest.
- `ClearBuffer` rewinds the cursors and the window but leaves the bytes as
  they are.

The project has two modules.

- `Pcm16` (`pcm16.dfy`) covers the sample format:
  - the byte split of a `short` and how a consumer decodes it;
  - the saturating conversion of block samples;
  - the positional layout of one channel (`StoresChannel`);
  - the value-level effect of writing one sample (`StoreSample`) or a block
    (`StoreBlock`);
  - the reference interleaved layout (`Interleave`) and its inverse
    (`Deinterleave`).
- `MP3Sharp` (`buffer16bitstereo.dfy`) covers the class. It holds:
  - the byte array and the cursor array, as `const` arrays;
  - `end` and `offset`, as mutable fields;
  - a ghost field `Samples`, the samples each channel has received since the
    last `ClearBuffer`.

  The object invariant `Valid()` says four things:
  - the read window lies within the array and is frame-aligned;
  - channel `c`'s cursor is `4 * |Samples[c]| + 2c`;
  - the stored bytes hold both channels' samples at their frame positions;
  - the byte array holds whole frames.

  Each method is proved to keep the invariant. Each method also states its
  exact new state in terms of the old one.

C#'s `%` truncates toward zero, so for a negative count it differs from
Dafny's Euclidean `%`. `FrameRemainder` writes out the C# operator.

## Model

| member | source | states |
|---|---|---|
| Pcm16.LowByte | MP3Sharp/Buffer16BitStereo.cs:79 | `(byte)(v & 0xff)` as `v % 256`: the byte that differs from `v` by a multiple of 256, i.e. the low eight bits of the two's-complement value (also the store at line 100) |
| Pcm16.HighByte | MP3Sharp/Buffer16BitStereo.cs:80 | `(byte)(v >> 8)` as floor division by 256 then mod 256: `v` minus its low byte divides exactly by 256, and the result is that quotient (the arithmetic shift) cut to eight bits (also the store at line 101) |
| Pcm16.DecodeEncode | MP3Sharp/Buffer16BitStereo.cs:79-80 | reading the two stored bytes back as `lo \| (hi << 8)`, taken as a signed 16-bit value, gives the original `short` |
| Pcm16.EncodeDecode | MP3Sharp/Buffer16BitStereo.cs:79-80 | every byte pair is the stored form of exactly the sample it decodes to, so the two-byte encoding is a bijection |
| Pcm16.Truncate | MP3Sharp/Buffer16BitStereo.cs:99 | the `(int)` cast of an in-range value rounds toward zero: it is the largest integer not above a non-negative value, and the smallest integer not below a negative one |
| Pcm16.Saturate | MP3Sharp/Buffer16BitStereo.cs:93-99 | a block sample lies in [-32767, 32767]; values at or above 32767 store as 32767; values at or below -32767 store as -32767; in-range values are truncated toward zero; -32768 is never produced |
| Pcm16.Saturated | MP3Sharp/Buffer16BitStereo.cs:91-101 | a block of values saturates element by element to as many samples, each within [-32767, 32767] |
| Pcm16.StoreSample | MP3Sharp/Buffer16BitStereo.cs:79-80 | writing a sample at `p` makes bytes `p`, `p+1` decode to it and leaves every other byte unchanged |
| Pcm16.StoreBlock | MP3Sharp/Buffer16BitStereo.cs:91-104 | the write loop as a function of the old bytes: sample `i` of the block written from `p + 4i` on, in loop order; the length is unchanged, and where every byte ends up is stated by StoreBlockWrites and StoreBlockKeeps |
| Pcm16.StoreBlockWrites | MP3Sharp/Buffer16BitStereo.cs:91-104 | the loop's writes put the `i`-th sample's low and high bytes at `p + 4i` and `p + 4i + 1` |
| Pcm16.StoreBlockKeeps | MP3Sharp/Buffer16BitStereo.cs:91-104 | the loop's writes leave alone every byte before `p`, every byte after the block, and the two bytes of each frame that belong to the other channel |
| Pcm16.StoreBlockStores | MP3Sharp/Buffer16BitStereo.cs:86-106 | writing a block at channel `c`'s next position extends what channel `c` holds by the block and keeps what the other channel holds |
| Pcm16.StoreBlockLayout | MP3Sharp/Buffer16BitStereo.cs:77-107 | a sample or block written on one channel of a stereo layout leaves both channels stored: the written channel grows by the block and the other is unchanged |
| Pcm16.InterleaveStores | MP3Sharp/Buffer16BitStereo.cs:77-83 | in the interleaved layout, the `j`-th sample of channel `c` sits at bytes `4j + 2c` and `4j + 2c + 1` |
| Pcm16.InterleaveLayout | MP3Sharp/Buffer16BitStereo.cs:117-118 | bytes holding `k` samples on each channel at cursors `2c + 4j` are, over their first `4k` bytes, exactly the interleaved layout |
| Pcm16.SameByte | MP3Sharp/Buffer16BitStereo.cs:79-82 | two byte sequences storing the same samples on both channels agree on every byte of the full frames |
| Pcm16.ByteAt | MP3Sharp/Buffer16BitStereo.cs:79-82 | a byte in channel `c`'s half of frame `k/4` is that sample's low byte if `k` is even and its high byte if `k` is odd |
| Pcm16.DeinterleaveInterleave | MP3Sharp/Buffer16BitStereo.cs:77-83 | a consumer that splits the interleaved bytes back into frames recovers both channels exactly |
| MP3Sharp.FrameRemainder | MP3Sharp/Buffer16BitStereo.cs:66 | C#'s `count % 4`: in [0, 4) for a non-negative count and in (-4, 0] for a negative one, and `count` minus it is a multiple of 4 |
| MP3Sharp.CopySize | MP3Sharp/Buffer16BitStereo.cs:57-68 | Read's copy size: all that remains when more is asked for; otherwise `count` minus C#'s truncated remainder, a multiple of 4 that is the largest not above a non-negative `count`, and lies in [`count`, 0] for a negative one |
| MP3Sharp.CopySizeIsFrameAligned | MP3Sharp/Buffer16BitStereo.cs:57-68 | for `count >= 0`, the copy size never exceeds `count` or the bytes left; it is everything left when more is asked for; otherwise it is the largest multiple of 4 not above `count` |
| MP3Sharp.CopySizeOfNegativeCount | MP3Sharp/Buffer16BitStereo.cs:59-68 | a negative count yields copy size 0 when it is above -4, and a negative size (which `Array.Copy` rejects) otherwise |
| MP3Sharp.ReadDrainsAll | MP3Sharp/Buffer16BitStereo.cs:57-68 | when the frame-aligned content fits within `count`, one read takes all of it |
| MP3Sharp.Buffer16BitStereo.constructor | MP3Sharp/Buffer16BitStereo.cs:31-43 | a fresh object has `2 * OBUFFERSIZE` zero bytes, an empty read window, cursors at `2c` and no samples, and satisfies the object invariant |
| MP3Sharp.Buffer16BitStereo.BytesLeft | MP3Sharp/Buffer16BitStereo.cs:45-51 | the bytes left are never negative, are whole frames and lie within the array |
| MP3Sharp.Buffer16BitStereo.Read | MP3Sharp/Buffer16BitStereo.cs:55-74 | returns the C# copy size, copies exactly `m_Buffer[m_Offset..m_Offset + result]` to `bufferOut[offset..]`, leaves the other destination bytes alone, advances `m_Offset` by the result and keeps the invariant (so `m_Offset <= m_End`) |
| MP3Sharp.Buffer16BitStereo.Append | MP3Sharp/Buffer16BitStereo.cs:77-83 | writes the sample's low and high bytes at the channel's cursor and changes no other byte; advances only that cursor, by 4; leaves `m_End` and `m_Offset`; the channel's samples grow by one |
| MP3Sharp.Buffer16BitStereo.AppendSamples | MP3Sharp/Buffer16BitStereo.cs:86-107 | stores the 32 saturated values at `p, p+4, …, p+124` and changes no other byte; leaves the cursor at `p + 128` and the other cursor, `m_End` and `m_Offset` unchanged; the channel's samples grow by the block |
| MP3Sharp.Buffer16BitStereo.ClearBuffer | MP3Sharp/Buffer16BitStereo.cs:109-119 | the offset, the end and the bytes left are 0, channel `c`'s cursor is `2c`, and the stored bytes are not modified |
| MP3Sharp.Buffer16BitStereo.WriteBuffer | MP3Sharp/Buffer16BitStereo.cs:125-134 | `m_Offset` is 0, `m_End` is channel 0's cursor, `val` is ignored, and the bytes left are four per channel-0 sample; when both channels hold equally many samples, the read window is exactly their interleaved layout |

## Left out

- `SetStopFlag` and `Close` (MP3Sharp/Buffer16BitStereo.cs:121-123, 136-138) are empty overrides with no effect to model.
- IEEE-754 `float` semantics are not modelled: NaN, infinities and the rounding of `(int)fs`. `AppendSamples` takes its values as `seq<real>`.
- The base class `ABuffer` and the `MP3Sharp.Decoding` namespace are not part of this model. `OBUFFERSIZE` becomes the constructor's parameter.
- MP3Sharp.Buffer16BitStereo.constructor: requires `OBUFFERSIZE` to be even, so that the byte array holds whole four-byte frames. The actual value lives in `ABuffer` and is not shown here.
- MAXCHANNELS: fixed at 2, the number of channels this class serves, because `ABuffer`'s value is not shown.
- Runtime exceptions are stated as preconditions rather than modelled as exception flow. These are the out-of-range indexing in `Append` and `AppendSamples`, a negative length or short destination in `Array.Copy`, and a block shorter than 32 values.
- MP3Sharp.Buffer16BitStereo.Read: requires the destination to be a different array from the buffer's own storage. `m_Buffer` is private (MP3Sharp/Buffer16BitStereo.cs:31) and never handed out, so no caller can pass it, and the requirement excludes no call the class accepts.
- MP3Sharp.Buffer16BitStereo.Append: requires the channel's cursor and the byte after it to lie inside the array. In C#, with a whole-frame array, an append past the end throws on its first write and changes nothing.
- MP3Sharp.Buffer16BitStereo.AppendSamples: requires all 32 writes to lie inside the array. In C#, a block that runs past the end writes the samples that fit, then throws, and leaves the channel's cursor where it was, since the cursor is stored only after the loop (MP3Sharp/Buffer16BitStereo.cs:106). The model does not capture that partial write.
- There is no threading or I/O; the class has none.

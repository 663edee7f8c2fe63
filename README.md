# technicallyalac in Dafny

technicallyalac is an incremental Apple Lossless (ALAC) encoder in a single C
header. It compresses nothing. Every channel element uses ALAC's "escape"
mode and carries its samples verbatim. The caller hands it output windows of
any size, even one byte. Each call fills the window, and the next call
resumes where the previous one stopped.

This project models that encoder and proves what its output is:

- **`bits.dfy`, module `Bits`.** Fixed-width integer types and the bit-level
  vocabulary:
  - `ToBits`, the low `w` bits of a value, most significant first;
  - `Field(width, value)` lists and `Emit`, which turns a field list into
    its bits;
  - `BytesBits`, the bits of a byte sequence.
- **`bitwriter.dfy`, module `BitWriting`.** The 64-bit accumulator
  (`technicallyalac_bitwriter_*`) as a class with fields `val`, `bits`,
  `pos`, `len` and `buffer`. Its methods are `Init`, `Flush` (with its byte
  loop `WriteBytes`), `Add` and `Align`.
- **`format.dfy`, module `AlacFormat`.** The output as a specification:
  - the 24-byte `ALACSpecificConfig` "magic cookie", field by field;
  - the channel element (23-bit header, optional 32-bit frame count,
    `bitdepth`-bit samples);
  - the packet (every channel element, the end tag `111`, zero padding to a
    byte boundary);
  - the size arithmetic of `technicallyalac_packet_size` and
    `technicallyalac_max_packet_size`.
- **`encoder.dfy`, module `Encoding`.** The encoder object as a class
  holding the configuration, the bit writer and the three resumable state
  machines (cookie, channel, packet).
  - Each C function with a `while(pos < len && r)` loop becomes a method
    with that loop. The loop body is one flush followed by one switch pass.
  - A ghost record of the bytes handed out so far for the current cookie or
    packet ties the machines to the specification. However the output is
    split across calls, those bytes are always a prefix of the specified bit
    sequence. When a call returns 0, they are all of it.
- **`shared.dfy`, module `ExampleShared`.** The helpers the example programs
  share:
  - `repack_samples_deinterleave`;
  - `pack_uint32le`;
  - the big-endian buffers that `write_uint16/32/64` build.

Source bytes are modelled as `u8` values, and samples as `i32` or `i16`.
32- and 64-bit unsigned wrap-around is written out as `% 2^32` or `% 2^64`
wherever the C code relies on it: the average bitrate, the casts of the
sizes to `uint32_t`, the `uint64_t` subtraction in the maximum size, and the
interleaved index.

## Model

| member | source | states |
|---|---|---|
| BitWriting.BitWriter.Init | technicallyalac.h:144-147 | the accumulator is empty: no pending bits, `val` 0 |
| BitWriting.BitWriter.Add | technicallyalac.h:169-179 | succeeds exactly when `bits + w <= 64`. On success the pending bits become the old ones followed by the low `w` bits of the value. On failure `val` and `bits` are unchanged |
| BitWriting.AppendedBits | technicallyalac.h:174-177 | shifting `val` left by `w` and or-ing in the masked value keeps the result within 64 bits and appends exactly those `w` bits |
| BitWriting.BitWriter.Flush | technicallyalac.h:150-167 | writes `min(bits/8, len-pos)` bytes, each the next 8 most significant pending bits. It stops with the window full or fewer than 8 bits left, and never passes `len`. Output bytes plus pending bits equal the pending bits before; no other buffer byte changes; `val < 2^bits` holds afterwards |
| BitWriting.BitWriter.WriteBytes | technicallyalac.h:151-160 | the byte loop of the flush: `bits` drops by 8 per byte written, and the bytes written followed by the remaining low bits of `val` are the old pending bits |
| BitWriting.FlushCountExact | technicallyalac.h:155-160 | a drain that stops on a full window or on fewer than 8 bits wrote exactly `min(bits/8, room)` bytes |
| BitWriting.FlushMakesProgress | technicallyalac.h:155-160 | with a whole pending byte and room for one, a flush writes at least one byte and at most the room |
| BitWriting.BitWriter.Align | technicallyalac.h:181-186 | always succeeds. It appends `(8 - bits % 8) % 8` zero bits and leaves `bits` a multiple of 8 |
| BitWriting.FlushStallsAsWritten | technicallyalac.h:151 | with `2^29` bytes of room, the 32-bit `avail` is 0 and a full accumulator writes nothing, while `min(bits/8, room)` is 8 |
| AlacFormat.RoundUpToBytes | technicallyalac.h:460-462 | the rounded byte count `r` satisfies `bits <= 8r < bits + 8`, so it is the ceiling of `bits / 8` |
| AlacFormat.LargerBitsExact | technicallyalac.h:471-473 | the `uint64_t` subtraction and the addition of 32 wrap back, so the larger-of result is exact integer arithmetic |
| AlacFormat.PacketSizeBitsRange | technicallyalac.h:440-456 | a supported configuration has between 26 and 2^48 bits per packet |
| AlacFormat.MaxPacketSizeBitsExact | technicallyalac.h:466-481 | for every supported configuration the maximum is the larger of the regular count and `bits + 32 - (bitdepth + channels)` |
| AlacFormat.PacketSizeBits | technicallyalac.h:440-456 | the bit count of a full packet stays below 2^50 for every configuration, so the `uint64_t` sum never wraps and unbounded arithmetic is exact |
| AlacFormat.PacketSize | technicallyalac.h:458-464 | while the byte count fits 32 bits, `packet_size` is the ceiling of the bit count over 8: `8 * size >= bits > 8 * size - 8` |
| AlacFormat.LargerBits | technicallyalac.h:466-474 | the larger-of result is never below the regular count, and stays a `uint64_t` value |
| AlacFormat.MaxPacketSizeBits | technicallyalac.h:466-474 | the maximum bit count is never below the full packet's bit count |
| AlacFormat.MaxPacketSize | technicallyalac.h:466-481 | while the maximum's byte count fits 32 bits, `max_packet_size >= packet_size` |
| AlacFormat.AverageBitrate | technicallyalac.h:296 | the cookie's average bitrate is `samplerate * channels * bitdepth` exactly when that product fits 32 bits, and a smaller, wrapped value otherwise |
| AlacFormat.MaxPacketSizeWraps | technicallyalac.h:458-481 | the `uint32_t` casts can reverse that order: with frame length `2^32 - 5` at 8-bit mono the regular size is `2^32 - 1` and the maximum is 2 |
| AlacFormat.PacketSizeStereo16 | technicallyalac.h:440-481 | the example driver's configuration (4096 frames, stereo, 16-bit) gives 16391 and 16392 bytes |
| AlacFormat.CookieLength | technicallyalac.h:192-194 | every cookie layout is `8 * 24` bits, matching `technicallyalac_size_cookie` |
| AlacFormat.CookieFieldFits | technicallyalac.h:236-306 | every cookie field is 8, 16 or 32 bits wide and holds a value below 2^32 |
| AlacFormat.CookieFieldReadsBack | technicallyalac.h:236-306 | reading any cookie field's bits back as a big-endian number gives exactly the value written: no cookie value is truncated |
| AlacFormat.ChannelHeaderFits | technicallyalac.h:334-368 | every channel-header field is 1 to 12 bits wide and holds a value below 256 |
| AlacFormat.SampleFieldsAt | technicallyalac.h:378-386 | sample `i` becomes field `i`, `bitdepth` bits wide, in input order |
| AlacFormat.SampleReadsBack | technicallyalac.h:378-386 | the bits written for sample `i` read back as `samples[i] mod 2^bitdepth`: only the low `bitdepth` bits of a sample survive |
| AlacFormat.ChannelFraming | technicallyalac.h:328-387 | a channel element has the 6-field header. Its flag bit is 1 exactly when `n != framelength`, and its escape bit is 1. The 32-bit count follows exactly in that case, and the last `n` fields are the samples |
| AlacFormat.ChannelWidth | technicallyalac.h:440-449 | a channel element of `n` samples is `23 + (32 if partial) + bitdepth * n` bits; for a full packet that is the per-channel count of the size calculation |
| AlacFormat.ChannelsWidth | technicallyalac.h:451 | `k` channel elements are `k` times one element's width |
| AlacFormat.PacketWidth | technicallyalac.h:440-456 | the fields of a packet of `n` frames add up to `channels * element + 3` bits |
| AlacFormat.PacketLengthFor | technicallyalac.h:393-438 | every packet is a whole number of bytes, exactly the rounded-up bit count; for `n == framelength` that count is `packet_size_internal` |
| AlacFormat.PacketLength | technicallyalac.h:440-464 | a full packet is exactly `ceil(PacketSizeBits / 8)` bytes |
| AlacFormat.FullPacketIsPacketSize | technicallyalac.h:458-464 | while the count fits in 32 bits, a full packet is exactly `technicallyalac_packet_size` bytes |
| AlacFormat.PacketBitsShape | technicallyalac.h:419-432 | a packet is its channel elements, then `111`, then zero padding to a byte boundary |
| AlacFormat.PacketWholeBytes | technicallyalac.h:419-432 | every packet, full or short, ends on a byte boundary |
| AlacFormat.LaidOut | technicallyalac.h:403-418 | channel element `c` sits at offset `c * element length` in the packet's fields, and the end tag comes last |
| AlacFormat.LaidUnique | technicallyalac.h:403-418 | only the packet's own field list has that layout, so element-by-element progress determines the packet |
| AlacFormat.MaxPacketSizeTooSmall | technicallyalac.h:466-481 | for stereo 16-bit with 4096 frames, a final packet of 4095 frames is 16395 bytes. `max_packet_size` says 16392, while the corrected bound says 16395 |
| AlacFormat.PacketWithinLargest | technicallyalac.h:466-481 | corrected bound: no packet of 1 to `framelength` frames is longer than `ceil(LargestPacketBits / 8)` bytes, and the bound is a full packet's or a `framelength - 1` packet's size |
| Encoding.CookieNextAdvances | technicallyalac.h:236-306 | each field state hands over to the state of the next cookie field, and the steps left decrease |
| Encoding.CookieSoFarIsPrefix | technicallyalac.h:236-306 | the bits the cookie machine has queued in any state are a prefix of the cookie |
| Encoding.ChannelNextAdvances | technicallyalac.h:328-387 | each channel-header state hands over to the next, moving to the size field exactly for a short packet, and the steps left decrease |
| Encoding.Init | technicallyalac.h:196-219 | status is 0 exactly when `4 <= bitdepth <= 32` and `1 <= channels <= 2`, and -1 otherwise. On success every machine is at START, `frame` and `channel` are 0, and the accumulator is empty. The encoder and its bit writer are both fresh, so a caller may go on to call Cookie and Packet on it |
| Encoding.Encoder.constructor | technicallyalac.h:196-219 | a fresh encoder for a supported configuration satisfies the invariant, is idle, and has empty progress |
| Encoding.Encoder.Cookie | technicallyalac.h:221-321 | a null window or a zero count returns 24 and changes nothing. Otherwise at least one and at most `bytes` bytes are written and reported. While it returns 1 the window is full and everything handed out is a prefix of the cookie. When it returns 0 the bytes of all calls are exactly the cookie and the machine is back at START. The window past the reported count is left as it was |
| Encoding.Encoder.CookieLoop | technicallyalac.h:232-316 | the loop terminates. It writes at least one byte and stops on a full window; on return 0 the bytes handed out are the whole cookie |
| Encoding.Encoder.CookieStep | technicallyalac.h:235-315 | one pass of the switch keeps the invariant. It returns 0 only in END with nothing pending, and only once the cookie is complete |
| Encoding.Encoder.ChannelLoop | technicallyalac.h:323-391 | the channel machine stops on a full window inside the element, or returns 0 once the whole element is queued and the state is back at START |
| Encoding.Encoder.AddSample | technicallyalac.h:378-386 | the `int32_t` sample, widened to `uint64_t` by sign extension, queues the low `bitdepth` bits of the sample itself. The machine stays inside its element. With the accumulator drained, a pass makes progress. After the last sample it returns 0 with the element complete and the channel machine back at START |
| Encoding.Encoder.ChannelStep | technicallyalac.h:326-388 | one pass keeps the machine inside its element. With the accumulator drained, a pass that continues always makes progress |
| Encoding.Encoder.ChannelPacket | technicallyalac.h:410-418 | one pass in PACKET_CHANNEL keeps the invariant, and either fills the window or moves on to the next element or to END |
| Encoding.Encoder.EndPacket | technicallyalac.h:419-425 | the end tag and the alignment are queued together, and the machine moves to FLUSH once they fit |
| Encoding.Encoder.FlushPacket | technicallyalac.h:426-432 | FLUSH returns 0 only with nothing pending. At that point the bytes handed out are the whole padded packet and the machine is back at START |
| Encoding.Encoder.PacketLoop | technicallyalac.h:400-434 | the packet loop terminates. It either fills the window with a prefix of the packet, or returns 0 with the whole packet handed out |
| Encoding.Encoder.Packet | technicallyalac.h:393-438 | while it returns 1 the window is full and all bytes handed out so far are a prefix of the packet. When it returns 0, those bytes together with this call's are exactly the packet for the frame group, and the encoder is idle again. The count written is reported back, and the window past it is left as it was |
| Encoding.Encoder.PacketSentIsPrefix | technicallyalac.h:400-434 | between calls, the bytes handed out for the packet in progress are a prefix of that packet |
| Encoding.Encoder.PacketAsWritten | technicallyalac.h:393-438 | as written, the call reports back the window size it was given, not the bytes it wrote |
| Encoding.PacketMisreports | technicallyalac.h:393-438 | a mono 4-bit packet of one frame is 4 bytes in any window, so an 8-byte window reported back as 8 is wrong |
| ExampleShared.SampleIndexExact | examples/example-shared.c:31 | when `i * channels + c` fits in 32 bits, the `uint32_t` index does not wrap |
| ExampleShared.InterleavedDistinct | examples/example-shared.c:28-35 | different (sample, channel) pairs read different interleaved positions |
| ExampleShared.RepackDeinterleave | examples/example-shared.c:24-36 | `d[c][i]` is the repacked `s[i * channels + c]` for all `c < channels` and `i < num`, and every other element of those rows is unchanged |
| ExampleShared.RepackedUnscaled | examples/example-shared.c:31 | with `scale == 0` the repacking returns its input, so the routine is a plain de-interleave |
| ExampleShared.RepackedScaled | examples/example-shared.c:31 | with `scale >= 1` the result lies in `[0, 2^(16-scale))`, and it is 0 from a shift of 16 on |
| ExampleShared.ShiftedBounds | examples/example-shared.c:31 | a 16-bit value shifted right by at least one stays below the int16 sign bit and keeps `16 - scale` bits |
| ExampleShared.PackU32LE | examples/example-shared.c:38-44 | `d[0..4)` are the bytes of `n`, least significant first, and they read back as `n`. The rest of `d` is unchanged |
| ExampleShared.LeByteAt | examples/example-shared.c:40-43 | byte `i` of the little-endian packing is `(n >> 8i) & 0xFF` |
| ExampleShared.LeRoundTrip | examples/example-shared.c:38-44 | little-endian packing of a value that fits reads back as the value |
| ExampleShared.LeValueRoundTrip | examples/example-shared.c:38-44 | every byte sequence is the packing of the value it reads as, and that value fits |
| ExampleShared.BeByteAt | examples/example-shared.c:46-73 | byte `i` of the big-endian packing into `k` bytes is `(u >> 8(k-1-i)) & 0xFF` |
| ExampleShared.BeRoundTrip | examples/example-shared.c:46-73 | big-endian packing of a value that fits reads back, most significant byte first, as the value |
| ExampleShared.BigEndian16 | examples/example-shared.c:46-51 | the buffer is the two bytes of `u`, most significant first, and reads back as `u` |
| ExampleShared.BigEndian32 | examples/example-shared.c:53-60 | the buffer is the four bytes of `u`, most significant first, and reads back as `u` |
| ExampleShared.BigEndian64 | examples/example-shared.c:62-73 | the buffer is the eight bytes of `u`, most significant first, and reads back as `u` |

## Left out

- **`examples/example-caf.c`.** Not part of this model: it is the file-I/O
  driver (fopen, fread, fwrite, CAF chunk writing).
- **`write_double`.** Not modelled: it reinterprets a `double` through a
  union.
- **`quit`.** Not modelled: it uses varargs, `free` and `exit`.
- **`fwrite` in `write_uint16/32/64`.** Not modelled: I/O. Only the buffer
  each one builds is modelled (`BigEndian16/32/64`).
- **`examples/example-shared.h`.** Not part of this model: it holds only
  declarations.
- **`technicallyalac_size`.** Not modelled: it is `sizeof`, which has no
  counterpart here.
- **The `TF_PURE` macro and `assert.h`.** Not modelled. The assertion
  `pos > 0` at the end of the cookie call is the postcondition
  `0 < written` of `Encoding.Encoder.Cookie`.
- **Encoding.Init.** On failure the source has already stored the four
  configuration fields in the object before returning -1. The model returns
  no encoder instead, because a rejected object is never used.
- **Encoding.Encoder.Packet: preconditions.** It requires the frame group
  to be well formed:
  - at least one frame;
  - one sample sequence per channel, each with at least `num_frames`
    samples;
  - the same group on every call until the packet is complete.

  The source does not check these. Breaking them reads past the caller's
  arrays. With `num_frames == 0` the call reads 2^32 samples past the
  caller's arrays before the `uint32_t` frame counter wraps to 0.
- **Encoding.Encoder.Cookie: the `bytes` pointer.** The model passes the
  byte count by value and returns the count written. A null `bytes`
  pointer therefore has no counterpart; its answer, 24, is modelled for a
  null `output` and for a zero count.
- Encoding.Encoder.Packet: `output` is a non-null array, so a null window
  is excluded on purpose. The source dereferences `output` only inside its
  byte loop, so a null window with `*bytes == 0` returns 1 and touches
  nothing; a non-null array with `bytes == 0` behaves the same way in the
  model.
- **One encoder, one unit at a time.** The cookie and the packet are not
  interleaved on the same encoder. Both calls require that the other unit
  is not in progress. The source shares one accumulator between the two
  machines and does not guard against this.
- **Aliasing.** Neither `Encoding` nor `BitWriting` models aliasing between
  the caller's window and the encoder, or concurrent use.
- **ExampleShared.RepackDeinterleave: preconditions.** It requires:
  - distinct row arrays `d[c]`. Aliased rows, which the source would
    overwrite channel after channel, are not modelled;
  - `scale < 32`, because a shift by 32 or more is undefined in C.
- **ExampleShared.Repacked: `int16_t` cast.** The conversion of a value
  above 32767 to `int16_t` (possible only with `scale == 0`) is
  implementation-defined in C. The model takes the usual two's-complement
  wrap.

## Findings

| source | as written | input that shows it | evidently intended | confidence | as-written member | corrected member |
|---|---|---|---|---|---|---|
| technicallyalac.h:151 | `avail = (len - pos) * 8` is computed in 32-bit unsigned arithmetic and only then widened to 64 bits | a window with `2^29` bytes of room and 64 pending bits: `avail` is 0, the flush writes nothing, and the calling loop never advances | the free space in bits, `min(bits/8, room)` bytes per flush | high; not executed | BitWriting.FlushStallsAsWritten | BitWriting.BitWriter.Flush |
| technicallyalac.h:393-438 | the packet call never stores the number of bytes written through `bytes`, although the cookie call does (:319) | a one-frame mono 4-bit packet in an 8-byte window: 4 bytes are written but the caller reads back 8 | `*bytes = pos` before returning, as in the cookie call | high; not executed | Encoding.PacketMisreports | Encoding.Encoder.Packet |
| technicallyalac.h:466-481 | the maximum packet size assumes a short final packet costs `32 - (bitdepth + channels)` more bits than a full one. The cookie announces this value as maxFrameBytes | stereo 16-bit, 4096 frames, final packet of 4095 frames: 16395 bytes against a maximum of 16392 | every channel element gains the 32-bit count and loses one sample: the larger of the full packet and a `framelength - 1` packet | medium, since the formula is described as an approximation; not executed | AlacFormat.MaxPacketSizeTooSmall | AlacFormat.PacketWithinLargest |

The cookie keeps the source's maxFrameBytes value, because the cookie's
bytes are the encoder's output. `AlacFormat.LargestPacketBits` is the
corrected bound, and `AlacFormat.PacketWithinLargest` proves it bounds every
packet.

/** The helpers the example programs share: de-interleaving 16-bit PCM into
    per-channel sample arrays, and fixed-width byte packing, little-endian
    for the CAF chunk sizes and big-endian for the header fields. */
module ExampleShared {
  import opened Bits

  // ------------------------------------------------------------ repacking

  /** Where sample i of channel c sits in interleaved input: i * channels + c,
      evaluated in 32-bit unsigned arithmetic as the source does. */
  function SampleIndex(i: nat, c: nat, channels: nat): nat
  {
    ((i * channels) % U32_LIMIT + c) % U32_LIMIT
  }

  /** When the interleaved position fits in 32 bits, nothing wraps. */
  lemma SampleIndexExact(i: nat, c: nat, channels: nat)
    requires i * channels + c < U32_LIMIT
    ensures SampleIndex(i, c, channels) == i * channels + c
  {
  }

  /** Without wrap-around, different (sample, channel) pairs read different
      input positions: the de-interleave reads every input sample once. */
  lemma InterleavedDistinct(i: nat, c: nat, j: nat, e: nat, channels: nat)
    requires c < channels && e < channels && (i != j || c != e)
    ensures i * channels + c != j * channels + e
  {
    if i < j {
      MulLess(i, j, channels);
    } else if j < i {
      MulLess(j, i, channels);
    }
  }

  lemma {:induction false} MulLess(i: nat, j: nat, channels: nat)
    requires i < j
    ensures i * channels + channels <= j * channels
  {
    if i < j - 1 {
      MulLess(i, j - 1, channels);
    }
    assert j * channels == (j - 1) * channels + channels;
  }

  /** One output sample: the input reinterpreted as uint16, shifted right
      logically by `scale`, then reinterpreted as int16. */
  function Repacked(x: i16, scale: nat): i16
  {
    var shifted := (x % 0x1_0000) / Pow2(scale);
    if shifted < 0x8000 then shifted else shifted - 0x1_0000
  }

  /** With no shift the repacking is the identity. */
  lemma RepackedUnscaled(x: i16)
    ensures Repacked(x, 0) == x
  {
  }

  /** With a shift of at least one, the result is never negative and keeps
      16 - scale bits; a shift of 16 or more leaves nothing. */
  lemma RepackedScaled(x: i16, scale: nat)
    requires scale >= 1
    ensures 0 <= Repacked(x, scale)
    ensures scale <= 16 ==> Repacked(x, scale) < Pow2(16 - scale)
    ensures scale >= 16 ==> Repacked(x, scale) == 0
  {
    ShiftedBounds(x % 0x1_0000, scale);
  }

  /** A 16-bit value shifted right by scale >= 1 keeps 16 - scale bits, which
      stay below the int16 sign bit. */
  lemma ShiftedBounds(u: nat, scale: nat)
    requires u < 0x1_0000 && scale >= 1
    ensures u / Pow2(scale) < 0x8000
    ensures scale <= 16 ==> u / Pow2(scale) < Pow2(16 - scale)
    ensures scale >= 16 ==> u / Pow2(scale) == 0
  {
    assert Pow2(16) == 0x1_0000 by {
      Pow2Add(8, 8);
      Pow2Of8();
    }
    if scale >= 16 {
      assert u / Pow2(scale) == 0 by {
        Pow2Monotone(16, scale);
        DivModUnique(u, Pow2(scale), 0, u);
      }
    } else {
      assert u / Pow2(scale) < Pow2(16 - scale) by {
        Pow2Add(scale, 16 - scale);
        DivBelow(u, Pow2(scale), Pow2(16 - scale));
      }
      assert Pow2(16 - scale) <= 0x8000 by {
        Pow2Monotone(16 - scale, 15);
        Pow2Add(7, 8);
        Pow2Of8();
      }
    }
  }

  /** u < a * b implies u / a < b. */
  lemma DivBelow(u: nat, a: nat, b: nat)
    requires a >= 1 && u < a * b
    ensures u / a < b
  {
    var q := u / a;
    assert u == q * a + u % a;
    if q >= b {
      MulMono(b, q, a);
    }
  }

  lemma MulMono(b: nat, q: nat, a: nat)
    requires b <= q
    ensures b * a <= q * a
  {
  }

  /** repack_samples_deinterleave: sample i of channel c of the interleaved
      input becomes d[c][i], shifted right by `scale`. The per-channel arrays
      must be distinct and hold `num` samples; a shift of 32 or more is
      undefined behaviour in C. */
  method RepackDeinterleave(d: array<array<i32>>, s: array<i16>, channels: u32, num: u32, scale: u8)
    requires channels <= d.Length && scale < 32
    requires forall c :: 0 <= c < channels ==> num <= d[c].Length
    requires forall c, e :: 0 <= c < e < channels ==> d[c] != d[e]
    requires forall c, i :: 0 <= c < channels && 0 <= i < num ==> SampleIndex(i, c, channels) < s.Length
    modifies set c | 0 <= c < channels :: d[c]
    ensures forall c, i :: 0 <= c < channels && 0 <= i < num ==>
      d[c][i] == Repacked(s[SampleIndex(i, c, channels)], scale)
    ensures forall c, i :: 0 <= c < channels && num <= i < d[c].Length ==> d[c][i] == old(d[c][i])
  {
    var c: u32 := 0;
    while c < channels
      invariant c <= channels
      invariant forall c', i :: 0 <= c' < c && 0 <= i < num ==>
        d[c'][i] == Repacked(s[SampleIndex(i, c', channels)], scale)
      invariant forall c', i :: 0 <= c' < channels && num <= i < d[c'].Length ==> d[c'][i] == old(d[c'][i])
    {
      var i: u32 := 0;
      while i < num
        invariant i <= num
        invariant forall c', j :: 0 <= c' < c && 0 <= j < num ==>
          d[c'][j] == Repacked(s[SampleIndex(j, c', channels)], scale)
        invariant forall j :: 0 <= j < i ==> d[c][j] == Repacked(s[SampleIndex(j, c, channels)], scale)
        invariant forall c', j :: 0 <= c' < channels && num <= j < d[c'].Length ==> d[c'][j] == old(d[c'][j])
      {
        d[c][i] := Repacked(s[SampleIndex(i, c, channels)], scale as nat);
        i := i + 1;
      }
      c := c + 1;
    }
  }

  // ------------------------------------------------------------ byte packing

  /** 256^k: the values k bytes can hold. */
  function ByteLimit(k: nat): (r: nat)
    ensures r >= 1
  {
    if k == 0 then 1 else 0x100 * ByteLimit(k - 1)
  }

  /** The k bytes of u, least significant first. */
  function LeBytes(u: nat, k: nat): (r: seq<u8>)
    ensures |r| == k
  {
    if k == 0 then [] else [u % 0x100] + LeBytes(u / 0x100, k - 1)
  }

  /** The value of little-endian bytes: sum of bs[k] * 256^k. */
  function LeValue(bs: seq<u8>): nat
  {
    if bs == [] then 0 else bs[0] + 0x100 * LeValue(bs[1..])
  }

  /** The k bytes of u, most significant first. */
  function BeBytes(u: nat, k: nat): (r: seq<u8>)
    ensures |r| == k
  {
    if k == 0 then [] else BeBytes(u / 0x100, k - 1) + [u % 0x100]
  }

  /** Little-endian packing loses nothing of a value that fits. */
  lemma {:induction false} LeRoundTrip(u: nat, k: nat)
    requires u < ByteLimit(k)
    ensures LeValue(LeBytes(u, k)) == u
  {
    if k > 0 {
      LeRoundTrip(u / 0x100, k - 1);
      assert LeBytes(u, k)[1..] == LeBytes(u / 0x100, k - 1);
    }
  }

  /** Little-endian bytes are the packing of their own value. */
  lemma {:induction false} LeValueRoundTrip(bs: seq<u8>)
    ensures LeValue(bs) < ByteLimit(|bs|)
    ensures LeBytes(LeValue(bs), |bs|) == bs
  {
    if bs != [] {
      LeValueRoundTrip(bs[1..]);
      assert bs == [bs[0]] + bs[1..];
    }
  }

  /** Big-endian packing loses nothing of a value that fits; BytesValue reads
      bytes most significant first. */
  lemma {:induction false} BeRoundTrip(u: nat, k: nat)
    requires u < ByteLimit(k)
    ensures BytesValue(BeBytes(u, k)) == u
  {
    if k > 0 {
      BeRoundTrip(u / 0x100, k - 1);
      var bs := BeBytes(u, k);
      assert bs[..|bs| - 1] == BeBytes(u / 0x100, k - 1);
    }
  }

  /** The big-endian bytes of u are its little-endian bytes in reverse. */
  lemma {:induction false} BeIsReversedLe(u: nat, k: nat, i: nat)
    requires i < k
    ensures BeBytes(u, k)[i] == LeBytes(u, k)[k - 1 - i]
  {
    if i < k - 1 {
      BeIsReversedLe(u / 0x100, k - 1, i);
    }
  }

  /** Dividing by 256 and then by 256^k is dividing by 256^(k+1). */
  lemma DivByteLimit(u: nat, k: nat)
    ensures (u / 0x100) / ByteLimit(k) == u / ByteLimit(k + 1)
  {
    var a, b := u / 0x100, ByteLimit(k);
    var q, r := a / b, a % b;
    assert a == q * b + r;
    assert u == q * ByteLimit(k + 1) + (r * 0x100 + u % 0x100);
    assert r * 0x100 + u % 0x100 < ByteLimit(k + 1) by {
      assert r <= b - 1;
      assert r * 0x100 <= (b - 1) * 0x100;
    }
    DivModUnique(u, ByteLimit(k + 1), q, r * 0x100 + u % 0x100);
  }

  /** Byte i of the little-endian packing is u >> 8i, truncated to 8 bits. */
  lemma {:induction false} LeByteAt(u: nat, k: nat, i: nat)
    requires i < k
    ensures LeBytes(u, k)[i] == (u / ByteLimit(i)) % 0x100
  {
    if i > 0 {
      LeByteAt(u / 0x100, k - 1, i - 1);
      DivByteLimit(u, i - 1);
    }
  }

  /** Byte i of the big-endian packing is u >> 8(k-1-i), truncated to 8 bits. */
  lemma BeByteAt(u: nat, k: nat, i: nat)
    requires i < k
    ensures BeBytes(u, k)[i] == (u / ByteLimit(k - 1 - i)) % 0x100
  {
    BeIsReversedLe(u, k, i);
    LeByteAt(u, k, k - 1 - i);
  }

  /** pack_uint32le: the four bytes of n, least significant first, into
      d[0..4); the rest of d is untouched. */
  method PackU32LE(d: array<u8>, n: u32)
    requires 4 <= d.Length
    modifies d
    ensures d[..4] == LeBytes(n, 4) && LeValue(d[..4]) == n
    ensures d[4..] == old(d[4..])
  {
    d[0] := n % 0x100;
    d[1] := (n / 0x100) % 0x100;
    d[2] := (n / 0x1_0000) % 0x100;
    d[3] := (n / 0x100_0000) % 0x100;
    LeByteAt(n, 4, 0);
    LeByteAt(n, 4, 1);
    LeByteAt(n, 4, 2);
    LeByteAt(n, 4, 3);
    assert d[..4] == LeBytes(n, 4);
    LeRoundTrip(n, 4);
  }

  /** The buffer write_uint16 hands to fwrite: u most significant byte first. */
  method BigEndian16(u: u16) returns (buffer: array<u8>)
    ensures fresh(buffer) && buffer[..] == BeBytes(u, 2) && BytesValue(buffer[..]) == u
  {
    buffer := new u8[2];
    buffer[0] := (u / 0x100) % 0x100;
    buffer[1] := u % 0x100;
    BeByteAt(u, 2, 0);
    BeByteAt(u, 2, 1);
    assert buffer[..] == BeBytes(u, 2);
    BeRoundTrip(u, 2);
  }

  /** The buffer write_uint32 hands to fwrite. */
  method BigEndian32(u: u32) returns (buffer: array<u8>)
    ensures fresh(buffer) && buffer[..] == BeBytes(u, 4) && BytesValue(buffer[..]) == u
  {
    buffer := new u8[4];
    buffer[0] := (u / 0x100_0000) % 0x100;
    buffer[1] := (u / 0x1_0000) % 0x100;
    buffer[2] := (u / 0x100) % 0x100;
    buffer[3] := u % 0x100;
    BeByteAt(u, 4, 0);
    BeByteAt(u, 4, 1);
    BeByteAt(u, 4, 2);
    BeByteAt(u, 4, 3);
    assert buffer[..] == BeBytes(u, 4);
    BeRoundTrip(u, 4);
  }

  /** The eight big-endian bytes of u, written out one shift at a time. */
  lemma BeBytes64(u: nat)
    ensures BeBytes(u, 8) == [(u / 0x100_0000_0000_0000) % 0x100, (u / 0x1_0000_0000_0000) % 0x100,
                              (u / 0x100_0000_0000) % 0x100, (u / 0x1_0000_0000) % 0x100,
                              (u / 0x100_0000) % 0x100, (u / 0x1_0000) % 0x100,
                              (u / 0x100) % 0x100, u % 0x100]
  {
    BeByteAt(u, 8, 0);
    BeByteAt(u, 8, 1);
    BeByteAt(u, 8, 2);
    BeByteAt(u, 8, 3);
    BeByteAt(u, 8, 4);
    BeByteAt(u, 8, 5);
    BeByteAt(u, 8, 6);
    BeByteAt(u, 8, 7);
  }

  /** The buffer write_uint64 hands to fwrite. */
  method BigEndian64(u: u64) returns (buffer: array<u8>)
    ensures fresh(buffer) && buffer[..] == BeBytes(u, 8) && BytesValue(buffer[..]) == u
  {
    buffer := new u8[8];
    buffer[0] := (u / 0x100_0000_0000_0000) % 0x100;
    buffer[1] := (u / 0x1_0000_0000_0000) % 0x100;
    buffer[2] := (u / 0x100_0000_0000) % 0x100;
    buffer[3] := (u / 0x1_0000_0000) % 0x100;
    buffer[4] := (u / 0x100_0000) % 0x100;
    buffer[5] := (u / 0x1_0000) % 0x100;
    buffer[6] := (u / 0x100) % 0x100;
    buffer[7] := u % 0x100;
    BeBytes64(u);
    BeRoundTrip(u, 8);
  }
}

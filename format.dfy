/** The bit-exact layout the encoder produces: the ALACSpecificConfig "magic
    cookie", one escape-coded channel element, a whole packet, and the size
    arithmetic over the configuration. */
module AlacFormat {
  import opened Bits

  /** The configuration fixed by technicallyalac_init. */
  datatype Config = Config(framelength: u32, samplerate: u32, channels: u8, bitdepth: u8)

  /** The configurations initialisation accepts. */
  predicate Supported(cfg: Config)
  {
    4 <= cfg.bitdepth <= 32 && 1 <= cfg.channels <= 2
  }

  const COOKIE_SIZE: u32 := 24

  // ---------------------------------------------------------------- sizes

  /** Bits in one channel element of a full packet: the 23-bit header
      (3 + 4 + 12 + 1 + 2 + 1) and `framelength` raw samples. */
  function ChannelSizeBits(cfg: Config): nat
  {
    3 + 4 + 12 + 1 + 2 + 1 + cfg.bitdepth * cfg.framelength
  }

  /** technicallyalac_packet_size_internal: every channel element, then the
      3-bit end tag. */
  function PacketSizeBits(cfg: Config): (r: nat)
    ensures r < 0x4_0000_0000_0000
  {
    assert ChannelSizeBits(cfg) < 0x100_0000_0000 by {
      MulLeRight(cfg.bitdepth, 0xFF, cfg.framelength);
    }
    MulLeRight(cfg.channels, 0xFF, ChannelSizeBits(cfg));
    ChannelSizeBits(cfg) * cfg.channels + 3
  }

  /** Rounds a bit count up to whole bytes, as the source does with `bits % 8`. */
  function RoundUpToBytes(bits: nat): (r: nat)
    ensures 8 * r >= bits && 8 * r < bits + 8
  {
    var rem := bits % 8;
    (if rem > 0 then bits + 8 - rem else bits) / 8
  }

  /** technicallyalac_packet_size: the byte count, truncated to 32 bits. */
  function PacketSize(cfg: Config): (r: u32)
    ensures RoundUpToBytes(PacketSizeBits(cfg)) < U32_LIMIT ==> 8 * r >= PacketSizeBits(cfg) > 8 * r - 8
  {
    RoundUpToBytes(PacketSizeBits(cfg)) % U32_LIMIT
  }

  /** The larger of `bits` and the count for a final packet one sample short
      with the explicit 32-bit size: `bits - short + 32` in uint64 arithmetic. */
  function LargerBits(bits: nat, short: nat): (r: nat)
    ensures r >= bits
    ensures bits < U64_LIMIT ==> r < U64_LIMIT
  {
    var max := ((bits - short) % U64_LIMIT + 32) % U64_LIMIT;
    if max > bits then max else bits
  }

  /** technicallyalac_max_packet_size's bit count, never below the regular one. */
  function MaxPacketSizeBits(cfg: Config): (r: nat)
    ensures r >= PacketSizeBits(cfg)
  {
    LargerBits(PacketSizeBits(cfg), cfg.bitdepth + cfg.channels)
  }

  /** technicallyalac_max_packet_size: the byte count, truncated to 32 bits. */
  function MaxPacketSize(cfg: Config): (r: u32)
    ensures RoundUpToBytes(MaxPacketSizeBits(cfg)) < U32_LIMIT ==> r >= PacketSize(cfg)
  {
    RoundUpMono(PacketSizeBits(cfg), MaxPacketSizeBits(cfg));
    RoundUpToBytes(MaxPacketSizeBits(cfg)) % U32_LIMIT
  }

  /** The uint64 subtraction may wrap below zero, but adding 32 brings it back
      whenever the short count is at most bits + 32, so the result is exact
      integer arithmetic. */
  lemma LargerBitsExact(bits: nat, short: nat)
    requires short <= bits + 32 && bits + 32 < U64_LIMIT
    ensures LargerBits(bits, short) == if bits + 32 - short > bits then bits + 32 - short else bits
  {
    var x := bits - short;
    if x >= 0 {
      DivModUnique(x, U64_LIMIT, 0, x);
      DivModUnique(x + 32, U64_LIMIT, 0, x + 32);
    } else {
      DivModUnique(x, U64_LIMIT, -1, x + U64_LIMIT);
      DivModUnique(x + U64_LIMIT + 32, U64_LIMIT, 1, x + 32);
    }
  }

  /** A supported configuration has at least 26 bits per packet and stays far
      below 2^64 bits. */
  lemma PacketSizeBitsRange(cfg: Config)
    requires Supported(cfg)
    ensures 26 <= PacketSizeBits(cfg) < 0x1_0000_0000_0000
  {
    var p := cfg.bitdepth * cfg.framelength;
    assert p <= 32 * 0x1_0000_0000 by {
      MulLeRight(cfg.bitdepth, 32, cfg.framelength);
    }
    assert PacketSizeBits(cfg) == (23 + p) * cfg.channels + 3;
    if cfg.channels == 1 {
      assert PacketSizeBits(cfg) == 26 + p;
    } else {
      assert PacketSizeBits(cfg) == 49 + 2 * p;
    }
  }

  /** For every supported configuration the maximum is the larger of the
      regular count and the count with one sample fewer per channel... */
  lemma MaxPacketSizeBitsExact(cfg: Config)
    requires Supported(cfg)
    ensures var bits := PacketSizeBits(cfg);
      var short := bits + 32 - (cfg.bitdepth + cfg.channels);
      MaxPacketSizeBits(cfg) == if short > bits then short else bits
  {
    PacketSizeBitsRange(cfg);
    LargerBitsExact(PacketSizeBits(cfg), cfg.bitdepth + cfg.channels);
  }

  /** The 32-bit truncation can put the maximum below the regular size: with
      a frame length of 2^32 - 5 at 8 bits mono the regular size is 2^32 - 1
      bytes and the maximum wraps to 2. */
  lemma MaxPacketSizeWraps()
    ensures PacketSize(Config(0xFFFF_FFFB, 44100, 1, 8)) == 0xFFFF_FFFF
    ensures MaxPacketSize(Config(0xFFFF_FFFB, 44100, 1, 8)) == 2
  {
    var cfg := Config(0xFFFF_FFFB, 44100, 1, 8);
    var bits := 8 * 0x1_0000_0000 - 14;
    assert PacketSizeBits(cfg) == bits;
    assert RoundUpToBytes(bits) == 0xFFFF_FFFF;
    LargerBitsExact(bits, 9);
    assert MaxPacketSizeBits(cfg) == bits + 23;
    assert RoundUpToBytes(bits + 23) == 0x1_0000_0002;
  }

  /** The configuration of the example driver: 2 x (23 + 16 x 4096) + 3 bits
      round up to 16391 bytes, and 14 bits more to 16392. */
  lemma PacketSizeStereo16()
    ensures PacketSize(Config(4096, 44100, 2, 16)) == 16391
    ensures MaxPacketSize(Config(4096, 44100, 2, 16)) == 16392
  {
    var cfg := Config(4096, 44100, 2, 16);
    assert PacketSizeBits(cfg) == 131121;
    LargerBitsExact(131121, 18);
    assert MaxPacketSizeBits(cfg) == 131135;
  }

  // ---------------------------------------------------------------- cookie

  /** samplerate * channels * bitdepth in uint32 arithmetic. */
  function AverageBitrate(cfg: Config): (r: u32)
    ensures cfg.samplerate * cfg.channels * cfg.bitdepth < U32_LIMIT ==> r == cfg.samplerate * cfg.channels * cfg.bitdepth
    ensures cfg.samplerate * cfg.channels * cfg.bitdepth >= U32_LIMIT ==> r < cfg.samplerate * cfg.channels * cfg.bitdepth
  {
    (cfg.samplerate * cfg.channels * cfg.bitdepth) % U32_LIMIT
  }

  /** ALACSpecificConfig, field by field, given the two values the encoder
      computes from the configuration. */
  function CookieLayout(cfg: Config, maxFrameBytes: u32, avgBitrate: u32): (r: seq<Field>)
    ensures |r| == 11
  {
    [ Field(32, cfg.framelength),      // frameLength
      Field(8, 0),                     // compatibleVersion
      Field(8, cfg.bitdepth),          // bitDepth
      Field(8, 40),                    // pb
      Field(8, 10),                    // mb
      Field(8, 14),                    // kb
      Field(8, cfg.channels),          // numChannels
      Field(16, 255),                  // maxRun
      Field(32, maxFrameBytes),        // maxFrameBytes
      Field(32, avgBitrate),           // avgBitRate
      Field(32, cfg.samplerate) ]      // sampleRate
  }

  /** The cookie of a configuration: maxFrameBytes is the maximum packet size
      and avgBitRate the product of rate, channels and depth. */
  function CookieFields(cfg: Config): seq<Field>
  {
    CookieLayout(cfg, MaxPacketSize(cfg), AverageBitrate(cfg))
  }

  function CookieBits(cfg: Config): seq<bool>
  {
    Emit(CookieFields(cfg))
  }

  /** The cookie is 24 bytes whatever the configuration. */
  lemma CookieLength(cfg: Config, maxFrameBytes: u32, avgBitrate: u32)
    ensures |Emit(CookieLayout(cfg, maxFrameBytes, avgBitrate))| == 8 * COOKIE_SIZE
  {
    var fs := CookieLayout(cfg, maxFrameBytes, avgBitrate);
    assert TotalWidth(fs[..0]) == 0;
    TotalWidthStep(fs, 0);
    TotalWidthStep(fs, 1);
    TotalWidthStep(fs, 2);
    TotalWidthStep(fs, 3);
    TotalWidthStep(fs, 4);
    TotalWidthStep(fs, 5);
    TotalWidthStep(fs, 6);
    TotalWidthStep(fs, 7);
    TotalWidthStep(fs, 8);
    TotalWidthStep(fs, 9);
    TotalWidthStep(fs, 10);
    assert fs[..11] == fs;
  }

  /** Every cookie field is 8, 16 or 32 bits wide and its value fits in 32 bits. */
  lemma CookieFieldFits(cfg: Config, maxFrameBytes: u32, avgBitrate: u32, k: nat)
    requires k < 11
    ensures var f := CookieLayout(cfg, maxFrameBytes, avgBitrate)[k];
      8 <= f.width <= 32 && f.width % 8 == 0 && 0 <= f.value < U32_LIMIT
  {
  }

  /** Every cookie field reads back as the value it was given: no cookie
      value is wider than its field. */
  lemma CookieFieldReadsBack(cfg: Config, maxFrameBytes: u32, avgBitrate: u32, k: nat)
    requires k < 11
    ensures var f := CookieLayout(cfg, maxFrameBytes, avgBitrate)[k]; FromBits(FieldBits(f)) == f.value
  {
    var f := CookieLayout(cfg, maxFrameBytes, avgBitrate)[k];
    Pow2Of8();
    Pow2Of32();
    Pow2Add(8, 8);
    FromBitsToBitsExact(f.value, f.width);
  }

  lemma TotalWidthStep(fs: seq<Field>, k: nat)
    requires k < |fs|
    ensures TotalWidth(fs[..k + 1]) == TotalWidth(fs[..k]) + fs[k].width
  {
    assert fs[..k + 1][..k] == fs[..k];
  }

  lemma {:induction false} TotalWidthAppend(a: seq<Field>, b: seq<Field>)
    ensures TotalWidth(a + b) == TotalWidth(a) + TotalWidth(b)
  {
    EmitAppend(a, b);
  }

  // ---------------------------------------------------------------- channel

  /** The fixed channel-element header: chanmap 0 (3), element tag (4),
      header bits 0 (12), sample-count flag (1), extra bits 0 (2), escape 1 (1). */
  function ChannelHeader(c: nat, partial: bool): seq<Field>
  {
    [Field(3, 0), Field(4, c), Field(12, 0), Field(1, if partial then 1 else 0), Field(2, 0), Field(1, 1)]
  }

  /** Every header field is at most 12 bits wide and holds a small value. */
  lemma ChannelHeaderFits(c: u8, partial: bool, k: nat)
    requires k < 6
    ensures var f := ChannelHeader(c, partial)[k]; 1 <= f.width <= 12 && 0 <= f.value < 0x100
  {
  }

  /** Each sample as `bitdepth` raw bits. */
  function SampleFields(bitdepth: nat, xs: seq<int>): (r: seq<Field>)
    ensures |r| == |xs|
  {
    if xs == [] then [] else SampleFields(bitdepth, xs[..|xs| - 1]) + [Field(bitdepth, xs[|xs| - 1])]
  }

  /** Sample i becomes field i, in order. */
  lemma {:induction false} SampleFieldsAt(bitdepth: nat, xs: seq<int>)
    ensures forall i :: 0 <= i < |xs| ==> SampleFields(bitdepth, xs)[i] == Field(bitdepth, xs[i])
  {
    if xs != [] {
      var init := xs[..|xs| - 1];
      SampleFieldsAt(bitdepth, init);
      forall i | 0 <= i < |xs| - 1
        ensures SampleFields(bitdepth, xs)[i] == Field(bitdepth, xs[i])
      {
        assert xs[i] == init[i];
      }
    }
  }

  /** Channel element c of a packet of n frames: the header, the explicit
      32-bit frame count when n differs from the frame length, then the samples. */
  function ChannelFields(cfg: Config, c: nat, n: nat, samples: seq<int>): seq<Field>
    requires |samples| >= n
  {
    var partial := n != cfg.framelength;
    ChannelHeader(c, partial) + (if partial then [Field(32, n)] else []) + SampleFields(cfg.bitdepth, samples[..n])
  }

  /** Escape-mode framing: the escape flag is always 1, and the explicit size
      is present exactly when n differs from the frame length. */
  lemma ChannelFraming(cfg: Config, c: nat, n: nat, samples: seq<int>)
    requires |samples| >= n
    ensures var fs := ChannelFields(cfg, c, n, samples);
      && fs[..6] == ChannelHeader(c, n != cfg.framelength)
      && fs[3] == Field(1, if n != cfg.framelength then 1 else 0)
      && fs[5] == Field(1, 1)
      && |fs| == 6 + (if n != cfg.framelength then 1 else 0) + n
      && (n != cfg.framelength ==> fs[6] == Field(32, n))
      && forall i :: 0 <= i < n ==> fs[|fs| - n + i] == Field(cfg.bitdepth, samples[i])
  {
    SampleFieldsAt(cfg.bitdepth, samples[..n]);
  }

  /** The bits of sample i read back as the sample reduced modulo
      2^bitdepth: only its low bitdepth bits are kept. */
  lemma SampleReadsBack(cfg: Config, c: nat, n: nat, samples: seq<int>, i: nat)
    requires |samples| >= n && i < n
    ensures var fs := ChannelFields(cfg, c, n, samples);
      |fs| >= n && FromBits(FieldBits(fs[|fs| - n + i])) == samples[i] % Pow2(cfg.bitdepth)
  {
    ChannelFraming(cfg, c, n, samples);
    FromBitsToBits(samples[i], cfg.bitdepth);
  }

  /** The number of fields of a channel element of n samples. */
  function ElementLength(partial: bool, n: nat): nat
  {
    6 + (if partial then 1 else 0) + n
  }

  lemma ElementSize(cfg: Config, c: nat, n: nat, samples: seq<int>)
    requires |samples| >= n
    ensures |ChannelFields(cfg, c, n, samples)| == ElementLength(n != cfg.framelength, n)
  {
  }

  lemma {:induction false} SampleFieldsWidth(bitdepth: nat, xs: seq<int>)
    ensures TotalWidth(SampleFields(bitdepth, xs)) == bitdepth * |xs|
  {
    if xs != [] {
      var fs := SampleFields(bitdepth, xs);
      var init := xs[..|xs| - 1];
      assert fs[..|fs| - 1] == SampleFields(bitdepth, init);
      SampleFieldsWidth(bitdepth, init);
    }
  }

  /** Bits in a channel element of n samples: the 23-bit header, the
      explicit 32-bit size when n differs from the frame length, and n
      samples of bitdepth bits. */
  function ElementBits(cfg: Config, n: nat): nat
  {
    23 + (if n != cfg.framelength then 32 else 0) + cfg.bitdepth * n
  }

  /** Every channel element of n samples is ElementBits long; for a full
      packet that is ChannelSizeBits. */
  lemma ChannelWidth(cfg: Config, c: nat, n: nat, samples: seq<int>)
    requires |samples| >= n
    ensures TotalWidth(ChannelFields(cfg, c, n, samples)) == ElementBits(cfg, n)
    ensures n == cfg.framelength ==> ElementBits(cfg, n) == ChannelSizeBits(cfg)
  {
    var partial := n != cfg.framelength;
    var h := ChannelHeader(c, partial);
    var size: seq<Field> := if partial then [Field(32, n)] else [];
    var xs := SampleFields(cfg.bitdepth, samples[..n]);
    assert TotalWidth(h) == 23 by {
      assert TotalWidth(h[..0]) == 0;
      TotalWidthStep(h, 0);
      TotalWidthStep(h, 1);
      TotalWidthStep(h, 2);
      TotalWidthStep(h, 3);
      TotalWidthStep(h, 4);
      TotalWidthStep(h, 5);
      assert h[..6] == h;
    }
    assert TotalWidth(size) == if partial then 32 else 0 by {
      if partial {
        assert size[..0] == [];
        TotalWidthStep(size, 0);
        assert size[..1] == size;
      }
    }
    TotalWidthAppend(h, size);
    TotalWidthAppend(h + size, xs);
    SampleFieldsWidth(cfg.bitdepth, samples[..n]);
  }

  // ---------------------------------------------------------------- packet

  /** What a packet call requires of its frame group: at least one frame and
      one sample array per channel holding at least n samples. */
  predicate FrameGroup(cfg: Config, n: nat, frames: seq<seq<int>>)
  {
    n >= 1 && |frames| >= cfg.channels
    && forall c :: 0 <= c < cfg.channels ==> |frames[c]| >= n
  }

  /** The channel elements 0 .. k-1 in order. */
  function ChannelsFields(cfg: Config, n: nat, frames: seq<seq<int>>, k: nat): seq<Field>
    requires k <= |frames| && forall c :: 0 <= c < k ==> |frames[c]| >= n
  {
    if k == 0 then [] else ChannelsFields(cfg, n, frames, k - 1) + ChannelFields(cfg, k - 1, n, frames[k - 1])
  }

  /** The end tag ID_END: 111. */
  const END_TAG: Field := Field(3, 7)

  /** Every channel element, then the end tag 111. */
  function PacketFields(cfg: Config, n: nat, frames: seq<seq<int>>): seq<Field>
    requires FrameGroup(cfg, n, frames)
  {
    ChannelsFields(cfg, n, frames, cfg.channels) + [END_TAG]
  }

  /** Zero bits needed to reach a byte boundary after m bits. */
  function PadLength(m: nat): nat
  {
    (8 - m % 8) % 8
  }

  /** Fields followed by zero padding to a byte boundary. */
  function Padded(fs: seq<Field>): seq<bool>
  {
    var body := Emit(fs);
    body + ToBits(0, PadLength(|body|))
  }

  /** The whole packet: its fields, then zero padding to a byte boundary. */
  function PacketBits(cfg: Config, n: nat, frames: seq<seq<int>>): (r: seq<bool>)
    requires FrameGroup(cfg, n, frames)
  {
    Padded(PacketFields(cfg, n, frames))
  }

  lemma {:induction false} ChannelsWidth(cfg: Config, n: nat, frames: seq<seq<int>>, k: nat)
    requires k <= |frames| && forall c :: 0 <= c < k ==> |frames[c]| >= n
    ensures TotalWidth(ChannelsFields(cfg, n, frames, k)) == k * ElementBits(cfg, n)
  {
    if k > 0 {
      var per := ElementBits(cfg, n);
      var init := ChannelsFields(cfg, n, frames, k - 1);
      var last := ChannelFields(cfg, k - 1, n, frames[k - 1]);
      assert TotalWidth(init) == (k - 1) * per by {
        ChannelsWidth(cfg, n, frames, k - 1);
      }
      assert TotalWidth(last) == per by {
        ChannelWidth(cfg, k - 1, n, frames[k - 1]);
      }
      TotalWidthAppend(init, last);
      MulPred(k, per);
    }
  }

  /** Where element c starts when every element holds `per` fields: c * per,
      written as a sum so that offsets stay linear. */
  function ElementStart(c: nat, per: nat): nat
  {
    if c == 0 then 0 else ElementStart(c - 1, per) + per
  }

  lemma {:induction false} ElementStartIsProduct(c: nat, per: nat)
    ensures ElementStart(c, per) == c * per
  {
    if c > 0 {
      ElementStartIsProduct(c - 1, per);
      MulPred(c, per);
    }
  }

  lemma {:induction false} ElementStartMono(c: nat, m: nat, per: nat)
    requires c <= m
    ensures ElementStart(c, per) <= ElementStart(m, per)
  {
    if c < m {
      ElementStartMono(c, m - 1, per);
    }
  }

  /** All elements of a packet have the same number of fields, so the
      elements before element k hold k times that many. */
  lemma {:induction false} ChannelsLength(cfg: Config, n: nat, frames: seq<seq<int>>, k: nat)
    requires k <= |frames| && forall c :: 0 <= c < k ==> |frames[c]| >= n
    ensures |ChannelsFields(cfg, n, frames, k)| == ElementStart(k, ElementLength(n != cfg.framelength, n))
  {
    if k > 0 {
      ChannelsLength(cfg, n, frames, k - 1);
      ElementSize(cfg, k - 1, n, frames[k - 1]);
    }
  }

  /** The fields from `base` on are `element`. */
  predicate Framed(fields: seq<Field>, base: nat, element: seq<Field>)
  {
    base + |element| <= |fields| && fields[base..base + |element|] == element
  }

  /** The last part of a concatenation is framed at the end of the first. */
  lemma FramedAtEnd(before: seq<Field>, element: seq<Field>)
    ensures Framed(before + element, |before|, element)
  {
    assert (before + element)[|before|..|before| + |element|] == element;
  }

  /** Appending fields keeps an element where it was. */
  lemma FramedGrows(fields: seq<Field>, base: nat, element: seq<Field>, more: seq<Field>)
    requires Framed(fields, base, element)
    ensures Framed(fields + more, base, element)
  {
    assert (fields + more)[base..base + |element|] == fields[base..base + |element|];
  }

  /** Element c sits in the elements 0 .. m-1 right after elements 0 .. c-1. */
  lemma {:induction false} ElementInChannels(cfg: Config, n: nat, frames: seq<seq<int>>, c: nat, m: nat)
    requires c < m <= |frames| && forall i :: 0 <= i < m ==> |frames[i]| >= n
    ensures Framed(ChannelsFields(cfg, n, frames, m), ElementStart(c, ElementLength(n != cfg.framelength, n)),
                   ChannelFields(cfg, c, n, frames[c]))
  {
    if m == c + 1 {
      ChannelsLength(cfg, n, frames, c);
      FramedAtEnd(ChannelsFields(cfg, n, frames, c), ChannelFields(cfg, c, n, frames[c]));
    } else {
      ElementInChannels(cfg, n, frames, c, m - 1);
      FramedGrows(ChannelsFields(cfg, n, frames, m - 1), ElementStart(c, ElementLength(n != cfg.framelength, n)),
                  ChannelFields(cfg, c, n, frames[c]), ChannelFields(cfg, m - 1, n, frames[m - 1]));
    }
  }

  /** Element c sits in the packet's fields right after elements 0 .. c-1. */
  lemma ElementInPacket(cfg: Config, n: nat, frames: seq<seq<int>>, c: nat)
    requires FrameGroup(cfg, n, frames) && c < cfg.channels
    ensures Framed(PacketFields(cfg, n, frames), ElementStart(c, ElementLength(n != cfg.framelength, n)),
                   ChannelFields(cfg, c, n, frames[c]))
  {
    ElementInChannels(cfg, n, frames, c, cfg.channels);
    FramedGrows(ChannelsFields(cfg, n, frames, cfg.channels), ElementStart(c, ElementLength(n != cfg.framelength, n)),
                ChannelFields(cfg, c, n, frames[c]), [END_TAG]);
  }

  /** The layout of a packet's fields, element by element: channel element c
      occupies ElementLength fields from ElementStart on, and the end tag
      comes last. */
  predicate Laid(cfg: Config, n: nat, frames: seq<seq<int>>, packet: seq<Field>)
  {
    && FrameGroup(cfg, n, frames)
    && |packet| == ElementStart(cfg.channels, ElementLength(n != cfg.framelength, n)) + 1
    && packet[|packet| - 1] == END_TAG
    && forall c :: 0 <= c < cfg.channels ==> ElementLaid(cfg, n, frames, packet, c)
  }

  /** Channel element c of the frame group occupies its place in `packet`. */
  predicate ElementLaid(cfg: Config, n: nat, frames: seq<seq<int>>, packet: seq<Field>, c: nat)
  {
    c < |frames| && |frames[c]| >= n
    && Framed(packet, ElementStart(c, ElementLength(n != cfg.framelength, n)), ChannelFields(cfg, c, n, frames[c]))
  }

  /** The fields of a packet have its layout. */
  lemma LaidOut(cfg: Config, n: nat, frames: seq<seq<int>>)
    requires FrameGroup(cfg, n, frames)
    ensures Laid(cfg, n, frames, PacketFields(cfg, n, frames))
  {
    ChannelsLength(cfg, n, frames, cfg.channels);
    forall c | 0 <= c < cfg.channels
      ensures ElementLaid(cfg, n, frames, PacketFields(cfg, n, frames), c)
    {
      ElementInPacket(cfg, n, frames, c);
    }
  }

  /** Element c of a laid-out packet. */
  lemma LaidElement(cfg: Config, n: nat, frames: seq<seq<int>>, packet: seq<Field>, c: nat)
    requires Laid(cfg, n, frames, packet) && c < cfg.channels
    ensures Framed(packet, ElementStart(c, ElementLength(n != cfg.framelength, n)), ChannelFields(cfg, c, n, frames[c]))
  {
    assert ElementLaid(cfg, n, frames, packet, c);
  }

  /** Room for element c of a laid-out packet, before the end tag. */
  lemma LaidRoom(cfg: Config, n: nat, frames: seq<seq<int>>, packet: seq<Field>, c: nat)
    requires Laid(cfg, n, frames, packet) && c < cfg.channels
    ensures var per := ElementLength(n != cfg.framelength, n);
      ElementStart(c + 1, per) == ElementStart(c, per) + per && ElementStart(c, per) + per <= |packet| - 1
  {
    ElementStartMono(c + 1, cfg.channels, ElementLength(n != cfg.framelength, n));
  }

  /** The layout fixes the elements before element k: they begin the packet. */
  lemma {:induction false} LaidPrefix(cfg: Config, n: nat, frames: seq<seq<int>>, packet: seq<Field>, k: nat)
    requires Laid(cfg, n, frames, packet) && k <= cfg.channels
    ensures ChannelsFields(cfg, n, frames, k) <= packet
  {
    if k > 0 {
      LaidPrefix(cfg, n, frames, packet, k - 1);
      LaidElement(cfg, n, frames, packet, k - 1);
      ElementsExtend(cfg, n, frames, packet, k);
    }
  }

  /** Elements 0 .. k-2 followed in place by element k-1 make elements 0 .. k-1. */
  lemma ElementsExtend(cfg: Config, n: nat, frames: seq<seq<int>>, packet: seq<Field>, k: nat)
    requires FrameGroup(cfg, n, frames) && 0 < k <= cfg.channels
    requires ChannelsFields(cfg, n, frames, k - 1) <= packet
    requires Framed(packet, ElementStart(k - 1, ElementLength(n != cfg.framelength, n)), ChannelFields(cfg, k - 1, n, frames[k - 1]))
    ensures ChannelsFields(cfg, n, frames, k) <= packet
  {
    ChannelsLength(cfg, n, frames, k - 1);
    FramedExtends(packet, ChannelsFields(cfg, n, frames, k - 1), ElementStart(k - 1, ElementLength(n != cfg.framelength, n)),
                  ChannelFields(cfg, k - 1, n, frames[k - 1]));
  }

  /** A prefix followed in place by an element extends to a longer prefix. */
  lemma FramedExtends(fields: seq<Field>, before: seq<Field>, base: nat, element: seq<Field>)
    requires before <= fields && base == |before| && Framed(fields, base, element)
    ensures before + element <= fields
  {
    assert fields[..|before| + |element|] == fields[..|before|] + fields[|before|..|before| + |element|];
  }

  /** Only the packet's own fields have its layout. */
  lemma LaidUnique(cfg: Config, n: nat, frames: seq<seq<int>>, packet: seq<Field>)
    requires Laid(cfg, n, frames, packet)
    ensures packet == PacketFields(cfg, n, frames)
  {
    var k := |packet| - 1;
    LaidPrefix(cfg, n, frames, packet, cfg.channels);
    ChannelsLength(cfg, n, frames, cfg.channels);
    assert packet == packet[..k] + [packet[k]];
  }

  /** Padding always reaches a byte boundary. */
  lemma PaddedWholeBytes(fs: seq<Field>)
    ensures |Padded(fs)| % 8 == 0
  {
    PadToBytes(|Emit(fs)|);
  }

  /** The packet is the channel elements, the end tag 111 and the padding,
      and it always ends on a byte boundary. */
  lemma PacketBitsShape(cfg: Config, n: nat, frames: seq<seq<int>>)
    requires FrameGroup(cfg, n, frames)
    ensures var cs := Emit(ChannelsFields(cfg, n, frames, cfg.channels));
      PacketBits(cfg, n, frames) == cs + FieldBits(END_TAG) + ToBits(0, PadLength(|cs| + 3))
    ensures |PacketBits(cfg, n, frames)| % 8 == 0
  {
    var cs := ChannelsFields(cfg, n, frames, cfg.channels);
    assert PacketFields(cfg, n, frames) == cs + [END_TAG];
    EndTagShape(cs);
    PaddedWholeBytes(cs + [END_TAG]);
  }

  /** Fields closed by the end tag: their bits, 111, then zero padding. */
  lemma EndTagShape(cs: seq<Field>)
    ensures Padded(cs + [END_TAG]) == Emit(cs) + FieldBits(END_TAG) + ToBits(0, PadLength(|Emit(cs)| + 3))
  {
    var fs := cs + [END_TAG];
    assert fs[..|fs| - 1] == cs;
    var body := Emit(fs);
    assert body == Emit(cs) + FieldBits(END_TAG);
    assert |body| == |Emit(cs)| + 3;
  }

  lemma MulPred(k: int, per: int)
    ensures k * per == (k - 1) * per + per
  {
  }

  /** Every packet, full or partial, is a whole number of bytes. */
  lemma PacketWholeBytes(cfg: Config, n: nat, frames: seq<seq<int>>)
    requires FrameGroup(cfg, n, frames)
    ensures |PacketBits(cfg, n, frames)| % 8 == 0
  {
    PacketBitsShape(cfg, n, frames);
  }

  /** Padding brings m bits to exactly the whole bytes RoundUpToBytes counts. */
  lemma PadToBytes(m: nat)
    ensures m + PadLength(m) == 8 * RoundUpToBytes(m)
  {
  }

  /** Bits in a packet of n frames before padding: every channel element and
      the end tag. For a full packet this is PacketSizeBits. */
  function PacketBitsFor(cfg: Config, n: nat): nat
  {
    ElementBits(cfg, n) * cfg.channels + 3
  }

  /** A full packet (n equal to the frame length) is padded to a whole number of
      bytes and is exactly as long as the regular packet size promises. */
  lemma PacketLength(cfg: Config, frames: seq<seq<int>>)
    requires FrameGroup(cfg, cfg.framelength, frames)
    ensures |PacketBits(cfg, cfg.framelength, frames)| % 8 == 0
    ensures |PacketBits(cfg, cfg.framelength, frames)| == 8 * RoundUpToBytes(PacketSizeBits(cfg))
  {
    PacketLengthFor(cfg, cfg.framelength, frames);
  }

  /** technicallyalac_packet_size is the byte count of every full packet, as
      long as that count fits in 32 bits. */
  lemma FullPacketIsPacketSize(cfg: Config, frames: seq<seq<int>>)
    requires FrameGroup(cfg, cfg.framelength, frames)
    requires RoundUpToBytes(PacketSizeBits(cfg)) < U32_LIMIT
    ensures |PacketBits(cfg, cfg.framelength, frames)| == 8 * PacketSize(cfg)
  {
    PacketLength(cfg, frames);
    DivModUnique(RoundUpToBytes(PacketSizeBits(cfg)), U32_LIMIT, 0, RoundUpToBytes(PacketSizeBits(cfg)));
  }

  /** A packet of any n frames fills the whole bytes its bit count rounds up to. */
  lemma PacketLengthFor(cfg: Config, n: nat, frames: seq<seq<int>>)
    requires FrameGroup(cfg, n, frames)
    ensures |PacketBits(cfg, n, frames)| % 8 == 0
    ensures |PacketBits(cfg, n, frames)| == 8 * RoundUpToBytes(PacketBitsFor(cfg, n))
    ensures n == cfg.framelength ==> PacketBitsFor(cfg, n) == PacketSizeBits(cfg)
  {
    PacketWidth(cfg, n, frames);
    PaddedLength(PacketFields(cfg, n, frames));
  }

  /** The fields of a packet add up to PacketBitsFor. */
  lemma PacketWidth(cfg: Config, n: nat, frames: seq<seq<int>>)
    requires FrameGroup(cfg, n, frames)
    ensures TotalWidth(PacketFields(cfg, n, frames)) == PacketBitsFor(cfg, n)
  {
    var cs := ChannelsFields(cfg, n, frames, cfg.channels);
    ChannelsWidth(cfg, n, frames, cfg.channels);
    TotalWidthAppend(cs, [END_TAG]);
    assert TotalWidth([END_TAG]) == 3;
  }

  /** Padded fields fill exactly the whole bytes their width rounds up to. */
  lemma PaddedLength(fs: seq<Field>)
    ensures |Padded(fs)| == 8 * RoundUpToBytes(TotalWidth(fs))
  {
    PadToBytes(TotalWidth(fs));
  }

  // ---------------------------------------------------------------- largest packet

  /** The largest packet of at most framelength frames: a full packet, or the
      longest short one (framelength - 1 frames), which also carries the
      explicit 32-bit size in every channel element. */
  function LargestPacketBits(cfg: Config): nat
  {
    if cfg.framelength >= 2 && PacketBitsFor(cfg, cfg.framelength - 1) > PacketSizeBits(cfg)
    then PacketBitsFor(cfg, cfg.framelength - 1)
    else PacketSizeBits(cfg)
  }

  /** The bound meant for maxFrameBytes: no packet of 1 .. framelength frames
      is longer than RoundUpToBytes(LargestPacketBits) bytes, and that many
      bytes are reached by some packet length. */
  lemma PacketWithinLargest(cfg: Config, n: nat, frames: seq<seq<int>>)
    requires FrameGroup(cfg, n, frames) && n <= cfg.framelength
    ensures |PacketBits(cfg, n, frames)| <= 8 * RoundUpToBytes(LargestPacketBits(cfg))
    ensures LargestPacketBits(cfg) == PacketSizeBits(cfg)
         || LargestPacketBits(cfg) == PacketBitsFor(cfg, cfg.framelength - 1)
  {
    PacketLengthFor(cfg, n, frames);
    assert PacketBitsFor(cfg, n) <= LargestPacketBits(cfg) by {
      if n < cfg.framelength {
        ShortPacketsGrow(cfg, n, cfg.framelength - 1);
      }
    }
    RoundUpMono(PacketBitsFor(cfg, n), LargestPacketBits(cfg));
  }

  /** Among short packets, more frames make a longer packet. */
  lemma ShortPacketsGrow(cfg: Config, n: nat, m: nat)
    requires n <= m < cfg.framelength
    ensures PacketBitsFor(cfg, n) <= PacketBitsFor(cfg, m)
  {
    MulLeRight(n, m, cfg.bitdepth);
    MulLeRight(ElementBits(cfg, n), ElementBits(cfg, m), cfg.channels);
  }

  lemma RoundUpMono(a: nat, b: nat)
    requires a <= b
    ensures RoundUpToBytes(a) <= RoundUpToBytes(b)
  {
  }

  /** technicallyalac_max_packet_size as written assumes the short packet
      costs 32 - (bitdepth + channels) bits more than a full one, but each of
      its channel elements gains the 32-bit size and loses one bitdepth-bit
      sample. For the example driver's stereo 16-bit configuration a final
      packet of 4095 frames is 16395 bytes, above the 16392 the cookie
      announces as maxFrameBytes; the largest-packet bound gives 16395. */
  lemma MaxPacketSizeTooSmall(frames: seq<seq<int>>)
    requires FrameGroup(Config(4096, 44100, 2, 16), 4095, frames)
    ensures |PacketBits(Config(4096, 44100, 2, 16), 4095, frames)| == 8 * 16395
    ensures MaxPacketSize(Config(4096, 44100, 2, 16)) == 16392
    ensures RoundUpToBytes(LargestPacketBits(Config(4096, 44100, 2, 16))) == 16395
  {
    var cfg := Config(4096, 44100, 2, 16);
    PacketLengthFor(cfg, 4095, frames);
    assert PacketBitsFor(cfg, 4095) == 131153;
    assert PacketSizeBits(cfg) == 131121;
    PacketSizeStereo16();
  }
}

/** The technicallyalac encoder object: the configuration, the bit writer and
    the three resumable state machines (cookie, channel element, packet).
    Every call writes into a caller window and may stop when it is full; the
    next call resumes where the previous one stopped. */
module Encoding {
  import opened Bits
  import opened BitWriting
  import opened AlacFormat

  datatype CookieState =
    | CookieStart | FrameLength | CompatibleVersion | BitDepth | TuningPB | TuningMB
    | TuningKB | Channels | MaxRun | MaxFrameBytes | AvgBitrate | SampleRate | CookieEnd

  /** How many cookie fields have been queued when the machine is in state s. */
  function CookieIndex(s: CookieState): (k: nat)
    ensures k <= 11
  {
    match s
    case CookieStart => 0
    case FrameLength => 0
    case CompatibleVersion => 1
    case BitDepth => 2
    case TuningPB => 3
    case TuningMB => 4
    case TuningKB => 5
    case Channels => 6
    case MaxRun => 7
    case MaxFrameBytes => 8
    case AvgBitrate => 9
    case SampleRate => 10
    case CookieEnd => 11
  }

  /** Steps left before the cookie machine finishes. */
  function CookieRank(s: CookieState): (r: nat)
    ensures r <= 12
  {
    if s == CookieStart then 12 else 11 - CookieIndex(s)
  }

  /** The transitions of the cookie switch. */
  function CookieNext(s: CookieState): CookieState
  {
    match s
    case CookieStart => FrameLength
    case FrameLength => CompatibleVersion
    case CompatibleVersion => BitDepth
    case BitDepth => TuningPB
    case TuningPB => TuningMB
    case TuningMB => TuningKB
    case TuningKB => Channels
    case Channels => MaxRun
    case MaxRun => MaxFrameBytes
    case MaxFrameBytes => AvgBitrate
    case AvgBitrate => SampleRate
    case SampleRate => CookieEnd
    case CookieEnd => CookieStart
  }

  /** Each field state hands over to the state of the next field. */
  lemma CookieNextAdvances(s: CookieState)
    requires s != CookieStart && s != CookieEnd
    ensures CookieNext(s) != CookieStart && CookieIndex(CookieNext(s)) == CookieIndex(s) + 1
    ensures CookieRank(CookieNext(s)) < CookieRank(s)
  {
  }

  /** The cookie bits a machine in state s has queued: every field of the
      layout before the one s is about to add. */
  ghost function CookieSoFar(fs: seq<Field>, s: CookieState): seq<bool>
    requires |fs| == 11
  {
    Emit(fs[..CookieIndex(s)])
  }

  /** Adding the field of state s takes the machine to CookieNext(s). */
  lemma CookieSoFarNext(fs: seq<Field>, s: CookieState)
    requires |fs| == 11 && s != CookieStart && s != CookieEnd
    ensures CookieSoFar(fs, CookieNext(s)) == CookieSoFar(fs, s) + FieldBits(fs[CookieIndex(s)])
  {
    CookieNextAdvances(s);
    EmitPrefixStep(fs, CookieIndex(s));
  }

  /** In the end state the whole cookie has been queued. */
  lemma CookieSoFarEnd(fs: seq<Field>)
    requires |fs| == 11
    ensures CookieSoFar(fs, CookieEnd) == Emit(fs)
  {
    EmitAll(fs);
  }

  /** What the cookie machine has queued is always a prefix of the cookie. */
  lemma CookieSoFarIsPrefix(fs: seq<Field>, s: CookieState)
    requires |fs| == 11
    ensures CookieSoFar(fs, s) <= Emit(fs)
  {
    EmitMonotone(fs[..CookieIndex(s)], fs);
  }

  datatype ChannelState =
    | ChannelStart | ChanMap | Tag | HeaderBits | SampleCount | ExtraBits | Escape | Size | Data

  /** How many fields of the channel element have been queued in state s at
      sample `frame`; `partial` says whether the explicit size is present. */
  function ChannelIndex(s: ChannelState, partial: bool, frame: nat): nat
  {
    match s
    case ChannelStart => 0
    case ChanMap => 0
    case Tag => 1
    case HeaderBits => 2
    case SampleCount => 3
    case ExtraBits => 4
    case Escape => 5
    case Size => 6
    case Data => 6 + (if partial then 1 else 0) + frame
  }

  /** Steps left in a channel element of n samples. */
  function ChannelRank(s: ChannelState, n: nat, frame: nat): nat
  {
    match s
    case ChannelStart => n + 8
    case ChanMap => n + 7
    case Tag => n + 6
    case HeaderBits => n + 5
    case SampleCount => n + 4
    case ExtraBits => n + 3
    case Escape => n + 2
    case Size => n + 1
    case Data => if frame <= n then n - frame else 0
  }

  /** The transitions of the channel switch once the field of state s fits;
      the data state moves on by sample and is handled on its own. */
  function ChannelNext(s: ChannelState, partial: bool): ChannelState
  {
    match s
    case ChannelStart => ChanMap
    case ChanMap => Tag
    case Tag => HeaderBits
    case HeaderBits => SampleCount
    case SampleCount => ExtraBits
    case ExtraBits => Escape
    case Escape => if partial then Size else Data
    case Size => Data
    case Data => Data
  }

  /** Each header state hands over to the state of the next field; the
      explicit size is visited only for a partial packet. */
  lemma ChannelNextAdvances(s: ChannelState, partial: bool, n: nat)
    requires s != ChannelStart && s != Data && (s == Size ==> partial)
    ensures var t := ChannelNext(s, partial);
      && t != ChannelStart && (t == Size ==> partial)
      && ChannelIndex(t, partial, 0) == ChannelIndex(s, partial, 0) + 1
      && ChannelRank(t, n, 0) < ChannelRank(s, n, 0)
  {
  }

  /** The channel element of n samples starting at field `base` of `fields` is
      in state s at sample `frame`, and e is everything emitted: the bits of
      the fields before the one s is about to queue. */
  ghost predicate InChannel(fields: seq<Field>, base: nat, partial: bool, n: nat, s: ChannelState, frame: nat, e: seq<bool>)
  {
    && n >= 1 && base + ElementLength(partial, n) <= |fields|
    && (s == Size ==> partial)
    && (s == Data ==> frame < n)
    && (s != ChannelStart && s != Data ==> frame == 0)
    && e == EmitUpTo(fields, base + ChannelIndex(s, partial, frame))
  }

  /** Header field k of a framed element. */
  lemma FramedHeader(fields: seq<Field>, base: nat, cfg: Config, c: nat, n: nat, samples: seq<int>, k: nat)
    requires |samples| >= n && Framed(fields, base, ChannelFields(cfg, c, n, samples)) && k < 6
    ensures fields[base + k] == ChannelHeader(c, n != cfg.framelength)[k]
  {
    var element := ChannelFields(cfg, c, n, samples);
    ChannelFraming(cfg, c, n, samples);
    assert fields[base + k] == element[k] == element[..6][k];
  }

  /** The explicit size field of a framed partial element. */
  lemma FramedSize(fields: seq<Field>, base: nat, cfg: Config, c: nat, n: nat, samples: seq<int>)
    requires |samples| >= n && Framed(fields, base, ChannelFields(cfg, c, n, samples)) && n != cfg.framelength
    ensures fields[base + 6] == Field(32, n)
  {
    var element := ChannelFields(cfg, c, n, samples);
    ChannelFraming(cfg, c, n, samples);
    assert fields[base + 6] == element[6];
  }

  /** Sample i of a framed element. */
  lemma FramedSample(fields: seq<Field>, base: nat, cfg: Config, c: nat, n: nat, samples: seq<int>, i: nat)
    requires |samples| >= n && Framed(fields, base, ChannelFields(cfg, c, n, samples)) && i < n
    ensures |fields| >= base + ElementLength(n != cfg.framelength, n)
    ensures fields[base + ChannelIndex(Data, n != cfg.framelength, i)] == Field(cfg.bitdepth, samples[i])
  {
    var element := ChannelFields(cfg, c, n, samples);
    ChannelFraming(cfg, c, n, samples);
    assert fields[base + ChannelIndex(Data, n != cfg.framelength, i)] == element[|element| - n + i];
  }

  /** The start state emits nothing and hands over to the first header field. */
  lemma InChannelStart(fields: seq<Field>, base: nat, partial: bool, n: nat, frame: nat, e: seq<bool>)
    requires InChannel(fields, base, partial, n, ChannelStart, frame, e)
    ensures InChannel(fields, base, partial, n, ChanMap, 0, e)
  {
  }

  /** An element begins right after the fields before it. */
  lemma InChannelBegin(fields: seq<Field>, base: nat, partial: bool, n: nat, frame: nat)
    requires n >= 1 && base + ElementLength(partial, n) <= |fields|
    ensures InChannel(fields, base, partial, n, ChannelStart, frame, EmitUpTo(fields, base))
  {
  }

  /** Queuing the header field of state s moves the element to ChannelNext(s). */
  lemma InChannelHeader(fields: seq<Field>, base: nat, partial: bool, n: nat, s: ChannelState, e: seq<bool>, f: Field)
    requires s != ChannelStart && s != Data && InChannel(fields, base, partial, n, s, 0, e)
    requires f == fields[base + ChannelIndex(s, partial, 0)]
    ensures InChannel(fields, base, partial, n, ChannelNext(s, partial), 0, e + FieldBits(f))
  {
    ChannelNextAdvances(s, partial, n);
  }

  /** Queuing sample `frame` moves to the next sample, or completes the
      element after the last one. */
  lemma InChannelSample(fields: seq<Field>, base: nat, partial: bool, n: nat, frame: nat, e: seq<bool>, f: Field)
    requires InChannel(fields, base, partial, n, Data, frame, e)
    requires f == fields[base + ChannelIndex(Data, partial, frame)]
    ensures frame + 1 < n ==> InChannel(fields, base, partial, n, Data, frame + 1, e + FieldBits(f))
    ensures frame + 1 == n ==> e + FieldBits(f) == EmitUpTo(fields, base + ElementLength(partial, n))
  {
  }

  datatype PacketState = PacketStart | PacketChannel | PacketEnd | PacketFlush

  /** Steps left before the packet machine finishes. */
  function PacketRank(s: PacketState, channel: nat, channels: nat): nat
  {
    match s
    case PacketStart => channels + 3
    case PacketChannel => if channel <= channels then channels - channel + 2 else 2
    case PacketEnd => 1
    case PacketFlush => 0
  }

  lemma PacketRankBound(s: PacketState, channel: nat, channels: nat)
    ensures PacketRank(s, channel, channels) <= channels + 3
  {
  }

  /** Handing out bytes, or else moving a machine whose rank stays below 16
      closer to its end, lowers 16 * (bytes left) + rank. */
  lemma MeasureDrops(len: int, pos0: int, pos: int, rank0: nat, rank: nat)
    requires pos0 <= pos <= len && rank < 16 && (pos == pos0 ==> rank < rank0)
    ensures 16 * (len - pos) + rank < 16 * (len - pos0) + rank0
  {
  }

  /** A packet whose fields are `packet` is in state s at channel element
      c, whose channel machine is in state cs at sample `frame`, and e is
      everything emitted for it so far: a prefix of the packet's fields, then
      the packet itself once it is padded. Elements have ElementLength fields
      each, so element c starts at field c * ElementLength. */
  ghost predicate PacketAt(cfg: Config, n: nat, packet: seq<Field>, s: PacketState, c: nat, cs: ChannelState,
                           frame: nat, e: seq<bool>)
  {
    match s
    case PacketStart => e == []
    case PacketChannel =>
      && c < cfg.channels
      && InChannel(packet, ElementStart(c, ElementLength(n != cfg.framelength, n)), n != cfg.framelength, n, cs, frame, e)
    case PacketEnd => c == cfg.channels && 1 <= |packet| && e == EmitUpTo(packet, |packet| - 1)
    case PacketFlush => e == Padded(packet)
  }

  /** Completing element c hands over to element c + 1 or to the end tag. */
  lemma PacketAtNext(cfg: Config, n: nat, frames: seq<seq<int>>, packet: seq<Field>, c: nat, frame: nat, e: seq<bool>)
    requires Laid(cfg, n, frames, packet) && c < cfg.channels
    requires ElementStart(c, ElementLength(n != cfg.framelength, n)) + ElementLength(n != cfg.framelength, n) <= |packet|
    requires e == EmitUpTo(packet, ElementStart(c, ElementLength(n != cfg.framelength, n)) + ElementLength(n != cfg.framelength, n))
    ensures PacketAt(cfg, n, packet, if c + 1 == cfg.channels then PacketEnd else PacketChannel, c + 1, ChannelStart,
                     frame, e)
  {
    LaidRoom(cfg, n, frames, packet, c);
    if c + 1 < cfg.channels {
      LaidRoom(cfg, n, frames, packet, c + 1);
    }
  }

  /** The end tag completes the fields of the packet. */
  lemma PacketEndStep(packet: seq<Field>, e: seq<bool>)
    requires 1 <= |packet| && packet[|packet| - 1] == END_TAG && e == EmitUpTo(packet, |packet| - 1)
    ensures e + FieldBits(END_TAG) == Emit(packet)
  {
    assert packet[..|packet|] == packet;
    EmitUpToIsEmit(packet, |packet|);
  }

  /** Whatever the packet machine has emitted is a prefix of the padded packet. */
  lemma PacketAtPrefix(cfg: Config, n: nat, packet: seq<Field>, s: PacketState, c: nat, cs: ChannelState,
                       frame: nat, e: seq<bool>)
    requires PacketAt(cfg, n, packet, s, c, cs, frame, e)
    ensures e <= Padded(packet)
  {
    var k := if s == PacketChannel then ElementStart(c, ElementLength(n != cfg.framelength, n)) + ChannelIndex(cs, n != cfg.framelength, frame)
             else if s == PacketEnd then |packet| - 1 else 0;
    if s == PacketChannel || s == PacketEnd {
      EmitUpToIsEmit(packet, k);
      EmitMonotone(packet[..k], packet);
      PrefixTrans(e, Emit(packet), Padded(packet));
    }
  }

  /** When whole bytes followed by the pending bits make whole bytes, the
      pending bits are whole bytes too. */
  lemma WholeBytesPending(e: seq<bool>, sent: seq<u8>, pending: seq<bool>)
    requires e == BytesBits(sent) + pending && |e| % 8 == 0
    ensures |pending| % 8 == 0
  {
    DivModUnique(|e|, 8, |sent| + |pending| / 8, |pending| % 8);
  }

  lemma SeqAssoc<T>(a: seq<T>, b: seq<T>, c: seq<T>)
    ensures (a + b) + c == a + (b + c)
  {
  }

  /** Two sequences that agree from p on agree from any later q on. */
  lemma SuffixNarrows<T>(a: seq<T>, b: seq<T>, p: nat, q: nat)
    requires |a| == |b| && p <= q <= |a| && a[p..] == b[p..]
    ensures a[q..] == b[q..]
  {
    assert a[q..] == a[p..][q - p..];
    assert b[q..] == b[p..][q - p..];
  }

  class Encoder {
    const config: Config
    /** technicallyalac_max_packet_size and the average bitrate; they depend
        only on the configuration, so they are computed once. */
    const maxFrameBytes: u32
    const avgBitrate: u32
    const bw: BitWriter
    var cookieState: CookieState
    var channelState: ChannelState
    /** ch_state.frame: the next sample of the current channel. */
    var frame: u32
    var packetState: PacketState
    /** pa_state.channel: the channel element being written. */
    var channel: u8

    /** The bytes already handed out for the cookie or packet in progress. */
    ghost var sent: seq<u8>
    /** The frame group of the packet in progress. */
    ghost var numFrames: nat
    ghost var frames: seq<seq<int>>
    /** The fields of the packet in progress: PacketFields of the frame group. */
    ghost var packet: seq<Field>

    /** Everything produced so far for the unit in progress: the bytes handed
        out, then the bits still pending in the accumulator. */
    ghost var emitted: seq<bool>

    /** The cookie this encoder writes. */
    function Layout(): (r: seq<Field>)
      ensures |r| == 11
    {
      CookieLayout(config, maxFrameBytes, avgBitrate)
    }

    ghost predicate Cached()
    {
      maxFrameBytes == MaxPacketSize(config) && avgBitrate == AverageBitrate(config)
    }

    ghost predicate Tracks()
      reads this`emitted, this`sent, bw`val, bw`bits
    {
      bw.Valid() && emitted == BytesBits(sent) + bw.Pending()
    }

    ghost predicate Group()
      reads this`numFrames, this`frames
    {
      FrameGroup(config, numFrames, frames) && numFrames < U32_LIMIT
    }

    /** The fields of the packet in progress are laid out for its frame group. */
    ghost predicate Planned()
      reads this`numFrames, this`frames, this`packet
    {
      Group() && Laid(config, numFrames, frames, packet)
    }

    ghost function Partial(): bool
      reads this`numFrames
    {
      numFrames != config.framelength
    }

    /** Where the packet machine stands, given everything emitted so far. */
    ghost predicate PacketShape(e: seq<bool>)
      reads this`packetState, this`numFrames, this`frames, this`packet, this`channel, this`channelState, this`frame
    {
      PacketAt(config, numFrames, packet, packetState, channel, channelState, frame, e)
    }

    /** The channel machine is in the state `InChannel` describes for the
        element at `base` of `fields`. */
    ghost predicate InElement(fields: seq<Field>, base: nat, partial: bool, n: nat)
      reads this`emitted, this`sent, bw`val, bw`bits, this`channelState, this`frame
    {
      Tracks() && InChannel(fields, base, partial, n, channelState, frame, emitted)
    }

    /** The cookie machine's invariant while no packet is in progress. */
    ghost predicate CookieCore()
      reads this`emitted, this`sent, bw`val, bw`bits, this`packetState, this`cookieState
    {
      Tracks() && Supported(config) && packetState == PacketStart && emitted == CookieSoFar(Layout(), cookieState)
    }

    /** The packet machine's invariant while no cookie is in progress. */
    ghost predicate PacketCore()
      reads this`emitted, this`sent, bw`val, bw`bits, this`cookieState, this`packetState,
        this`numFrames, this`frames, this`packet, this`channel, this`channelState, this`frame
    {
      Tracks() && PacketMachine()
    }

    /** The part of PacketCore that draining the accumulator leaves alone. */
    ghost predicate PacketMachine()
      reads this`emitted, this`cookieState, this`packetState,
        this`numFrames, this`frames, this`packet, this`channel, this`channelState, this`frame
    {
      && Supported(config) && cookieState == CookieStart
      && (packetState != PacketStart ==> Planned())
      && PacketShape(emitted)
    }

    /** The invariant between calls: at most one of the cookie and the packet
        is in progress, and in the two draining states something is still
        pending, since the machine leaves them as soon as it is empty. */
    ghost predicate Valid()
      reads this`emitted, this`sent, bw`val, bw`bits, this`cookieState, this`packetState,
        this`numFrames, this`frames, this`packet, this`channel, this`channelState, this`frame
    {
      && Cached()
      && (if packetState == PacketStart then CookieCore() else PacketCore())
      && (cookieState == CookieEnd ==> bw.bits > 0)
      && (packetState == PacketFlush ==> bw.bits > 0)
    }

    ghost predicate Idle()
      reads this`cookieState, this`packetState
    {
      cookieState == CookieStart && packetState == PacketStart
    }

    constructor (cfg: Config)
      requires Supported(cfg)
      ensures Valid() && Idle() && config == cfg && fresh(bw)
      ensures channelState == ChannelStart && frame == 0 && channel == 0 && sent == []
    {
      config := cfg;
      maxFrameBytes, avgBitrate := MaxPacketSize(cfg), AverageBitrate(cfg);
      bw := new BitWriter();
      cookieState, channelState, packetState := CookieStart, ChannelStart, PacketStart;
      frame, channel := 0, 0;
      sent, emitted := [], [];
    }

    /** Drains the accumulator into the window and records what it wrote. */
    method FlushOutput(ghost before: seq<u8>)
      requires Tracks() && bw.WindowValid() && sent == before + bw.buffer[..bw.pos]
      modifies bw`val, bw`bits, bw`pos, bw.buffer, this`sent
      ensures Tracks() && bw.WindowValid() && sent == before + bw.buffer[..bw.pos]
      ensures old(bw.pos) <= bw.pos && (bw.pos == bw.len || bw.bits < 8)
      ensures bw.bits == old(bw.bits) - 8 * (bw.pos - old(bw.pos))
      ensures bw.buffer[bw.pos..] == old(bw.buffer[..])[bw.pos..]
    {
      ghost var p0, s0, done := bw.pos, sent, bw.buffer[..bw.pos];
      ghost var pending := bw.Pending();
      bw.Flush();
      ghost var wrote := bw.buffer[p0..bw.pos];
      sent := s0 + wrote;
      assert sent == before + bw.buffer[..bw.pos] by {
        SeqAssoc(before, done, wrote);
      }
      assert emitted == BytesBits(sent) + bw.Pending() by {
        BytesBitsAppend(s0, wrote);
        assert BytesBits(wrote) + bw.Pending() == pending;
        SeqAssoc(BytesBits(s0), BytesBits(wrote), bw.Pending());
      }
    }

    /** technicallyalac_bitwriter_add on the encoder's accumulator, recording
        the queued bits. */
    method AddField(w: nat, v: u64) returns (ok: bool)
      requires Tracks() && 1 <= w <= 64
      modifies bw`val, bw`bits, this`emitted
      ensures Tracks()
      ensures ok == (old(bw.bits) + w <= 64)
      ensures ok ==> bw.bits == old(bw.bits) + w && emitted == old(emitted) + ToBits(v, w)
      ensures !ok ==> bw.bits == old(bw.bits) && emitted == old(emitted)
    {
      ghost var pending := bw.Pending();
      ok := bw.Add(w, v);
      if ok {
        emitted := emitted + ToBits(v, w);
        SeqAssoc(BytesBits(sent), pending, ToBits(v, w));
      }
    }

    // ------------------------------------------------------------ cookie

    /** One field of the cookie state machine: queue the field of the current
        state and move to the next state if it fits. */
    method AddCookieField(w: nat, v: u64) returns (r: nat)
      requires CookieCore() && cookieState != CookieStart && cookieState != CookieEnd
      requires 8 <= w <= 32 && Field(w, v) == Layout()[CookieIndex(cookieState)]
      modifies bw`val, bw`bits, this`emitted, this`cookieState
      ensures CookieCore() && r == 1
      ensures old(bw.bits) < 8 ==> CookieRank(cookieState) < CookieRank(old(cookieState))
      ensures cookieState == CookieEnd ==> bw.bits > 0
    {
      CookieSoFarNext(Layout(), cookieState);
      CookieNextAdvances(cookieState);
      var ok := AddField(w, v);
      if ok {
        cookieState := CookieNext(cookieState);
      }
      r := 1;
    }

    /** One pass of the cookie switch, after the flush; returns the source's `r`. */
    method CookieStep() returns (r: nat)
      requires CookieCore()
      modifies bw`val, bw`bits, this`emitted, this`sent, this`cookieState
      ensures CookieCore() && (r == 0 || r == 1)
      ensures r == 1 ==> sent == old(sent)
      ensures r == 0 ==> && old(cookieState) == CookieEnd && old(bw.bits) == 0
                         && cookieState == CookieStart && BytesBits(old(sent)) == Emit(Layout())
      ensures old(bw.bits) < 8 ==> r == 0 || CookieRank(cookieState) < CookieRank(old(cookieState))
      ensures cookieState == CookieEnd ==> bw.bits > 0
    {
      if cookieState == CookieStart {
        r := StartCookie();
      } else if cookieState == CookieEnd {
        r := EndCookie();
      } else {
        var k := CookieIndex(cookieState);
        CookieFieldFits(config, maxFrameBytes, avgBitrate, k);
        var f := Layout()[k];
        r := AddCookieField(f.width, f.value);
      }
    }

    /** COOKIE_START: reset the accumulator and begin with the frame length. */
    method StartCookie() returns (r: nat)
      requires CookieCore() && cookieState == CookieStart
      modifies bw`val, bw`bits, this`cookieState
      ensures CookieCore() && r == 1 && cookieState == FrameLength
    {
      assert sent == [] by {
        assert |emitted| == 8 * |sent| + bw.bits;
      }
      bw.Init();
      cookieState := FrameLength;
      r := 1;
    }

    /** COOKIE_END: finished once the accumulator is empty. */
    method EndCookie() returns (r: nat)
      requires CookieCore() && cookieState == CookieEnd
      modifies this`emitted, this`sent, this`cookieState
      ensures CookieCore() && (r == 0 || r == 1)
      ensures r == 1 ==> cookieState == CookieEnd && bw.bits >= 8 && sent == old(sent)
      ensures r == 0 ==> && bw.bits == 0 && cookieState == CookieStart
                         && BytesBits(old(sent)) == Emit(Layout())
    {
      CookieSoFarEnd(Layout());
      CookieLength(config, maxFrameBytes, avgBitrate);
      if bw.bits == 0 {
        assert BytesBits(sent) == Emit(Layout()) by {
          assert bw.Pending() == [];
        }
        sent, emitted := [], [];
        cookieState := CookieStart;
        r := 0;
      } else {
        assert bw.bits >= 8 by {
          assert |emitted| == 8 * |sent| + bw.bits;
        }
        r := 1;
      }
    }

    /** technicallyalac_cookie: writes the next part of the 24-byte cookie into
        output[..bytes]. A null window or a zero count only asks for the size.
        Returns 1 while more is to come, 0 with the last part. */
    method Cookie(output: array?<u8>, bytes: u32) returns (r: int, written: u32)
      requires Valid() && packetState == PacketStart
      requires output != null ==> bytes <= output.Length
      modifies this`cookieState, this`sent, this`emitted, bw, output
      ensures Valid() && packetState == PacketStart
      ensures output == null || bytes == 0 ==>
        r == COOKIE_SIZE as int && written == bytes && cookieState == old(cookieState) && sent == old(sent)
      ensures output != null && bytes > 0 ==> && 0 < written <= bytes && (r == 0 || r == 1)
                                              && (r == 1 ==> written == bytes)
      ensures output != null && bytes > 0 && r == 1 ==>
        sent == old(sent) + output[..written] && BytesBits(sent) <= CookieBits(config)
      ensures output != null && bytes > 0 && r == 0 ==>
        BytesBits(old(sent) + output[..written]) == CookieBits(config) && Idle()
      ensures output != null ==> output[written..] == old(output[..])[written..]
    {
      if output == null || bytes == 0 {
        return COOKIE_SIZE as int, bytes;
      }
      bw.buffer, bw.len, bw.pos := output, bytes, 0;
      ghost var s0 := sent;
      r := CookieLoop(s0);
      written := bw.pos;
      if r == 1 {
        CookieSentIsPrefix();
      }
    }

    /** The loop of technicallyalac_cookie: flush, then one pass of the switch,
        until the window is full or the cookie is complete. */
    method CookieLoop(ghost s0: seq<u8>) returns (r: int)
      requires CookieCore() && bw.WindowValid() && bw.pos == 0 < bw.len && sent == s0
      requires cookieState == CookieEnd ==> bw.bits > 0
      modifies this`cookieState, this`sent, this`emitted, bw`val, bw`bits, bw`pos, bw.buffer
      ensures CookieCore() && bw.WindowValid() && (r == 0 || r == 1) && 0 < bw.pos
      ensures r == 1 ==> && bw.pos == bw.len && sent == s0 + bw.buffer[..bw.pos]
                         && (cookieState == CookieEnd ==> bw.bits > 0)
      ensures r == 0 ==> cookieState == CookieStart && BytesBits(s0 + bw.buffer[..bw.pos]) == Emit(Layout())
      ensures bw.buffer[bw.pos..] == old(bw.buffer[..])[bw.pos..]
    {
      ghost var orig := bw.buffer[..];
      r := 1;
      while bw.pos < bw.len && r == 1
        invariant bw.WindowValid() && CookieCore() && (r == 0 || r == 1)
        invariant r == 1 ==> sent == s0 + bw.buffer[..bw.pos] && (cookieState == CookieEnd ==> bw.bits > 0)
        invariant r == 0 ==> && cookieState == CookieStart && bw.pos > 0
                             && BytesBits(s0 + bw.buffer[..bw.pos]) == Emit(Layout())
        invariant bw.buffer[bw.pos..] == orig[bw.pos..]
        decreases r, 16 * (bw.len - bw.pos) + CookieRank(cookieState)
      {
        ghost var before, p := bw.buffer[..], bw.pos;
        assert before[p..] == orig[p..];
        r := CookiePass(s0);
        SuffixNarrows(before, orig, p, bw.pos);
      }
    }

    /** One iteration of the cookie loop: flush, then one pass of the switch.
        Each iteration hands out bytes, moves the machine on, or finishes. */
    method CookiePass(ghost s0: seq<u8>) returns (r: int)
      requires CookieCore() && bw.WindowValid() && bw.pos < bw.len && sent == s0 + bw.buffer[..bw.pos]
      requires cookieState == CookieEnd ==> bw.bits > 0
      modifies this`cookieState, this`sent, this`emitted, bw`val, bw`bits, bw`pos, bw.buffer
      ensures bw.WindowValid() && CookieCore() && (r == 0 || r == 1)
      ensures r == 1 ==> sent == s0 + bw.buffer[..bw.pos] && (cookieState == CookieEnd ==> bw.bits > 0)
      ensures r == 0 ==> && cookieState == CookieStart && bw.pos > 0
                         && BytesBits(s0 + bw.buffer[..bw.pos]) == Emit(Layout())
      ensures r == 0 || 16 * (bw.len - bw.pos) + CookieRank(cookieState)
                          < old(16 * (bw.len - bw.pos) + CookieRank(cookieState))
      ensures old(bw.pos) <= bw.pos && bw.buffer[bw.pos..] == old(bw.buffer[..])[bw.pos..]
    {
      ghost var pos0, rank0 := bw.pos, CookieRank(cookieState);
      FlushOutput(s0);
      r := CookieStep();
      if r == 1 {
        MeasureDrops(bw.len, pos0, bw.pos, rank0, CookieRank(cookieState));
      }
    }

    /** Between calls the bytes handed out are a prefix of the cookie. */
    lemma CookieSentIsPrefix()
      requires CookieCore()
      ensures BytesBits(sent) <= Emit(Layout())
    {
      CookieSoFarIsPrefix(Layout(), cookieState);
    }

    // ------------------------------------------------------------ channel

    /** One header field of the channel switch: queue the field of the current
        state and move to the next state if it fits. */
    method AddHeaderField(w: nat, v: u64, partial: bool, ghost fields: seq<Field>, ghost base: nat, ghost n: nat)
      returns (r: int)
      requires InElement(fields, base, partial, n) && channelState != ChannelStart && channelState != Data
      requires 1 <= w <= 32 && Field(w, v) == fields[base + ChannelIndex(channelState, partial, 0)]
      modifies bw`val, bw`bits, this`emitted, this`channelState
      ensures InElement(fields, base, partial, n) && r == 1
      ensures old(bw.bits) < 8 ==> ChannelRank(channelState, n, frame) < ChannelRank(old(channelState), n, frame)
    {
      InChannelHeader(fields, base, partial, n, channelState, emitted, Field(w, v));
      ChannelNextAdvances(channelState, partial, n);
      var ok := AddField(w, v);
      if ok {
        channelState := ChannelNext(channelState, partial);
      }
      r := 1;
    }

    /** CHANNEL_DATA: queue the next sample as `bitdepth` bits; after the last
        sample the element is complete and the switch returns 0. The int32
        sample is widened to uint64 by sign extension. */
    method AddSample(sample: i32, n: u32, partial: bool, ghost fields: seq<Field>, ghost base: nat)
      returns (r: int)
      requires InElement(fields, base, partial, n) && channelState == Data && 1 <= config.bitdepth <= 32
      requires Field(config.bitdepth, sample) == fields[base + ChannelIndex(Data, partial, frame)]
      modifies bw`val, bw`bits, this`emitted, this`channelState, this`frame
      ensures r == 0 || r == 1
      ensures r == 1 ==> InElement(fields, base, partial, n)
      ensures r == 1 && old(bw.bits) < 8 ==> ChannelRank(channelState, n, frame) < ChannelRank(old(channelState), n, old(frame))
      ensures r == 0 ==> Tracks() && channelState == ChannelStart && emitted == EmitUpTo(fields, base + ElementLength(partial, n))
    {
      var word: u64 := sample as int % U64_LIMIT;
      assert ToBits(word, config.bitdepth) == ToBits(sample, config.bitdepth) by {
        Pow2Of64();
        ToBitsOfMod(sample, 64, config.bitdepth);
      }
      InChannelSample(fields, base, partial, n, frame, emitted, Field(config.bitdepth, sample));
      var ok := AddField(config.bitdepth, word);
      r := 1;
      if ok {
        frame := frame + 1;
        if frame == n {
          channelState := ChannelStart;
          r := 0;
        }
      }
    }

    /** One pass of the channel switch, after the flush; returns the source's `r`. */
    method ChannelStep(n: u32, samples: seq<i32>, partial: bool, ghost fields: seq<Field>, ghost base: nat)
      returns (r: int)
      requires InElement(fields, base, partial, n) && 1 <= config.bitdepth <= 32
      requires |samples| >= n && partial == (n != config.framelength)
      requires Framed(fields, base, ChannelFields(config, channel, n, samples))
      modifies bw`val, bw`bits, this`emitted, this`channelState, this`frame
      ensures r == 0 || r == 1
      ensures r == 1 ==> InElement(fields, base, partial, n)
      ensures r == 1 && old(bw.bits) < 8 ==> ChannelRank(channelState, n, frame) < ChannelRank(old(channelState), n, old(frame))
      ensures r == 0 ==> Tracks() && channelState == ChannelStart && emitted == EmitUpTo(fields, base + ElementLength(partial, n))
    {
      if channelState == ChannelStart {
        InChannelStart(fields, base, partial, n, frame, emitted);
        frame := 0;
        channelState := ChanMap;
        r := 1;
      } else if channelState == Data {
        FramedSample(fields, base, config, channel, n, samples, frame);
        r := AddSample(samples[frame], n, partial, fields, base);
      } else if channelState == Size {
        FramedSize(fields, base, config, channel, n, samples);
        r := AddHeaderField(32, n, partial, fields, base, n);
      } else {
        var k := ChannelIndex(channelState, partial, 0);
        ChannelHeaderFits(channel, partial, k);
        var f := ChannelHeader(channel, partial)[k];
        FramedHeader(fields, base, config, channel, n, samples, k);
        r := AddHeaderField(f.width, f.value, partial, fields, base, n);
      }
    }

    /** technicallyalac_channel: flush, then one pass of the switch, until the
        window is full or the element is complete. */
    method ChannelLoop(n: u32, samples: seq<i32>, partial: bool, ghost fields: seq<Field>, ghost base: nat,
                       ghost s0: seq<u8>)
      returns (r: int)
      requires InElement(fields, base, partial, n) && 1 <= config.bitdepth <= 32
      requires |samples| >= n && partial == (n != config.framelength)
      requires Framed(fields, base, ChannelFields(config, channel, n, samples))
      requires bw.WindowValid() && sent == s0 + bw.buffer[..bw.pos]
      modifies this`emitted, this`sent, this`channelState, this`frame, bw`val, bw`bits, bw`pos, bw.buffer
      ensures bw.WindowValid() && old(bw.pos) <= bw.pos && sent == s0 + bw.buffer[..bw.pos] && (r == 0 || r == 1)
      ensures r == 1 ==> InElement(fields, base, partial, n) && bw.pos == bw.len
      ensures r == 0 ==> Tracks() && channelState == ChannelStart && emitted == EmitUpTo(fields, base + ElementLength(partial, n))
      ensures bw.buffer[bw.pos..] == old(bw.buffer[..])[bw.pos..]
    {
      r := 1;
      while bw.pos < bw.len && r == 1
        invariant bw.WindowValid() && old(bw.pos) <= bw.pos && sent == s0 + bw.buffer[..bw.pos] && (r == 0 || r == 1)
        invariant r == 1 ==> InElement(fields, base, partial, n)
        invariant r == 0 ==> Tracks() && channelState == ChannelStart && emitted == EmitUpTo(fields, base + ElementLength(partial, n))
        invariant bw.buffer[bw.pos..] == old(bw.buffer[..])[bw.pos..]
        decreases r, bw.len - bw.pos, ChannelRank(channelState, n, frame)
      {
        ghost var before, p := bw.buffer[..], bw.pos;
        FlushOutput(s0);
        SuffixNarrows(before, old(bw.buffer[..]), p, bw.pos);
        r := ChannelStep(n, samples, partial, fields, base);
      }
    }

    // ------------------------------------------------------------ packet

    /** PACKET_START: begin with channel element 0. */
    method StartPacket() returns (r: int)
      requires PacketCore() && packetState == PacketStart && Planned()
      modifies this`packetState, this`channel, this`channelState
      ensures PacketCore() && packetState == PacketChannel && channel == 0 && r == 1
    {
      packetState, channel, channelState := PacketChannel, 0, ChannelStart;
      LaidRoom(config, numFrames, frames, packet, 0);
      r := 1;
    }

    /** PACKET_CHANNEL: run the channel machine on the current element; when it
        completes, move to the next element or to the end tag. */
    method ChannelPacket(n: u32, fr: seq<seq<i32>>, ghost s0: seq<u8>) returns (r: int)
      requires Supported(config) && cookieState == CookieStart && packetState == PacketChannel
      requires Planned() && numFrames == n && frames == fr && channel < config.channels
      requires InElement(packet, ElementStart(channel as nat, ElementLength(n != config.framelength, n)), n != config.framelength, n)
      requires bw.WindowValid() && sent == s0 + bw.buffer[..bw.pos]
      modifies this`emitted, this`sent, this`channelState, this`frame, this`channel, this`packetState,
        bw`val, bw`bits, bw`pos, bw.buffer
      ensures PacketCore() && r == 1 && (packetState == PacketChannel || packetState == PacketEnd)
      ensures bw.WindowValid() && old(bw.pos) <= bw.pos && sent == s0 + bw.buffer[..bw.pos]
      ensures bw.pos == bw.len || PacketRank(packetState, channel, config.channels) < PacketRank(old(packetState), old(channel), config.channels)
      ensures bw.buffer[bw.pos..] == old(bw.buffer[..])[bw.pos..]
    {
      var partial := n != config.framelength;
      ghost var base := ElementStart(channel as nat, ElementLength(partial, n));
      LaidElement(config, n, frames, packet, channel as nat);
      LaidRoom(config, n, frames, packet, channel as nat);
      ghost var fields := packet;
      var last := ChannelLoop(n, fr[channel], partial, fields, base, s0);
      EndOfPass(last, fields, base, partial, n);
      r := 1;
    }

    /** After the channel machine has run: a complete element moves the packet
        machine on; an incomplete one leaves it where it was. */
    method EndOfPass(last: int, ghost fields: seq<Field>, ghost base: nat, partial: bool, n: u32)
      requires Supported(config) && cookieState == CookieStart && packetState == PacketChannel
      requires Planned() && numFrames == n && fields == packet && channel < config.channels
      requires partial == (n != config.framelength) && base == ElementStart(channel as nat, ElementLength(partial, n))
      requires base + ElementLength(partial, n) <= |fields| && (last == 0 || last == 1)
      requires last == 1 ==> InElement(fields, base, partial, n)
      requires last == 0 ==> Tracks() && channelState == ChannelStart && emitted == EmitUpTo(fields, base + ElementLength(partial, n))
      modifies this`channel, this`packetState
      ensures PacketCore() && (packetState == PacketChannel || packetState == PacketEnd)
      ensures last == 0 ==> PacketRank(packetState, channel, config.channels) < PacketRank(old(packetState), old(channel), config.channels)
    {
      if last == 0 {
        NextElement(fields, base, ElementLength(partial, n));
      } else {
        StillInElement(fields, base, partial, n);
      }
    }

    /** In PACKET_CHANNEL the channel machine works on the current element. */
    lemma InChannelNow()
      requires PacketCore() && packetState == PacketChannel
      ensures channel < config.channels
      ensures InElement(packet, ElementStart(channel as nat, ElementLength(Partial(), numFrames)), Partial(), numFrames)
    {
    }

    /** Part way through the current element, the packet machine is where it was. */
    lemma StillInElement(fields: seq<Field>, base: nat, partial: bool, n: nat)
      requires InElement(fields, base, partial, n) && Supported(config) && cookieState == CookieStart
      requires packetState == PacketChannel && Planned() && channel < config.channels
      requires fields == packet && n == numFrames && partial == Partial()
      requires base == ElementStart(channel as nat, ElementLength(partial, n))
      ensures PacketCore()
    {
    }

    /** The current element is complete: move on to the next one, or to the
        end tag after the last channel. */
    method NextElement(ghost fields: seq<Field>, ghost base: nat, ghost per: nat)
      requires Tracks() && Supported(config) && cookieState == CookieStart && packetState == PacketChannel
      requires Planned() && channel < config.channels && channelState == ChannelStart
      requires fields == packet && per == ElementLength(Partial(), numFrames) && base == ElementStart(channel as nat, per)
      requires base + per <= |fields| && emitted == EmitUpTo(fields, base + per)
      modifies this`channel, this`packetState
      ensures PacketCore() && (packetState == PacketChannel || packetState == PacketEnd)
      ensures PacketRank(packetState, channel, config.channels) < PacketRank(old(packetState), old(channel), config.channels)
    {
      PacketAtNext(config, numFrames, frames, packet, channel as nat, frame, emitted);
      channel := channel + 1;
      if channel == config.channels {
        packetState := PacketEnd;
      }
    }

    /** technicallyalac_bitwriter_align on the encoder's accumulator. */
    method AlignOutput()
      requires Tracks()
      modifies bw`val, bw`bits, this`emitted
      ensures Tracks() && emitted == old(emitted) + ToBits(0, PadLength(|old(emitted)|)) && bw.bits >= old(bw.bits)
    {
      ghost var pending := bw.Pending();
      ghost var m := |emitted|;
      assert m % 8 == bw.bits % 8 by {
        DivModUnique(m, 8, |sent| + bw.bits / 8, bw.bits % 8);
      }
      bw.Align();
      emitted := emitted + ToBits(0, PadLength(m));
      SeqAssoc(BytesBits(sent), pending, ToBits(0, PadLength(m)));
    }

    /** PACKET_END: queue the end tag 111 and pad to a byte boundary. */
    method EndPacket() returns (r: int)
      requires PacketCore() && packetState == PacketEnd
      modifies bw`val, bw`bits, this`emitted, this`packetState
      ensures PacketCore() && r == 1 && (packetState == PacketEnd || packetState == PacketFlush)
      ensures packetState == PacketFlush ==> bw.bits > 0
      ensures old(bw.bits) < 8 ==> packetState == PacketFlush
    {
      PacketEndStep(packet, emitted);
      var ok := AddField(END_TAG.width, END_TAG.value);
      if ok {
        AlignOutput();
        packetState := PacketFlush;
      }
      r := 1;
    }

    /** PACKET_FLUSH: finished once the accumulator is empty. */
    method FlushPacket() returns (r: int)
      requires PacketCore() && packetState == PacketFlush
      modifies this`emitted, this`sent, this`packetState
      ensures r == 0 || r == 1
      ensures r == 1 ==> PacketCore() && packetState == PacketFlush && bw.bits >= 8 && sent == old(sent)
      ensures r == 0 ==> && PacketCore() && packetState == PacketStart && bw.bits == 0 && sent == []
                         && BytesBits(old(sent)) == Padded(packet)
    {
      if bw.bits == 0 {
        assert bw.Pending() == [];
        sent, emitted := [], [];
        packetState := PacketStart;
        r := 0;
      } else {
        PaddedWholeBytes(packet);
        WholeBytesPending(emitted, sent, bw.Pending());
        r := 1;
      }
    }

    /** The flush at the top of the packet loop, which leaves the packet
        machine where it was. */
    method FlushPacketOutput(ghost s0: seq<u8>)
      requires PacketCore() && bw.WindowValid() && sent == s0 + bw.buffer[..bw.pos]
      modifies bw`val, bw`bits, bw`pos, bw.buffer, this`sent
      ensures PacketCore() && bw.WindowValid() && sent == s0 + bw.buffer[..bw.pos]
      ensures old(bw.pos) <= bw.pos && (bw.pos == bw.len || bw.bits < 8)
      ensures bw.bits == old(bw.bits) - 8 * (bw.pos - old(bw.pos))
      ensures bw.buffer[bw.pos..] == old(bw.buffer[..])[bw.pos..]
    {
      FlushOutput(s0);
    }

    /** One pass of the packet switch, after the flush; returns the source's `r`. */
    method PacketStep(n: u32, fr: seq<seq<i32>>, ghost s0: seq<u8>) returns (r: int)
      requires PacketCore() && Planned() && numFrames == n && frames == fr
      requires bw.WindowValid() && sent == s0 + bw.buffer[..bw.pos]
      modifies this`emitted, this`sent, this`channelState, this`frame, this`channel, this`packetState,
        bw`val, bw`bits, bw`pos, bw.buffer
      ensures PacketCore() && bw.WindowValid() && old(bw.pos) <= bw.pos && (r == 0 || r == 1)
      ensures r == 1 ==> && sent == s0 + bw.buffer[..bw.pos] && packetState != PacketStart
                         && (packetState == PacketFlush ==> bw.bits > 0)
      ensures r == 1 && old(bw.bits) < 8 && old(bw.pos) == bw.pos < bw.len ==>
        PacketRank(packetState, channel, config.channels) < PacketRank(old(packetState), old(channel), config.channels)
      ensures r == 0 ==> packetState == PacketStart && sent == [] && BytesBits(s0 + bw.buffer[..bw.pos]) == Padded(packet)
      ensures bw.buffer[bw.pos..] == old(bw.buffer[..])[bw.pos..]
    {
      if packetState == PacketStart {
        r := StartPacket();
      } else if packetState == PacketChannel {
        InChannelNow();
        r := ChannelPacket(n, fr, s0);
      } else if packetState == PacketEnd {
        r := EndPacket();
      } else {
        r := FlushPacket();
      }
    }

    /** The loop of technicallyalac_packet: flush, then one pass of the switch,
        until the window is full or the packet is complete. */
    method PacketLoop(n: u32, fr: seq<seq<i32>>, ghost s0: seq<u8>) returns (r: int)
      requires PacketCore() && Planned() && numFrames == n && frames == fr
      requires bw.WindowValid() && bw.pos == 0 && sent == s0 && (packetState == PacketFlush ==> bw.bits > 0)
      modifies this`emitted, this`sent, this`channelState, this`frame, this`channel, this`packetState,
        bw`val, bw`bits, bw`pos, bw.buffer
      ensures PacketCore() && bw.WindowValid() && (r == 0 || r == 1)
      ensures r == 1 ==> && bw.pos == bw.len && sent == s0 + bw.buffer[..bw.pos]
                         && (packetState == PacketFlush ==> bw.bits > 0)
      ensures r == 0 ==> packetState == PacketStart && sent == [] && BytesBits(s0 + bw.buffer[..bw.pos]) == Padded(packet)
      ensures bw.buffer[bw.pos..] == old(bw.buffer[..])[bw.pos..]
    {
      ghost var orig := bw.buffer[..];
      r := 1;
      while bw.pos < bw.len && r == 1
        invariant PacketCore() && bw.WindowValid() && (r == 0 || r == 1)
        invariant r == 1 ==> sent == s0 + bw.buffer[..bw.pos] && (packetState == PacketFlush ==> bw.bits > 0)
        invariant r == 0 ==> packetState == PacketStart && sent == [] && BytesBits(s0 + bw.buffer[..bw.pos]) == Padded(packet)
        invariant bw.buffer[bw.pos..] == orig[bw.pos..]
        decreases r, 16 * (bw.len - bw.pos) + PacketRank(packetState, channel, config.channels)
      {
        ghost var before, p := bw.buffer[..], bw.pos;
        assert before[p..] == orig[p..];
        r := PacketPass(n, fr, s0);
        SuffixNarrows(before, orig, p, bw.pos);
      }
    }

    /** One iteration of the packet loop: flush, then one pass of the switch.
        Each iteration hands out bytes, moves the machine on, or finishes. */
    method PacketPass(n: u32, fr: seq<seq<i32>>, ghost s0: seq<u8>) returns (r: int)
      requires PacketCore() && Planned() && numFrames == n && frames == fr
      requires bw.WindowValid() && bw.pos < bw.len && sent == s0 + bw.buffer[..bw.pos]
      modifies this`emitted, this`sent, this`channelState, this`frame, this`channel, this`packetState,
        bw`val, bw`bits, bw`pos, bw.buffer
      ensures PacketCore() && bw.WindowValid() && (r == 0 || r == 1)
      ensures r == 1 ==> sent == s0 + bw.buffer[..bw.pos] && (packetState == PacketFlush ==> bw.bits > 0)
      ensures r == 0 ==> packetState == PacketStart && sent == [] && BytesBits(s0 + bw.buffer[..bw.pos]) == Padded(packet)
      ensures r == 0 || 16 * (bw.len - bw.pos) + PacketRank(packetState, channel, config.channels)
                          < old(16 * (bw.len - bw.pos) + PacketRank(packetState, channel, config.channels))
      ensures old(bw.pos) <= bw.pos && bw.buffer[bw.pos..] == old(bw.buffer[..])[bw.pos..]
    {
      ghost var pos0, rank0 := bw.pos, PacketRank(packetState, channel, config.channels);
      ghost var original := bw.buffer[..];
      FlushPacketOutput(s0);
      ghost var flushed, pos1 := bw.buffer[..], bw.pos;
      r := PacketStep(n, fr, s0);
      SuffixNarrows(flushed, original, pos1, bw.pos);
      if r == 1 {
        PacketRankBound(packetState, channel, config.channels);
        MeasureDrops(bw.len, pos0, bw.pos, rank0, PacketRank(packetState, channel, config.channels));
      }
    }

    /** The padded fields of the packet in progress are the packet of its
        frame group. */
    lemma PlannedBits()
      requires Planned()
      ensures Padded(packet) == PacketBits(config, numFrames, frames)
    {
      LaidUnique(config, numFrames, frames, packet);
    }

    /** Between calls the bytes handed out are a prefix of the packet. */
    lemma PacketSentIsPrefix()
      requires PacketCore() && packetState != PacketStart
      ensures BytesBits(sent) <= PacketBits(config, numFrames, frames)
    {
      PacketAtPrefix(config, numFrames, packet, packetState, channel, channelState, frame, emitted);
      PrefixTrans(BytesBits(sent), emitted, Padded(packet));
      PlannedBits();
    }

    /** technicallyalac_packet with the byte count reported back: writes the
        next part of the packet for the n frames of `fr` (one sequence per
        channel) into output[..bytes], and returns 1 while more is to come and
        0 with the last part, together with the number of bytes written. The
        frame group must stay the same until the packet is complete. */
    method Packet(output: array<u8>, bytes: u32, n: u32, fr: seq<seq<i32>>) returns (r: int, written: u32)
      requires Valid() && cookieState == CookieStart && bytes as int <= output.Length
      requires FrameGroup(config, n as nat, fr)
      requires packetState != PacketStart ==> numFrames == n as nat && frames == fr
      modifies this`emitted, this`sent, this`channelState, this`frame, this`channel, this`packetState,
        this`numFrames, this`frames, this`packet, bw`val, bw`bits, bw`pos, bw`len, bw`buffer, output
      ensures Valid() && cookieState == CookieStart && numFrames == n as nat && frames == fr && (r == 0 || r == 1)
      ensures bw.buffer == output && written == bw.pos <= bytes && (r == 1 ==> written == bytes)
      ensures r == 1 ==> sent == old(sent) + output[..written] && BytesBits(sent) <= PacketBits(config, n as nat, fr)
      ensures r == 0 ==> BytesBits(old(sent) + output[..written]) == PacketBits(config, n as nat, fr) && Idle()
      ensures output[written..] == old(output[..])[written..]
    {
      OpenWindow(output, bytes, n, fr);
      r := RunPacket(n, fr);
      written := bw.pos as u32;
    }

    /** The packet loop over an open window, and what it leaves. */
    method RunPacket(n: u32, fr: seq<seq<i32>>) returns (r: int)
      requires Cached() && PacketCore() && Planned() && numFrames == n as nat && frames == fr
      requires bw.WindowValid() && bw.pos == 0 && (packetState == PacketFlush ==> bw.bits > 0)
      modifies this`emitted, this`sent, this`channelState, this`frame, this`channel, this`packetState,
        bw`val, bw`bits, bw`pos, bw.buffer
      ensures Valid() && cookieState == CookieStart && numFrames == n as nat && frames == fr
      ensures bw.WindowValid() && (r == 0 || r == 1) && (r == 1 ==> bw.pos == bw.len)
      ensures r == 1 ==> sent == old(sent) + bw.buffer[..bw.pos] && BytesBits(sent) <= PacketBits(config, n as nat, fr)
      ensures r == 0 ==> BytesBits(old(sent) + bw.buffer[..bw.pos]) == PacketBits(config, n as nat, fr) && Idle()
      ensures bw.buffer[bw.pos..] == old(bw.buffer[..])[bw.pos..]
    {
      ghost var s0 := sent;
      r := PacketLoop(n, fr, s0);
      PacketDone(r, s0);
    }

    /** Points the accumulator at the caller's window and, at the start of a
        packet, takes on its frame group. */
    method OpenWindow(output: array<u8>, bytes: u32, n: u32, fr: seq<seq<i32>>)
      requires Valid() && cookieState == CookieStart && bytes as int <= output.Length
      requires FrameGroup(config, n as nat, fr)
      requires packetState != PacketStart ==> numFrames == n as nat && frames == fr
      modifies bw`buffer, bw`len, bw`pos, this`numFrames, this`frames, this`packet
      ensures Cached() && PacketCore() && Planned() && numFrames == n as nat && frames == fr
      ensures bw.WindowValid() && bw.pos == 0 && bw.buffer == output && bw.len == bytes as nat
      ensures packetState == PacketFlush ==> bw.bits > 0
    {
      bw.buffer, bw.len, bw.pos := output, bytes as nat, 0;
      if packetState == PacketStart {
        PlanPacket(n, fr);
      }
    }

    /** Takes on the frame group of a new packet and the fields it lays out. */
    method PlanPacket(n: u32, fr: seq<seq<i32>>)
      requires FrameGroup(config, n as nat, fr)
      modifies this`numFrames, this`frames, this`packet
      ensures Planned() && numFrames == n as nat && frames == fr
    {
      numFrames, frames, packet := n as nat, fr, PacketFields(config, n as nat, fr);
      LaidOut(config, n as nat, fr);
    }

    /** What a call of the packet loop leaves: the invariant, and either a
        prefix of the packet handed out or the whole packet. */
    lemma PacketDone(r: int, s0: seq<u8>)
      requires Cached() && PacketCore() && Planned() && bw.WindowValid() && (r == 0 || r == 1)
      requires r == 1 ==> sent == s0 + bw.buffer[..bw.pos] && (packetState == PacketFlush ==> bw.bits > 0)
      requires r == 0 ==> packetState == PacketStart && sent == [] && BytesBits(s0 + bw.buffer[..bw.pos]) == Padded(packet)
      ensures Valid()
      ensures r == 1 ==> BytesBits(sent) <= PacketBits(config, numFrames, frames)
      ensures r == 0 ==> BytesBits(s0 + bw.buffer[..bw.pos]) == PacketBits(config, numFrames, frames) && Idle()
    {
      PlannedBits();
      if r == 1 && packetState != PacketStart {
        PacketSentIsPrefix();
      }
    }

    /** technicallyalac_packet as written: it never stores the number of bytes
        it wrote through `bytes`, so the caller reads back the size of the
        window it passed in, whatever the packet filled. */
    method PacketAsWritten(output: array<u8>, bytes: u32, n: u32, fr: seq<seq<i32>>) returns (r: int, reported: u32)
      requires Valid() && cookieState == CookieStart && bytes as int <= output.Length
      requires FrameGroup(config, n as nat, fr)
      requires packetState != PacketStart ==> numFrames == n as nat && frames == fr
      modifies this`emitted, this`sent, this`channelState, this`frame, this`channel, this`packetState,
        this`numFrames, this`frames, this`packet, bw`val, bw`bits, bw`pos, bw`len, bw`buffer, output
      ensures Valid() && (r == 0 || r == 1) && reported == bytes && bw.pos <= bytes
      ensures r == 0 ==> BytesBits(old(sent) + output[..bw.pos]) == PacketBits(config, n as nat, fr) && Idle()
      ensures output[bw.pos..] == old(output[..])[bw.pos..]
    {
      var written;
      r, written := Packet(output, bytes, n, fr);
      reported := bytes;
    }
  }

  /** technicallyalac_init: -1 for an unsupported bit depth or channel count,
      otherwise 0 and an encoder with every machine at its start. */
  method Init(framelength: u32, samplerate: u32, channels: u8, bitdepth: u8) returns (status: int, e: Encoder?)
    ensures status == 0 <==> Supported(Config(framelength, samplerate, channels, bitdepth))
    ensures status == 0 || status == -1
    ensures status == 0 ==> e != null && fresh(e) && fresh(e.bw) && e.Valid() && e.Idle()
    ensures status == 0 ==> e != null && e.config == Config(framelength, samplerate, channels, bitdepth)
    ensures status != 0 ==> e == null
    ensures status == 0 ==> e != null && e.channelState == ChannelStart && e.frame == 0 && e.channel == 0
    ensures status == 0 ==> e != null && e.bw.val == 0 && e.bw.bits == 0
  {
    if bitdepth < 4 || bitdepth > 32 {
      return -1, null;
    }
    if channels < 1 || channels > 2 {
      return -1, null;
    }
    e := new Encoder(Config(framelength, samplerate, channels, bitdepth));
    status := 0;
  }

  /** A mono packet of one 4-bit frame is 23 + 4 + 3 = 30 bits, padded to 4
      bytes: whatever window it is written into, the complete packet is 4
      bytes, so the window size the source reports back (8 for an 8-byte
      window) is not what it wrote. */
  lemma PacketMisreports(out: seq<u8>)
    requires BytesBits(out) == PacketBits(Config(1, 44100, 1, 4), 1, [[0]])
    ensures |out| == 4
  {
    var cfg := Config(1, 44100, 1, 4);
    PacketLength(cfg, [[0]]);
    assert PacketSizeBits(cfg) == 30;
    assert |BytesBits(out)| == 8 * |out|;
  }
}

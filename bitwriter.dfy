/** The 64-bit bit accumulator that queues fields and drains whole bytes into
    a caller's output window. */
module BitWriting {
  import opened Bits

  /** Bytes a flush writes with `bits` pending and `room` bytes left in the window. */
  function FlushCount(bits: nat, room: nat): nat
  {
    if bits / 8 < room then bits / 8 else room
  }

  /** A drain that stopped because the window filled or fewer than 8 bits
      remained wrote exactly FlushCount bytes. */
  lemma FlushCountExact(before: nat, after: nat, room: nat, k: nat)
    requires before == after + 8 * k && k <= room
    requires k == room || after < 8
    ensures k == FlushCount(before, room)
  {
    if after < 8 {
      DivModUnique(before, 8, k, after);
    } else {
      assert before / 8 >= k by {
        DivModUnique(before, 8, k + after / 8, after % 8);
      }
    }
  }

  /** A flush with at least one pending byte and room for it always writes. */
  lemma FlushMakesProgress(bits: nat, room: nat)
    requires bits >= 8 && room >= 1
    ensures 1 <= FlushCount(bits, room) <= room
    ensures 8 * FlushCount(bits, room) <= bits
  {
  }

  /** The free space as the source computes it: the byte count times 8 is
      evaluated in 32-bit unsigned arithmetic before it is widened. */
  function AvailAsWritten(room: u32): nat
  {
    (room * 8) % U32_LIMIT
  }

  function FlushCountAsWritten(bits: nat, room: u32): nat
  {
    var avail := AvailAsWritten(room);
    if bits / 8 < avail / 8 then bits / 8 else avail / 8
  }

  /** With 2^29 bytes of room and a full accumulator, the flush as written
      emits nothing, so the driving loops make no progress; the corrected
      count writes all eight pending bytes. */
  lemma FlushStallsAsWritten()
    ensures FlushCountAsWritten(64, 0x2000_0000) == 0
    ensures FlushCount(64, 0x2000_0000) == 8
  {
  }

  /** Moving the top pending byte to the output keeps output + pending unchanged. */
  lemma FlushStep(before: seq<u8>, v: int, k: nat, whole: seq<bool>)
    requires BytesBits(before) + ToBits(v, k + BYTE) == whole
    ensures BytesBits(before + [ByteAt(v, k)]) + ToBits(v, k) == whole
  {
    var top, rest := ToBits(ByteAt(v, k), BYTE), ToBits(v, k);
    TopByte(v, k);
    BytesBitsSnoc(before, ByteAt(v, k));
    assert BytesBits(before) + (top + rest) == (BytesBits(before) + top) + rest;
  }

  /** The accumulator after queueing the low w bits of v: shifted left by w,
      with those bits below. */
  function Appended(val: nat, v: int, w: nat): nat
  {
    val * Pow2(w) + LowBits(v, w)
  }

  /** Appending to `bits` pending bits with room for w more keeps 64 bits and
      puts the w new bits after the pending ones. */
  lemma AppendedBits(val: nat, bits: nat, v: int, w: nat)
    requires val < Pow2(bits) && bits + w <= 64
    ensures Appended(val, v, w) < Pow2(bits + w) && Appended(val, v, w) < U64_LIMIT
    ensures ToBits(Appended(val, v, w), bits + w) == ToBits(val, bits) + ToBits(v, w)
  {
    var masked := LowBits(v, w);
    LowBitsKeepsBits(v, w);
    AppendBound(val, masked, bits, w);
    Pow2Monotone(bits + w, 64);
    Pow2Of64();
    ToBitsConcat(val, masked, bits, w);
  }

  class BitWriter {
    /** Pending bits, right-justified. */
    var val: u64
    /** Number of pending bits. */
    var bits: nat
    /** The output window buffer[pos..len) of the current call. */
    var pos: nat
    var len: nat
    var buffer: array<u8>

    /** At most 64 pending bits, and nothing stale above them. */
    ghost predicate Valid()
      reads this`val, this`bits
    {
      bits <= 64 && val < Pow2(bits)
    }

    ghost predicate WindowValid()
      reads this
    {
      pos <= len <= buffer.Length
    }

    /** The pending bits, oldest first. */
    ghost function Pending(): seq<bool>
      reads this`val, this`bits
    {
      ToBits(val, bits)
    }

    constructor ()
      ensures Valid() && bits == 0 && Pending() == []
    {
      val, bits, pos, len := 0, 0, 0, 0;
      buffer := new u8[0];
    }

    method Init()
      modifies this`val, this`bits
      ensures Valid() && val == 0 && bits == 0 && Pending() == []
    {
      val := 0;
      bits := 0;
    }

    /** Writes whole pending bytes, most significant first, while the window
        has room, then clears the bits it wrote from the accumulator. */
    method Flush()
      requires Valid() && WindowValid()
      modifies this`val, this`bits, this`pos, buffer
      ensures Valid() && WindowValid()
      ensures old(pos) <= pos <= len && bits == old(bits) - 8 * (pos - old(pos))
      ensures pos == len || bits < 8
      ensures pos - old(pos) == FlushCount(old(bits), old(len - pos))
      ensures BytesBits(buffer[old(pos)..pos]) + Pending() == old(Pending())
      ensures forall i :: 0 <= i < buffer.Length && !(old(pos) <= i < pos) ==> buffer[i] == old(buffer[i])
      ensures buffer[..pos] == old(buffer[..pos]) + buffer[old(pos)..pos]
      ensures buffer[pos..] == old(buffer[..])[pos..]
    {
      ghost var v0, b0, p0 := val, bits, pos;
      WriteBytes();
      FlushCountExact(b0, bits, len - p0, pos - p0);
      ghost var tail := ToBits(v0, bits);
      if bits == 0 {
        val := 0;
      } else {
        LowBitsKeepsBits(val, bits);
        val := LowBits(val, bits);
      }
      assert Pending() == tail;
      assert buffer[..pos] == buffer[..p0] + buffer[p0..pos];
      assert buffer[..p0] == old(buffer[..pos]);
    }

    /** The byte loop of Flush: the written bits are left in `val`, above the
        `bits` pending ones. */
    method WriteBytes()
      requires Valid() && WindowValid()
      modifies this`bits, this`pos, buffer
      ensures bits <= 64 && WindowValid()
      ensures old(pos) <= pos <= len && bits == old(bits) - 8 * (pos - old(pos))
      ensures pos == len || bits < 8
      ensures BytesBits(buffer[old(pos)..pos]) + ToBits(val, bits) == old(Pending())
      ensures forall i :: 0 <= i < buffer.Length && !(old(pos) <= i < pos) ==> buffer[i] == old(buffer[i])
    {
      var avail := (len - pos) * 8;
      ghost var p0, whole := pos, Pending();
      ghost var out: seq<u8> := [];
      while avail > 0 && bits > 7
        invariant p0 <= pos <= len && avail == (len - pos) * 8
        invariant bits <= old(bits) && old(bits) - bits == 8 * (pos - p0)
        invariant |out| == pos - p0
        invariant BytesBits(out) + ToBits(val, bits) == whole
        invariant forall i :: p0 <= i < pos ==> buffer[i] == out[i - p0]
        invariant forall i :: 0 <= i < buffer.Length && !(p0 <= i < pos) ==> buffer[i] == old(buffer[i])
      {
        bits := bits - 8;
        FlushStep(out, val, bits, whole);
        var byte := ByteAt(val, bits);
        buffer[pos] := byte;
        pos := pos + 1;
        out := out + [byte];
        avail := avail - 8;
      }
      assert buffer[p0..pos] == out;
    }

    /** Queues the low w bits of v, unless they would overflow the accumulator. */
    method Add(w: nat, v: u64) returns (ok: bool)
      requires Valid() && 1 <= w <= 64
      modifies this`val, this`bits
      ensures Valid()
      ensures ok == (old(bits) + w <= 64)
      ensures ok ==> bits == old(bits) + w && Pending() == old(Pending()) + ToBits(v, w)
      ensures !ok ==> val == old(val) && bits == old(bits)
    {
      if bits + w > 64 {
        return false;
      }
      var next := Appended(val, v, w);
      AppendedBits(val, bits, v, w);
      val := next;
      bits := bits + w;
      return true;
    }

    /** Pads with zero bits up to the next byte boundary. */
    method Align()
      requires Valid()
      modifies this`val, this`bits
      ensures Valid() && bits % 8 == 0
      ensures bits == old(bits) + (8 - old(bits) % 8) % 8
      ensures Pending() == old(Pending()) + ToBits(0, (8 - old(bits) % 8) % 8)
    {
      var r := bits % 8;
      ghost var b0 := bits;
      assert b0 == 8 * (b0 / 8) + r;
      if r != 0 {
        assert (8 - r) % 8 == 8 - r;
        var ok := Add(8 - r, 0);
        assert ok;
        DivModUnique(bits, 8, b0 / 8 + 1, 0);
      } else {
        assert ToBits(0, 0) + [] == [];
      }
    }
  }
}

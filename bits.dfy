/** Fixed-width integers of the C source and the bit sequences the encoder emits.
    A bit sequence is written most-significant bit first, as it appears on the wire. */
module Bits {

  type u8 = x: int | 0 <= x < 0x100
  type u16 = x: int | 0 <= x < 0x1_0000
  type u32 = x: int | 0 <= x < 0x1_0000_0000
  type u64 = x: int | 0 <= x < 0x1_0000_0000_0000_0000
  type i16 = x: int | -0x8000 <= x < 0x8000
  type i32 = x: int | -0x8000_0000 <= x < 0x8000_0000

  /** Bits per byte. */
  const BYTE: nat := 8

  const U32_LIMIT: nat := 0x1_0000_0000
  const U64_LIMIT: nat := 0x1_0000_0000_0000_0000

  function Pow2(n: nat): (r: nat)
    ensures r >= 1
  {
    if n == 0 then 1 else 2 * Pow2(n - 1)
  }

  lemma {:induction false} Pow2Add(a: nat, b: nat)
    ensures Pow2(a + b) == Pow2(a) * Pow2(b)
  {
    if a > 0 {
      Pow2Add(a - 1, b);
      assert Pow2(a + b) == 2 * Pow2(a - 1 + b);
    }
  }

  lemma {:induction false} Pow2Monotone(a: nat, b: nat)
    requires a <= b
    ensures Pow2(a) <= Pow2(b)
  {
    if a < b {
      Pow2Monotone(a, b - 1);
    }
  }

  lemma Pow2Of8()
    ensures Pow2(8) == 0x100
  {
    Pow2Add(4, 4);
  }

  lemma Pow2Of32()
    ensures Pow2(32) == U32_LIMIT
  {
    Pow2Add(16, 16);
    assert Pow2(16) == 0x1_0000 by { Pow2Add(8, 8); Pow2Of8(); }
  }

  lemma Pow2Of64()
    ensures Pow2(64) == U64_LIMIT
  {
    Pow2Add(32, 32);
    Pow2Of32();
  }

  /** A multiple of d strictly between -d and d is zero. */
  lemma MultipleInsideIsZero(k: int, d: int)
    requires d > 0 && -d < k * d < d
    ensures k == 0
  {
  }

  /** Euclidean division is determined by the quotient-remainder identity. */
  lemma DivModUnique(x: int, d: int, q: int, r: int)
    requires d > 0 && 0 <= r < d && x == q * d + r
    ensures x / d == q && x % d == r
  {
    var q0, r0 := x / d, x % d;
    assert x == q0 * d + r0;
    assert (q - q0) * d == r0 - r;
    MultipleInsideIsZero(q - q0, d);
  }

  /** Dividing by 2*m is halving and then dividing by m. */
  lemma DivModHalf(v: int, m: int)
    requires m > 0
    ensures v / (2 * m) == (v / 2) / m
    ensures v % (2 * m) == 2 * ((v / 2) % m) + v % 2
  {
    var a, b := v / 2, v % 2;
    var q, s := a / m, a % m;
    assert v == (2 * m) * q + (2 * s + b);
    DivModUnique(v, 2 * m, q, 2 * s + b);
  }

  /** A w-bit value appended below an n-bit value fits in n + w bits. */
  lemma AppendBound(a: nat, b: nat, n: nat, w: nat)
    requires a < Pow2(n) && b < Pow2(w)
    ensures a * Pow2(w) + b < Pow2(n + w)
  {
    Pow2Add(n, w);
    MulLeRight(a + 1, Pow2(n), Pow2(w));
    assert (a + 1) * Pow2(w) == a * Pow2(w) + Pow2(w);
  }

  lemma MulLeRight(x: int, y: int, z: int)
    requires x <= y && z >= 0
    ensures x * z <= y * z
  {
    assert y * z - x * z == (y - x) * z;
  }

  /** The low w bits of v, most-significant first. Negative values give their
      two's-complement bits, because Euclidean halving rounds toward minus infinity. */
  function ToBits(v: int, w: nat): (r: seq<bool>)
    ensures |r| == w
    decreases w
  {
    if w == 0 then [] else ToBits(v / 2, w - 1) + [v % 2 == 1]
  }

  /** The unsigned value of a bit sequence read most-significant first. */
  function FromBits(s: seq<bool>): (r: nat)
    ensures r < Pow2(|s|)
  {
    if s == [] then 0 else 2 * FromBits(s[..|s| - 1]) + (if s[|s| - 1] then 1 else 0)
  }

  /** Reading back the bits of v gives v reduced modulo 2^w. */
  lemma {:induction false} FromBitsToBits(v: int, w: nat)
    ensures FromBits(ToBits(v, w)) == v % Pow2(w)
    decreases w
  {
    if w > 0 {
      var s := ToBits(v, w);
      assert s[..w - 1] == ToBits(v / 2, w - 1);
      FromBitsToBits(v / 2, w - 1);
      DivModHalf(v, Pow2(w - 1));
    }
  }

  /** A value below 2^w is recovered from its w bits. */
  lemma FromBitsToBitsExact(v: int, w: nat)
    requires 0 <= v < Pow2(w)
    ensures FromBits(ToBits(v, w)) == v
  {
    FromBitsToBits(v, w);
    DivModUnique(v, Pow2(w), 0, v);
  }

  /** Only the low w bits matter: reducing modulo 2^m with m >= w changes nothing. */
  lemma {:induction false} ToBitsOfMod(v: int, m: nat, w: nat)
    requires w <= m
    ensures ToBits(v % Pow2(m), w) == ToBits(v, w)
    decreases w
  {
    if w > 0 {
      var x := v % Pow2(m);
      DivModHalf(v, Pow2(m - 1));
      assert x / 2 == (v / 2) % Pow2(m - 1);
      assert x % 2 == v % 2;
      ToBitsOfMod(v / 2, m - 1, w - 1);
    }
  }

  /** The n + k low bits of v are the n bits above position k followed by the k low bits. */
  lemma {:induction false} ToBitsSplit(v: int, n: nat, k: nat)
    ensures ToBits(v, n + k) == ToBits(v / Pow2(k), n) + ToBits(v, k)
    decreases k
  {
    if k > 0 {
      ToBitsSplit(v / 2, n, k - 1);
      DivModHalf(v, Pow2(k - 1));
      assert ToBits(v, n + k) == ToBits(v / 2, n + k - 1) + [v % 2 == 1];
    }
  }

  /** Appending w bits of b below n bits of a is the bit sequence of a * 2^w + b. */
  lemma ToBitsConcat(a: int, b: int, n: nat, w: nat)
    requires 0 <= b < Pow2(w)
    ensures ToBits(a * Pow2(w) + b, n + w) == ToBits(a, n) + ToBits(b, w)
  {
    var x := a * Pow2(w) + b;
    ToBitsSplit(x, n, w);
    DivModUnique(x, Pow2(w), a, b);
    ToBitsOfMod(x, w, w);
    ToBitsOfMod(b, w, w);
    DivModUnique(b, Pow2(w), 0, b);
  }

  /** One field of the bitstream: `width` bits holding the low bits of `value`. */
  datatype Field = Field(width: nat, value: int)

  function FieldBits(f: Field): seq<bool>
  {
    ToBits(f.value, f.width)
  }

  function TotalWidth(fs: seq<Field>): nat
  {
    if fs == [] then 0 else TotalWidth(fs[..|fs| - 1]) + fs[|fs| - 1].width
  }

  /** The bits of a field list, fields in order, each most-significant bit first. */
  function Emit(fs: seq<Field>): (r: seq<bool>)
    ensures |r| == TotalWidth(fs)
  {
    if fs == [] then [] else Emit(fs[..|fs| - 1]) + FieldBits(fs[|fs| - 1])
  }

  lemma EmitPrefixStep(fs: seq<Field>, k: nat)
    requires k < |fs|
    ensures Emit(fs[..k + 1]) == Emit(fs[..k]) + FieldBits(fs[k])
  {
    assert fs[..k + 1][..k] == fs[..k];
  }

  /** The bits of the first k fields of fs. */
  function EmitUpTo(fs: seq<Field>, k: nat): seq<bool>
    requires k <= |fs|
  {
    if k == 0 then [] else EmitUpTo(fs, k - 1) + FieldBits(fs[k - 1])
  }

  lemma {:induction false} EmitUpToIsEmit(fs: seq<Field>, k: nat)
    requires k <= |fs|
    ensures EmitUpTo(fs, k) == Emit(fs[..k])
  {
    if k == 0 {
      assert fs[..0] == [];
    } else {
      EmitUpToIsEmit(fs, k - 1);
      EmitPrefixStep(fs, k - 1);
    }
  }

  lemma {:induction false} EmitAppend(a: seq<Field>, b: seq<Field>)
    ensures Emit(a + b) == Emit(a) + Emit(b)
  {
    if b != [] {
      var c := b[..|b| - 1];
      assert (a + b)[..|a + b| - 1] == a + c;
      EmitAppend(a, c);
    } else {
      assert a + b == a;
    }
  }

  lemma EmitAll(fs: seq<Field>)
    ensures Emit(fs[..|fs|]) == Emit(fs)
  {
    assert fs[..|fs|] == fs;
  }

  /** Emitting a prefix of a field list gives a prefix of its bits. */
  lemma EmitMonotone(a: seq<Field>, b: seq<Field>)
    requires a <= b
    ensures Emit(a) <= Emit(b)
  {
    assert b == a + b[|a|..];
    EmitAppend(a, b[|a|..]);
  }

  lemma PrefixTrans<T>(a: seq<T>, b: seq<T>, c: seq<T>)
    requires a <= b && b <= c
    ensures a <= c
  {
    assert c[..|a|] == c[..|b|][..|a|];
  }

  /** The unsigned big-endian value of a byte string. */
  function BytesValue(bs: seq<u8>): nat
  {
    if bs == [] then 0 else BytesValue(bs[..|bs| - 1]) * 0x100 + bs[|bs| - 1]
  }

  function BytesBits(bs: seq<u8>): (r: seq<bool>)
    ensures |r| == 8 * |bs|
  {
    ToBits(BytesValue(bs), 8 * |bs|)
  }

  lemma {:induction false} BytesValueBound(bs: seq<u8>)
    ensures BytesValue(bs) < Pow2(8 * |bs|)
  {
    if bs != [] {
      var c := bs[..|bs| - 1];
      BytesValueBound(c);
      Pow2Of8();
      AppendBound(BytesValue(c), bs[|bs| - 1], 8 * |c|, 8);
    }
  }

  lemma {:induction false} BytesValueAppend(a: seq<u8>, b: seq<u8>)
    ensures BytesValue(a + b) == BytesValue(a) * Pow2(8 * |b|) + BytesValue(b)
  {
    if b == [] {
      assert a + b == a;
    } else {
      var c, x := b[..|b| - 1], b[|b| - 1];
      var p := Pow2(8 * |c|);
      assert BytesValue(a + b) == BytesValue(a + c) * 0x100 + x by {
        assert (a + b)[..|a + b| - 1] == a + c;
      }
      assert BytesValue(a + c) == BytesValue(a) * p + BytesValue(c) by {
        BytesValueAppend(a, c);
      }
      assert Pow2(8 * |b|) == p * 0x100 by {
        Pow2Add(8 * |c|, 8);
        Pow2Of8();
      }
      ShiftInByte(BytesValue(a), p, BytesValue(c), x);
    }
  }

  lemma ShiftInByte(hi: int, p: int, lo: int, x: int)
    ensures (hi * p + lo) * 0x100 + x == hi * (p * 0x100) + (lo * 0x100 + x)
  {
  }

  lemma BytesBitsSnoc(bs: seq<u8>, b: u8)
    ensures BytesBits(bs + [b]) == BytesBits(bs) + ToBits(b, BYTE)
  {
    BytesBitsAppend(bs, [b]);
    assert [b][..0] == [];
    assert BytesValue([b]) == b;
  }

  function ByteAt(v: int, k: nat): u8
  {
    (v / Pow2(k)) % 0x100
  }

  /** v & (2^k - 1): the k low bits of v. */
  function LowBits(v: int, k: nat): (r: nat)
    ensures r < Pow2(k)
  {
    v % Pow2(k)
  }

  lemma LowBitsKeepsBits(v: int, k: nat)
    requires k <= 64
    ensures LowBits(v, k) < U64_LIMIT
    ensures ToBits(LowBits(v, k), k) == ToBits(v, k)
  {
    ToBitsOfMod(v, k, k);
    Pow2Monotone(k, 64);
    Pow2Of64();
  }

  /** The top byte of a (k + 8)-bit value, then its k low bits. */
  lemma TopByte(v: int, k: nat)
    ensures ToBits(v, k + BYTE) == ToBits(ByteAt(v, k), BYTE) + ToBits(v, k)
  {
    ToBitsSplit(v, BYTE, k);
    Pow2Of8();
    ToBitsOfMod(v / Pow2(k), BYTE, BYTE);
  }

  lemma BytesBitsAppend(a: seq<u8>, b: seq<u8>)
    ensures BytesBits(a + b) == BytesBits(a) + BytesBits(b)
  {
    BytesValueAppend(a, b);
    BytesValueBound(b);
    ToBitsConcat(BytesValue(a), BytesValue(b), 8 * |a|, 8 * |b|);
  }
}

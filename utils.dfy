/** The pure helpers of the ledger: the difficulty policy, 32-bit big-endian
    integers in byte buffers, the trailing-zero test on a digest, comparison of
    two byte slices, the wallet code and the hex-string parser used to build the
    genesis block. */
module HanukCoinUtils {

  /** A Java `byte`, kept as its bit pattern 0..255 (comparisons for equality
      and the masks used below do not depend on the sign). */
  type byte = b: int | 0 <= b < 256

  /** A Java `int`. */
  type i32 = x: int | -0x8000_0000 <= x < 0x8000_0000

  /** A Java `long`. */
  type i64 = x: int | -0x8000_0000_0000_0000 <= x < 0x8000_0000_0000_0000

  /** The MD5 primitive, which the model does not implement: any function from
      bytes to a 16-byte digest. */
  type Hasher = f: seq<byte> -> seq<byte> | forall s :: |f(s)| == 16
    witness (s: seq<byte>) => seq(16, _ => 0)

  /** Required zero bits for serial number 0. */
  const PUZZLE_BITS0: int := 20

  const TWO_32: int := 0x1_0000_0000

  function Pow2(k: nat): (r: nat)
    ensures r >= 1
  {
    if k == 0 then 1 else 2 * Pow2(k - 1)
  }

  function Min(a: int, b: int): int { if a <= b then a else b }

  /** The powers of two the byte layout uses. */
  lemma Pow2Table()
    ensures Pow2(8) == 0x100 && Pow2(16) == 0x1_0000 && Pow2(24) == 0x100_0000
    ensures Pow2(31) == 0x8000_0000 && Pow2(32) == TWO_32
  {
    assert Pow2(4) == 16 by { assert Pow2(2) == 4; }
    assert Pow2(8) == 0x100 by { assert Pow2(6) == 64; }
    assert Pow2(12) == 0x1000 by { assert Pow2(10) == 0x400; }
    assert Pow2(16) == 0x1_0000 by { assert Pow2(14) == 0x4000; }
    assert Pow2(20) == 0x10_0000 by { assert Pow2(18) == 0x4_0000; }
    assert Pow2(24) == 0x100_0000 by { assert Pow2(22) == 0x40_0000; }
    assert Pow2(28) == 0x1000_0000 by { assert Pow2(26) == 0x400_0000; }
    assert Pow2(31) == 0x8000_0000 by { assert Pow2(30) == 0x4000_0000; }
  }

  /** Java's narrowing to `int` (and the wrap-around of `int` addition): keep
      the low 32 bits and read them as two's complement. */
  function Wrap32(x: int): i32
  {
    var m := x % TWO_32;
    if m < 0x8000_0000 then m else m - TWO_32
  }

  /** `Wrap32(x)` is congruent to `x` modulo 2^32, and it is the only `int`
      that is. */
  lemma Wrap32Congruent(x: int, r: i32)
    ensures (x - Wrap32(x)) % TWO_32 == 0
    ensures (x - r) % TWO_32 == 0 ==> r == Wrap32(x)
  {
    var w := Wrap32(x);
    var m := x % TWO_32;
    assert x == (x / TWO_32) * TWO_32 + m;
    if m < 0x8000_0000 {
      DivModUnique(x - w, TWO_32, x / TWO_32, 0);
    } else {
      DivModUnique(x - w, TWO_32, x / TWO_32 + 1, 0);
    }
    if (x - r) % TWO_32 == 0 {
      var q := (x - r) / TWO_32;
      assert x - r == q * TWO_32;
      DivModUnique(x, TWO_32, q + (if r < 0 then -1 else 0), if r < 0 then r + TWO_32 else r);
    }
  }

  /** The 32-bit pattern of an `int`, read as unsigned. */
  function Unsigned32(x: i32): (u: nat)
    ensures u < TWO_32
  {
    if x < 0 then x + TWO_32 else x
  }

  // ---------------------------------------------------------------------
  // Difficulty policy

  /** The source's test `(n & ((1L << i) - 1)) == n` for `i < 32`: the mask
      keeps bits 0..i-1 and clears the sign bit, so the test holds exactly when
      `n` is a non-negative value below 2^i. */
  predicate FitsInBits(n: int, i: nat)
  {
    0 <= n < Pow2(i)
  }

  /** The loop of `numBits` from probe `i` on: the first `i < 32` whose mask
      holds `n`, or 99 when none does. */
  function NumBitsFrom(n: i64, i: nat): (r: int)
    ensures 0 <= r <= 99
    decreases 32 - i
  {
    if i >= 32 then 99
    else if FitsInBits(n, i) then i
    else NumBitsFrom(n, i + 1)
  }

  /** Reference definition of the bit length: how many times `n` can be
      halved before it reaches zero. */
  function BitLength(n: nat): nat
  {
    if n == 0 then 0 else 1 + BitLength(n / 2)
  }

  lemma {:induction false} Pow2Monotone(a: nat, b: nat)
    requires a <= b
    ensures Pow2(a) <= Pow2(b)
  {
    if a < b {
      Pow2Monotone(a, b - 1);
    }
  }

  /** Probing from `i` on, with every earlier probe failed, finds the bit
      length of an in-range value and 99 for every other value. */
  lemma {:induction false} NumBitsFromFinds(n: i64, i: nat)
    decreases 32 - i
    requires i <= 32
    requires i > 0 ==> !FitsInBits(n, i - 1)
    requires 0 <= n < 0x8000_0000 ==> i <= 31
    ensures 0 <= n < 0x8000_0000 ==>
      i <= NumBitsFrom(n, i) <= 31 && FitsInBits(n, NumBitsFrom(n, i))
      && (NumBitsFrom(n, i) == 0 || !FitsInBits(n, NumBitsFrom(n, i) - 1))
    ensures !(0 <= n < 0x8000_0000) ==> NumBitsFrom(n, i) == 99
  {
    if i < 32 {
      Pow2Table();
      Pow2Monotone(i, 31);
      if !FitsInBits(n, i) {
        if 0 <= n < 0x8000_0000 {
          assert i < 31;
        }
        NumBitsFromFinds(n, i + 1);
      }
    }
  }

  /** `numBits`: for 0 <= n < 2^31 the least `i` with n < 2^i, otherwise
      (a negative value or one of 2^31 or more) the sentinel 99. */
  function NumBits(n: i64): int
  {
    NumBitsFrom(n, 0)
  }

  /** `numBits` gives the least `i` with n < 2^i on 0 <= n < 2^31, and 99
      on every other value. */
  lemma NumBitsMeans(n: i64)
    ensures 0 <= n < 0x8000_0000 ==>
      (0 <= NumBits(n) <= 31 && n < Pow2(NumBits(n)) && (NumBits(n) == 0 || Pow2(NumBits(n) - 1) <= n))
    ensures !(0 <= n < 0x8000_0000) ==> NumBits(n) == 99
  {
    NumBitsFromFinds(n, 0);
  }

  /** The bit length lies between the neighbouring powers of two. */
  lemma {:induction false} BitLengthBounds(n: nat)
    ensures n < Pow2(BitLength(n))
    ensures n == 0 || Pow2(BitLength(n) - 1) <= n
  {
    if n > 0 {
      BitLengthBounds(n / 2);
    }
  }

  /** Two candidate bit lengths of the same value coincide. */
  lemma BitLengthUnique(n: nat, a: nat, b: nat)
    requires n < Pow2(a) && (a == 0 || Pow2(a - 1) <= n)
    requires n < Pow2(b) && (b == 0 || Pow2(b - 1) <= n)
    ensures a == b
  {
    if a < b {
      Pow2Monotone(a, b - 1);
    } else if b < a {
      Pow2Monotone(b, a - 1);
    }
  }

  /** On every non-negative `int`, `numBits` is the bit length. */
  lemma NumBitsIsBitLength(n: i64)
    requires 0 <= n < 0x8000_0000
    ensures NumBits(n) == BitLength(n)
  {
    NumBitsMeans(n);
    var a, b := NumBits(n), BitLength(n);
    assert n < Pow2(a) && (a == 0 || Pow2(a - 1) <= n);
    BitLengthBounds(n);
    BitLengthUnique(n, a, b);
  }

  /** `numberOfZerosForPuzzle`: 20 plus the bit length of a non-negative
      serial; a negative serial gets the sentinel 20 + 99. */
  function NumberOfZerosForPuzzle(blockSerialNumber: i32): (r: int)
    ensures PUZZLE_BITS0 <= r <= PUZZLE_BITS0 + 99
  {
    PUZZLE_BITS0 + NumBits(blockSerialNumber)
  }

  /** The difficulty is 20 plus the bit length of a non-negative serial, and
      20 + 99 for a negative one; so it is 20..51 or 119. */
  lemma DifficultyOf(blockSerialNumber: i32)
    ensures 0 <= blockSerialNumber ==> NumberOfZerosForPuzzle(blockSerialNumber) == PUZZLE_BITS0 + BitLength(blockSerialNumber)
    ensures blockSerialNumber < 0 ==> NumberOfZerosForPuzzle(blockSerialNumber) == PUZZLE_BITS0 + 99
    ensures 20 <= NumberOfZerosForPuzzle(blockSerialNumber) <= 51 || NumberOfZerosForPuzzle(blockSerialNumber) == 119
  {
    Pow2Table();
    NumBitsMeans(blockSerialNumber);
    if 0 <= blockSerialNumber {
      NumBitsIsBitLength(blockSerialNumber);
    }
  }

  /** The values the unit tests pin down. */
  lemma DifficultyExamples()
    ensures NumBits(0) == 0 && NumBits(5) == 3 && NumBits(31) == 5 && NumBits(32) == 6
    ensures NumberOfZerosForPuzzle(1000) == 30
  {
    Pow2Table();
    assert BitLength(0) == 0;
    assert BitLength(5) == 3 by { assert BitLength(1) == 1; assert BitLength(2) == 2; }
    assert BitLength(31) == 5 by { assert BitLength(1) == 1; assert BitLength(3) == 2; assert BitLength(7) == 3; assert BitLength(15) == 4; }
    assert BitLength(32) == 6 by { assert BitLength(1) == 1; assert BitLength(2) == 2; assert BitLength(4) == 3; assert BitLength(8) == 4; assert BitLength(16) == 5; }
    assert BitLength(1000) == 10 by {
      assert BitLength(1) == 1; assert BitLength(3) == 2; assert BitLength(7) == 3;
      assert BitLength(15) == 4; assert BitLength(31) == 5; assert BitLength(62) == 6;
      assert BitLength(125) == 7; assert BitLength(250) == 8; assert BitLength(500) == 9;
    }
    NumBitsIsBitLength(0);
    NumBitsIsBitLength(5);
    NumBitsIsBitLength(31);
    NumBitsIsBitLength(32);
    NumBitsIsBitLength(1000);
  }

  // ---------------------------------------------------------------------
  // Big-endian 32-bit integers

  /** `(byte) ((value >> shift) & 0xFF)`: byte number `shift / 8` of the
      two's complement pattern, counted from the least significant end. */
  function ByteOf(value: i32, shift: nat): byte
  {
    (Unsigned32(value) / Pow2(shift)) % 0x100
  }

  /** The four bytes `intIntoBytes` writes, most significant first. */
  function IntToBytes(value: i32): (r: seq<byte>)
    ensures |r| == 4
  {
    var u := Unsigned32(value);
    [u / 0x100_0000, (u / 0x1_0000) % 0x100, (u / 0x100) % 0x100, u % 0x100]
  }

  /** Decoding the four bytes of a pattern gives the pattern back. */
  lemma EncodeDecodeUnsigned(u: nat)
    requires u < TWO_32
    ensures (u / 0x100_0000) * 0x100_0000 + ((u / 0x1_0000) % 0x100) * 0x1_0000
            + ((u / 0x100) % 0x100) * 0x100 + u % 0x100 == u
  {
  }

  /** Splitting a four-byte big-endian value back into its bytes. */
  lemma DecodeBytes(b0: byte, b1: byte, b2: byte, b3: byte)
    ensures var u := b0 * 0x100_0000 + b1 * 0x1_0000 + b2 * 0x100 + b3;
      u / 0x100_0000 == b0 && (u / 0x1_0000) % 0x100 == b1 && (u / 0x100) % 0x100 == b2 && u % 0x100 == b3
  {
    var u := b0 * 0x100_0000 + b1 * 0x1_0000 + b2 * 0x100 + b3;
    DivModUnique(u, 0x100_0000, b0, b1 * 0x1_0000 + b2 * 0x100 + b3);
    DivModUnique(u, 0x1_0000, b0 * 0x100 + b1, b2 * 0x100 + b3);
    DivModUnique(b0 * 0x100 + b1, 0x100, b0, b1);
    DivModUnique(u, 0x100, b0 * 0x1_0000 + b1 * 0x100 + b2, b3);
    DivModUnique(b0 * 0x1_0000 + b1 * 0x100 + b2, 0x100, b0 * 0x100 + b1, b2);
  }

  /** `intFromBytes`: the big-endian `int` stored at `data[offset..offset+4]`;
      writing it back with `intIntoBytes` reproduces exactly those bytes. */
  function IntFromBytes(data: seq<byte>, offset: int): (r: i32)
    requires 0 <= offset && offset + 4 <= |data|
  {
    var u := data[offset] as int * 0x100_0000 + data[offset + 1] as int * 0x1_0000
             + data[offset + 2] as int * 0x100 + data[offset + 3] as int;
    if u < 0x8000_0000 then u else u - TWO_32
  }

  /** Writing back the `int` that `intFromBytes` read reproduces exactly the
      four bytes it was read from. */
  lemma FromBytesEncodes(data: seq<byte>, offset: int)
    requires 0 <= offset && offset + 4 <= |data|
    ensures IntToBytes(IntFromBytes(data, offset)) == data[offset..offset + 4]
  {
    var r := IntFromBytes(data, offset);
    DecodeBytes(data[offset], data[offset + 1], data[offset + 2], data[offset + 3]);
  }

  /** Reading back the bytes `intIntoBytes` wrote gives the value written, for
      every 32-bit value (0xDEADBEEF and -1411231107 among them). */
  lemma IntBytesRoundTrip(x: i32)
    ensures IntFromBytes(IntToBytes(x), 0) == x
  {
    var u := Unsigned32(x);
    var bs := IntToBytes(x);
    Pow2Table();
    assert bs[0] == u / 0x100_0000 && bs[1] == (u / 0x1_0000) % 0x100;
    assert bs[2] == (u / 0x100) % 0x100 && bs[3] == u % 0x100;
    EncodeDecodeUnsigned(u);
    assert bs[0] as int * 0x100_0000 + bs[1] as int * 0x1_0000 + bs[2] as int * 0x100 + bs[3] as int == u;
  }

  /** Four bytes that encode `x` decode to `x`. */
  lemma ReadBack(data: seq<byte>, offset: int, x: i32)
    requires 0 <= offset && offset + 4 <= |data|
    requires data[offset..offset + 4] == IntToBytes(x)
    ensures IntFromBytes(data, offset) == x
  {
    var y := IntFromBytes(data, offset);
    IntBytesRoundTrip(x);
    IntBytesRoundTrip(y);
  }

  /** `intFromBytes` at the offset where `intIntoBytes` wrote returns the value
      written, whatever the rest of the buffer holds. */
  lemma WriteThenRead(data: seq<byte>, offset: int, x: i32)
    requires 0 <= offset && offset + 4 <= |data|
    ensures IntFromBytes(data[..offset] + IntToBytes(x) + data[offset + 4..], offset) == x
  {
    var d := data[..offset] + IntToBytes(x) + data[offset + 4..];
    assert d[offset..offset + 4] == IntToBytes(x);
    IntBytesRoundTrip(x);
  }

  /** `intIntoBytes`: writes `value` big-endian into `data[offset..offset+4]`
      and leaves every other byte as it was. */
  method IntIntoBytes(data: array<byte>, offset: int, value: i32)
    requires 0 <= offset && offset + 4 <= data.Length
    modifies data
    ensures data[..] == old(data[..offset]) + IntToBytes(value) + old(data[offset + 4..])
  {
    Pow2Table();
    data[offset] := ByteOf(value, 24);
    data[offset + 1] := ByteOf(value, 16);
    data[offset + 2] := ByteOf(value, 8);
    data[offset + 3] := ByteOf(value, 0);
  }

  /** `walletCode`: the big-endian `int` formed by the first four bytes of the
      MD5 digest of the name's bytes. */
  function WalletCode(md5: Hasher, nameBytes: seq<byte>): (r: i32)
    ensures IntToBytes(r) == md5(nameBytes)[..4]
  {
    FromBytesEncodes(md5(nameBytes), 0);
    IntFromBytes(md5(nameBytes), 0)
  }

  // ---------------------------------------------------------------------
  // Trailing zero bits of a digest

  /** Bit `t` (0 = least significant) of byte `b`. */
  function BitOfByte(b: byte, t: nat): int
  {
    (b / Pow2(t)) % 2
  }

  /** Bit `j` of a digest read as one big-endian number: bit 0 is the lowest
      bit of the last byte. */
  function DigestBit(sig: seq<byte>, j: nat): int
    requires j < 8 * |sig|
  {
    BitOfByte(sig[|sig| - 1 - j / 8], j % 8)
  }

  /** The last `n` bits of `sig` are all zero. */
  ghost predicate TrailingBitsZero(sig: seq<byte>, n: nat)
    requires n <= 8 * |sig|
  {
    forall j :: 0 <= j < n ==> DigestBit(sig, j) == 0
  }

  /** The source's `(b & ((1 << k) - 1)) == 0` on a sign-extended byte: Java
      shifts an `int` by `k & 31`, and the mask then covers the lowest
      min(k & 31, 8) bits of the byte (a wider mask also covers the
      sign-extension bits, which are zero exactly when bit 7 is). */
  predicate MaskedBitsZero(b: byte, k: int)
  {
    b % Pow2(Min(k % 32, 8)) == 0
  }

  /** What `checkSignatureZeros(sig, nZeros)` decides: a 16-byte digest whose
      last `nZeros` bits are zero; for a negative count, which no caller
      passes, the mask test on the last byte. */
  ghost predicate ZerosOk(sig: seq<byte>, nZeros: int)
    requires nZeros <= 128
  {
    |sig| == 16 &&
    if nZeros >= 0 then TrailingBitsZero(sig, nZeros) else MaskedBitsZero(sig[15], nZeros)
  }

  lemma MulMonotone(a: int, b: int, d: int)
    requires a <= b && d >= 0
    ensures a * d <= b * d
  {
    assert b * d - a * d == (b - a) * d;
  }

  /** Fundamental property of division: the quotient and remainder are unique. */
  lemma DivModUnique(b: int, d: int, q: int, r: int)
    requires d > 0 && 0 <= r < d && b == q * d + r
    ensures b / d == q && b % d == r
  {
    var q', r' := b / d, b % d;
    assert b == q' * d + r';
    if q' < q {
      assert (q' + 1) * d == q' * d + d;
      MulMonotone(q' + 1, q, d);
    } else if q < q' {
      assert (q + 1) * d == q * d + d;
      MulMonotone(q + 1, q', d);
    }
  }

  /** A multiple of 2p is a multiple of p whose quotient by p is even. */
  lemma ModDouble(b: nat, p: nat)
    requires p > 0
    ensures b % (2 * p) == 0 <==> b % p == 0 && (b / p) % 2 == 0
  {
    var q, m := b / p, b % p;
    var h, e := q / 2, q % 2;
    assert b == q * p + m && 0 <= m < p;
    assert q == 2 * h + e && (e == 0 || e == 1);
    var r := if e == 0 then m else p + m;
    assert q * p == (2 * h + e) * p == h * (2 * p) + e * p;
    assert e * p + m == r;
    assert b == h * (2 * p) + r && 0 <= r < 2 * p;
    DivModUnique(b, 2 * p, h, r);
    assert b % (2 * p) == r;
  }

  /** The low `r` bits of `b` are zero exactly when `b` is a multiple of 2^r. */
  lemma {:induction false} LowBitsZero(b: byte, r: nat)
    ensures b % Pow2(r) == 0 <==> forall t :: 0 <= t < r ==> BitOfByte(b, t) == 0
  {
    if r > 0 {
      LowBitsZero(b, r - 1);
      ModDouble(b, Pow2(r - 1));
      assert BitOfByte(b, r - 1) == (b / Pow2(r - 1)) % 2;
      if b % Pow2(r) == 0 {
        assert forall t :: 0 <= t < r - 1 ==> BitOfByte(b, t) == 0;
      }
    }
  }

  /** A byte is zero exactly when its eight bits are. */
  lemma ByteZeroIffBits(b: byte)
    ensures b == 0 <==> forall t :: 0 <= t < 8 ==> BitOfByte(b, t) == 0
  {
    LowBitsZero(b, 8);
    Pow2Table();
    assert b % Pow2(8) == b;
  }

  /** Bit `t` of byte number 15 - c of a 16-byte digest is digest bit 8c + t. */
  lemma DigestBitInByte(sig: seq<byte>, c: nat, t: nat)
    requires |sig| == 16 && c < 16 && t < 8
    ensures DigestBit(sig, 8 * c + t) == BitOfByte(sig[15 - c], t)
  {
    assert (8 * c + t) / 8 == c && (8 * c + t) % 8 == t;
  }

  /** Byte 15 - c is zero exactly when digest bits 8c .. 8c+7 are. */
  lemma WholeByteBits(sig: seq<byte>, c: nat)
    requires |sig| == 16 && c < 16
    ensures sig[15 - c] == 0 <==> forall j :: 8 * c <= j < 8 * c + 8 ==> DigestBit(sig, j) == 0
  {
    ByteZeroIffBits(sig[15 - c]);
    if sig[15 - c] == 0 {
      forall j | 8 * c <= j < 8 * c + 8
        ensures DigestBit(sig, j) == 0
      {
        DigestBitInByte(sig, c, j - 8 * c);
      }
    } else {
      var t :| 0 <= t < 8 && BitOfByte(sig[15 - c], t) != 0;
      DigestBitInByte(sig, c, t);
    }
  }

  /** The mask test on byte 15 - c with 0 < r < 8 bits checks digest bits
      8c .. 8c+r-1. */
  lemma PartialByteBits(sig: seq<byte>, c: nat, r: nat)
    requires |sig| == 16 && c < 16 && 0 < r < 8
    ensures MaskedBitsZero(sig[15 - c], r) <==> forall j :: 8 * c <= j < 8 * c + r ==> DigestBit(sig, j) == 0
  {
    assert Min(r % 32, 8) == r;
    LowBitsZero(sig[15 - c], r);
    if MaskedBitsZero(sig[15 - c], r) {
      forall j | 8 * c <= j < 8 * c + r
        ensures DigestBit(sig, j) == 0
      {
        DigestBitInByte(sig, c, j - 8 * c);
      }
    } else {
      var t :| 0 <= t < r && BitOfByte(sig[15 - c], t) != 0;
      DigestBitInByte(sig, c, t);
    }
  }

  /** `checkSignatureZeros`: false for a digest that is not 16 bytes long;
      otherwise whole bytes are checked from index 15 downward, then a mask on
      the remaining low bits. The count never exceeds 128 (beyond that the
      source indexes below the start of the digest). */
  method CheckSignatureZeros(sig: seq<byte>, nZeros: int) returns (ok: bool)
    requires nZeros <= 128
    ensures ok <==> ZerosOk(sig, nZeros)
  {
    if |sig| != 16 {
      return false;
    }
    var sigIndex := 15;
    var remaining := nZeros;
    while remaining >= 8
      invariant -1 <= sigIndex <= 15
      invariant remaining == nZeros - 8 * (15 - sigIndex)
      invariant sigIndex < 15 ==> remaining >= 0
      invariant forall j :: 0 <= j < 8 * (15 - sigIndex) ==> DigestBit(sig, j) == 0
    {
      WholeByteBits(sig, 15 - sigIndex);
      if sig[sigIndex] != 0 {
        return false;
      }
      sigIndex := sigIndex - 1;
      remaining := remaining - 8;
    }
    if remaining == 0 {
      return true;
    }
    // The remaining 1..7 bits, or for a negative count the shifted mask.
    ok := MaskedBitsZero(sig[sigIndex], remaining);
    if nZeros >= 0 {
      PartialByteBits(sig, 15 - sigIndex, remaining);
    }
  }

  /** With no bits required, every 16-byte digest passes. */
  lemma NoZerosRequired(sig: seq<byte>)
    requires |sig| == 16
    ensures ZerosOk(sig, 0)
  {
  }

  // ---------------------------------------------------------------------
  // Comparing slices

  /** `ArraysPartEquals`: true exactly when `a[aStart..aStart+len]` and
      `b[bStart..bStart+len]` hold the same bytes (always, for `len <= 0`). */
  method ArraysPartEquals(len: int, a: seq<byte>, aStart: int, b: seq<byte>, bStart: int) returns (equal: bool)
    requires len <= 0 || (0 <= aStart && aStart + len <= |a| && 0 <= bStart && bStart + len <= |b|)
    ensures equal <==> len <= 0 || a[aStart..aStart + len] == b[bStart..bStart + len]
  {
    var i := 0;
    while i < len
      invariant 0 <= i <= (if len > 0 then len else 0)
      invariant len > 0 ==> a[aStart..aStart + i] == b[bStart..bStart + i]
    {
      if a[aStart + i] != b[bStart + i] {
        assert a[aStart..aStart + len][i] != b[bStart..bStart + len][i];
        return false;
      }
      assert a[aStart..aStart + i + 1] == a[aStart..aStart + i] + [a[aStart + i]];
      assert b[bStart..bStart + i + 1] == b[bStart..bStart + i] + [b[bStart + i]];
      i := i + 1;
    }
    return true;
  }

  // ---------------------------------------------------------------------
  // Parsing hex byte strings

  /** The characters of the regular expression class `\s`. */
  predicate IsWhitespace(c: char)
  {
    c == ' ' || c == '\t' || c == '\n' || c == '\U{0B}' || c == '\U{0C}' || c == '\r'
  }

  /** Length of the run of non-whitespace characters that starts `s`. */
  function TokenLength(s: string): (n: nat)
    ensures n <= |s|
    ensures forall i :: 0 <= i < n ==> !IsWhitespace(s[i])
    ensures n < |s| ==> IsWhitespace(s[n])
  {
    if s == [] || IsWhitespace(s[0]) then 0 else 1 + TokenLength(s[1..])
  }

  /** The maximal runs of non-whitespace characters of `s`, in order. */
  function Tokens(s: string): seq<string>
    decreases |s|
  {
    if s == [] then []
    else if IsWhitespace(s[0]) then Tokens(s[1..])
    else
      var n := TokenLength(s);
      [s[..n]] + Tokens(s[n..])
  }

  /** `s.split("\\s+")`: the string itself when it is empty; otherwise the
      maximal non-whitespace runs, preceded by an empty string when `s` starts
      with whitespace, with trailing empty strings dropped. */
  function Split(s: string): seq<string>
  {
    if s == [] then [""]
    else if IsWhitespace(s[0]) then
      var t := Tokens(s);
      if t == [] then [] else [""] + t
    else Tokens(s)
  }

  /** A non-empty run of non-whitespace characters. */
  predicate IsWord(t: string)
  {
    |t| > 0 && forall i :: 0 <= i < |t| ==> !IsWhitespace(t[i])
  }

  /** A non-empty run of whitespace characters. */
  predicate IsGap(t: string)
  {
    |t| > 0 && forall i :: 0 <= i < |t| ==> IsWhitespace(t[i])
  }

  /** Words with a gap between each neighbouring pair. */
  function Joined(words: seq<string>, gaps: seq<string>): string
    requires |gaps| + 1 == |words|
  {
    if |words| == 1 then words[0] else words[0] + gaps[0] + Joined(words[1..], gaps[1..])
  }

  lemma {:induction false} TokenLengthOf(t: string, rest: string)
    requires forall i :: 0 <= i < |t| ==> !IsWhitespace(t[i])
    requires rest == [] || IsWhitespace(rest[0])
    ensures TokenLength(t + rest) == |t|
  {
    if t != [] {
      assert (t + rest)[1..] == t[1..] + rest;
      TokenLengthOf(t[1..], rest);
    }
  }

  lemma {:induction false} SkipGap(gap: string, rest: string)
    requires forall i :: 0 <= i < |gap| ==> IsWhitespace(gap[i])
    ensures Tokens(gap + rest) == Tokens(rest)
  {
    if gap != [] {
      var s := gap + rest;
      assert s[0] == gap[0];
      assert s[1..] == gap[1..] + rest;
      SkipGap(gap[1..], rest);
    } else {
      assert gap + rest == rest;
    }
  }

  /** A leading word is the first token, and the gap after it is skipped. */
  lemma TokensHead(t: string, gap: string, rest: string)
    requires IsWord(t)
    requires forall i :: 0 <= i < |gap| ==> IsWhitespace(gap[i])
    requires gap != [] || rest == []
    ensures Tokens(t + gap + rest) == [t] + Tokens(rest)
  {
    var s := t + gap + rest;
    assert s == t + (gap + rest);
    TokenLengthOf(t, gap + rest);
    assert s[..|t|] == t && s[|t|..] == gap + rest;
    SkipGap(gap, rest);
  }

  /** Splitting words joined by whitespace gives the words back. */
  lemma {:induction false} SplitJoined(words: seq<string>, gaps: seq<string>)
    requires |gaps| + 1 == |words|
    requires forall i :: 0 <= i < |words| ==> IsWord(words[i])
    requires forall i :: 0 <= i < |gaps| ==> IsGap(gaps[i])
    ensures Tokens(Joined(words, gaps)) == words
    ensures Split(Joined(words, gaps)) == words
  {
    assert IsWord(words[0]);
    if |words| == 1 {
      TokensHead(words[0], [], []);
      assert words[0] + [] + [] == words[0];
      assert Tokens([]) == [];
    } else {
      assert IsGap(gaps[0]);
      SplitJoined(words[1..], gaps[1..]);
      TokensHead(words[0], gaps[0], Joined(words[1..], gaps[1..]));
      assert words == [words[0]] + words[1..];
    }
    assert Joined(words, gaps)[0] == words[0][0];
  }

  /** Value of an ASCII hex digit, -1 for any other character. */
  function HexDigitValue(c: char): int
  {
    if '0' <= c <= '9' then c as int - '0' as int
    else if 'a' <= c <= 'f' then c as int - 'a' as int + 10
    else if 'A' <= c <= 'F' then c as int - 'A' as int + 10
    else -1
  }

  predicate IsHexDigits(t: string)
  {
    |t| > 0 && forall i :: 0 <= i < |t| ==> HexDigitValue(t[i]) >= 0
  }

  function HexValue(t: string): nat
    requires forall i :: 0 <= i < |t| ==> HexDigitValue(t[i]) >= 0
  {
    if t == [] then 0 else 16 * HexValue(t[..|t| - 1]) + HexDigitValue(t[|t| - 1])
  }

  /** `Integer.parseInt(t, 16)` succeeds: an optional sign, then hex digits
      whose value fits an `int`. */
  predicate ParsesAsInt(t: string)
  {
    if |t| > 0 && t[0] == '-' then IsHexDigits(t[1..]) && HexValue(t[1..]) <= 0x8000_0000
    else if |t| > 0 && t[0] == '+' then IsHexDigits(t[1..]) && HexValue(t[1..]) < 0x8000_0000
    else IsHexDigits(t) && HexValue(t) < 0x8000_0000
  }

  /** `Integer.parseInt(t, 16)`. */
  function ParseInt(t: string): i32
    requires ParsesAsInt(t)
  {
    if t[0] == '-' then -(HexValue(t[1..]) as int)
    else if t[0] == '+' then HexValue(t[1..])
    else HexValue(t)
  }

  /** Java's `(byte)` narrowing of an `int`, as a bit pattern. */
  function ToByte(x: int): byte
  {
    x % 0x100
  }

  /** The narrowing keeps `x` modulo 256, and it is the only byte pattern
      that does. */
  lemma ToByteNarrowing(x: int, b: byte)
    ensures (x - ToByte(x)) % 0x100 == 0
    ensures (x - b) % 0x100 == 0 ==> b == ToByte(x)
  {
    DivModUnique(x, 0x100, x / 0x100, ToByte(x));
    DivModUnique(x - ToByte(x), 0x100, x / 0x100, 0);
    if (x - b) % 0x100 == 0 {
      var q := (x - b) / 0x100;
      DivModUnique(x, 0x100, q, b);
    }
  }

  /** `parseByteStr`: one byte per whitespace-separated hex token, in order;
      a token `Integer.parseInt` rejects is a caller error (it throws). */
  method ParseByteStr(s: string) returns (result: array<byte>)
    requires forall i :: 0 <= i < |Split(s)| ==> ParsesAsInt(Split(s)[i])
    ensures fresh(result)
    ensures result.Length == |Split(s)|
    ensures forall i :: 0 <= i < result.Length ==> result[i] == ToByte(ParseInt(Split(s)[i]))
  {
    var tokens := Split(s);
    var a: seq<byte> := [];
    for i := 0 to |tokens|
      invariant |a| == i
      invariant forall k :: 0 <= k < i ==> a[k] == ToByte(ParseInt(tokens[k]))
    {
      a := a + [ToByte(ParseInt(tokens[i]))];
    }
    result := new byte[|a|](_ => 0);
    for i := 0 to |a|
      invariant forall k :: 0 <= k < i ==> result[k] == a[k]
    {
      result[i] := a[i];
    }
  }
}

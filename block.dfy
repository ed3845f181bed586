/** The 36-byte block record: serial number (bytes 0..4), wallet (4..8), the
    first eight bytes of the predecessor's signature part (8..16), the puzzle
    (16..24) and the first twelve bytes of the block's digest (24..36), every
    integer big-endian. The spec functions at the top read a block as a value;
    class `Block` holds the mutable array the source works on. */
module Blocks {
  import opened HanukCoinUtils

  const BLOCK_SZ: nat := 36

  /** The outcomes of the two verifiers. */
  datatype BlockError = Ok | BadSerialNo | SameWalletPrev | NoPrevSig | SigNoZeros | SigBad

  /** The contents of a block. */
  type BlockBytes = s: seq<byte> | |s| == BLOCK_SZ witness seq(36, _ => 0)

  function Zeros(n: nat): (r: seq<byte>)
    ensures |r| == n && forall i :: 0 <= i < n ==> r[i] == 0
  {
    seq(n, _ => 0)
  }

  function SerialOf(d: BlockBytes): i32 { IntFromBytes(d, 0) }

  function WalletOf(d: BlockBytes): i32 { IntFromBytes(d, 4) }

  /** The block with the given fields, in the order of the record. */
  function Layout(serialNumber: i32, walletNumber: i32, prevSig8: seq<byte>, puzzle8: seq<byte>, sig12: seq<byte>): BlockBytes
    requires |prevSig8| == 8 && |puzzle8| == 8 && |sig12| == 12
  {
    IntToBytes(serialNumber) + IntToBytes(walletNumber) + prevSig8 + puzzle8 + sig12
  }

  /** Each field of a layout reads back as the value it was built from. */
  lemma LayoutFields(serialNumber: i32, walletNumber: i32, prevSig8: seq<byte>, puzzle8: seq<byte>, sig12: seq<byte>)
    requires |prevSig8| == 8 && |puzzle8| == 8 && |sig12| == 12
    ensures var d := Layout(serialNumber, walletNumber, prevSig8, puzzle8, sig12);
      SerialOf(d) == serialNumber && WalletOf(d) == walletNumber
      && d[8..16] == prevSig8 && d[16..24] == puzzle8 && d[24..36] == sig12
  {
    var d := Layout(serialNumber, walletNumber, prevSig8, puzzle8, sig12);
    assert d[0..4] == IntToBytes(serialNumber) && d[4..8] == IntToBytes(walletNumber);
    ReadBack(d, 0, serialNumber);
    ReadBack(d, 4, walletNumber);
  }

  /** Every block is the layout of its own fields. */
  lemma LayoutOfFields(d: BlockBytes)
    ensures d == Layout(SerialOf(d), WalletOf(d), d[8..16], d[16..24], d[24..36])
  {
    FromBytesEncodes(d, 0);
    FromBytesEncodes(d, 4);
    assert d == d[0..4] + d[4..8] + d[8..16] + d[16..24] + d[24..36];
  }

  /** The digest covers bytes 0..24 only, never the signature part. */
  function DigestOf(md5: Hasher, d: BlockBytes): seq<byte> { md5(d[..24]) }

  /** What `checkSignature` returns, checks in source order: the trailing
      zero bits the serial number demands, then the stored signature part
      against the first twelve digest bytes. */
  ghost function SignatureVerdict(md5: Hasher, d: BlockBytes): BlockError
  {
    var sig := DigestOf(md5, d);
    if !ZerosOk(sig, NumberOfZerosForPuzzle(SerialOf(d))) then SigNoZeros
    else if d[24..36] != sig[..12] then SigBad
    else Ok
  }

  /** What `checkValidNext` returns for block `d` after block `prev`: the
      first link check that fails, else the signature verdict of `d`. The
      serial successor is computed with `int` wrap-around. */
  ghost function ValidNextVerdict(md5: Hasher, d: BlockBytes, prev: BlockBytes): BlockError
  {
    if SerialOf(d) != Wrap32(SerialOf(prev) + 1) then BadSerialNo
    else if WalletOf(d) == WalletOf(prev) then SameWalletPrev
    else if d[8..16] != prev[24..32] then NoPrevSig
    else SignatureVerdict(md5, d)
  }

  /** A block accepted after `prev` has the successor serial, another wallet,
      the predecessor's signature prefix and a valid signature of its own;
      and conversely. */
  lemma ValidNextOkIff(md5: Hasher, d: BlockBytes, prev: BlockBytes)
    ensures ValidNextVerdict(md5, d, prev) == Ok <==>
      SerialOf(d) == Wrap32(SerialOf(prev) + 1) && WalletOf(d) != WalletOf(prev)
      && d[8..16] == prev[24..32] && SignatureVerdict(md5, d) == Ok
  {
  }

  /** `(int) (v >> 32)`: the high half of a `long` (an arithmetic shift is
      floor division). */
  function HighHalf(v: i64): i32
  {
    v / TWO_32
  }

  /** The eight bytes `setLongPuzzle(v)` writes: the high `int` half, then
      `(int) (v & 0xFFFFFFFF)`; there the literal is the `int` -1, so the mask
      keeps all of `v` and the cast keeps its low 32 bits. */
  function PuzzleBytes(v: i64): (r: seq<byte>)
    ensures |r| == 8
  {
    IntToBytes(HighHalf(v)) + IntToBytes(Wrap32(v))
  }

  /** A big-endian `long` read from eight bytes. */
  function LongFromBytes(data: seq<byte>, offset: int): int
    requires 0 <= offset && offset + 8 <= |data|
  {
    IntFromBytes(data, offset) * TWO_32 + Unsigned32(IntFromBytes(data, offset + 4))
  }

  /** The puzzle field holds `v` as one big-endian 64-bit value. */
  lemma PuzzleRoundTrip(v: i64)
    ensures LongFromBytes(PuzzleBytes(v), 0) == v
  {
    var p := PuzzleBytes(v);
    assert p[..4] == IntToBytes(HighHalf(v)) && p[4..8] == IntToBytes(Wrap32(v));
    WriteThenRead(p, 0, HighHalf(v));
    WriteThenRead(p, 4, Wrap32(v));
    assert p[..0] + IntToBytes(HighHalf(v)) + p[4..] == p;
    assert p[..4] + IntToBytes(Wrap32(v)) + p[8..] == p;
    var lo := Wrap32(v);
    var hi := HighHalf(v);
    assert Unsigned32(lo) == v % TWO_32;
    assert v == hi * TWO_32 + v % TWO_32;
  }

  /** The block after `setLongPuzzle(v)`. */
  function WithPuzzle(d: BlockBytes, v: i64): BlockBytes
  {
    d[..16] + PuzzleBytes(v) + d[24..]
  }

  /** Writing a puzzle replaces the puzzle field and keeps the others. */
  lemma PuzzleOfLayout(s: i32, w: i32, p: seq<byte>, z: seq<byte>, g: seq<byte>, v: i64)
    requires |p| == 8 && |z| == 8 && |g| == 12
    ensures WithPuzzle(Layout(s, w, p, z, g), v) == Layout(s, w, p, PuzzleBytes(v), g)
  {
    var d, e := Layout(s, w, p, z, g), Layout(s, w, p, PuzzleBytes(v), g);
    assert d[..16] == e[..16];
    assert d[24..] == e[24..];
  }

  /** The block after `setSignaturePart(sig)`. */
  function Sealed(d: BlockBytes, sig: seq<byte>): BlockBytes
    requires |sig| >= 12
  {
    d[..24] + sig[..12]
  }

  /** Sealing keeps bytes 0..24, hence the serial and the digest. */
  lemma SealKeepsHeader(md5: Hasher, d: BlockBytes, sig: seq<byte>)
    requires |sig| >= 12
    ensures Sealed(d, sig)[..24] == d[..24]
    ensures SerialOf(Sealed(d, sig)) == SerialOf(d) && WalletOf(Sealed(d, sig)) == WalletOf(d)
    ensures DigestOf(md5, Sealed(d, sig)) == DigestOf(md5, d)
  {
    var e := Sealed(d, sig);
    assert e[..24] == d[..24];
    assert e[0..4] == d[0..4] && e[4..8] == d[4..8];
  }

  /** Sealing a block with its own digest gives a valid signature exactly
      when the digest has the required trailing zero bits. */
  lemma SealWithDigest(md5: Hasher, d: BlockBytes)
    ensures var e := Sealed(d, DigestOf(md5, d));
      SignatureVerdict(md5, e) == (if ZerosOk(DigestOf(md5, d), NumberOfZerosForPuzzle(SerialOf(d))) then Ok else SigNoZeros)
  {
    SealKeepsHeader(md5, d, DigestOf(md5, d));
    var e := Sealed(d, DigestOf(md5, d));
    assert e[24..36] == DigestOf(md5, d)[..12];
  }

  /** One block: the array `data` of the source. */
  class Block {
    var data: array<byte>

    ghost predicate Valid()
      reads this
    {
      data.Length == BLOCK_SZ
    }

    /** `new Block()` followed by `data = new byte[BLOCK_SZ]`. */
    constructor ()
      ensures Valid() && fresh(data) && data[..] == Zeros(BLOCK_SZ)
    {
      data := new byte[BLOCK_SZ](_ => 0);
    }

    /** `createNoSig`: serial and wallet big-endian, the predecessor's
      signature prefix, puzzle and signature part zero. */
    static method CreateNoSig(serialNumber: i32, walletNumber: i32, prevSig8: seq<byte>) returns (b: Block)
      requires |prevSig8| >= 8
      ensures fresh(b) && fresh(b.data) && b.Valid()
      ensures b.data[..] == Layout(serialNumber, walletNumber, prevSig8[..8], Zeros(8), Zeros(12))
    {
      b := new Block();
      IntIntoBytes(b.data, 0, serialNumber);
      IntIntoBytes(b.data, 4, walletNumber);
      forall k | 0 <= k < 8 {
        b.data[8 + k] := prevSig8[k];
      }
      assert b.data[..] == IntToBytes(serialNumber) + IntToBytes(walletNumber) + prevSig8[..8] + Zeros(8) + Zeros(12);
    }

    /** `create`: as `createNoSig`, with the given puzzle and signature part. */
    static method Create(serialNumber: i32, walletNumber: i32, prevSig8: seq<byte>, puzzle8: seq<byte>, sig12: seq<byte>)
      returns (b: Block)
      requires |prevSig8| >= 8 && |puzzle8| >= 8 && |sig12| >= 12
      ensures fresh(b) && fresh(b.data) && b.Valid()
      ensures b.data[..] == Layout(serialNumber, walletNumber, prevSig8[..8], puzzle8[..8], sig12[..12])
    {
      b := CreateNoSig(serialNumber, walletNumber, prevSig8);
      forall k | 0 <= k < 12 {
        b.data[24 + k] := sig12[k];
      }
      forall k | 0 <= k < 8 {
        b.data[16 + k] := puzzle8[k];
      }
      assert b.data[..] == IntToBytes(serialNumber) + IntToBytes(walletNumber) + prevSig8[..8] + puzzle8[..8] + sig12[..12];
    }

    /** `getSerialNumber`: the `int` stored big-endian in bytes 0..4. */
    function SerialNumber(): (r: i32)
      reads this, data
      requires Valid()
      ensures IntToBytes(r) == data[..4] && r == SerialOf(data[..])
    {
      FromBytesEncodes(data[..], 0);
      IntFromBytes(data[..], 0)
    }

    /** `getWalletNumber`: the `int` stored big-endian in bytes 4..8. */
    function WalletNumber(): (r: i32)
      reads this, data
      requires Valid()
      ensures IntToBytes(r) == data[4..8] && r == WalletOf(data[..])
    {
      FromBytesEncodes(data[..], 4);
      IntFromBytes(data[..], 4)
    }

    /** `setLongPuzzle`: the puzzle field becomes `longPuzzle`, big-endian;
      no other byte changes. */
    method SetLongPuzzle(longPuzzle: i64)
      requires Valid()
      modifies data
      ensures data[..] == WithPuzzle(old(data[..]), longPuzzle)
    {
      IntIntoBytes(data, 16, HighHalf(longPuzzle));
      IntIntoBytes(data, 20, Wrap32(longPuzzle));
      assert data[..] == old(data[..16]) + PuzzleBytes(longPuzzle) + old(data[24..]);
    }

    /** `setSignaturePart`: bytes 24..36 become `sig[0..12]`; bytes 0..24, the
      digest's input, stay as they were. */
    method SetSignaturePart(sig: seq<byte>)
      requires Valid() && |sig| >= 12
      modifies data
      ensures data[..] == Sealed(old(data[..]), sig)
    {
      forall k | 0 <= k < 12 {
        data[24 + k] := sig[k];
      }
      assert data[..] == old(data[..24]) + sig[..12];
    }

    /** `calcSignature`: the 16-byte MD5 digest of bytes 0..24. */
    function CalcSignature(md5: Hasher): (digest: seq<byte>)
      reads this, data
      requires Valid()
      ensures |digest| == 16 && digest == md5(data[..24])
    {
      DigestOf(md5, data[..])
    }

    /** `checkSignature`: SIG_NO_ZEROS, else SIG_BAD, else OK, as
      `SignatureVerdict` orders them. */
    method CheckSignature(md5: Hasher) returns (e: BlockError)
      requires Valid()
      ensures e == SignatureVerdict(md5, data[..])
    {
      var sig := CalcSignature(md5);
      var serialNum := SerialNumber();
      var nZeros := NumberOfZerosForPuzzle(serialNum);
      var zerosOk := CheckSignatureZeros(sig, nZeros);
      if !zerosOk {
        return SigNoZeros;
      }
      var same := ArraysPartEquals(12, data[..], 24, sig, 0);
      if !same {
        return SigBad;
      }
      return Ok;
    }

    /** `checkValidNext`: the first failing link check against `prevBlock`,
      else the signature verdict; neither block changes. */
    method CheckValidNext(prevBlock: Block, md5: Hasher) returns (e: BlockError)
      requires Valid() && prevBlock.Valid()
      ensures e == ValidNextVerdict(md5, data[..], prevBlock.data[..])
    {
      ghost var d, p := data[..], prevBlock.data[..];
      var serial: int, prevSerial: int := SerialNumber(), prevBlock.SerialNumber();
      if serial != Wrap32(prevSerial + 1) {
        return BadSerialNo;
      }
      var wallet, prevWallet := WalletNumber(), prevBlock.WalletNumber();
      if wallet == prevWallet {
        return SameWalletPrev;
      }
      var linked := ArraysPartEquals(8, data[..], 8, prevBlock.data[..], 24);
      assert linked <==> d[8..16] == p[24..32];
      if !linked {
        return NoPrevSig;
      }
      e := CheckSignature(md5);
    }

    /** `equals`: the two blocks hold the same bytes. */
    method Equals(other: Block) returns (equal: bool)
      ensures equal <==> data[..] == other.data[..]
    {
      if other.data.Length != data.Length {
        return false;
      }
      var i := 0;
      while i < data.Length
        invariant 0 <= i <= data.Length
        invariant data[..i] == other.data[..i]
      {
        if data[i] != other.data[i] {
          assert data[..][i] != other.data[..][i];
          return false;
        }
        assert data[..i + 1] == data[..i] + [data[i]];
        assert other.data[..i + 1] == other.data[..i] + [other.data[i]];
        i := i + 1;
      }
      assert data[..] == data[..i];
      assert other.data[..] == other.data[..i];
      return true;
    }

    /** `clone`: a new block over a new array holding the same bytes, so that
      changing one leaves the other as it is. */
    method Clone() returns (b: Block)
      requires Valid()
      ensures fresh(b) && fresh(b.data) && b.Valid() && b.data[..] == data[..]
    {
      b := new Block();
      forall k | 0 <= k < BLOCK_SZ {
        b.data[k] := data[k];
      }
    }
  }
}

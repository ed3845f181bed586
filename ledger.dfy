/** The chain-level operations: the test-stage genesis block, one mining
    round that searches random puzzles for a block following a given one, and
    the validation of a received list of blocks. */
module Ledger {
  import opened HanukCoinUtils
  import opened Blocks

  // ---------------------------------------------------------------------
  // The test-stage genesis block

  /** Bytes of an ASCII string, one per character. */
  function AsciiBytes(s: string): (r: seq<byte>)
    requires forall i :: 0 <= i < |s| ==> s[i] as int < 128
    ensures |r| == |s| && forall i :: 0 <= i < |s| ==> r[i] == s[i] as int
  {
    seq(|s|, i requires 0 <= i < |s| => s[i] as int)
  }

  /** The hex texts of the genesis puzzle and signature part, kept as their
      words and the whitespace between them. */
  const GENESIS_PUZZLE_WORDS: seq<string> := ["71", "16", "8F", "29", "D9", "FE", "DF", "F9"]
  const GENESIS_PUZZLE_GAPS: seq<string> := [" ", " ", " ", "  ", " ", " ", " "]
  const GENESIS_PUZZLE_TEXT: string := Joined(GENESIS_PUZZLE_WORDS, GENESIS_PUZZLE_GAPS)
  const GENESIS_SIG_WORDS: seq<string> := ["BF", "3D", "AE", "1F", "65", "B0", "8F", "66", "AB", "2D", "B5", "1E"]
  const GENESIS_SIG_GAPS: seq<string> := [" ", " ", " ", "  ", " ", " ", " ", " ", " ", " ", " "]
  const GENESIS_SIG_TEXT: string := Joined(GENESIS_SIG_WORDS, GENESIS_SIG_GAPS)
  const GENESIS_NAME: string := "TEST_BLK"

  /** The bytes the two hex texts stand for. */
  const GENESIS_PUZZLE: seq<byte> := [0x71, 0x16, 0x8F, 0x29, 0xD9, 0xFE, 0xDF, 0xF9]
  const GENESIS_SIG: seq<byte> := [0xBF, 0x3D, 0xAE, 0x1F, 0x65, 0xB0, 0x8F, 0x66, 0xAB, 0x2D, 0xB5, 0x1E]

  /** The genesis block: serial 0, wallet 0, the name in place of a
      predecessor signature, then the fixed puzzle and signature part. */
  function GenesisBytes(): (r: BlockBytes)
  {
    Layout(0, 0, AsciiBytes(GENESIS_NAME), GENESIS_PUZZLE, GENESIS_SIG)
  }

  /** A two-digit unsigned hex token is parsed to its value, which fits a byte. */
  lemma HexPair(t: string)
    requires |t| == 2 && HexDigitValue(t[0]) >= 0 && HexDigitValue(t[1]) >= 0
    ensures ParsesAsInt(t)
    ensures ParseInt(t) == 16 * HexDigitValue(t[0]) + HexDigitValue(t[1])
    ensures ToByte(ParseInt(t)) == ParseInt(t)
  {
    assert t[..1][..0] == [];
    assert t[..1] == [t[0]];
    assert HexValue(t) == 16 * HexValue(t[..1]) + HexDigitValue(t[1]);
  }

  /** Two-digit hex words parse to the bytes they spell. */
  lemma ParsedWords(words: seq<string>, bytes: seq<byte>)
    requires |words| == |bytes|
    requires forall i :: 0 <= i < |words| ==>
      (|words[i]| == 2 && HexDigitValue(words[i][0]) >= 0 && HexDigitValue(words[i][1]) >= 0
       && bytes[i] == 16 * HexDigitValue(words[i][0]) + HexDigitValue(words[i][1]))
    ensures forall i :: 0 <= i < |words| ==> ParsesAsInt(words[i]) && ToByte(ParseInt(words[i])) == bytes[i]
  {
    forall i | 0 <= i < |words|
      ensures ParsesAsInt(words[i]) && ToByte(ParseInt(words[i])) == bytes[i]
    {
      HexPair(words[i]);
    }
  }

  /** The puzzle text splits into its eight hex words, the double space
      counting as one separator. */
  lemma GenesisPuzzleSplit()
    ensures Split(GENESIS_PUZZLE_TEXT) == GENESIS_PUZZLE_WORDS
  {
    assert forall i :: 0 <= i < |GENESIS_PUZZLE_GAPS| ==> IsGap(GENESIS_PUZZLE_GAPS[i]);
    assert forall i :: 0 <= i < |GENESIS_PUZZLE_WORDS| ==> IsWord(GENESIS_PUZZLE_WORDS[i]);
    SplitJoined(GENESIS_PUZZLE_WORDS, GENESIS_PUZZLE_GAPS);
  }

  /** The puzzle words parse to the genesis puzzle. */
  lemma GenesisPuzzleParse()
    ensures forall i :: 0 <= i < 8 ==>
      (ParsesAsInt(GENESIS_PUZZLE_WORDS[i]) && ToByte(ParseInt(GENESIS_PUZZLE_WORDS[i])) == GENESIS_PUZZLE[i])
  {
    ParsedWords(GENESIS_PUZZLE_WORDS, GENESIS_PUZZLE);
  }

  /** The signature text splits into its twelve hex words. */
  lemma GenesisSigSplit()
    ensures Split(GENESIS_SIG_TEXT) == GENESIS_SIG_WORDS
  {
    assert forall i :: 0 <= i < |GENESIS_SIG_GAPS| ==> IsGap(GENESIS_SIG_GAPS[i]);
    assert forall i :: 0 <= i < |GENESIS_SIG_WORDS| ==> IsWord(GENESIS_SIG_WORDS[i]);
    SplitJoined(GENESIS_SIG_WORDS, GENESIS_SIG_GAPS);
  }

  /** The signature words parse to the genesis signature part. */
  lemma GenesisSigParse()
    ensures forall i :: 0 <= i < 12 ==>
      (ParsesAsInt(GENESIS_SIG_WORDS[i]) && ToByte(ParseInt(GENESIS_SIG_WORDS[i])) == GENESIS_SIG[i])
  {
    ParsedWords(GENESIS_SIG_WORDS, GENESIS_SIG);
  }

  /** `parseByteStr` on the genesis puzzle text. */
  method ParseGenesisPuzzle() returns (puzzle: seq<byte>)
    ensures puzzle == GENESIS_PUZZLE
  {
    GenesisPuzzleSplit();
    GenesisPuzzleParse();
    var a := ParseByteStr(GENESIS_PUZZLE_TEXT);
    assert a[..] == GENESIS_PUZZLE by {
      forall i | 0 <= i < 8
        ensures a[i] == GENESIS_PUZZLE[i]
      {
        assert a[i] == ToByte(ParseInt(GENESIS_PUZZLE_WORDS[i]));
      }
    }
    puzzle := a[..];
  }

  /** `parseByteStr` on the genesis signature text. */
  method ParseGenesisSig() returns (sig: seq<byte>)
    ensures sig == GENESIS_SIG
  {
    GenesisSigSplit();
    GenesisSigParse();
    var a := ParseByteStr(GENESIS_SIG_TEXT);
    assert a[..] == GENESIS_SIG by {
      forall i | 0 <= i < 12
        ensures a[i] == GENESIS_SIG[i]
      {
        assert a[i] == ToByte(ParseInt(GENESIS_SIG_WORDS[i]));
      }
    }
    sig := a[..];
  }

  /** `createBlock0forTestStage`. */
  method CreateBlock0forTestStage() returns (b: Block)
    ensures fresh(b) && fresh(b.data) && b.Valid()
    ensures b.data[..] == GenesisBytes()
  {
    var puzzle := ParseGenesisPuzzle();
    var sig := ParseGenesisSig();
    var name := AsciiBytes(GENESIS_NAME);
    assert name[..8] == name && puzzle[..8] == puzzle && sig[..12] == sig;
    b := Block.Create(0, 0, name, puzzle, sig);
  }

  // ---------------------------------------------------------------------
  // Mining

  /** The block a mining attempt tests for the puzzle `puzzle`: the next
      serial number (with `int` wrap-around), the miner's wallet, the first
      eight bytes of the predecessor's signature part, the puzzle, and a
      signature part still zero. */
  function Candidate(prev: BlockBytes, wallet: i32, puzzle: i64): (d: BlockBytes)
  {
    Layout(Wrap32(SerialOf(prev) + 1), wallet, prev[24..32], PuzzleBytes(puzzle), Zeros(12))
  }

  /** A fresh block, before any puzzle is written, is the candidate of the
      zero puzzle. */
  lemma NoPuzzle()
    ensures PuzzleBytes(0) == Zeros(8)
  {
    assert HighHalf(0) == 0 && Wrap32(0) == 0;
    assert IntToBytes(0) == Zeros(4);
  }

  /** Writing a new puzzle into a candidate gives the candidate of that puzzle. */
  lemma NewPuzzle(prev: BlockBytes, wallet: i32, p: i64, q: i64)
    ensures WithPuzzle(Candidate(prev, wallet, p), q) == Candidate(prev, wallet, q)
  {
    PuzzleOfLayout(Wrap32(SerialOf(prev) + 1), wallet, prev[24..32], PuzzleBytes(p), Zeros(12), q);
  }

  /** The puzzle is solved: the digest has the trailing zero bits the new
      serial number demands. */
  ghost predicate Solves(md5: Hasher, d: BlockBytes)
  {
    SignatureVerdict(md5, d) != SigNoZeros
  }

  /** The `i`-th random puzzle solves the candidate after `prev`. */
  ghost predicate SolvedAt(md5: Hasher, prev: BlockBytes, wallet: i32, rand: nat -> i64, i: nat)
  {
    Solves(md5, Candidate(prev, wallet, rand(i)))
  }

  /** A solved candidate, sealed with its digest, passes `checkSignature`,
      and passes `checkValidNext` after its predecessor unless the miner
      owns the predecessor. */
  lemma MinedBlockVerdict(md5: Hasher, prev: BlockBytes, wallet: i32, puzzle: i64)
    requires Solves(md5, Candidate(prev, wallet, puzzle))
    ensures var d := Candidate(prev, wallet, puzzle);
      var m := Sealed(d, DigestOf(md5, d));
      SerialOf(m) == Wrap32(SerialOf(prev) + 1) && WalletOf(m) == wallet && m[8..16] == prev[24..32]
      && SignatureVerdict(md5, m) == Ok
      && ValidNextVerdict(md5, m, prev) == (if wallet == WalletOf(prev) then SameWalletPrev else Ok)
  {
    var d := Candidate(prev, wallet, puzzle);
    LayoutFields(Wrap32(SerialOf(prev) + 1), wallet, prev[24..32], PuzzleBytes(puzzle), Zeros(12));
    SealWithDigest(md5, d);
    SealKeepsHeader(md5, d, DigestOf(md5, d));
    var m := Sealed(d, DigestOf(md5, d));
    assert m[8..16] == d[8..16];
  }

  /** The success path of `mineCoinAttempt`: write the digest into the
      signature part, then check the signature again. The source gives up
      with null when that recheck fails; for a solved block it never does. */
  method SealSolved(b: Block, md5: Hasher)
    requires b.Valid() && Solves(md5, b.data[..])
    modifies b.data
    ensures b.data[..] == Sealed(old(b.data[..]), DigestOf(md5, old(b.data[..])))
    ensures SignatureVerdict(md5, b.data[..]) == Ok
  {
    ghost var d := b.data[..];
    var sig := b.CalcSignature(md5);
    b.SetSignaturePart(sig);
    SealWithDigest(md5, d);
    var result := b.CheckSignature(md5);
    assert result == Ok;
  }

  /** `mineCoinAttempt`: `rand(i)` is the `i`-th `nextLong()` of the random
      source. The result is null exactly when none of the first
      `attemptsCount` puzzles solves; otherwise it is the candidate of the
      first puzzle that does, sealed with its digest. */
  method MineCoinAttempt(myWalletNum: i32, prevBlock: Block, attemptsCount: i32, rand: nat -> i64, md5: Hasher)
    returns (r: Block?, ghost attempt: nat)
    requires prevBlock.Valid()
    ensures r == null ==> forall i :: 0 <= i < attemptsCount ==> !SolvedAt(md5, old(prevBlock.data[..]), myWalletNum, rand, i)
    ensures r != null ==> fresh(r) && fresh(r.data) && r.Valid()
    ensures r != null ==> var prev := old(prevBlock.data[..]);
      var d := Candidate(prev, myWalletNum, rand(attempt));
      attempt < attemptsCount && Solves(md5, d) && r.data[..] == Sealed(d, DigestOf(md5, d))
      && forall i :: 0 <= i < attempt ==> !SolvedAt(md5, prev, myWalletNum, rand, i)
  {
    ghost var prev := prevBlock.data[..];
    var newSerialNum := Wrap32(prevBlock.SerialNumber() + 1);
    var prevSig := prevBlock.data[24..32];
    assert prevSig == prev[24..32] && prevSig[..8] == prevSig;
    var newBlock := Block.CreateNoSig(newSerialNum, myWalletNum, prevSig);
    ghost var lastPuzzle: i64 := 0;
    NoPuzzle();
    attempt := 0;
    var n: int := attemptsCount;
    var i: int := 0;
    while i < n
      invariant 0 <= i && (n <= 0 || i <= n)
      invariant fresh(newBlock) && fresh(newBlock.data) && newBlock.Valid()
      invariant newBlock.data[..] == Candidate(prev, myWalletNum, lastPuzzle)
      invariant forall j :: 0 <= j < i ==> !SolvedAt(md5, prev, myWalletNum, rand, j)
      decreases n - i
    {
      var puzzle := rand(i);
      newBlock.SetLongPuzzle(puzzle);
      NewPuzzle(prev, myWalletNum, lastPuzzle, puzzle);
      lastPuzzle := puzzle;
      var result := newBlock.CheckSignature(md5);
      if result != SigNoZeros {
        SealSolved(newBlock, md5);
        return newBlock, i;
      }
      forall j | 0 <= j < i + 1
        ensures !SolvedAt(md5, prev, myWalletNum, rand, j)
      {
      }
      i := i + 1;
    }
    return null, 0;
  }

  // ---------------------------------------------------------------------
  // Chain validation

  /** A chain is valid when it is not empty and every block is a valid
      successor of the block before it. */
  ghost predicate ChainValid(md5: Hasher, chain: seq<BlockBytes>)
  {
    |chain| > 0 && Linked(Accepts(md5), chain)
  }

  /** `checkValidNext` as a relation: `d` is accepted after `prev`. */
  ghost function Accepts(md5: Hasher): (BlockBytes, BlockBytes) -> bool
  {
    (d: BlockBytes, prev: BlockBytes) => ValidNextVerdict(md5, d, prev) == Ok
  }

  /** Every element after the first stands in relation `ok` to the one
      before it. */
  ghost predicate Linked(ok: (BlockBytes, BlockBytes) -> bool, chain: seq<BlockBytes>)
  {
    forall i :: 1 <= i < |chain| ==> ok(chain[i], chain[i - 1])
  }

  /** Appending keeps the links exactly when the new element links to the
      last one. */
  lemma LinkedExtend(ok: (BlockBytes, BlockBytes) -> bool, chain: seq<BlockBytes>, d: BlockBytes)
    requires |chain| > 0
    ensures Linked(ok, chain + [d]) <==> Linked(ok, chain) && ok(d, chain[|chain| - 1])
  {
    var c := chain + [d];
    assert forall i :: 0 <= i < |chain| ==> c[i] == chain[i];
    assert c[|chain|] == d;
  }

  /** A block list: the `List<Block>` the validator receives. */
  class BlockList {
    var items: seq<Block>

    constructor (blocks: seq<Block>)
      ensures items == blocks
    {
      items := blocks;
    }
  }

  /** Every block of the list holds 36 bytes. */
  ghost predicate AllValid(blocks: seq<Block>)
    reads set i | 0 <= i < |blocks| :: blocks[i]
  {
    forall i :: 0 <= i < |blocks| ==> blocks[i].Valid()
  }

  /** The contents of the blocks of a list. */
  ghost function Snapshot(blocks: seq<Block>): (r: seq<BlockBytes>)
    requires AllValid(blocks)
    reads set i | 0 <= i < |blocks| :: blocks[i]
    reads set i | 0 <= i < |blocks| :: blocks[i].data
    ensures |r| == |blocks| && forall i :: 0 <= i < |blocks| ==> r[i] == blocks[i].data[..]
  {
    seq(|blocks|, i requires 0 <= i < |blocks| && blocks[i].Valid()
          reads blocks, set i | 0 <= i < |blocks| :: blocks[i], set i | 0 <= i < |blocks| :: blocks[i].data
          => blocks[i].data[..])
  }

  /** `checkBlockChainValidation`: true exactly when the received list is a
      valid chain. As in the source, a non-empty list loses its first block. */
  method CheckBlockChainValidation(receivedBlocks: BlockList, md5: Hasher) returns (valid: bool)
    requires AllValid(receivedBlocks.items)
    modifies receivedBlocks
    ensures valid <==> ChainValid(md5, Snapshot(old(receivedBlocks.items)))
    ensures receivedBlocks.items == if old(receivedBlocks.items) == [] then [] else old(receivedBlocks.items)[1..]
  {
    if receivedBlocks.items == [] {
      return false;
    }
    ghost var chain := Snapshot(receivedBlocks.items);
    var prev := receivedBlocks.items[0];
    receivedBlocks.items := receivedBlocks.items[1..];
    var rest := receivedBlocks.items;
    for k := 0 to |rest|
      invariant prev == old(receivedBlocks.items)[k]
      invariant forall i :: 1 <= i <= k ==> Accepts(md5)(chain[i], chain[i - 1])
      invariant receivedBlocks.items == rest
    {
      var currentBlock := rest[k];
      var e := currentBlock.CheckValidNext(prev, md5);
      assert chain[k + 1] == currentBlock.data[..] && chain[k] == prev.data[..];
      if e != Ok {
        assert !Accepts(md5)(chain[k + 1], chain[k]);
        return false;
      }
      prev := currentBlock;
    }
    return true;
  }

  /** A chain grows by one block exactly when the block is a valid successor
      of its last block. */
  lemma ChainExtend(md5: Hasher, chain: seq<BlockBytes>, d: BlockBytes)
    requires |chain| > 0
    ensures ChainValid(md5, chain + [d]) <==>
      ChainValid(md5, chain) && ValidNextVerdict(md5, d, chain[|chain| - 1]) == Ok
  {
    LinkedExtend(Accepts(md5), chain, d);
  }

  /** A block mined after the last block of a valid chain, by a miner who
      does not own that block, extends the chain. */
  lemma MiningExtendsChain(md5: Hasher, chain: seq<BlockBytes>, wallet: i32, puzzle: i64)
    requires ChainValid(md5, chain)
    requires var last := chain[|chain| - 1];
      wallet != WalletOf(last) && Solves(md5, Candidate(last, wallet, puzzle))
    ensures var d := Candidate(chain[|chain| - 1], wallet, puzzle);
      ChainValid(md5, chain + [Sealed(d, DigestOf(md5, d))])
  {
    var last := chain[|chain| - 1];
    MinedBlockVerdict(md5, last, wallet, puzzle);
    var d := Candidate(last, wallet, puzzle);
    ChainExtend(md5, chain, Sealed(d, DigestOf(md5, d)));
  }

  /** Changing a serial, predecessor-signature or signature byte of any block
      but the first breaks a valid chain. */
  lemma TamperEvident(md5: Hasher, chain: seq<BlockBytes>, k: nat, p: nat, v: byte)
    requires ChainValid(md5, chain) && 0 < k < |chain|
    requires (p < 4 || 8 <= p < 16 || 24 <= p < 36) && chain[k][p] != v
    ensures !ChainValid(md5, chain[k := chain[k][p := v]])
  {
    var d, e := chain[k], chain[k][p := v];
    var c := chain[k := e];
    assert c[k] == e && c[k - 1] == chain[k - 1];
    assert ValidNextVerdict(md5, d, chain[k - 1]) == Ok;
    if p < 4 {
      FromBytesEncodes(e, 0);
      FromBytesEncodes(d, 0);
      assert e[..4] != d[..4] by { assert e[..4][p] != d[..4][p]; }
      assert SerialOf(e) != SerialOf(d);
    } else if p < 16 {
      assert e[8..16][p - 8] != d[8..16][p - 8];
    } else {
      assert e[..24] == d[..24];
      assert e[24..36][p - 24] != d[24..36][p - 24];
    }
  }
}

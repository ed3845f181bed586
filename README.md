# HanukCoin ledger core in Dafny

HanukCoin is a classroom proof-of-work coin. Its ledger is a chain of 36-byte
blocks. Each block holds, big-endian:

- a serial number (bytes 0..4);
- the miner's wallet code (4..8);
- the first eight bytes of the predecessor's signature part (8..16);
- a 64-bit puzzle (16..24);
- the first twelve bytes of the block's MD5 digest (24..36).

The digest covers bytes 0..24 only. A block's signature is valid when two things
hold. First, enough trailing bits of that digest are zero: 20 plus the bit length
of the serial number. Second, its bytes 24..36 equal the first twelve digest
bytes. A block is a valid successor of another when four things hold:

- its serial number is the predecessor's plus one;
- its wallet differs from the predecessor's;
- its bytes 8..16 equal the predecessor's bytes 24..32;
- its signature is valid.

The model has three modules:

- `HanukCoinUtils` (`utils.dfy`) holds the helpers: the difficulty, the 32-bit
  big-endian encoding, the wallet code, the trailing-zero test, the slice
  comparison and the hex-text parser.
- `Blocks` (`block.dfy`) holds the block record. Value-level functions say what a
  block's bytes mean. Class `Block` owns the mutable `data` array, and its
  constructors, setters and verifiers are proved against those functions.
- `Ledger` (`ledger.dfy`) holds the genesis block, the bounded mining search and
  the whole-chain check.

Representation choices:

- Bytes are integers 0..255 (the bit pattern of a Java `byte`).
- Java `int` and `long` are the subset types `i32` and `i64`. Every `+ 1` on a
  serial number wraps to 32 bits through `Wrap32`.
- MD5 is a parameter `md5: Hasher`, a function from byte sequences to 16-byte
  sequences.
- `java.util.Random` is a parameter `rand`: `rand(i)` is the value of the `i`-th
  `nextLong()` call.

The model follows the code as written; in particular:

- `mineCoinAttempt` never checks that its wallet differs from the predecessor's.
  A mined block can therefore fail `checkValidNext` with `SAME_WALLET_PREV`.
  `Ledger.MiningExtendsChain` needs that as a hypothesis.
- `checkBlockChainValidation` removes the first element of the list it is given.
- `numBits` probes only `i` in 0..31. It returns 99 for every value of 2^31 or
  more, and for every negative value.
- In `setLongPuzzle`, the mask `0xFFFFFFFF` is the `int` -1. The mask therefore
  changes nothing, and the cast alone keeps the low 32 bits.
- The `return null` after the recheck in `mineCoinAttempt` cannot happen.
  `Ledger.SealSolved` proves that the recheck of a solved block is always `OK`.

## Model

| member | source | states |
|---|---|---|
| HanukCoinUtils.Wrap32Congruent | src/main/java/il/ac/tau/cs/hanukcoin/Block.java:143 | `Wrap32(x)` is congruent to `x` modulo 2^32, and it is the only `int` that is: the value Java's `int` addition yields |
| HanukCoinUtils.NumBitsFromFinds | src/main/java/il/ac/tau/cs/hanukcoin/HanukCoinUtils.java:19-25 | continuing the probe from `i` returns the least fitting width at or above `i` when `n` is in [0, 2^31), and 99 otherwise |
| HanukCoinUtils.NumBitsMeans | src/main/java/il/ac/tau/cs/hanukcoin/HanukCoinUtils.java:18-26 | for 0 <= n < 2^31, `numBits(n)` is the least `i` in [0,31] whose low-`i`-bit mask keeps `n`; for any other `long` it is 99 |
| HanukCoinUtils.NumBitsIsBitLength | src/main/java/il/ac/tau/cs/hanukcoin/HanukCoinUtils.java:18-26 | for 0 <= n < 2^31, `numBits(n)` equals the bit length of `n`, an independent recursive definition |
| HanukCoinUtils.NumberOfZerosForPuzzle | src/main/java/il/ac/tau/cs/hanukcoin/HanukCoinUtils.java:10-36 | the difficulty lies between 20 and 20 + 99 |
| HanukCoinUtils.DifficultyOf | src/main/java/il/ac/tau/cs/hanukcoin/HanukCoinUtils.java:34-36 | the difficulty is 20 plus the bit length for a non-negative serial, and 119 for a negative one; it is always in [20,51] or equal to 119, so at most 128 |
| HanukCoinUtils.DifficultyExamples | src/test/java/il/ac/tau/cs/hanukcoin/HanukCoinUtilsTest.java:16-19 | `numBits` gives 0, 3, 5 and 6 for 0, 5, 31 and 32, and `numberOfZerosForPuzzle(1000)` is 30 (the test at line 76) |
| HanukCoinUtils.NumBits | src/main/java/il/ac/tau/cs/hanukcoin/HanukCoinUtils.java:18-26 | the probe loop as a function; its contract is carried by `NumBitsMeans` (least fitting width, else 99) and `NumBitsIsBitLength` (the bit length) |
| HanukCoinUtils.IntFromBytes | src/main/java/il/ac/tau/cs/hanukcoin/HanukCoinUtils.java:45-52 | the big-endian read; its contract is carried by `FromBytesEncodes` (re-encoding gives back the four bytes) and `IntBytesRoundTrip` (it inverts `IntToBytes`) |
| HanukCoinUtils.Unsigned32 | src/main/java/il/ac/tau/cs/hanukcoin/HanukCoinUtils.java:63-66 | reading an `int` as an unsigned bit pattern gives a value below 2^32 |
| HanukCoinUtils.IntToBytes | src/main/java/il/ac/tau/cs/hanukcoin/HanukCoinUtils.java:61-67 | the big-endian encoding of an `int` has four bytes |
| HanukCoinUtils.FromBytesEncodes | src/main/java/il/ac/tau/cs/hanukcoin/HanukCoinUtils.java:45-52 | re-encoding the `int` read at `offset` gives back the four bytes there, so no byte pattern is lost when read |
| HanukCoinUtils.IntBytesRoundTrip | src/test/java/il/ac/tau/cs/hanukcoin/HanukCoinUtilsTest.java:24-30 | reading the encoding of any 32-bit `x` returns `x`, which covers 0xDEADBEEF and -1411231107 |
| HanukCoinUtils.ReadBack | src/main/java/il/ac/tau/cs/hanukcoin/HanukCoinUtils.java:45-52 | four bytes equal to the encoding of `x`, wherever they sit, read back as `x` |
| HanukCoinUtils.WriteThenRead | src/main/java/il/ac/tau/cs/hanukcoin/HanukCoinUtils.java:45-67 | after splicing the encoding of `x` into any sequence at `offset`, the read at `offset` returns `x` |
| HanukCoinUtils.IntIntoBytes | src/main/java/il/ac/tau/cs/hanukcoin/HanukCoinUtils.java:61-67 | the array afterwards is the old prefix, then the encoding of the value, then the old suffix: only `data[offset..offset+4]` changes |
| HanukCoinUtils.WalletCode | src/main/java/il/ac/tau/cs/hanukcoin/HanukCoinUtils.java:74-82 | the wallet code's big-endian bytes are the first four bytes of the MD5 digest of the name |
| HanukCoinUtils.WholeByteBits | src/main/java/il/ac/tau/cs/hanukcoin/HanukCoinUtils.java:116-120 | a digest byte is zero iff its eight digest bits are all zero (the whole-byte step of the test) |
| HanukCoinUtils.PartialByteBits | src/main/java/il/ac/tau/cs/hanukcoin/HanukCoinUtils.java:123-125 | the low-bit mask test on the next byte holds iff the remaining `r` digest bits are zero |
| HanukCoinUtils.CheckSignatureZeros | src/main/java/il/ac/tau/cs/hanukcoin/HanukCoinUtils.java:110-126 | returns true iff the digest has 16 bytes and its last `nZeros` bits are all zero; for a negative count, which no caller passes, the result of the Java mask test on the last byte |
| HanukCoinUtils.NoZerosRequired | src/main/java/il/ac/tau/cs/hanukcoin/HanukCoinUtils.java:110-126 | with zero required bits, every 16-byte digest passes |
| HanukCoinUtils.ArraysPartEquals | src/main/java/il/ac/tau/cs/hanukcoin/HanukCoinUtils.java:140-147 | true iff `a[aStart..aStart+len] == b[bStart..bStart+len]` (vacuously for `len` <= 0) |
| HanukCoinUtils.SplitJoined | src/main/java/il/ac/tau/cs/hanukcoin/HanukCoinUtils.java:86 | splitting on runs of whitespace returns the words of a text written as words separated by whitespace gaps, in order |
| HanukCoinUtils.Split | src/main/java/il/ac/tau/cs/hanukcoin/HanukCoinUtils.java:86 | `s.split("\\s+")`; its contract is carried by `SplitJoined` (words joined by whitespace gaps split back into those words) |
| HanukCoinUtils.ParseInt | src/main/java/il/ac/tau/cs/hanukcoin/HanukCoinUtils.java:87 | `Integer.parseInt(hex, 16)`; its contract is carried by `Ledger.HexPair` (a two-digit token parses to 16 times its first digit plus its second) |
| HanukCoinUtils.ToByte | src/main/java/il/ac/tau/cs/hanukcoin/HanukCoinUtils.java:87 | the `(byte)` narrowing; its contract is carried by `ToByteNarrowing` |
| HanukCoinUtils.ToByteNarrowing | src/main/java/il/ac/tau/cs/hanukcoin/HanukCoinUtils.java:87 | the narrowed byte is congruent to the `int` modulo 256, and it is the only byte pattern that is |
| Ledger.HexPair | src/main/java/il/ac/tau/cs/hanukcoin/HanukCoinUtils.java:87 | a two-digit hex token parses, its value is 16 times its first digit plus its second, and the `(byte)` narrowing keeps that value |
| HanukCoinUtils.ParseByteStr | src/main/java/il/ac/tau/cs/hanukcoin/HanukCoinUtils.java:84-95 | a fresh array with one byte per token, in order: the token's hex value, truncated to a Java `byte` |
| Blocks.LayoutFields | src/main/java/il/ac/tau/cs/hanukcoin/Block.java:27-32 | in a block built from fields, the serial and wallet getters return those fields, and each byte field holds its bytes |
| Blocks.LayoutOfFields | src/main/java/il/ac/tau/cs/hanukcoin/Block.java:24-32 | every 36-byte block is the layout of its own serial, wallet, prev-signature, puzzle and signature fields |
| Blocks.ValidNextOkIff | src/main/java/il/ac/tau/cs/hanukcoin/Block.java:142-153 | a block is accepted after `prev` iff its serial is the wrapped successor, its wallet differs, it carries `prev`'s signature prefix and its own signature verdict is OK |
| Blocks.PuzzleBytes | src/main/java/il/ac/tau/cs/hanukcoin/Block.java:75-79 | the puzzle field is eight bytes |
| Blocks.PuzzleRoundTrip | src/main/java/il/ac/tau/cs/hanukcoin/Block.java:75-79 | the eight puzzle bytes, read as one big-endian `long`, give back the puzzle |
| Blocks.PuzzleOfLayout | src/main/java/il/ac/tau/cs/hanukcoin/Block.java:75-79 | setting the puzzle replaces the puzzle field of a layout and leaves every other field unchanged |
| Blocks.SealKeepsHeader | src/main/java/il/ac/tau/cs/hanukcoin/Block.java:93-110 | setting the signature part leaves bytes 0..24, the serial, the wallet and hence the digest unchanged |
| Blocks.SealWithDigest | src/main/java/il/ac/tau/cs/hanukcoin/Block.java:124-135 | after storing the block's own digest, the signature verdict is OK iff the zero-bit test passes, and it is never SIG_BAD |
| Blocks.Block.constructor | src/main/java/il/ac/tau/cs/hanukcoin/Block.java:42-43 | a fresh block over a fresh 36-byte array of zeros |
| Blocks.Block.CreateNoSig | src/main/java/il/ac/tau/cs/hanukcoin/Block.java:41-48 | a fresh block holding the serial, the wallet and `prevSig8[0..8]`, with zeros in bytes 16..36 |
| Blocks.Block.Create | src/main/java/il/ac/tau/cs/hanukcoin/Block.java:49-54 | as `createNoSig`, but with `puzzle8[0..8]` in bytes 16..24 and `sig12[0..12]` in bytes 24..36 |
| Blocks.Block.SerialNumber | src/main/java/il/ac/tau/cs/hanukcoin/Block.java:27-29 | the serial number is the `int` whose encoding is bytes 0..4 |
| Blocks.Block.WalletNumber | src/main/java/il/ac/tau/cs/hanukcoin/Block.java:30-32 | the wallet number is the `int` whose encoding is bytes 4..8 |
| Blocks.Block.SetLongPuzzle | src/main/java/il/ac/tau/cs/hanukcoin/Block.java:75-79 | the high and low halves of the `long` go big-endian into bytes 16..24, and no other byte changes |
| Blocks.Block.SetSignaturePart | src/main/java/il/ac/tau/cs/hanukcoin/Block.java:93-95 | `sig[0..12]` goes into bytes 24..36, and no other byte changes |
| Blocks.Block.CalcSignature | src/main/java/il/ac/tau/cs/hanukcoin/Block.java:102-110 | the digest is the 16-byte MD5 of bytes 0..24 |
| Blocks.Block.CheckSignature | src/main/java/il/ac/tau/cs/hanukcoin/Block.java:124-135 | SIG_NO_ZEROS if the digest lacks the zero bits the serial demands, else SIG_BAD if bytes 24..36 differ from the first twelve digest bytes, else OK |
| Blocks.Block.CheckValidNext | src/main/java/il/ac/tau/cs/hanukcoin/Block.java:142-153 | the first failing check in source order: BAD_SERIAL_NO, SAME_WALLET_PREV, NO_PREV_SIG, then the signature verdict; neither block changes |
| Blocks.Block.Equals | src/main/java/il/ac/tau/cs/hanukcoin/Block.java:67-69 | true iff the two blocks hold the same bytes |
| Blocks.Block.Clone | src/main/java/il/ac/tau/cs/hanukcoin/Block.java:173-177 | a fresh block over a fresh array with the same bytes, so later writes to the clone cannot reach the original |
| Ledger.GenesisPuzzleSplit | src/main/java/il/ac/tau/cs/hanukcoin/HanukCoinUtils.java:98 | the genesis puzzle text splits into its eight hex words, the double space included |
| Ledger.GenesisPuzzleParse | src/main/java/il/ac/tau/cs/hanukcoin/HanukCoinUtils.java:98 | each of those words parses to the genesis puzzle byte at its position |
| Ledger.GenesisSigSplit | src/main/java/il/ac/tau/cs/hanukcoin/HanukCoinUtils.java:99 | the genesis signature text splits into its twelve hex words |
| Ledger.GenesisSigParse | src/main/java/il/ac/tau/cs/hanukcoin/HanukCoinUtils.java:99 | each of those words parses to the genesis signature byte at its position |
| Ledger.ParseGenesisPuzzle | src/main/java/il/ac/tau/cs/hanukcoin/HanukCoinUtils.java:98 | `parseByteStr` of the puzzle text yields 71 16 8F 29 D9 FE DF F9 |
| Ledger.ParseGenesisSig | src/main/java/il/ac/tau/cs/hanukcoin/HanukCoinUtils.java:99 | `parseByteStr` of the signature text yields BF 3D AE 1F 65 B0 8F 66 AB 2D B5 1E |
| Ledger.CreateBlock0forTestStage | src/main/java/il/ac/tau/cs/hanukcoin/HanukCoinUtils.java:97-101 | a fresh block with serial 0, wallet 0, "TEST_BLK" in bytes 8..16, and the genesis puzzle and signature bytes |
| Ledger.NoPuzzle | src/main/java/il/ac/tau/cs/hanukcoin/Block.java:41-48 | the zero puzzle is eight zero bytes, so a fresh `createNoSig` block is the candidate for puzzle 0 |
| Ledger.NewPuzzle | src/main/java/il/ac/tau/cs/hanukcoin/HanukCoinUtils.java:164-165 | overwriting the puzzle of one candidate gives the candidate for the new puzzle, so each attempt depends only on its own draw |
| Ledger.MinedBlockVerdict | src/main/java/il/ac/tau/cs/hanukcoin/HanukCoinUtils.java:158-176 | a solved candidate, once sealed, has the wrapped successor serial, the given wallet and the predecessor's signature prefix; its signature verdict is OK, and `checkValidNext` after the predecessor is OK, or SAME_WALLET_PREV when the miner owns the predecessor |
| Ledger.SealSolved | src/main/java/il/ac/tau/cs/hanukcoin/HanukCoinUtils.java:168-176 | storing the digest of a solved block changes only its signature part, and the recheck is then OK, so the `return null` can never run |
| Ledger.MineCoinAttempt | src/main/java/il/ac/tau/cs/hanukcoin/HanukCoinUtils.java:157-180 | null only if none of the first `attemptsCount` draws solves the puzzle; otherwise a fresh block: the sealed candidate for the first solving draw, which comes before `attemptsCount` |
| Ledger.LinkedExtend | src/main/java/il/ac/tau/cs/hanukcoin/HanukCoinUtils.java:194-199 | a sequence with one block appended is linked iff the old sequence was linked and the new block is accepted after its last block |
| Ledger.BlockList.constructor | src/main/java/il/ac/tau/cs/hanukcoin/HanukCoinUtils.java:188 | the list holds the given blocks in order |
| Ledger.CheckBlockChainValidation | src/main/java/il/ac/tau/cs/hanukcoin/HanukCoinUtils.java:188-201 | true iff the list is non-empty and every block is accepted by `checkValidNext` after its predecessor (so true for one block); afterwards the list has lost its first element |
| Ledger.ChainExtend | src/main/java/il/ac/tau/cs/hanukcoin/HanukCoinUtils.java:188-201 | a valid chain with one block appended is valid iff that block is accepted after the old last block |
| Ledger.MiningExtendsChain | src/main/java/il/ac/tau/cs/hanukcoin/HanukCoinUtils.java:157-201 | a solved, sealed candidate appended to a valid chain gives a valid chain, provided its wallet differs from the last block's |
| Ledger.TamperEvident | src/main/java/il/ac/tau/cs/hanukcoin/Block.java:142-153 | changing a serial, prev-signature or signature byte of any block after the first makes a valid chain invalid |

## Left out

- MD5 (`MessageDigest`) is a parameter of every member that hashes, because its implementation is a foreign call. Golden values therefore cannot be checked: the wallet code of "Foo Bar,Bar Vaz" and the actual validity of the genesis block.
- `java.util.Random` is the parameter `rand`, one `long` per draw. No real generator is modelled.
- `String.getBytes()` uses the platform charset. The model passes the bytes of a name to `WalletCode`, and it encodes "TEST_BLK" as ASCII through `Ledger.AsciiBytes`.
- `Block.getBytes()` returns the block's own array. The model reads `Block.data` directly, as `getBytes` aliases it.
- `Block.comparePuzzle` calls `ArraysPartCompare`, which the utilities file does not define. There is no behaviour to model.
- Not modelled because they are I/O, the wall clock or output formatting: `Block.readFrom`, `Block.writeTo`, `Block.binDump`, `getUnixTimestamp` and `HanukCoinUtils.main`. The `ShowChain*` and `Server*` classes are network and thread glue and are also not modelled.
- HanukCoinUtils.ParseByteStr: requires every token to be a hex number that fits an `int`. The source throws `NumberFormatException` otherwise. `Character.digit` also accepts non-ASCII digit characters; the model accepts only 0-9, a-f and A-F.
- HanukCoinUtils.CheckSignatureZeros: requires `nZeros` <= 128. Above that the source still returns false for a digest that is not 16 bytes, or for one with a non-zero byte. It throws an index exception only for an all-zero 16-byte digest, once its loop runs past index 0. The source only ever passes at most 119.
- HanukCoinUtils.ArraysPartEquals: requires both slices to lie inside their arrays. When a slice leaves its array, the source returns false if a mismatch comes before the first index outside the array, and throws an index exception otherwise. Both arrays are passed as values, which is possible because the source only reads them.
- HanukCoinUtils.IntIntoBytes: requires `offset + 4 <= data.length`. The source throws otherwise.
- HanukCoinUtils.IntFromBytes: requires `0 <= offset` and `offset + 4 <= data.length`. The source throws an index exception otherwise.
- Blocks.Block.CreateNoSig: requires `prevSig8` to have at least 8 bytes. Otherwise `System.arraycopy` throws.
- Blocks.Block.Create: requires at least 8 bytes of `prevSig8`, 8 of `puzzle8` and 12 of `sig12`. Otherwise `System.arraycopy` throws.
- Blocks.Block.SetSignaturePart: requires `sig` to have at least 12 bytes. Otherwise `System.arraycopy` throws.
- Ledger.TamperEvident: covers only bytes whose change a predecessor or a successor observes without an MD5 collision assumption. A changed wallet or puzzle byte is exposed only through the digest, which needs collision resistance, and is not covered.
- The genesis texts are written as lists of hex words and whitespace gaps, which keeps the split lemmas small. `Ledger.GenesisPuzzleSplit` and `Ledger.GenesisSigSplit` show that they split back into exactly those words.
- The timing assertion of the mining test is not modelled.

# NORX64-4-1 in Dafny

A model of the Go reference implementation of the NORX authenticated
encryption scheme. The model covers the parameter set of
`aead/norx.go`:
- 64-bit words, four rounds and parallelism degree 1;
- a 32-byte tag;
- an 80-byte rate (ten words) and a 48-byte capacity (six words).

The model follows the structure of the source:

- `utils.dfy` (module `Utils`) covers `aead/utils.go`:
  - `LOAD64` is a pure function on bytes;
  - `STORE64`, `BURN8` and `BURN64` are methods on arrays;
  - it also holds the byte-string XOR and the splice of a byte string
    into a buffer, which the rest of the model uses to say what a method
    writes.
- `permutation.dfy` (module `NorxPermutation`) covers `ROTR`, `H`, `G`,
  `F` and `permute`:
  - `ROTR`, `H` and `G` are functions on `bv64`;
  - `F` and `permute` are methods that rewrite a 16-word array in place;
  - they are proved against the functions `Round` and `Permuted` on word
    sequences.
- `sponge.dfy` (module `NorxSponge`) covers the domain-separation tag and
  the full-block operations:
  - `inject_tag`, `absorb_block`, `encrypt_block` and `decrypt_block`, as
    methods with word loops;
  - each is proved against a function on state values (`Injected`,
    `Absorbed`, `KeyedBlock`, `DecryptedState`);
  - the block-level inverse lemmas.
- `lastblock.dfy` (module `NorxLastBlock`) covers `pad` and
  `decrypt_lastblock`:
  - the layout and injectivity of the padding;
  - the proof that undoing the padding inside the key stream decrypts a
    short last block to the bytes that were encrypted, and reaches the
    state the encrypting side reaches.
- `drivers.dfy` (module `NorxDrivers`) covers the length-driven loops
  `process_header`, `process_trailer`, `encrypt_msg` and `decrypt_msg`:
  - specified by recursive functions over the input;
  - with the message round trip proved over those functions.
- `aead.dfy` (module `NorxAead`) covers the top level:
  - `setup`, `output_tag`, `verify_tag`, `AEAD_encrypt` and
    `AEAD_decrypt`;
  - the scheme as two functions, `Seal` and `Open`, with `Open` proved to
    invert `Seal`;
  - the encrypt-then-decrypt round trip that the repository's self-check
    asserts.

Some source facts the model keeps as written:

- `process_trailer` absorbs its padded last block with `HEADER_TAG`, not
  `TRAILER_TAG`.
- `output_tag` copies with Go's `copy`, so it writes `min(80, len(tag))`
  bytes. `AEAD_encrypt` may therefore overwrite up to 80 bytes from
  `c[mlen]` on; only the first 32 of them are the tag.
- `AEAD_decrypt` squeezes into a 256-byte (`NORX_A`) buffer and compares
  its first 32 bytes.
- `encrypt_msg` encrypts its padded last block in place in a scratch
  buffer (`encrypt_block(state, lastblock, lastblock)`). The payload
  `in`/`out` buffers may also be the very same array.

`BYTES64` and `WORDS64` are called throughout `aead/norx.go` but defined
in none of the repository's files. They are read as bits / 8 and
bits / 64. That gives the 32-byte tag implied by the 256 + 32-byte
ciphertext buffer at `utils/check.go:44`.

Some methods of the model group a few consecutive calls of a source
function into one method with its own contract:
- `Absorb` is `setup` then `process_header`;
- `Squeeze` is `process_trailer` then `output_tag`;
- `EncryptThenTag`, `DecryptThenTag` and `DecryptAndVerify` are the
  middle parts of `AEAD_encrypt` and `AEAD_decrypt`;
- the `...Rate`, `...Words`, `...Tail`, `...Next` and `...FullBlocks`
  methods are the bodies of single loops;
- the `...Word` methods are one iteration of the word loops of
  `encrypt_block` and `decrypt_block`, and `FinishUnpadded` is the byte
  loop at the end of `decrypt_lastblock` together with what it leaves.

## Model

| member | source | states |
|---|---|---|
| NorxPermutation.Rotr | aead/norx.go:43-45 | ROTR(x, c), with Go's saturating shifts and wrapping `NORX_W - c`, is the 64-bit right rotation by c for each offset G uses: R0 = 8, R1 = 19, R2 = 40 and R3 = 63 |
| NorxPermutation.HInjective | aead/norx.go:48-50 | for a fixed y, H(x, y) determines x, so each H line of G can be undone |
| NorxPermutation.ColumnsPartitionState | aead/norx.go:68-72 | the four column quadruples (0,4,8,12) .. (3,7,11,15) cover all 16 positions, 16 positions in all, so each word is rewritten exactly once |
| NorxPermutation.DiagonalsPartitionState | aead/norx.go:73-77 | the four diagonal quadruples (0,5,10,15), (1,6,11,12), (2,7,8,13), (3,4,9,14) cover each of the 16 words exactly once |
| NorxPermutation.GAt | aead/norx.go:69-77 | one line of F: G(s[a], s[b], s[c], s[d]) written back to positions a, b, c, d of the state array, every other word unchanged |
| NorxPermutation.ColumnStep | aead/norx.go:68-72 | the column step leaves the array holding G applied to the four columns in order |
| NorxPermutation.DiagonalStep | aead/norx.go:73-77 | the diagonal step leaves the array holding G applied to the four diagonals in order |
| NorxPermutation.RoundIsColumnsThenDiagonals | aead/norx.go:67-78 | a round is the whole column step followed by the whole diagonal step |
| NorxPermutation.F | aead/norx.go:67-78 | F rewrites the 16-word array in place into Round of its old contents |
| NorxPermutation.PermutedIsFourRounds | aead/norx.go:81-84 | the permutation is exactly four applications of F |
| NorxPermutation.Permute | aead/norx.go:81-84 | the round loop leaves the state as Permuted (F four times) of the old state |
| NorxPermutation.State.constructor | aead/norx.go:38-40 | new(state_t): a fresh 16-word state, all words zero |
| Utils.Load64Value | aead/utils.go:13-22 | LOAD64(x) is the little-endian number x[0] + 256 x[1] + ... + 256^7 x[7] |
| Utils.Store64Value | aead/utils.go:25-34 | the eight bytes STORE64 writes are the little-endian base-256 digits of v |
| Utils.StoreOfLoad | aead/utils.go:13-34 | STORE64 of LOAD64(x) reproduces x[0..8) |
| Utils.LoadOfStore | aead/utils.go:13-34 | LOAD64 of the bytes STORE64 wrote gives back the word |
| Utils.Bytes64Injective | aead/utils.go:25-34 | distinct words are stored as distinct byte strings |
| Utils.Store64 | aead/utils.go:25-34 | out[off + i] becomes byte i of v, (v >> 8i) & 0xFF, for i in 0..8, and every other element of out is unchanged |
| Utils.CopyInto | aead/norx.go:147 | Go's copy of n bytes from a separate buffer: dst[off..off+n) becomes src[0..n) and every other byte of dst is unchanged |
| Utils.Burn8 | aead/utils.go:37-41 | x[0..xlen) becomes zero and x[xlen..] is unchanged |
| Utils.Burn64 | aead/utils.go:44-48 | x[0..xlen) becomes zero and x[xlen..] is unchanged |
| Utils.Load64Xor | aead/utils.go:13-22 | LOAD64 of a byte-wise XOR is the XOR of the LOAD64s |
| Utils.Bytes64Xor | aead/utils.go:25-34 | STORE64 of an XOR of words is the byte-wise XOR of the stored bytes |
| NorxSponge.InjectTag | aead/norx.go:221-224 | inject_tag XORs the tag into s[15] and changes nothing else |
| NorxSponge.InjectedTwice | aead/norx.go:221-224 | injecting the same tag twice restores the state |
| NorxSponge.Prepare | aead/norx.go:229-230 | a block operation first injects its tag, then permutes |
| NorxSponge.AbsorbRate | aead/norx.go:232-236 | the absorb loop XORs the ten loaded block words into s[0..10) and leaves s[10..16) alone |
| NorxSponge.StoredWords | aead/norx.go:245-250 | once the ten rate words are stored as the bytes e, the state is the words loaded from e followed by the untouched capacity |
| NorxSponge.AbsorbBlock | aead/norx.go:227-237 | absorb_block leaves the state Absorbed(old state, block, tag) |
| NorxSponge.EncryptRate | aead/norx.go:245-250 | the encrypt loop writes the XORed words to s[0..10) and stores them as the 80 output bytes; the input may be the output buffer |
| NorxSponge.EncryptBlock | aead/norx.go:240-251 | encrypt_block writes KeyedBlock (the key stream XOR the plaintext) at out[off..off+80), touches nothing else of out, and leaves the state Absorbed(old, plaintext, PAYLOAD_TAG) |
| NorxSponge.LoadWord | aead/norx.go:248 | the LOAD64 of word i in the block loops reads word i of the input block, as long as that part of the input is not yet overwritten |
| NorxSponge.StoreWord | aead/norx.go:249 | the STORE64 of word i in the block loops writes the eight bytes of the word at out[8i..8i+8) and nothing else |
| NorxSponge.EncryptWord | aead/norx.go:247-249 | one pass of the encrypt loop: word i of the state becomes s[i] XOR the input word and its eight bytes are stored at out[8i..8i+8); the words after i and the input bytes after word i are untouched |
| NorxSponge.DecryptWord | aead/norx.go:261-264 | one pass of the decrypt loop: out[8i..8i+8) gets s[i] XOR the ciphertext word and word i of the state becomes the ciphertext word; nothing after word i changes |
| NorxSponge.DecryptRate | aead/norx.go:259-265 | the decrypt loop stores key stream XOR ciphertext and puts the ciphertext words into s[0..10); word i is read before it is written, so in and out may be the same buffer |
| NorxSponge.DecryptBlock | aead/norx.go:254-266 | decrypt_block writes KeyedBlock (the key stream XOR the ciphertext) at out[off..off+80) and leaves the state DecryptedState(old, ciphertext) |
| NorxSponge.BlockKeepsCapacity | aead/norx.go:227-266 | absorb_block, encrypt_block and decrypt_block leave s[10..16) as the permutation produced them |
| NorxSponge.DecryptEncryptedBlock | aead/norx.go:240-266 | decrypt_block on encrypt_block's output recovers the plaintext block and reaches the state encrypt_block reached |
| NorxSponge.EncryptDecryptedBlock | aead/norx.go:240-266 | encrypt_block on decrypt_block's output gives back the ciphertext block and the same state |
| NorxLastBlock.Pad | aead/norx.go:213-218 | pad copies the input to the front of the 80-byte block, writes 0x01 after it, and ORs 0x80 into byte 79 |
| NorxLastBlock.PaddedBytes | aead/norx.go:213-218 | on a fresh zero buffer the padded block is the input, then 0x01, then zeros, with the top bit of byte 79 set (0x81 when the input has 79 bytes) |
| NorxLastBlock.PaddedInjective | aead/norx.go:213-218 | distinct inputs of fewer than 80 bytes, in length or content, give distinct padded blocks |
| NorxLastBlock.PaddedMask | aead/norx.go:213-218 | the padded block is the input followed by zeros, XORed with a mask that depends only on the length |
| NorxLastBlock.UndoPadding | aead/norx.go:279-281 | the two XORs at the head of decrypt_lastblock XOR the padding mask of an inlen-byte block into the rate words |
| NorxLastBlock.KeystreamUndoPad | aead/norx.go:279-281 | after the XORs, the key stream of the state is the old key stream XOR the padding mask |
| NorxLastBlock.UnpaddedKeystream | aead/norx.go:271-281 | the key stream bytes that meet the ciphertext are unchanged and the bytes after them carry the padding bits flipped; the capacity is untouched |
| NorxLastBlock.DecryptWords | aead/norx.go:283-289 | the full-word loop of decrypt_lastblock writes key stream XOR ciphertext for the whole words of the input and puts those ciphertext words into the state |
| NorxLastBlock.XorTail | aead/norx.go:291-297 | the byte loop writes b[j] ^ c for the bytes left over and leaves b holding those ciphertext bytes followed by the rest of the stored word |
| NorxLastBlock.DecryptTail | aead/norx.go:291-298 | the partial word i becomes LOAD64 of the ciphertext bytes followed by the key stream bytes after them |
| NorxLastBlock.PrepareUnpadded | aead/norx.go:271-281 | inject PAYLOAD_TAG, permute, then undo the padding: the state becomes Unpadded(old, inlen) |
| NorxLastBlock.DecryptUnpadded | aead/norx.go:283-298 | the word loop and the byte loop together write UnpaddedPlain at out[off..off+inlen) and leave the state UnpaddedState, against the key stream of the state on entry |
| NorxLastBlock.FinishUnpadded | aead/norx.go:291-298 | after the word loop, storing s[i] in b, the byte loop and the reload of b into s[i] complete UnpaddedPlain at out[off..off+inlen) and leave the state UnpaddedState |
| NorxLastBlock.DecryptLastBlock | aead/norx.go:269-299 | decrypt_lastblock writes exactly inlen bytes, LastPlain, at out[off..] and leaves the state LastDecryptedState |
| NorxLastBlock.DecryptEncryptedLast | aead/norx.go:269-299 | decrypt_lastblock on the inlen bytes produced by pad, encrypt_block and copy recovers those inlen plaintext bytes and ends in the state the encrypting side ends in |
| NorxLastBlock.EncryptDecryptedLast | aead/norx.go:269-299 | encrypting what decrypt_lastblock produced gives back the ciphertext and the same state |
| NorxDrivers.AbsorbFullBlocks | aead/norx.go:122-126 | the full-block loop absorbs every full block with the full-block tag and returns where the leftover bytes start |
| NorxDrivers.AbsorbLast | aead/norx.go:127-129 | the leftover bytes are padded in a fresh zero buffer and absorbed with the last-block tag: the state becomes Absorbed(old, Padded(rest), tag) |
| NorxDrivers.AbsorbInput | aead/norx.go:116-131 | the shared loop of process_header and process_trailer leaves the state Processed(old, input, full tag, last tag): nothing for an empty input |
| NorxDrivers.AbsorbBlocksSplit | aead/norx.go:118-128 | a non-empty input is absorbed as its full blocks, then exactly one padded block of the bytes left over, even when none are left over |
| NorxDrivers.LeftoverSize | aead/norx.go:122-127 | the loop takes inlen / 80 full blocks, and the padded last block holds inlen mod 80 bytes |
| NorxDrivers.ProcessHeader | aead/norx.go:116-131 | process_header absorbs the header with HEADER_TAG on the full blocks and on the padded last block |
| NorxDrivers.ProcessTrailer | aead/norx.go:168-183 | process_trailer absorbs with TRAILER_TAG on the full blocks and HEADER_TAG on the padded last block |
| NorxDrivers.EncryptLast | aead/norx.go:145-148 | the last block of encrypt_msg is padded in a fresh buffer, encrypted in place there, and only its first rest bytes are copied to out |
| NorxDrivers.EncryptNext | aead/norx.go:141-143 | one turn of encrypt_msg's loop extends the ciphertext written so far by one block, and what remains still ends in the same final state |
| NorxDrivers.EncryptFullBlocks | aead/norx.go:138-144 | the full-block loop of encrypt_msg writes the ciphertext of the full blocks in place and returns where the last block starts; what is left to do gives the same final state and the rest of the ciphertext |
| NorxDrivers.DecryptNext | aead/norx.go:159-161 | one turn of decrypt_msg's loop extends the plaintext written so far by one block, and what remains still ends in the same final state |
| NorxDrivers.DecryptFullBlocks | aead/norx.go:156-162 | the same for the full-block loop of decrypt_msg |
| NorxDrivers.EncryptMsg | aead/norx.go:134-150 | encrypt_msg does nothing for an empty message and otherwise writes exactly inlen bytes, Encrypted(...).1, at out[0..inlen); the state becomes Encrypted(...).0 |
| NorxDrivers.DecryptMsg | aead/norx.go:153-165 | decrypt_msg does nothing for empty input and otherwise writes exactly inlen bytes, Decrypted(...).1, leaving the state Decrypted(...).0 |
| NorxDrivers.DecryptEncryptedBlocks | aead/norx.go:134-165 | decrypting the blocks encrypt_msg's loop wrote, from the same state, gives back the message and the same final state |
| NorxDrivers.EncryptDecryptedBlocks | aead/norx.go:134-165 | encrypting what decrypt_msg's loop wrote gives back the ciphertext and the same final state |
| NorxDrivers.MessageRoundTrip | aead/norx.go:134-165 | decrypt_msg inverts encrypt_msg and encrypt_msg inverts decrypt_msg, with the same final state on both sides |
| NorxAead.LayoutWords | aead/norx.go:87-111 | before the permutation, s[4..8) are the little-endian key words, s[1..3) the nonce words, and s[14] is u8 XOR the parameter word |
| NorxAead.ParamRecovered | aead/norx.go:111 | the parameter word, the OR of 4 << 26, 1 << 18, 64 << 10 and 256, is 0x10050100, and it can be read back out of s[14] |
| NorxAead.LayoutHoldsKeyAndNonce | aead/norx.go:92-99 | the key words stored back are the 32 key bytes, the nonce words the 16 nonce bytes |
| NorxAead.LayoutInjective | aead/norx.go:87-111 | two key and nonce pairs with the same layout are equal |
| NorxAead.Setup | aead/norx.go:87-113 | setup leaves the state as Permuted of the layout: u0, the nonce words, u1, the key words, u2 .. u9, with the parameter word XORed into s[14] |
| NorxAead.StoreRate | aead/norx.go:192-197 | the STORE64 loop of output_tag stores the ten rate words into the 80-byte buffer |
| NorxAead.OutputTag | aead/norx.go:186-200 | output_tag injects FINAL_TAG and permutes twice; it then copies min(80, room) squeezed bytes into tag from off on and leaves the rest of tag alone |
| NorxAead.VerifyTag | aead/norx.go:203-210 | verify_tag returns 0 exactly when all 32 byte pairs agree and -1 otherwise |
| NorxAead.OpenSeal | aead/norx.go:302-347 | opening a sealed message with the same key, nonce, header and trailer gives back the message |
| NorxAead.SealOpened | aead/norx.go:302-347 | whatever opens successfully re-seals to the same ciphertext |
| NorxAead.OpenIffSeal | aead/norx.go:302-347 | a ciphertext opens to m exactly when it is the seal of m |
| NorxAead.SealOutputHoldsSeal | aead/norx.go:315-316 | when there is room for the tag, the first mlen + 32 bytes AEAD_encrypt writes are the ciphertext followed by the tag |
| NorxAead.Absorb | aead/norx.go:310-312 | a fresh state after setup and process_header is Headed(key, nonce, header) |
| NorxAead.Squeeze | aead/norx.go:314-315 | process_trailer then output_tag writes the squeezed bytes of the trailed state into the buffer from off on |
| NorxAead.EncryptThenTag | aead/norx.go:313-315 | from the state after the header, encrypt_msg, process_trailer and output_tag leave c holding SealOutput: the ciphertext, then min(80, room) squeezed bytes |
| NorxAead.SealOutputSpliced | aead/norx.go:313-315 | writing the ciphertext at c[0..) and then the squeezed bytes at c[mlen..) leaves c holding SealOutput spliced over its old contents |
| NorxAead.AeadEncrypt | aead/norx.go:302-318 | AEAD_encrypt sets clen = mlen + 32 and writes the ciphertext to c[0..mlen) and the squeezed tag bytes from c[mlen] on; when c has room, c[0..clen) is Seal(key, nonce, header, message, trailer); the message buffer may be c itself |
| NorxAead.TagInto | aead/norx.go:338-339 | the first 32 bytes squeezed into the 256-byte tag buffer are the tag |
| NorxAead.DecryptThenTag | aead/norx.go:337-339 | decrypt_msg writes the plaintext of c[..L] into m, the received tag c[L..clen) stays as it was even when m is c, and the first 32 bytes of tag are the recomputed tag |
| NorxAead.DecryptAndVerify | aead/norx.go:337-344 | the decrypting half returns 0 when Open succeeds and -1 otherwise; on success it writes the opened message to m |
| NorxAead.AeadDecrypt | aead/norx.go:321-347 | AEAD_decrypt returns -1 without writing anything when clen < 32; otherwise it sets mlen = clen - 32 and returns 0 exactly when Open succeeds, with m[0..mlen) the opened message on 0 and all zero on -1 |
| NorxAead.EncryptThenDecrypt | utils/check.go:43-68 | with a message buffer of any size holding the message in its first mlen bytes, a ciphertext buffer of mlen + room bytes (room >= 32, so the tag copy may spill past the tag) and a decrypt buffer of at least mlen bytes, decrypting AEAD_encrypt's output with the same key, nonce, header and trailer returns 0 and the first mlen decrypted bytes are the message |

## Left out

- `BRANCH_TAG`, `MERGE_TAG` and the parallelism degree `NORX_D`: the
  parallel modes do not appear in the code. `NORX_D` only enters through
  the parameter word.
- The print helpers of `aead/debug.go`, the KAT generators and printers,
  and the command-line entry points: they only format output.
- The KAT comparison in `utils/check.go` and `check/check.go`: it needs a
  generated table that is not part of this model. Only the round trip
  it asserts is modelled, as `NorxAead.EncryptThenDecrypt`.
- Concrete known-answer values: no output of the permutation on concrete
  data is computed.
- Security claims, such as forgery resistance and real constant-time
  behaviour, cannot be stated here.
- Zeroing of local buffers: `BURN8` of the scratch block and `BURN64` of
  the local state are performed. Nothing can observe them after return,
  so no contract speaks of them. The zeroing of `m` on a failed tag
  check is observable, and `NorxAead.AeadDecrypt` states it.
- Go slice-bounds panics: buffer sizes are preconditions instead. The
  key must hold at least 32 bytes and the nonce at least 16, and `h`,
  `m`, `c` and `t` at least their length arguments, on the paths that
  read them (`AEAD_decrypt` with clen < 32 reads nothing). No other
  panics exist.
- Partially overlapping Go slices: Dafny arrays either are the same
  array or do not overlap. The payload input and output may be the same
  array at the same offsets, as in the source's own calls. Header,
  trailer, key and nonce are read-only values.
- `uint64` lengths: lengths are unbounded naturals. The source's length
  arithmetic (`mlen + 32`, `n*i`) would only wrap for lengths near 2^64.
- NorxAead.AeadDecrypt: the `*mlen` output pointer is the returned
  `Option<nat>`, with `None` standing for "not written" when clen < 32.
- NorxAead.VerifyTag: the Go `int` accumulator `acc` is a byte. It only
  ever holds an OR of byte XORs. Go's `>> 8` on a negative `int` is
  written as Dafny's floor division by 256. That the loop visits all 32
  bytes with no early exit is true of the body; no contract states it.
- NorxPermutation.G: no contract of its own. That G, and so F and the
  permutation, can be inverted is not proved: the proof goes beyond the
  verifier's resource limit. `NorxPermutation.HInjective` proves the step
  it rests on, that each H line can be undone.
- NorxAead.Setup: the sixteen independent word writes are one parallel
  assignment. Likewise `Utils.Store64` writes its eight bytes and
  `Utils.CopyInto` (Go's `copy`) its bytes in one parallel step each.
  Neither source loop reads what it writes.

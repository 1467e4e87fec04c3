/** The sponge layer of NORX (aead/norx.go): the NORX parameters, the domain
    tags, the initialisation constants and the four block operations
    that inject a tag, permute the state and then absorb, encrypt or decrypt
    one 80-byte block through the rate words s[0..10). The capacity words
    s[10..16) are never touched by a block operation.

    Each block operation is a method on the state object, proved against a
    function on state values: what the state becomes and what bytes are
    written. */
module NorxSponge {
  import opened Utils
  import opened NorxPermutation

  /** BYTES64(NORX_W): bytes in a word. */
  const WordBytes: nat := 8
  /** WORDS64(RATE): the rate, NORX_B - NORX_C = 1024 - 384 bits, in words. */
  const RateWords: nat := 10
  /** BYTES64(RATE): the rate in bytes. */
  const RateBytes: nat := 80
  /** WORDS64(NORX_B): the whole state in words. */
  const StateWords: nat := 16

  /** The domain separation tags. */
  const HeaderTag: Word := 1
  const PayloadTag: Word := 2
  const TrailerTag: Word := 4
  const FinalTag: Word := 8

  /** The initialisation constants u0 .. u9. */
  const U0: Word := 0x243F6A8885A308D3
  const U1: Word := 0x13198A2E03707344
  const U2: Word := 0xA4093822299F31D0
  const U3: Word := 0x082EFA98EC4E6C89
  const U4: Word := 0xAE8858DC339325A1
  const U5: Word := 0x670A134EE52D7FA6
  const U6: Word := 0xC4316D80CD967541
  const U7: Word := 0xD21DFBF8B630B762
  const U8: Word := 0x375A18D261E7F892
  const U9: Word := 0x343D1F187D92285B

  /** The parameter word (NORX_R << 26) | (NORX_D << 18) | (NORX_W << 10) | NORX_A
      that setup XORs into s[14]. */
  const ParamWord: Word := (4 << 26) | (1 << 18) | (64 << 10) | 256

  // ---------------------------------------------------------------------
  // Words and bytes

  /** Word k of a byte string: LOAD64(b[8k : 8(k+1)]). */
  function WordAt(b: seq<Byte>, k: nat): Word
    requires 8 * k + 8 <= |b|
  {
    Load64(b[8 * k..8 * k + 8])
  }

  /** Storing word k of b reproduces bytes 8k .. 8k+8 of b. */
  lemma WordAtBytes(b: seq<Byte>, k: nat)
    requires 8 * k + 8 <= |b|
    ensures Bytes64(WordAt(b, k)) == b[8 * k..8 * k + 8]
  {
    StoreOfLoad(b[8 * k..8 * k + 8]);
  }

  /** The first n little-endian words of b. */
  function WordsOf(b: seq<Byte>, n: nat): (ws: seq<Word>)
    requires 8 * n <= |b|
    ensures |ws| == n
  {
    if n == 0 then [] else WordsOf(b, n - 1) + [WordAt(b, n - 1)]
  }

  /** The little-endian bytes of a sequence of words, word after word: what
      STORE64 writes for each word in turn. */
  function BytesOf(ws: seq<Word>): (b: seq<Byte>)
    ensures |b| == 8 * |ws|
  {
    if ws == [] then [] else BytesOf(ws[..|ws| - 1]) + Bytes64(ws[|ws| - 1])
  }

  /** Word k of WordsOf(b, n) is word k of b. */
  lemma {:induction false} WordsOfAt(b: seq<Byte>, n: nat, k: nat)
    requires 8 * n <= |b| && k < n
    ensures WordsOf(b, n)[k] == WordAt(b, k)
  {
    if k < n - 1 {
      WordsOfAt(b, n - 1, k);
    }
  }

  /** Writing one more word appends its eight bytes. */
  lemma BytesOfSnoc(ws: seq<Word>, i: nat)
    requires i < |ws|
    ensures BytesOf(ws[..i + 1]) == BytesOf(ws[..i]) + Bytes64(ws[i])
  {
    assert ws[..i + 1][..i] == ws[..i];
  }

  /** Bytes 8k .. 8k+8 of BytesOf(ws) are the bytes of word k. */
  lemma {:induction false} BytesOfWord(ws: seq<Word>, k: nat)
    requires k < |ws|
    ensures BytesOf(ws)[8 * k..8 * k + 8] == Bytes64(ws[k])
  {
    var n := |ws| - 1;
    var init := BytesOf(ws[..n]);
    if k < n {
      BytesOfWord(ws[..n], k);
      assert BytesOf(ws)[8 * k..8 * k + 8] == init[8 * k..8 * k + 8];
    } else {
      assert BytesOf(ws)[8 * k..8 * k + 8] == BytesOf(ws)[|init|..];
    }
  }

  /** WordsOf reads only the first 8n bytes. */
  lemma {:induction false} WordsOfPrefix(b: seq<Byte>, c: seq<Byte>, n: nat)
    requires 8 * n <= |b| && 8 * n <= |c| && b[..8 * n] == c[..8 * n]
    ensures WordsOf(b, n) == WordsOf(c, n)
  {
    if n > 0 {
      assert b[..8 * (n - 1)] == b[..8 * n][..8 * (n - 1)];
      assert c[..8 * (n - 1)] == c[..8 * n][..8 * (n - 1)];
      WordsOfPrefix(b, c, n - 1);
      assert b[8 * (n - 1)..8 * n] == b[..8 * n][8 * (n - 1)..];
      assert c[8 * (n - 1)..8 * n] == c[..8 * n][8 * (n - 1)..];
    }
  }

  /** The key stream of a state: its ten rate words, stored as 80 bytes. */
  function Keystream(p: seq<Word>): (k: seq<Byte>)
    requires |p| == StateWords
    ensures |k| == RateBytes
  {
    BytesOf(p[..RateWords])
  }

  /** Word i of the state XOR word i of x, stored, is bytes 8i .. 8i+8 of
      the key stream XOR x, for any x of at most 80 bytes: one step of the
      word loops, seen byte by byte. */
  lemma KeystreamWord(p: seq<Word>, x: seq<Byte>, i: nat)
    requires |p| == StateWords && 8 * i + 8 <= |x| <= RateBytes
    ensures Bytes64(p[i] ^ WordAt(x, i)) == XorBytes(Keystream(p)[..|x|], x)[8 * i..8 * i + 8]
    ensures p[i] ^ WordAt(x, i) == WordAt(XorBytes(Keystream(p)[..|x|], x), i)
  {
    var k := Keystream(p)[..|x|];
    BytesOfWord(p[..RateWords], i);
    assert k[8 * i..8 * i + 8] == Keystream(p)[8 * i..8 * i + 8];
    XorBytesSlice(k, x, 8 * i, 8 * i + 8);
    XorLoaded(p[i], x[8 * i..8 * i + 8]);
  }

  /** Word i of a full block: p[i] XOR word i of x is word i of the key
      stream XOR x, and it stores as bytes 8i .. 8i+8 of that XOR. */
  lemma XorStep(p: seq<Word>, x: seq<Byte>, i: nat)
    requires |p| == StateWords && |x| == RateBytes && i < RateWords
    ensures p[i] ^ WordAt(x, i) == WordAt(XorBytes(Keystream(p), x), i)
    ensures Bytes64(p[i] ^ WordAt(x, i)) == XorBytes(Keystream(p), x)[8 * i..8 * i + 8]
  {
    assert Keystream(p)[..RateBytes] == Keystream(p);
    KeystreamWord(p, x, i);
  }

  /** XorStep for every word of the rate at once. */
  lemma KeyedWords(p: seq<Word>, x: seq<Byte>)
    requires |p| == StateWords && |x| == RateBytes
    ensures forall k :: 0 <= k < RateWords ==>
      Bytes64(Xor(p[k], WordAt(x, k))) == XorBytes(Keystream(p), x)[8 * k..8 * k + 8]
  {
    forall k | 0 <= k < RateWords
      ensures Bytes64(Xor(p[k], WordAt(x, k))) == XorBytes(Keystream(p), x)[8 * k..8 * k + 8]
    {
      XorStep(p, x, k);
    }
  }

  /** A state whose rate words are p XOR the words of x, and whose capacity
      words are those of p, is the key stream of p XOR x, loaded, followed by
      the capacity of p. */
  lemma XorFilled(s: seq<Word>, p: seq<Word>, x: seq<Byte>)
    requires |s| == StateWords && |p| == StateWords && |x| == RateBytes
    requires forall k :: 0 <= k < RateWords ==> s[k] == Xor(p[k], WordAt(x, k))
    requires forall k :: RateWords <= k < StateWords ==> s[k] == p[k]
    ensures s == WordsOf(XorBytes(Keystream(p), x), RateWords) + p[RateWords..]
  {
    forall k | 0 <= k < RateWords
      ensures s[k] == WordAt(XorBytes(Keystream(p), x), k)
    {
      XorStep(p, x, k);
    }
    RateFilled(s, XorBytes(Keystream(p), x), p);
  }

  /** A state whose rate words are the words of x and whose capacity words
      are those of p. */
  lemma RateFilled(s: seq<Word>, x: seq<Byte>, p: seq<Word>)
    requires |s| == StateWords && |p| == StateWords && RateBytes <= |x|
    requires forall k :: 0 <= k < RateWords ==> s[k] == WordAt(x, k)
    requires forall k :: RateWords <= k < StateWords ==> s[k] == p[k]
    ensures s == WordsOf(x, RateWords) + p[RateWords..]
  {
    forall k | 0 <= k < StateWords
      ensures s[k] == (WordsOf(x, RateWords) + p[RateWords..])[k]
    {
      if k < RateWords {
        WordsOfAt(x, RateWords, k);
      }
    }
  }

  /** A state whose rate words store as the 80 bytes e, and whose capacity
      words are those of p, is e loaded, followed by the capacity of p. */
  lemma StoredWords(s: seq<Word>, e: seq<Byte>, p: seq<Word>)
    requires |s| == StateWords && |p| == StateWords && |e| == RateBytes
    requires forall k :: 0 <= k < RateWords ==> Bytes64(s[k]) == e[8 * k..8 * k + 8]
    requires forall k :: RateWords <= k < StateWords ==> s[k] == p[k]
    ensures s == WordsOf(e, RateWords) + p[RateWords..]
  {
    forall k | 0 <= k < RateWords
      ensures s[k] == WordAt(e, k)
    {
      LoadOfStore(s[k]);
    }
    RateFilled(s, e, p);
  }

  // ---------------------------------------------------------------------
  // The state functions: what each block operation does to a state value

  /** inject_tag: the tag XORed into the last capacity word, s[15]; every
      other word as it was. */
  function Injected(s: seq<Word>, tag: Word): (r: seq<Word>)
    requires |s| == StateWords
    ensures |r| == StateWords
  {
    s[15 := s[15] ^ tag]
  }

  /** Injecting the same tag twice restores the state. */
  lemma InjectedTwice(s: seq<Word>, tag: Word)
    requires |s| == StateWords
    ensures Injected(Injected(s, tag), tag) == s
  {
    var r := Injected(Injected(s, tag), tag);
    forall i | 0 <= i < StateWords
      ensures r[i] == s[i]
    {
      if i == 15 {
        assert (s[15] ^ tag) ^ tag == s[15];
      }
    }
  }

  /** The state a block operation works on: the tag injected, then permuted. */
  function Prepared(s: seq<Word>, tag: Word): (r: seq<Word>)
    requires |s| == StateWords
    ensures |r| == StateWords
  {
    Permuted(Injected(s, tag))
  }

  /** absorb_block and encrypt_block on an 80-byte block: the rate of the
      prepared state, as bytes, XOR the block, loaded back into words; the
      capacity words as the permutation left them. */
  function Absorbed(s: seq<Word>, blk: seq<Byte>, tag: Word): (r: seq<Word>)
    requires |s| == StateWords && |blk| == RateBytes
    ensures |r| == StateWords
  {
    var p := Prepared(s, tag);
    WordsOf(XorBytes(Keystream(p), blk), RateWords) + p[RateWords..]
  }

  /** The 80 bytes encrypt_block and decrypt_block write: the key stream
      of the prepared state XOR the input block (the plaintext when
      encrypting, the ciphertext when decrypting). */
  function KeyedBlock(s: seq<Word>, x: seq<Byte>): (y: seq<Byte>)
    requires |s| == StateWords && |x| == RateBytes
    ensures |y| == RateBytes
  {
    XorBytes(Keystream(Prepared(s, PayloadTag)), x)
  }

  /** decrypt_block: the ciphertext words replace the rate words of the
      prepared state; the capacity words as the permutation left them. */
  function DecryptedState(s: seq<Word>, c: seq<Byte>): (r: seq<Word>)
    requires |s| == StateWords && |c| == RateBytes
    ensures |r| == StateWords
  {
    WordsOf(c, RateWords) + Prepared(s, PayloadTag)[RateWords..]
  }

  /** The full-block operations change only the rate: the capacity words
      s[10..16) are those the permutation produced. */
  lemma BlockKeepsCapacity(s: seq<Word>, x: seq<Byte>, tag: Word)
    requires |s| == StateWords && |x| == RateBytes
    ensures Absorbed(s, x, tag)[RateWords..] == Prepared(s, tag)[RateWords..]
    ensures DecryptedState(s, x)[RateWords..] == Prepared(s, PayloadTag)[RateWords..]
  {
  }

  /** Decrypting the block encrypt_block wrote, from the same state, gives
      back the plaintext block and ends in the state encryption ended in. */
  lemma DecryptEncryptedBlock(s: seq<Word>, m: seq<Byte>)
    requires |s| == StateWords && |m| == RateBytes
    ensures KeyedBlock(s, KeyedBlock(s, m)) == m
    ensures DecryptedState(s, KeyedBlock(s, m)) == Absorbed(s, m, PayloadTag)
  {
    XorBytesTwice(Keystream(Prepared(s, PayloadTag)), m);
  }

  /** Encrypting the block decrypt_block wrote, from the same state, gives
      back the ciphertext block and ends in the state decryption ended in. */
  lemma EncryptDecryptedBlock(s: seq<Word>, c: seq<Byte>)
    requires |s| == StateWords && |c| == RateBytes
    ensures KeyedBlock(s, KeyedBlock(s, c)) == c
    ensures Absorbed(s, KeyedBlock(s, c), PayloadTag) == DecryptedState(s, c)
  {
    XorBytesTwice(Keystream(Prepared(s, PayloadTag)), c);
  }

  // ---------------------------------------------------------------------
  // The block operations, in place on the state

  /** inject_tag: XORs the tag into s[15]. */
  method InjectTag(st: State, tag: Word)
    requires st.Valid()
    modifies st.s
    ensures st.s[..] == Injected(old(st.s[..]), tag)
  {
    ghost var s0 := st.s[..];
    var w := st.s[15] ^ tag;
    st.s[15] := w;
    assert st.s[..] == s0[15 := w];
  }

  /** The first two steps of every block operation: inject_tag, then permute. */
  method Prepare(st: State, tag: Word)
    requires st.Valid()
    modifies st.s
    ensures st.s[..] == Prepared(old(st.s[..]), tag)
  {
    InjectTag(st, tag);
    Permute(st);
  }

  /** The word loop of absorb_block, on the permuted state: XORs word i of
      the block into rate word i, for i = 0 .. 9. */
  method AbsorbRate(st: State, blk: seq<Byte>)
    requires st.Valid() && |blk| == RateBytes
    modifies st.s
    ensures st.s[..] == WordsOf(XorBytes(Keystream(old(st.s[..])), blk), RateWords) + old(st.s[RateWords..])
  {
    ghost var p := st.s[..];
    var i := 0;
    while i < 10
      invariant i <= RateWords
      invariant forall k :: 0 <= k < i ==> st.s[k] == Xor(p[k], WordAt(blk, k))
      invariant forall k :: i <= k < StateWords ==> st.s[k] == p[k]
    {
      st.s[i] := Xor(st.s[i], Load64(blk[8 * i..8 * i + 8]));
      i := i + 1;
    }
    XorFilled(st.s[..], p, blk);
  }

  /** absorb_block: injects the tag, permutes, then XORs the ten words of
      the block into the rate. */
  method AbsorbBlock(st: State, blk: seq<Byte>, tag: Word)
    requires st.Valid() && |blk| == RateBytes
    modifies st.s
    ensures st.s[..] == Absorbed(old(st.s[..]), blk, tag)
  {
    Prepare(st, tag);
    AbsorbRate(st, blk);
  }

  /** The LOAD64 of word i in the loops of encrypt_block and decrypt_block:
      when inp still holds the block bytes m from word i on, the word read
      is word i of m. */
  method LoadWord(inp: array<Byte>, inOff: nat, ghost m: seq<Byte>, i: nat) returns (x: Word)
    requires 8 * i + 8 <= |m| && inOff + |m| <= inp.Length
    requires forall j :: 8 * i <= j < |m| ==> inp[inOff + j] == m[j]
    ensures x == WordAt(m, i)
  {
    SliceAgrees(inp[..], inOff, m, 8 * i, 8 * i + 8);
    x := Load64(inp[inOff + 8 * i..inOff + 8 * i + 8]);
  }

  /** The STORE64 of word i in the loops of encrypt_block and decrypt_block:
      writes the bytes d[8i..8i+8] at outOff + 8i and no other byte. */
  method StoreWord(out: array<Byte>, outOff: nat, ghost d: seq<Byte>, i: nat, v: Word)
    requires 8 * i + 8 <= |d| && outOff + |d| <= out.Length
    requires Bytes64(v) == d[8 * i..8 * i + 8]
    modifies out
    ensures forall k :: 0 <= k < outOff + 8 * i ==> out[k] == old(out[k])
    ensures forall j :: 8 * i <= j < 8 * i + 8 ==> out[outOff + j] == d[j]
    ensures forall k :: outOff + 8 * i + 8 <= k < out.Length ==> out[k] == old(out[k])
  {
    ghost var o := out[..];
    Store64(out, outOff + 8 * i, v);
    forall k | 0 <= k < out.Length
      ensures out[k] == if outOff + 8 * i <= k < outOff + 8 * i + 8 then d[k - outOff] else o[k]
    {
      SpliceAt(o, outOff + 8 * i, Bytes64(v), k);
    }
  }

  /** One turn of the word loop of encrypt_block: word i of the plaintext
      m is XORed into rate word i and stored as bytes 8i .. 8i+8 of e.
      Words before i are done, words from i on are as the loop found them
      (p, o), and the input is unread from byte 8i on. */
  method EncryptWord(st: State, out: array<Byte>, outOff: nat, inp: array<Byte>, inOff: nat, i: nat,
                     ghost m: seq<Byte>, ghost e: seq<Byte>, ghost o: seq<Byte>, ghost p: seq<Word>)
    requires st.Valid() && |p| == StateWords && |o| == out.Length
    requires |m| == |e| && 8 * i + 8 <= |m| <= RateBytes
    requires outOff + |m| <= out.Length && inOff + |m| <= inp.Length
    requires inp == out ==> inOff == outOff
    requires Bytes64(Xor(p[i], WordAt(m, i))) == e[8 * i..8 * i + 8]
    requires forall k :: 0 <= k < i ==> Bytes64(st.s[k]) == e[8 * k..8 * k + 8]
    requires forall k :: i <= k < StateWords ==> st.s[k] == p[k]
    requires forall k :: 0 <= k < outOff ==> out[k] == o[k]
    requires forall j :: 0 <= j < 8 * i ==> out[outOff + j] == e[j]
    requires forall k :: outOff + 8 * i <= k < out.Length ==> out[k] == o[k]
    requires forall j :: 8 * i <= j < |m| ==> inp[inOff + j] == m[j]
    modifies st.s, out
    ensures forall k :: 0 <= k < i + 1 ==> Bytes64(st.s[k]) == e[8 * k..8 * k + 8]
    ensures forall k :: i + 1 <= k < StateWords ==> st.s[k] == p[k]
    ensures forall k :: 0 <= k < outOff ==> out[k] == o[k]
    ensures forall j :: 0 <= j < 8 * (i + 1) ==> out[outOff + j] == e[j]
    ensures forall k :: outOff + 8 * (i + 1) <= k < out.Length ==> out[k] == o[k]
    ensures forall j :: 8 * (i + 1) <= j < |m| ==> inp[inOff + j] == m[j]
  {
    var x := LoadWord(inp, inOff, m, i);
    var v := Xor(st.s[i], x);
    StoreWord(out, outOff, e, i, v);
    st.s[i] := v;
  }

  /** The word loop of encrypt_block, on the permuted state: for i = 0 .. 9
      XORs word i of the plaintext m into rate word i and stores the result
      as bytes 8i .. 8i+8 of the ciphertext e, whose words the caller gives
      as Bytes64 of those XORs. out and inp may be the same buffer at the
      same offset, since word i is read before it is written. */
  method EncryptRate(st: State, out: array<Byte>, outOff: nat, inp: array<Byte>, inOff: nat,
                     ghost m: seq<Byte>, ghost e: seq<Byte>)
    requires st.Valid()
    requires outOff + RateBytes <= out.Length && inOff + RateBytes <= inp.Length
    requires inp == out ==> inOff == outOff
    requires |m| == RateBytes && |e| == RateBytes
    requires forall j :: 0 <= j < RateBytes ==> inp[inOff + j] == m[j]
    requires forall k :: 0 <= k < RateWords ==> Bytes64(Xor(st.s[k], WordAt(m, k))) == e[8 * k..8 * k + 8]
    modifies st.s, out
    ensures st.s[..] == WordsOf(e, RateWords) + old(st.s[RateWords..])
    ensures out[..] == Splice(old(out[..]), outOff, e)
  {
    ghost var o := out[..];
    ghost var p := st.s[..];
    var i := 0;
    while i < 10
      invariant i <= RateWords
      invariant forall k :: 0 <= k < i ==> Bytes64(st.s[k]) == e[8 * k..8 * k + 8]
      invariant forall k :: i <= k < StateWords ==> st.s[k] == p[k]
      invariant forall k :: 0 <= k < outOff ==> out[k] == o[k]
      invariant forall j :: 0 <= j < 8 * i ==> out[outOff + j] == e[j]
      invariant forall k :: outOff + 8 * i <= k < out.Length ==> out[k] == o[k]
      invariant forall j :: 8 * i <= j < RateBytes ==> inp[inOff + j] == m[j]
    {
      EncryptWord(st, out, outOff, inp, inOff, i, m, e, o, p);
      i := i + 1;
    }
    StoredWords(st.s[..], e, p);
    SpliceFilled(out[..], o, outOff, e);
  }

  /** encrypt_block: injects the payload tag, permutes, then encrypts the
      block through the rate. */
  method EncryptBlock(st: State, out: array<Byte>, outOff: nat, inp: array<Byte>, inOff: nat)
    requires st.Valid()
    requires outOff + RateBytes <= out.Length && inOff + RateBytes <= inp.Length
    requires inp == out ==> inOff == outOff
    modifies st.s, out
    ensures st.s[..] == Absorbed(old(st.s[..]), old(inp[inOff..inOff + RateBytes]), PayloadTag)
    ensures out[..] == Splice(old(out[..]), outOff, KeyedBlock(old(st.s[..]), old(inp[inOff..inOff + RateBytes])))
  {
    ghost var m := inp[inOff..inOff + RateBytes];
    Prepare(st, PayloadTag);
    ghost var p := st.s[..];
    ghost var e := XorBytes(Keystream(p), m);
    KeyedWords(p, m);
    EncryptRate(st, out, outOff, inp, inOff, m, e);
  }

  /** One turn of the word loops of decrypt_block and decrypt_lastblock:
      rate word i XOR word i of the ciphertext c is stored as bytes
      8i .. 8i+8 of d, and the ciphertext word goes into the rate. Words
      before i are done, words from i on are as the loop found them
      (p, o), and the input is unread from byte 8i on. */
  method DecryptWord(st: State, out: array<Byte>, outOff: nat, inp: array<Byte>, inOff: nat, i: nat,
                     ghost c: seq<Byte>, ghost d: seq<Byte>, ghost o: seq<Byte>, ghost p: seq<Word>)
    requires st.Valid() && |p| == StateWords && |o| == out.Length
    requires |c| == |d| && 8 * i + 8 <= |c| <= RateBytes
    requires outOff + |c| <= out.Length && inOff + |c| <= inp.Length
    requires inp == out ==> inOff == outOff
    requires Bytes64(Xor(p[i], WordAt(c, i))) == d[8 * i..8 * i + 8]
    requires forall k :: 0 <= k < i ==> st.s[k] == WordAt(c, k)
    requires forall k :: i <= k < StateWords ==> st.s[k] == p[k]
    requires forall k :: 0 <= k < outOff ==> out[k] == o[k]
    requires forall j :: 0 <= j < 8 * i ==> out[outOff + j] == d[j]
    requires forall k :: outOff + 8 * i <= k < out.Length ==> out[k] == o[k]
    requires forall j :: 8 * i <= j < |c| ==> inp[inOff + j] == c[j]
    modifies st.s, out
    ensures forall k :: 0 <= k < i + 1 ==> st.s[k] == WordAt(c, k)
    ensures forall k :: i + 1 <= k < StateWords ==> st.s[k] == p[k]
    ensures forall k :: 0 <= k < outOff ==> out[k] == o[k]
    ensures forall j :: 0 <= j < 8 * (i + 1) ==> out[outOff + j] == d[j]
    ensures forall k :: outOff + 8 * (i + 1) <= k < out.Length ==> out[k] == o[k]
    ensures forall j :: 8 * (i + 1) <= j < |c| ==> inp[inOff + j] == c[j]
  {
    var x := LoadWord(inp, inOff, c, i);
    StoreWord(out, outOff, d, i, Xor(st.s[i], x));
    st.s[i] := x;
  }

  /** The word loop of decrypt_block, on the permuted state: for i = 0 .. 9
      stores rate word i XOR word i of the ciphertext c as bytes 8i .. 8i+8
      of the plaintext d, whose words the caller gives as Bytes64 of those
      XORs, and puts the ciphertext word into the rate. out and inp may be
      the same buffer at the same offset. */
  method DecryptRate(st: State, out: array<Byte>, outOff: nat, inp: array<Byte>, inOff: nat,
                     ghost c: seq<Byte>, ghost d: seq<Byte>)
    requires st.Valid()
    requires outOff + RateBytes <= out.Length && inOff + RateBytes <= inp.Length
    requires inp == out ==> inOff == outOff
    requires |c| == RateBytes && |d| == RateBytes
    requires forall j :: 0 <= j < RateBytes ==> inp[inOff + j] == c[j]
    requires forall k :: 0 <= k < RateWords ==> Bytes64(Xor(st.s[k], WordAt(c, k))) == d[8 * k..8 * k + 8]
    modifies st.s, out
    ensures st.s[..] == WordsOf(c, RateWords) + old(st.s[RateWords..])
    ensures out[..] == Splice(old(out[..]), outOff, d)
  {
    ghost var o := out[..];
    ghost var p := st.s[..];
    var i := 0;
    while i < 10
      invariant i <= RateWords
      invariant forall k :: 0 <= k < i ==> st.s[k] == WordAt(c, k)
      invariant forall k :: i <= k < StateWords ==> st.s[k] == p[k]
      invariant forall k :: 0 <= k < outOff ==> out[k] == o[k]
      invariant forall j :: 0 <= j < 8 * i ==> out[outOff + j] == d[j]
      invariant forall k :: outOff + 8 * i <= k < out.Length ==> out[k] == o[k]
      invariant forall j :: 8 * i <= j < RateBytes ==> inp[inOff + j] == c[j]
    {
      DecryptWord(st, out, outOff, inp, inOff, i, c, d, o, p);
      i := i + 1;
    }
    RateFilled(st.s[..], c, p);
    SpliceFilled(out[..], o, outOff, d);
  }

  /** decrypt_block: injects the payload tag, permutes, then decrypts the
      block through the rate. */
  method DecryptBlock(st: State, out: array<Byte>, outOff: nat, inp: array<Byte>, inOff: nat)
    requires st.Valid()
    requires outOff + RateBytes <= out.Length && inOff + RateBytes <= inp.Length
    requires inp == out ==> inOff == outOff
    modifies st.s, out
    ensures st.s[..] == DecryptedState(old(st.s[..]), old(inp[inOff..inOff + RateBytes]))
    ensures out[..] == Splice(old(out[..]), outOff, KeyedBlock(old(st.s[..]), old(inp[inOff..inOff + RateBytes])))
  {
    ghost var c := inp[inOff..inOff + RateBytes];
    Prepare(st, PayloadTag);
    ghost var p := st.s[..];
    ghost var d := XorBytes(Keystream(p), c);
    KeyedWords(p, c);
    DecryptRate(st, out, outOff, inp, inOff, c, d);
  }
}

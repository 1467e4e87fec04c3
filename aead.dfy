/** The top level of NORX (aead/norx.go): setup of the state from key and
    nonce, output_tag and verify_tag, and the two entry points AEAD_encrypt
    and AEAD_decrypt. The whole scheme is also given as two functions,
    Seal and Open, and Open is proved to invert Seal. */
module NorxAead {
  import opened Utils
  import opened NorxPermutation
  import opened NorxSponge
  import opened NorxLastBlock
  import opened NorxDrivers

  datatype Option<T> = None | Some(value: T)

  /** BYTES64(NORX_A): the tag length in bytes. */
  const TagBytes: nat := 32
  /** NORX_A, the tag size in bits, which AEAD_decrypt also uses as the
      length of its tag buffer. */
  const NorxA: nat := 256
  /** BYTES64(NORX_K) and BYTES64(NORX_N): the bytes of key and nonce read. */
  const KeyBytes: nat := 32
  const NonceBytes: nat := 16

  function Min(a: nat, b: nat): nat
  {
    if a <= b then a else b
  }

  // ---------------------------------------------------------------------
  // Setup

  /** The sixteen words setup writes into the state: u0, the two nonce
      words, u1, the four key words, then u2 .. u9. */
  function Loaded(k: seq<Byte>, n: seq<Byte>): (s: seq<Word>)
    requires |k| >= KeyBytes && |n| >= NonceBytes
    ensures |s| == StateWords
  {
    [U0, WordAt(n, 0), WordAt(n, 1), U1,
     WordAt(k, 0), WordAt(k, 1), WordAt(k, 2), WordAt(k, 3),
     U2, U3, U4, U5,
     U6, U7, U8, U9]
  }

  /** The state setup permutes: the loaded words with the parameter word
      XORed into s[14]. */
  function InitialLayout(k: seq<Byte>, n: seq<Byte>): (s: seq<Word>)
    requires |k| >= KeyBytes && |n| >= NonceBytes
    ensures |s| == StateWords
  {
    var w := Loaded(k, n);
    w[14 := Xor(w[14], ParamWord)]
  }

  /** setup: the layout, permuted once. */
  function Initialised(k: seq<Byte>, n: seq<Byte>): (s: seq<Word>)
    requires |k| >= KeyBytes && |n| >= NonceBytes
    ensures |s| == StateWords
  {
    Permuted(InitialLayout(k, n))
  }

  /** The key words, the nonce words and s[14] of the layout. */
  lemma LayoutWords(k: seq<Byte>, n: seq<Byte>)
    requires |k| >= KeyBytes && |n| >= NonceBytes
    ensures InitialLayout(k, n)[4..8] == WordsOf(k, 4)
    ensures InitialLayout(k, n)[1..3] == WordsOf(n, 2)
    ensures InitialLayout(k, n)[14] == Xor(U8, ParamWord)
  {
    var l := InitialLayout(k, n);
    forall i | 0 <= i < 4
      ensures l[4..8][i] == WordsOf(k, 4)[i]
    {
      WordsOfAt(k, 4, i);
    }
    forall i | 0 <= i < 2
      ensures l[1..3][i] == WordsOf(n, 2)[i]
    {
      WordsOfAt(n, 2, i);
    }
  }

  /** XORing u8 back out of s[14] leaves the parameter word, whose value
      for NORX64-4-1 with a 256-bit tag is 0x10050100. */
  lemma ParamRecovered()
    ensures Xor(Xor(U8, ParamWord), U8) == ParamWord == 0x1005_0100
  {
    XorAssoc(U8, ParamWord, U8);
    assert Xor(ParamWord, U8) == Xor(U8, ParamWord);
    XorAssoc(U8, U8, ParamWord);
    assert Xor(U8, U8) == 0;
    XorZero(ParamWord);
  }

  /** The layout holds the 32 key bytes in s[4..8) and the 16 nonce bytes
      in s[1..3) as little-endian words, and s[14] differs from u8 by
      exactly the parameter word of NORX64-4-1 with a 256-bit tag. */
  lemma LayoutHoldsKeyAndNonce(k: seq<Byte>, n: seq<Byte>)
    requires |k| >= KeyBytes && |n| >= NonceBytes
    ensures BytesOf(InitialLayout(k, n)[4..8]) == k[..KeyBytes]
    ensures BytesOf(InitialLayout(k, n)[1..3]) == n[..NonceBytes]
    ensures Xor(InitialLayout(k, n)[14], U8) == ParamWord == 0x1005_0100
  {
    LayoutWords(k, n);
    BytesOfWordsOf(k, 4);
    BytesOfWordsOf(n, 2);
    ParamRecovered();
  }

  /** The bytes of the first n words of b are the first 8n bytes of b. */
  lemma BytesOfWordsOf(b: seq<Byte>, n: nat)
    requires 8 * n <= |b|
    ensures BytesOf(WordsOf(b, n)) == b[..8 * n]
  {
    var ws := WordsOf(b, n);
    forall i | 0 <= i < n
      ensures BytesOf(ws)[8 * i..8 * i + 8] == b[..8 * n][8 * i..8 * i + 8]
    {
      BytesOfWord(ws, i);
      WordsOfAt(b, n, i);
      WordAtBytes(b, i);
      SliceOfSlice(b, 0, 8 * n, 8 * i, 8 * i + 8);
    }
    WordsConcat(ws, b[..8 * n]);
  }

  /** Bytes that agree word by word with the bytes of ws are BytesOf(ws). */
  lemma {:induction false} WordsConcat(ws: seq<Word>, b: seq<Byte>)
    requires |b| == 8 * |ws|
    requires forall i :: 0 <= i < |ws| ==> BytesOf(ws)[8 * i..8 * i + 8] == b[8 * i..8 * i + 8]
    ensures BytesOf(ws) == b
  {
    var bs := BytesOf(ws);
    forall j | 0 <= j < |b|
      ensures bs[j] == b[j]
    {
      var i := j / 8;
      assert bs[8 * i..8 * i + 8][j - 8 * i] == b[8 * i..8 * i + 8][j - 8 * i];
    }
  }

  /** Two key/nonce pairs that lay out the same state are the same pair:
      setup loses none of the key and nonce bytes it reads. */
  lemma LayoutInjective(k: seq<Byte>, n: seq<Byte>, k2: seq<Byte>, n2: seq<Byte>)
    requires |k| >= KeyBytes && |n| >= NonceBytes && |k2| >= KeyBytes && |n2| >= NonceBytes
    requires InitialLayout(k, n) == InitialLayout(k2, n2)
    ensures k[..KeyBytes] == k2[..KeyBytes] && n[..NonceBytes] == n2[..NonceBytes]
  {
    LayoutHoldsKeyAndNonce(k, n);
    LayoutHoldsKeyAndNonce(k2, n2);
  }

  /** setup: writes the sixteen loaded words (independent writes, made as
      one parallel assignment), XORs the parameter word into s[14], then
      permutes. */
  method Setup(st: State, k: seq<Byte>, n: seq<Byte>)
    requires st.Valid() && |k| >= KeyBytes && |n| >= NonceBytes
    modifies st.s
    ensures st.s[..] == Initialised(k, n)
  {
    var w := Loaded(k, n);
    forall i | 0 <= i < StateWords {
      st.s[i] := w[i];
    }
    assert st.s[..] == w;
    st.s[14] := Xor(st.s[14], ParamWord);
    assert st.s[..] == InitialLayout(k, n);
    Permute(st);
  }

  // ---------------------------------------------------------------------
  // The tag

  /** The state output_tag squeezes: FINAL_TAG injected, then permuted twice. */
  function Finalised(s: seq<Word>): (r: seq<Word>)
    requires |s| == StateWords
    ensures |r| == StateWords
  {
    Permuted(Permuted(Injected(s, FinalTag)))
  }

  /** The 80 bytes output_tag stores from a state: the rate of the
      finalised state, word after word. */
  function Squeezed(s: seq<Word>): (b: seq<Byte>)
    requires |s| == StateWords
    ensures |b| == RateBytes
  {
    Keystream(Finalised(s))
  }

  /** The tag of a state: the first 32 of the squeezed bytes. */
  function TagOf(s: seq<Word>): (t: seq<Byte>)
    requires |s| == StateWords
    ensures |t| == TagBytes
  {
    Squeezed(s)[..TagBytes]
  }

  /** Bytes that agree word by word with the key stream of p are that key
      stream. */
  lemma KeystreamFilled(b: seq<Byte>, p: seq<Word>)
    requires |p| == StateWords && |b| == RateBytes
    requires forall i :: 0 <= i < RateWords ==> b[8 * i..8 * i + 8] == Bytes64(p[i])
    ensures b == Keystream(p)
  {
    forall i | 0 <= i < RateWords
      ensures BytesOf(p[..RateWords])[8 * i..8 * i + 8] == b[8 * i..8 * i + 8]
    {
      BytesOfWord(p[..RateWords], i);
    }
    WordsConcat(p[..RateWords], b);
  }

  /** The STORE64 loop of output_tag: the ten rate words stored one after
      the other into the 80-byte buffer. */
  method StoreRate(st: State, lastblock: array<Byte>)
    requires st.Valid() && lastblock.Length == RateBytes
    modifies lastblock
    ensures lastblock[..] == Keystream(st.s[..])
  {
    var i := 0;
    while i < 10
      invariant i <= RateWords
      invariant forall k :: 0 <= k < i ==> lastblock[8 * k..8 * k + 8] == Bytes64(st.s[k])
    {
      ghost var o := lastblock[..];
      Store64(lastblock, 8 * i, st.s[i]);
      forall k | 0 <= k < i + 1
        ensures lastblock[8 * k..8 * k + 8] == Bytes64(st.s[k])
      {
        if k < i {
          SpliceOutside(o, 8 * i, Bytes64(st.s[i]), 8 * k, 8 * k + 8);
          assert o[8 * k..8 * k + 8] == lastblock[8 * k..8 * k + 8];
        } else {
          SpliceInside(o, 8 * i, Bytes64(st.s[i]));
        }
      }
      i := i + 1;
    }
    KeystreamFilled(lastblock[..], st.s[..]);
  }

  /** output_tag: injects FINAL_TAG, permutes twice, stores the rate into
      a fresh 80-byte buffer and copies as much of it as fits, at most 80
      bytes, into tag from off on (Go's copy into tag[off:]). */
  method OutputTag(st: State, tag: array<Byte>, off: nat)
    requires st.Valid() && off <= tag.Length
    modifies st.s, tag
    ensures st.s[..] == Finalised(old(st.s[..]))
    ensures tag[..] == Splice(old(tag[..]), off, Squeezed(old(st.s[..]))[..Min(RateBytes, tag.Length - off)])
  {
    InjectTag(st, FinalTag);
    Permute(st);
    Permute(st);
    var lastblock := new Byte[RateBytes](_ => 0);
    StoreRate(st, lastblock);
    CopyInto(tag, off, lastblock, Min(RateBytes, tag.Length - off));
    Burn8(lastblock, RateBytes);
  }

  /** verify_tag: ORs the XOR of every one of the 32 byte pairs into acc,
      with no early exit, then folds acc into 0 or -1 without a branch.
      acc is a Go int but only ever holds an OR of bytes, so a byte holds
      it; Go's >> 8 on a signed int is floor division by 256 and & 1 its
      remainder modulo 2, which Dafny's / and % give for these divisors. */
  method VerifyTag(tag1: seq<Byte>, tag2: seq<Byte>) returns (r: int)
    requires |tag1| >= TagBytes && |tag2| >= TagBytes
    ensures r == 0 || r == -1
    ensures r == 0 <==> tag1[..TagBytes] == tag2[..TagBytes]
  {
    var acc: Byte := 0;
    var i := 0;
    while i < 32
      invariant i <= TagBytes
      invariant acc == 0 <==> forall j :: 0 <= j < i ==> tag1[j] == tag2[j]
    {
      acc := acc | (tag1[i] ^ tag2[i]);
      i := i + 1;
    }
    var a := acc as int;
    r := ((a - 1) / 256) % 2 - 1;
    if acc == 0 {
      assert tag1[..TagBytes] == tag2[..TagBytes];
    } else {
      assert r == -1;
      var j :| 0 <= j < TagBytes && tag1[j] != tag2[j];
      assert tag1[..TagBytes][j] != tag2[..TagBytes][j];
    }
  }

  // ---------------------------------------------------------------------
  // The scheme as functions

  /** The state after setup and process_header. */
  function Headed(k: seq<Byte>, n: seq<Byte>, h: seq<Byte>): (s: seq<Word>)
    requires |k| >= KeyBytes && |n| >= NonceBytes
    ensures |s| == StateWords
  {
    Processed(Initialised(k, n), h, HeaderTag, HeaderTag)
  }

  /** process_trailer: full blocks with TRAILER_TAG, the padded last block
      with HEADER_TAG. */
  function Trailed(s: seq<Word>, t: seq<Byte>): (r: seq<Word>)
    requires |s| == StateWords
    ensures |r| == StateWords
  {
    Processed(s, t, TrailerTag, HeaderTag)
  }

  /** AEAD encryption: the ciphertext of m, then the 32-byte tag. */
  function Seal(k: seq<Byte>, n: seq<Byte>, h: seq<Byte>, m: seq<Byte>, t: seq<Byte>): (c: seq<Byte>)
    requires |k| >= KeyBytes && |n| >= NonceBytes
    ensures |c| == |m| + TagBytes
  {
    var e := Encrypted(Headed(k, n, h), m);
    e.1 + TagOf(Trailed(e.0, t))
  }

  /** AEAD decryption: None when c is shorter than a tag or its last 32
      bytes are not the tag recomputed from the rest; otherwise the
      plaintext of the rest. */
  function Open(k: seq<Byte>, n: seq<Byte>, h: seq<Byte>, c: seq<Byte>, t: seq<Byte>): (r: Option<seq<Byte>>)
    requires |k| >= KeyBytes && |n| >= NonceBytes
    ensures r.Some? ==> |r.value| + TagBytes == |c|
  {
    if |c| < TagBytes then None
    else
      var d := Decrypted(Headed(k, n, h), c[..|c| - TagBytes]);
      if c[|c| - TagBytes..] == TagOf(Trailed(d.0, t)) then Some(d.1) else None
  }

  /** Opening a sealed message with the same key, nonce, header and
      trailer returns the message. */
  lemma OpenSeal(k: seq<Byte>, n: seq<Byte>, h: seq<Byte>, m: seq<Byte>, t: seq<Byte>)
    requires |k| >= KeyBytes && |n| >= NonceBytes
    ensures Open(k, n, h, Seal(k, n, h, m, t), t) == Some(m)
  {
    var s := Headed(k, n, h);
    var e := Encrypted(s, m);
    var c := Seal(k, n, h, m, t);
    MessageRoundTrip(s, m, []);
    assert c[..|c| - TagBytes] == e.1;
    assert c[|c| - TagBytes..] == TagOf(Trailed(e.0, t));
  }

  /** Whatever opens is the sealing of what it opens to: no other byte
      string is accepted for a message. */
  lemma SealOpened(k: seq<Byte>, n: seq<Byte>, h: seq<Byte>, c: seq<Byte>, t: seq<Byte>)
    requires |k| >= KeyBytes && |n| >= NonceBytes && Open(k, n, h, c, t).Some?
    ensures Seal(k, n, h, Open(k, n, h, c, t).value, t) == c
  {
    var s := Headed(k, n, h);
    var body := c[..|c| - TagBytes];
    MessageRoundTrip(s, [], body);
    assert c == body + c[|c| - TagBytes..];
  }

  /** c opens to m exactly when c is the sealing of m. */
  lemma OpenIffSeal(k: seq<Byte>, n: seq<Byte>, h: seq<Byte>, c: seq<Byte>, m: seq<Byte>, t: seq<Byte>)
    requires |k| >= KeyBytes && |n| >= NonceBytes
    ensures Open(k, n, h, c, t) == Some(m) <==> c == Seal(k, n, h, m, t)
  {
    if c == Seal(k, n, h, m, t) {
      OpenSeal(k, n, h, m, t);
    }
    if Open(k, n, h, c, t) == Some(m) {
      SealOpened(k, n, h, c, t);
    }
  }

  /** What AEAD_encrypt writes into c when room bytes of c follow the
      message: the ciphertext, then as much of the 80-byte squeezed block
      as fits, at most 80 bytes. */
  function SealOutput(k: seq<Byte>, n: seq<Byte>, h: seq<Byte>, m: seq<Byte>, t: seq<Byte>, room: nat): (w: seq<Byte>)
    requires |k| >= KeyBytes && |n| >= NonceBytes
    ensures |w| == |m| + Min(RateBytes, room)
  {
    var e := Encrypted(Headed(k, n, h), m);
    e.1 + Squeezed(Trailed(e.0, t))[..Min(RateBytes, room)]
  }

  /** With room for the tag, what AEAD_encrypt writes starts with the
      sealed message; the bytes after it, up to 48 of them, are the rest
      of the squeezed block. */
  lemma SealOutputHoldsSeal(k: seq<Byte>, n: seq<Byte>, h: seq<Byte>, m: seq<Byte>, t: seq<Byte>, room: nat)
    requires |k| >= KeyBytes && |n| >= NonceBytes && room >= TagBytes
    ensures SealOutput(k, n, h, m, t, room)[..|m| + TagBytes] == Seal(k, n, h, m, t)
  {
    var e := Encrypted(Headed(k, n, h), m);
    ConcatTakePrefix(e.1, Squeezed(Trailed(e.0, t)), Min(RateBytes, room), TagBytes);
  }

  /** Open, given the state after process_header and the state after
      process_trailer. */
  lemma OpenBy(k: seq<Byte>, n: seq<Byte>, h: seq<Byte>, c: seq<Byte>, t: seq<Byte>, s2: seq<Word>, s4: seq<Word>)
    requires |k| >= KeyBytes && |n| >= NonceBytes && |c| >= TagBytes
    requires s2 == Headed(k, n, h)
    requires s4 == Trailed(Decrypted(s2, c[..|c| - TagBytes]).0, t)
    ensures Open(k, n, h, c, t) ==
      if c[|c| - TagBytes..] == TagOf(s4) then Some(Decrypted(s2, c[..|c| - TagBytes]).1) else None
  {
  }

  /** SealOutput, given the state after process_header and the state
      after process_trailer. */
  lemma SealOutputBy(k: seq<Byte>, n: seq<Byte>, h: seq<Byte>, m: seq<Byte>, t: seq<Byte>, room: nat,
                     s2: seq<Word>, s4: seq<Word>)
    requires |k| >= KeyBytes && |n| >= NonceBytes
    requires s2 == Headed(k, n, h)
    requires s4 == Trailed(Encrypted(s2, m).0, t)
    ensures SealOutput(k, n, h, m, t, room) == Encrypted(s2, m).1 + Squeezed(s4)[..Min(RateBytes, room)]
  {
  }

  /** The buffer after the ciphertext and then the squeezed bytes are
      written is the buffer with SealOutput written at 0. */
  lemma SealOutputSpliced(k: seq<Byte>, n: seq<Byte>, h: seq<Byte>, m: seq<Byte>, t: seq<Byte>, room: nat,
                          o: seq<Byte>, c1: seq<Byte>, c2: seq<Byte>)
    requires |k| >= KeyBytes && |n| >= NonceBytes && |m| + room == |o|
    requires c1 == Splice(o, 0, Encrypted(Headed(k, n, h), m).1)
    requires c2 == Splice(c1, |m|, Squeezed(Trailed(Encrypted(Headed(k, n, h), m).0, t))[..Min(RateBytes, room)])
    ensures c2 == Splice(o, 0, SealOutput(k, n, h, m, t, room))
  {
    var s2 := Headed(k, n, h);
    var e := Encrypted(s2, m);
    var s4 := Trailed(e.0, t);
    SpliceConcat(o, 0, e.1, Squeezed(s4)[..Min(RateBytes, room)]);
    SealOutputBy(k, n, h, m, t, room, s2, s4);
  }

  // ---------------------------------------------------------------------
  // The entry points

  /** setup, then process_header: the first two steps of both entry points. */
  method Absorb(st: State, key: seq<Byte>, nonce: seq<Byte>, h: seq<Byte>, hlen: nat)
    requires st.Valid() && |key| >= KeyBytes && |nonce| >= NonceBytes && hlen <= |h|
    modifies st.s
    ensures st.s[..] == Headed(key, nonce, h[..hlen])
  {
    Setup(st, key, nonce);
    ProcessHeader(st, h, hlen);
  }

  /** process_trailer, then output_tag into buf from off on: the last two
      steps of both entry points. */
  method Squeeze(st: State, t: seq<Byte>, tlen: nat, buf: array<Byte>, off: nat)
    requires st.Valid() && tlen <= |t| && off <= buf.Length
    modifies st.s, buf
    ensures buf[..] == Splice(old(buf[..]), off, Squeezed(Trailed(old(st.s[..]), t[..tlen]))[..Min(RateBytes, buf.Length - off)])
  {
    ProcessTrailer(st, t, tlen);
    OutputTag(st, buf, off);
  }

  /** The middle of AEAD_encrypt, from the state process_header left for
      key k, nonce n and header h: encrypt_msg of m[..mlen] into c, then
      process_trailer and output_tag into c from mlen on. */
  method EncryptThenTag(st: State, c: array<Byte>, m: array<Byte>, mlen: nat, t: seq<Byte>, tlen: nat,
                        ghost k: seq<Byte>, ghost n: seq<Byte>, ghost h: seq<Byte>)
    requires st.Valid() && mlen <= m.Length && mlen <= c.Length && tlen <= |t|
    requires |k| >= KeyBytes && |n| >= NonceBytes && st.s[..] == Headed(k, n, h)
    modifies st.s, c
    ensures c[..] == Splice(old(c[..]), 0, SealOutput(k, n, h, old(m[..mlen]), t[..tlen], c.Length - mlen))
  {
    ghost var o, x := c[..], m[..mlen];
    EncryptMsg(st, c, m, mlen);
    ghost var c1 := c[..];
    Squeeze(st, t, tlen, c, mlen);
    SealOutputSpliced(k, n, h, x, t[..tlen], c.Length - mlen, o, c1, c[..]);
  }

  /** AEAD_encrypt: c receives the ciphertext of m[..mlen] and, from
      c[mlen] on, the tag (Go's copy writes up to 80 bytes there); the
      returned length is mlen + 32. m and c may be the same buffer. */
  method AeadEncrypt(c: array<Byte>, h: seq<Byte>, hlen: nat, m: array<Byte>, mlen: nat,
                     t: seq<Byte>, tlen: nat, nonce: seq<Byte>, key: seq<Byte>) returns (clen: nat)
    requires hlen <= |h| && tlen <= |t| && mlen <= m.Length && mlen <= c.Length
    requires |key| >= KeyBytes && |nonce| >= NonceBytes
    modifies c
    ensures clen == mlen + TagBytes
    ensures c[..] == Splice(old(c[..]), 0, SealOutput(key, nonce, h[..hlen], old(m[..mlen]), t[..tlen], c.Length - mlen))
    ensures clen <= c.Length ==> c[..clen] == Seal(key, nonce, h[..hlen], old(m[..mlen]), t[..tlen])
  {
    ghost var x, o := m[..mlen], c[..];
    var st := new State();
    Absorb(st, key, nonce, h, hlen);
    EncryptThenTag(st, c, m, mlen, t, tlen, key, nonce, h[..hlen]);
    ghost var so := SealOutput(key, nonce, h[..hlen], x, t[..tlen], c.Length - mlen);
    ghost var out := c[..];
    assert out == Splice(o, 0, so);
    clen := mlen + TagBytes;
    if clen <= c.Length {
      SealOutputHoldsSeal(key, nonce, h[..hlen], x, t[..tlen], c.Length - mlen);
      SpliceTake(o, so, clen);
    }
    Burn64(st.s, StateWords);
    assert c[..] == out;
  }

  /** The first 32 bytes squeezed into a buffer of at least 80 bytes are
      the tag. */
  lemma SqueezedTag(b: seq<Byte>, o: seq<Byte>, sq: seq<Byte>)
    requires |sq| == RateBytes && |o| >= RateBytes
    requires b == Splice(o, 0, sq[..Min(RateBytes, |o|)])
    ensures b[..TagBytes] == sq[..TagBytes]
  {
    SpliceTake(o, sq[..RateBytes], TagBytes);
    assert sq[..RateBytes][..TagBytes] == sq[..TagBytes];
  }

  /** process_trailer, then output_tag into a buffer of at least 80 bytes,
      whose first 32 bytes are then the tag. */
  method TagInto(st: State, t: seq<Byte>, tlen: nat, tag: array<Byte>)
    requires st.Valid() && tlen <= |t| && tag.Length >= RateBytes
    modifies st.s, tag
    ensures tag[..TagBytes] == TagOf(Trailed(old(st.s[..]), t[..tlen]))
  {
    ghost var o := tag[..];
    ghost var s3 := st.s[..];
    Squeeze(st, t, tlen, tag, 0);
    SqueezedTag(tag[..], o, Squeezed(Trailed(s3, t[..tlen])));
  }

  /** The middle of AEAD_decrypt: decrypt_msg of c[..L] into m, then
      process_trailer and output_tag into tag. c[L..clen), the received
      tag, is left as it was even when m and c are the same buffer. */
  method DecryptThenTag(st: State, m: array<Byte>, c: array<Byte>, L: nat, clen: nat,
                        t: seq<Byte>, tlen: nat, tag: array<Byte>)
    requires st.Valid() && L <= clen <= c.Length && L <= m.Length && tlen <= |t|
    requires tag.Length >= RateBytes && tag != m && tag != c
    modifies st.s, m, tag
    ensures m[..] == Splice(old(m[..]), 0, Decrypted(old(st.s[..]), old(c[..L])).1)
    ensures c[L..clen] == old(c[L..clen])
    ensures tag[..TagBytes] == TagOf(Trailed(Decrypted(old(st.s[..]), old(c[..L])).0, t[..tlen]))
  {
    ghost var o := m[..];
    DecryptMsg(st, m, c, L);
    ghost var d := Decrypted(old(st.s[..]), old(c[..L]));
    assert c[L..clen] == old(c[L..clen]) by {
      if m == c {
        SpliceOutside(o, 0, d.1, L, clen);
      }
    }
    TagInto(st, t, tlen, tag);
  }

  /** AEAD_decrypt from the state process_header left for key k, nonce n
      and header h, for a ciphertext of clen = L + 32 bytes: decrypts
      c[..L] into m, recomputes the tag into a fresh NORX_A-byte buffer
      and compares it with c[L..clen]. The result is Open's verdict, m
      holds the opened message when it is 0, and m is not written past L. */
  method DecryptAndVerify(st: State, m: array<Byte>, c: array<Byte>, L: nat, clen: nat, t: seq<Byte>, tlen: nat,
                          ghost k: seq<Byte>, ghost n: seq<Byte>, ghost h: seq<Byte>)
    returns (result: int)
    requires st.Valid() && L + TagBytes == clen <= c.Length && L <= m.Length && tlen <= |t|
    requires |k| >= KeyBytes && |n| >= NonceBytes && st.s[..] == Headed(k, n, h)
    modifies st.s, m
    ensures result == (if Open(k, n, h, old(c[..clen]), t[..tlen]).Some? then 0 else -1)
    ensures result == 0 ==> m[..] == Splice(old(m[..]), 0, Open(k, n, h, old(c[..clen]), t[..tlen]).value)
    ensures m[L..] == old(m[L..])
  {
    ghost var cc, o, s2 := c[..clen], m[..], st.s[..];
    var tag := new Byte[NorxA](_ => 0);
    assert c[..L] == cc[..L];
    DecryptThenTag(st, m, c, L, clen, t, tlen, tag);
    ghost var d := Decrypted(s2, cc[..L]);
    SpliceOutside(o, 0, d.1, L, |o|);
    result := VerifyTag(c[L..], tag[..]);
    assert c[L..][..TagBytes] == cc[L..];
    OpenBy(k, n, h, cc, t[..tlen], s2, Trailed(d.0, t[..tlen]));
  }

  /** AEAD_decrypt: -1 and nothing written when clen < 32. Otherwise m
      receives the plaintext of c[..clen-32], mlen is clen - 32, and the
      result is verify_tag's: 0 when c[clen-32..clen] is the recomputed
      tag, in which case m holds the plaintext, and -1 otherwise, in which
      case m[..clen-32] is zeroed. m and c may be the same buffer. */
  method AeadDecrypt(m: array<Byte>, h: seq<Byte>, hlen: nat, c: array<Byte>, clen: nat,
                     t: seq<Byte>, tlen: nat, nonce: seq<Byte>, key: seq<Byte>)
    returns (result: int, mlen: Option<nat>)
    requires clen >= TagBytes ==> clen <= c.Length
    requires clen >= TagBytes ==> clen - TagBytes <= m.Length && hlen <= |h| && tlen <= |t|
    requires clen >= TagBytes ==> |key| >= KeyBytes && |nonce| >= NonceBytes
    modifies m
    ensures clen < TagBytes ==> result == -1 && mlen == None && m[..] == old(m[..])
    ensures clen >= TagBytes ==> mlen == Some(clen - TagBytes)
    ensures clen >= TagBytes ==>
      result == (if Open(key, nonce, h[..hlen], old(c[..clen]), t[..tlen]).Some? then 0 else -1)
    ensures clen >= TagBytes && result == 0 ==>
      m[..] == Splice(old(m[..]), 0, Open(key, nonce, h[..hlen], old(c[..clen]), t[..tlen]).value)
    ensures clen >= TagBytes && result != 0 ==>
      (forall j :: 0 <= j < clen - TagBytes ==> m[j] == 0) && m[clen - TagBytes..] == old(m[clen - TagBytes..])
  {
    if clen < TagBytes {
      return -1, None;
    }
    var L := clen - TagBytes;
    ghost var cc, o := c[..clen], m[..];
    result := -1;
    var st := new State();
    Absorb(st, key, nonce, h, hlen);
    mlen := Some(L);
    result := DecryptAndVerify(st, m, c, L, clen, t, tlen, key, nonce, h[..hlen]);
    if result != 0 {
      Burn8(m, L);
    }
    ghost var out := m[..];
    Burn64(st.s, StateWords);
    assert m[..] == out;
  }

  /** The round trip of the repository's self-check (utils/check.go): the
      message buffer holds w, of which the first mlen bytes are the
      message; AEAD_encrypt writes into a buffer of mlen + room bytes
      (room >= 32, and output_tag may spill past the tag into it), and
      AEAD_decrypt with the same key, nonce, header and trailer writes
      into a fresh buffer of dlen >= mlen bytes. The result is 0 and the
      first mlen decrypted bytes are the message. */
  method EncryptThenDecrypt(w: seq<Byte>, mlen: nat, room: nat, dlen: nat, h: seq<Byte>, hlen: nat,
                            t: seq<Byte>, tlen: nat, nonce: seq<Byte>, key: seq<Byte>)
    returns (result: int, plain: seq<Byte>)
    requires mlen <= |w| && mlen <= dlen && room >= TagBytes
    requires hlen <= |h| && tlen <= |t| && |key| >= KeyBytes && |nonce| >= NonceBytes
    ensures result == 0 && plain == w[..mlen]
  {
    var m := new Byte[|w|](i requires 0 <= i < |w| => w[i]);
    var c := new Byte[mlen + room](_ => 0);
    assert m[..mlen] == w[..mlen];
    var clen := AeadEncrypt(c, h, hlen, m, mlen, t, tlen, nonce, key);
    ghost var sealed := c[..clen];
    assert sealed == Seal(key, nonce, h[..hlen], w[..mlen], t[..tlen]);
    OpenSeal(key, nonce, h[..hlen], w[..mlen], t[..tlen]);
    var m2 := new Byte[dlen](_ => 0);
    ghost var z := m2[..];
    var outlen;
    result, outlen := AeadDecrypt(m2, h, hlen, c, clen, t, tlen, nonce, key);
    SpliceTake(z, w[..mlen], mlen);
    plain := m2[..outlen.value];
  }
}

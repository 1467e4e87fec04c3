/** The length-driven drivers of NORX (aead/norx.go): process_header and
    process_trailer absorb a byte string, encrypt_msg and decrypt_msg run a
    message through the payload blocks. Each splits its input into 80-byte
    blocks and always ends with one padded block of fewer than 80 bytes
    (possibly empty) when the input is not empty. */
module NorxDrivers {
  import opened Utils
  import opened NorxPermutation
  import opened NorxSponge
  import opened NorxLastBlock

  // ---------------------------------------------------------------------
  // Absorbing header and trailer

  /** The loop of process_header / process_trailer on a non-empty input:
      full blocks with tag full while 80 or more bytes are left, then the
      padded rest with tag last. */
  function AbsorbBlocks(s: seq<Word>, x: seq<Byte>, full: Word, last: Word): (r: seq<Word>)
    requires |s| == StateWords
    ensures |r| == StateWords
    decreases |x|
  {
    if |x| < RateBytes then Absorbed(s, Padded(x), last)
    else AbsorbBlocks(Absorbed(s, x[..RateBytes], full), x[RateBytes..], full, last)
  }

  /** process_header (full = last = HEADER_TAG) and process_trailer
      (full = TRAILER_TAG, last = HEADER_TAG): nothing for an empty input. */
  function Processed(s: seq<Word>, x: seq<Byte>, full: Word, last: Word): (r: seq<Word>)
    requires |s| == StateWords
    ensures |r| == StateWords
  {
    if |x| == 0 then s else AbsorbBlocks(s, x, full, last)
  }

  /** The full blocks of b absorbed with tag full, one after the other,
      while 80 or more bytes are left. */
  function FullBlocks(s: seq<Word>, b: seq<Byte>, full: Word): (r: seq<Word>)
    requires |s| == StateWords
    ensures |r| == StateWords
    decreases |b|
  {
    if |b| < RateBytes then s
    else FullBlocks(Absorbed(s, b[..RateBytes], full), b[RateBytes..], full)
  }

  /** The bytes left over for the padded last block: x minus its leading
      full blocks. */
  function Leftover(x: seq<Byte>): (r: seq<Byte>)
    ensures |r| < RateBytes && |r| <= |x| && r == x[|x| - |r|..]
    decreases |x|
  {
    if |x| < RateBytes then x else Leftover(x[RateBytes..])
  }

  /** A non-empty input is absorbed as its full blocks followed by one
      padded block of the bytes left over; when none are left over that
      padded block is still absorbed. */
  lemma {:induction false} AbsorbBlocksSplit(s: seq<Word>, x: seq<Byte>, full: Word, last: Word)
    requires |s| == StateWords
    ensures AbsorbBlocks(s, x, full, last) == Absorbed(FullBlocks(s, x, full), Padded(Leftover(x)), last)
    decreases |x|
  {
    if |x| >= RateBytes {
      AbsorbBlocksSplit(Absorbed(s, x[..RateBytes], full), x[RateBytes..], full, last);
    }
  }

  /** The number of full blocks the loop takes before the padded one. */
  function BlockCount(x: seq<Byte>): nat
    decreases |x|
  {
    if |x| < RateBytes then 0 else 1 + BlockCount(x[RateBytes..])
  }

  /** The input is its full blocks followed by the bytes left over. */
  lemma {:induction false} LeftoverAfterBlocks(x: seq<Byte>)
    ensures |x| == 80 * BlockCount(x) + |Leftover(x)|
    decreases |x|
  {
    if |x| >= RateBytes {
      LeftoverAfterBlocks(x[RateBytes..]);
    }
  }

  lemma DivModUnique(n: int, q: int, r: int)
    requires n == 80 * q + r && 0 <= r < 80
    ensures q == n / 80 && r == n % 80
  {
  }

  /** The loop takes inlen / 80 full blocks and pads the inlen mod 80 bytes
      left over; an input that is a multiple of 80 long ends with the padded
      empty block. */
  lemma LeftoverSize(x: seq<Byte>)
    ensures BlockCount(x) == |x| / 80 && |Leftover(x)| == |x| % 80
  {
    LeftoverAfterBlocks(x);
    DivModUnique(|x|, BlockCount(x), |Leftover(x)|);
  }

  // ---------------------------------------------------------------------
  // Encrypting and decrypting a message

  /** The loop of encrypt_msg on a non-empty message: the state it ends in
      and the ciphertext it writes, block after block. */
  function EncBlocks(s: seq<Word>, m: seq<Byte>): (r: (seq<Word>, seq<Byte>))
    requires |s| == StateWords
    ensures |r.0| == StateWords && |r.1| == |m|
    decreases |m|
  {
    if |m| < RateBytes then (LastAbsorbed(s, m), LastCipher(s, m))
    else
      var r := EncBlocks(Absorbed(s, m[..RateBytes], PayloadTag), m[RateBytes..]);
      (r.0, KeyedBlock(s, m[..RateBytes]) + r.1)
  }

  /** encrypt_msg: nothing for an empty message. */
  function Encrypted(s: seq<Word>, m: seq<Byte>): (r: (seq<Word>, seq<Byte>))
    requires |s| == StateWords
    ensures |r.0| == StateWords && |r.1| == |m|
  {
    if |m| == 0 then (s, []) else EncBlocks(s, m)
  }

  /** The loop of decrypt_msg on a non-empty ciphertext: the state it ends
      in and the plaintext it writes. */
  function DecBlocks(s: seq<Word>, c: seq<Byte>): (r: (seq<Word>, seq<Byte>))
    requires |s| == StateWords
    ensures |r.0| == StateWords && |r.1| == |c|
    decreases |c|
  {
    if |c| < RateBytes then (LastDecryptedState(s, c), LastPlain(s, c))
    else
      var r := DecBlocks(DecryptedState(s, c[..RateBytes]), c[RateBytes..]);
      (r.0, KeyedBlock(s, c[..RateBytes]) + r.1)
  }

  /** decrypt_msg: nothing for an empty ciphertext. */
  function Decrypted(s: seq<Word>, c: seq<Byte>): (r: (seq<Word>, seq<Byte>))
    requires |s| == StateWords
    ensures |r.0| == StateWords && |r.1| == |c|
  {
    if |c| == 0 then (s, []) else DecBlocks(s, c)
  }

  /** EncBlocks on a message of 80 bytes or more: the first block's
      ciphertext, then the rest from the state after that block. */
  lemma EncBlocksSplit(s: seq<Word>, m: seq<Byte>)
    requires |s| == StateWords && |m| >= RateBytes
    ensures EncBlocks(s, m).1[..RateBytes] == KeyedBlock(s, m[..RateBytes])
    ensures EncBlocks(s, m).1[RateBytes..] == EncBlocks(Absorbed(s, m[..RateBytes], PayloadTag), m[RateBytes..]).1
    ensures EncBlocks(s, m).0 == EncBlocks(Absorbed(s, m[..RateBytes], PayloadTag), m[RateBytes..]).0
  {
  }

  /** DecBlocks on a ciphertext of 80 bytes or more: the first block's
      plaintext, then the rest from the state after that block. */
  lemma DecBlocksSplit(s: seq<Word>, c: seq<Byte>)
    requires |s| == StateWords && |c| >= RateBytes
    ensures DecBlocks(s, c).1[..RateBytes] == KeyedBlock(s, c[..RateBytes])
    ensures DecBlocks(s, c).1[RateBytes..] == DecBlocks(DecryptedState(s, c[..RateBytes]), c[RateBytes..]).1
    ensures DecBlocks(s, c).0 == DecBlocks(DecryptedState(s, c[..RateBytes]), c[RateBytes..]).0
  {
  }

  /** Decrypting what encrypt_msg wrote, from the same state, gives back the
      message and ends in the state encryption ended in. */
  lemma {:induction false} DecryptEncryptedBlocks(s: seq<Word>, m: seq<Byte>)
    requires |s| == StateWords
    ensures DecBlocks(s, EncBlocks(s, m).1) == (EncBlocks(s, m).0, m)
    decreases |m|
  {
    if |m| < RateBytes {
      DecryptEncryptedLast(s, m);
    } else {
      var b, rest := m[..RateBytes], m[RateBytes..];
      var c := EncBlocks(s, m).1;
      EncBlocksSplit(s, m);
      DecBlocksSplit(s, c);
      DecryptEncryptedBlock(s, b);
      DecryptEncryptedBlocks(Absorbed(s, b, PayloadTag), rest);
      assert DecBlocks(s, c).1 == b + rest;
      assert m == b + rest;
    }
  }

  /** Encrypting what decrypt_msg wrote, from the same state, gives back the
      ciphertext and ends in the state decryption ended in. */
  lemma {:induction false} EncryptDecryptedBlocks(s: seq<Word>, c: seq<Byte>)
    requires |s| == StateWords
    ensures EncBlocks(s, DecBlocks(s, c).1) == (DecBlocks(s, c).0, c)
    decreases |c|
  {
    if |c| < RateBytes {
      EncryptDecryptedLast(s, c);
    } else {
      var b, rest := c[..RateBytes], c[RateBytes..];
      var m := DecBlocks(s, c).1;
      DecBlocksSplit(s, c);
      EncBlocksSplit(s, m);
      EncryptDecryptedBlock(s, b);
      EncryptDecryptedBlocks(DecryptedState(s, b), rest);
      assert EncBlocks(s, m).1 == b + rest;
      assert c == b + rest;
    }
  }

  /** encrypt_msg and decrypt_msg invert each other and end in the same
      state, empty messages included. */
  lemma MessageRoundTrip(s: seq<Word>, m: seq<Byte>, c: seq<Byte>)
    requires |s| == StateWords
    ensures Decrypted(s, Encrypted(s, m).1) == (Encrypted(s, m).0, m)
    ensures Encrypted(s, Decrypted(s, c).1) == (Decrypted(s, c).0, c)
  {
    if m != [] {
      DecryptEncryptedBlocks(s, m);
    }
    if c != [] {
      EncryptDecryptedBlocks(s, c);
    }
  }

  // ---------------------------------------------------------------------
  // The drivers, in place on the state

  /** The padded last block of process_header / process_trailer: the
      rest of the input copied into a zeroed 80-byte buffer and padded,
      absorbed with tag last, and the buffer burnt. */
  method AbsorbLast(st: State, inp: seq<Byte>, off: nat, rest: nat, last: Word)
    requires st.Valid() && rest < RateBytes && off + rest <= |inp|
    modifies st.s
    ensures st.s[..] == Absorbed(old(st.s[..]), Padded(inp[off..off + rest]), last)
  {
    var lastblock := new Byte[RateBytes](_ => 0);
    assert lastblock[..] == Zeros(RateBytes);
    Pad(lastblock, inp[off..], rest);
    assert inp[off..][..rest] == inp[off..off + rest];
    AbsorbBlock(st, lastblock[..], last);
    Burn8(lastblock, RateBytes);
  }

  /** The block at off of the first n bytes of a, and what follows it. */
  lemma NextBlock(a: seq<Byte>, n: nat, off: nat)
    requires off + RateBytes <= n <= |a|
    ensures a[..n][off..][..RateBytes] == a[off..off + RateBytes]
    ensures a[..n][off..][RateBytes..] == a[..n][off + RateBytes..]
  {
  }

  /** The loop of process_header / process_trailer: full blocks with tag
      full while 80 or more bytes are left; returns where the left-over
      bytes start. */
  method AbsorbFullBlocks(st: State, inp: seq<Byte>, inlen: nat, full: Word) returns (off: nat)
    requires st.Valid() && inlen <= |inp|
    modifies st.s
    ensures st.s[..] == FullBlocks(old(st.s[..]), inp[..inlen], full)
    ensures off <= inlen && inp[off..inlen] == Leftover(inp[..inlen])
  {
    ghost var x := inp[..inlen];
    off := 0;
    var rest: nat := inlen;
    while rest >= RateBytes
      invariant off + rest == inlen
      invariant FullBlocks(st.s[..], x[off..], full) == FullBlocks(old(st.s[..]), x, full)
      invariant Leftover(x[off..]) == Leftover(x)
    {
      NextBlock(inp, inlen, off);
      AbsorbBlock(st, inp[off..off + RateBytes], full);
      off, rest := off + RateBytes, rest - RateBytes;
    }
    assert x[off..] == inp[off..inlen];
  }

  /** The shared body of process_header and process_trailer: nothing when
      inlen is 0; otherwise the full blocks, then the left-over bytes
      padded and absorbed with tag last. */
  method AbsorbInput(st: State, inp: seq<Byte>, inlen: nat, full: Word, last: Word)
    requires st.Valid() && inlen <= |inp|
    modifies st.s
    ensures st.s[..] == Processed(old(st.s[..]), inp[..inlen], full, last)
  {
    if inlen > 0 {
      ghost var s0 := st.s[..];
      var off := AbsorbFullBlocks(st, inp, inlen, full);
      AbsorbLast(st, inp, off, inlen - off, last);
      AbsorbBlocksSplit(s0, inp[..inlen], full, last);
    }
  }

  /** process_header: the header, with HEADER_TAG on every block. */
  method ProcessHeader(st: State, inp: seq<Byte>, inlen: nat)
    requires st.Valid() && inlen <= |inp|
    modifies st.s
    ensures st.s[..] == Processed(old(st.s[..]), inp[..inlen], HeaderTag, HeaderTag)
  {
    AbsorbInput(st, inp, inlen, HeaderTag, HeaderTag);
  }

  /** process_trailer: the trailer, with TRAILER_TAG on the full blocks and
      HEADER_TAG on the padded last block, as the code does. */
  method ProcessTrailer(st: State, inp: seq<Byte>, inlen: nat)
    requires st.Valid() && inlen <= |inp|
    modifies st.s
    ensures st.s[..] == Processed(old(st.s[..]), inp[..inlen], TrailerTag, HeaderTag)
  {
    AbsorbInput(st, inp, inlen, TrailerTag, HeaderTag);
  }

  // ---------------------------------------------------------------------
  // encrypt_msg and decrypt_msg, in place on the state and the buffers

  /** One turn of encrypt_msg's loop at offset off of x, for the
      remaining-work invariant: with (F, C[off..]) still to be produced
      from t, the block at off encrypts to C[off..off + 80] and the rest is
      produced from the state after that block. */
  lemma EncStep(t: seq<Word>, x: seq<Byte>, off: nat, F: seq<Word>, C: seq<Byte>)
    requires |t| == StateWords && off + RateBytes <= |x| && |C| == |x|
    requires EncBlocks(t, x[off..]) == (F, C[off..])
    ensures C[off..off + RateBytes] == KeyedBlock(t, x[off..off + RateBytes])
    ensures EncBlocks(Absorbed(t, x[off..off + RateBytes], PayloadTag), x[off + RateBytes..]) == (F, C[off + RateBytes..])
  {
    TakeOfDrop(x, off, RateBytes);
    DropOfDrop(x, off, RateBytes);
    EncBlocksSplit(t, x[off..]);
    TakeOfDrop(C, off, RateBytes);
    DropOfDrop(C, off, RateBytes);
  }

  /** One turn of decrypt_msg's loop, as EncStep. */
  lemma DecStep(t: seq<Word>, x: seq<Byte>, off: nat, F: seq<Word>, M: seq<Byte>)
    requires |t| == StateWords && off + RateBytes <= |x| && |M| == |x|
    requires DecBlocks(t, x[off..]) == (F, M[off..])
    ensures M[off..off + RateBytes] == KeyedBlock(t, x[off..off + RateBytes])
    ensures DecBlocks(DecryptedState(t, x[off..off + RateBytes]), x[off + RateBytes..]) == (F, M[off + RateBytes..])
  {
    TakeOfDrop(x, off, RateBytes);
    DropOfDrop(x, off, RateBytes);
    DecBlocksSplit(t, x[off..]);
    TakeOfDrop(M, off, RateBytes);
    DropOfDrop(M, off, RateBytes);
  }

  /** The last block of encrypt_msg: the rest bytes at off padded in a
      fresh zero buffer, encrypted in place there, the first rest bytes
      copied to out at off, and the buffer burnt. out and inp may be the
      same buffer. */
  method EncryptLast(st: State, out: array<Byte>, inp: array<Byte>, off: nat, rest: nat)
    requires st.Valid() && rest < RateBytes && off + rest <= out.Length && off + rest <= inp.Length
    modifies st.s, out
    ensures st.s[..] == LastAbsorbed(old(st.s[..]), old(inp[off..off + rest]))
    ensures out[..] == Splice(old(out[..]), off, LastCipher(old(st.s[..]), old(inp[off..off + rest])))
  {
    ghost var s0, y := st.s[..], inp[off..off + rest];
    assert |y| == rest;
    var lastblock := new Byte[RateBytes](_ => 0);
    assert lastblock[..] == Zeros(RateBytes);
    Pad(lastblock, inp[off..], rest);
    TakeOfDrop(inp[..], off, rest);
    ghost var pb := Padded(y);
    assert lastblock[..] == pb;
    assert lastblock[0..RateBytes] == pb;
    EncryptBlock(st, lastblock, 0, lastblock, 0);
    ghost var cb := KeyedBlock(s0, pb);
    SpliceWhole(pb, cb);
    assert lastblock[..] == cb;
    CopyInto(out, off, lastblock, rest);
    assert cb[..rest] == LastCipher(s0, y);
    Burn8(lastblock, RateBytes);
  }

  /** One turn of the loop of encrypt_msg: encrypts the block at off in
      place of the same offsets of out, extending the ciphertext written so far
      by one block and leaving the rest of the input unread. */
  method EncryptNext(st: State, out: array<Byte>, inp: array<Byte>, off: nat, inlen: nat,
                    ghost x: seq<Byte>, ghost o: seq<Byte>, ghost F: seq<Word>, ghost C: seq<Byte>)
    requires st.Valid() && off + RateBytes <= inlen <= out.Length && inlen <= inp.Length
    requires |x| == inlen && |C| == inlen && |o| == out.Length
    requires inp[off..inlen] == x[off..]
    requires out[..] == Splice(o, 0, C[..off])
    requires EncBlocks(st.s[..], x[off..]) == (F, C[off..])
    modifies st.s, out
    ensures inp[off + RateBytes..inlen] == x[off + RateBytes..]
    ensures out[..] == Splice(o, 0, C[..off + RateBytes])
    ensures EncBlocks(st.s[..], x[off + RateBytes..]) == (F, C[off + RateBytes..])
  {
    ghost var t, o1 := st.s[..], out[..];
    EncStep(t, x, off, F, C);
    SuffixPrefix(inp[..], x, off, inlen, RateBytes);
    EncryptBlock(st, out, off, inp, off);
    ghost var o2 := out[..];
    assert o2 == Splice(o1, off, C[off..off + RateBytes]);
    SplicePrefix(o, 0, C, off, off + RateBytes);
    if inp == out {
      SpliceOutside(o1, off, C[off..off + RateBytes], off + RateBytes, inlen);
    }
  }

  /** The loop of encrypt_msg: encrypts the full blocks from inp into out at the
      same offsets while 80 or more bytes are left; returns where the last
      block starts. What is still to do from there, EncBlocks of the
      rest, ends in the same state and writes the rest of the ciphertext. */
  method EncryptFullBlocks(st: State, out: array<Byte>, inp: array<Byte>, inlen: nat) returns (off: nat)
    requires st.Valid() && 0 < inlen <= out.Length && inlen <= inp.Length
    modifies st.s, out
    ensures off <= inlen < off + RateBytes
    ensures inp[off..inlen] == old(inp[..inlen])[off..]
    ensures out[..] == Splice(old(out[..]), 0, EncBlocks(old(st.s[..]), old(inp[..inlen])).1[..off])
    ensures EncBlocks(st.s[..], old(inp[..inlen])[off..])
         == (EncBlocks(old(st.s[..]), old(inp[..inlen])).0, EncBlocks(old(st.s[..]), old(inp[..inlen])).1[off..])
  {
    ghost var s0, x, o := st.s[..], inp[..inlen], out[..];
    ghost var F, C := EncBlocks(s0, x).0, EncBlocks(s0, x).1;
    off := 0;
    var rest: nat := inlen;
    while rest >= RateBytes
      invariant off + rest == inlen
      invariant inp[off..inlen] == x[off..]
      invariant out[..] == Splice(o, 0, C[..off])
      invariant EncBlocks(st.s[..], x[off..]) == (F, C[off..])
    {
      EncryptNext(st, out, inp, off, inlen, x, o, F, C);
      off, rest := off + RateBytes, rest - RateBytes;
    }
  }

  /** One turn of the loop of decrypt_msg: decrypts the block at off in
      place of the same offsets of out, extending the plaintext written so far
      by one block and leaving the rest of the input unread. */
  method DecryptNext(st: State, out: array<Byte>, inp: array<Byte>, off: nat, inlen: nat,
                    ghost x: seq<Byte>, ghost o: seq<Byte>, ghost F: seq<Word>, ghost C: seq<Byte>)
    requires st.Valid() && off + RateBytes <= inlen <= out.Length && inlen <= inp.Length
    requires |x| == inlen && |C| == inlen && |o| == out.Length
    requires inp[off..inlen] == x[off..]
    requires out[..] == Splice(o, 0, C[..off])
    requires DecBlocks(st.s[..], x[off..]) == (F, C[off..])
    modifies st.s, out
    ensures inp[off + RateBytes..inlen] == x[off + RateBytes..]
    ensures out[..] == Splice(o, 0, C[..off + RateBytes])
    ensures DecBlocks(st.s[..], x[off + RateBytes..]) == (F, C[off + RateBytes..])
  {
    ghost var t, o1 := st.s[..], out[..];
    DecStep(t, x, off, F, C);
    SuffixPrefix(inp[..], x, off, inlen, RateBytes);
    DecryptBlock(st, out, off, inp, off);
    ghost var o2 := out[..];
    assert o2 == Splice(o1, off, C[off..off + RateBytes]);
    SplicePrefix(o, 0, C, off, off + RateBytes);
    if inp == out {
      SpliceOutside(o1, off, C[off..off + RateBytes], off + RateBytes, inlen);
    }
  }

  /** The loop of decrypt_msg: decrypts the full blocks from inp into out at the
      same offsets while 80 or more bytes are left; returns where the last
      block starts. What is still to do from there, DecBlocks of the
      rest, ends in the same state and writes the rest of the plaintext. */
  method DecryptFullBlocks(st: State, out: array<Byte>, inp: array<Byte>, inlen: nat) returns (off: nat)
    requires st.Valid() && 0 < inlen <= out.Length && inlen <= inp.Length
    modifies st.s, out
    ensures off <= inlen < off + RateBytes
    ensures inp[off..inlen] == old(inp[..inlen])[off..]
    ensures out[..] == Splice(old(out[..]), 0, DecBlocks(old(st.s[..]), old(inp[..inlen])).1[..off])
    ensures DecBlocks(st.s[..], old(inp[..inlen])[off..])
         == (DecBlocks(old(st.s[..]), old(inp[..inlen])).0, DecBlocks(old(st.s[..]), old(inp[..inlen])).1[off..])
  {
    ghost var s0, x, o := st.s[..], inp[..inlen], out[..];
    ghost var F, C := DecBlocks(s0, x).0, DecBlocks(s0, x).1;
    off := 0;
    var rest: nat := inlen;
    while rest >= RateBytes
      invariant off + rest == inlen
      invariant inp[off..inlen] == x[off..]
      invariant out[..] == Splice(o, 0, C[..off])
      invariant DecBlocks(st.s[..], x[off..]) == (F, C[off..])
    {
      DecryptNext(st, out, inp, off, inlen, x, o, F, C);
      off, rest := off + RateBytes, rest - RateBytes;
    }
  }

  /** encrypt_msg: nothing for an empty message; otherwise the full
      blocks, then the padded last block. out and inp may be the same
      buffer. */
  method EncryptMsg(st: State, out: array<Byte>, inp: array<Byte>, inlen: nat)
    requires st.Valid() && inlen <= out.Length && inlen <= inp.Length
    modifies st.s, out
    ensures st.s[..] == Encrypted(old(st.s[..]), old(inp[..inlen])).0
    ensures out[..] == Splice(old(out[..]), 0, Encrypted(old(st.s[..]), old(inp[..inlen])).1)
  {
    if inlen > 0 {
      ghost var s0, x, o := st.s[..], inp[..inlen], out[..];
      ghost var C := EncBlocks(s0, x).1;
      var off := EncryptFullBlocks(st, out, inp, inlen);
      assert inp[off..off + (inlen - off)] == x[off..];
      EncryptLast(st, out, inp, off, inlen - off);
      SplicePrefix(o, 0, C, off, inlen);
      assert C[..inlen] == C;
    } else {
      assert out[..] == Splice(out[..], 0, []);
    }
  }

  /** decrypt_msg: nothing for an empty ciphertext; otherwise the full
      blocks, then the last block of fewer than 80 bytes by
      decrypt_lastblock. out and inp may be the same buffer. */
  method DecryptMsg(st: State, out: array<Byte>, inp: array<Byte>, inlen: nat)
    requires st.Valid() && inlen <= out.Length && inlen <= inp.Length
    modifies st.s, out
    ensures st.s[..] == Decrypted(old(st.s[..]), old(inp[..inlen])).0
    ensures out[..] == Splice(old(out[..]), 0, Decrypted(old(st.s[..]), old(inp[..inlen])).1)
  {
    if inlen > 0 {
      ghost var s0, x, o := st.s[..], inp[..inlen], out[..];
      ghost var M := DecBlocks(s0, x).1;
      var off := DecryptFullBlocks(st, out, inp, inlen);
      assert inp[off..off + (inlen - off)] == x[off..];
      DecryptLastBlock(st, out, off, inp, off, inlen - off);
      SplicePrefix(o, 0, M, off, inlen);
      assert M[..inlen] == M;
    } else {
      assert out[..] == Splice(out[..], 0, []);
    }
  }
}

/** The padded last block of NORX (aead/norx.go): the padding rule `pad`,
    and `decrypt_lastblock`, which decrypts a final block of fewer than 80
    bytes by undoing the padding inside the key stream. */
module NorxLastBlock {
  import opened Utils
  import opened NorxPermutation
  import opened NorxSponge

  // ---------------------------------------------------------------------
  // Padding

  /** n zero bytes: a buffer fresh from make. */
  function Zeros(n: nat): (z: seq<Byte>)
    ensures |z| == n && forall j :: 0 <= j < n ==> z[j] == 0
  {
    seq(n, _ => 0)
  }

  /** pad applied to the 80-byte block o: x is copied to the front, the
      byte after it becomes 0x01, then the top bit of the last byte is set. */
  function PadInto(o: seq<Byte>, x: seq<Byte>): (r: seq<Byte>)
    requires |o| == RateBytes && |x| < RateBytes
    ensures |r| == RateBytes
  {
    var t := x + [0x01] + o[|x| + 1..];
    t[RateBytes - 1 := t[RateBytes - 1] | 0x80]
  }

  /** The padded block of x, built on a fresh zero buffer as every caller
      of pad does. */
  function Padded(x: seq<Byte>): (r: seq<Byte>)
    requires |x| < RateBytes
    ensures |r| == RateBytes
  {
    PadInto(Zeros(RateBytes), x)
  }

  /** The layout of a padded block: x, then 0x01, then zeros, with the top
      bit of byte 79 set (so byte 79 is 0x81 when x has 79 bytes). */
  lemma PaddedBytes(x: seq<Byte>)
    requires |x| < RateBytes
    ensures forall j :: 0 <= j < |x| ==> Padded(x)[j] == x[j]
    ensures |x| < RateBytes - 1 ==> Padded(x)[|x|] == 0x01
    ensures forall j :: |x| < j < RateBytes - 1 ==> Padded(x)[j] == 0
    ensures Padded(x)[RateBytes - 1] == if |x| == RateBytes - 1 then 0x81 else 0x80
  {
  }

  /** A shorter input leaves a different byte at the position where a
      longer input puts its 0x01. */
  lemma PaddedDiffers(x: seq<Byte>, y: seq<Byte>)
    requires |x| < |y| < RateBytes
    ensures Padded(x)[|y|] != Padded(y)[|y|]
  {
    PaddedBytes(x);
    PaddedBytes(y);
  }

  /** Different inputs (in length or in content) give different padded
      blocks. */
  lemma PaddedInjective(x: seq<Byte>, y: seq<Byte>)
    requires |x| < RateBytes && |y| < RateBytes
    requires Padded(x) == Padded(y)
    ensures x == y
  {
    if |x| < |y| {
      PaddedDiffers(x, y);
      assert false;
    } else if |y| < |x| {
      PaddedDiffers(y, x);
      assert false;
    } else {
      PaddedBytes(x);
      PaddedBytes(y);
      assert forall j :: 0 <= j < |x| ==> x[j] == Padded(x)[j] == y[j];
    }
  }

  /** pad: copies inp[0 .. inlen) to the front of out (Go's copy, made as
      one parallel assignment), writes 0x01 after it and sets the top bit of
      out[79]. */
  method Pad(out: array<Byte>, inp: seq<Byte>, inlen: nat)
    requires out.Length == RateBytes && inlen < RateBytes && inlen <= |inp|
    modifies out
    ensures out[..] == PadInto(old(out[..]), inp[..inlen])
  {
    forall j | 0 <= j < inlen {
      out[j] := inp[j];
    }
    out[inlen] := 0x01;
    out[RateBytes - 1] := out[RateBytes - 1] | 0x80;
  }

  /** The XOR of two bytes that are each 0x01 / 0x80 or zero. */
  lemma MixOf(x: Byte, y: Byte, c: bool, d: bool)
    requires x == (if c then 0x01 else 0) && y == (if d then 0x80 else 0)
    ensures x ^ y == if c && d then 0x81 else if c then 0x01 else if d then 0x80 else 0
  {
  }

  /** Byte j of the bytes padding adds after an input of L bytes: 0x01 at
      L and 0x80 at 79 (both, 0x81, when L is 79). */
  function MaskAt(L: nat, j: int): Byte
  {
    if j == L && j == RateBytes - 1 then 0x81
    else if j == L then 0x01
    else if j == RateBytes - 1 then 0x80
    else 0
  }

  /** The 80 bytes padding adds after an input of L bytes. */
  function PadMask(L: nat): (r: seq<Byte>)
    ensures |r| == RateBytes
    ensures forall j :: 0 <= j < RateBytes ==> r[j] == MaskAt(L, j)
  {
    seq(RateBytes, j => MaskAt(L, j))
  }

  /** A padded block is x, extended with zeros, XOR the padding mask. */
  lemma PaddedMask(x: seq<Byte>)
    requires |x| < RateBytes
    ensures Padded(x) == XorBytes(x + Zeros(RateBytes - |x|), PadMask(|x|))
  {
    var l, r := Padded(x), XorBytes(x + Zeros(RateBytes - |x|), PadMask(|x|));
    forall j | 0 <= j < RateBytes
      ensures l[j] == r[j]
    {
      PaddedBytes(x);
    }
  }

  // ---------------------------------------------------------------------
  // Undoing the padding in the key stream

  /** 0x01 << 8r, written out for each r < 8. */
  function UnitWord(r: nat): Word
    requires r < WordBytes
  {
    match r
    case 0 => 0x01
    case 1 => 0x100
    case 2 => 0x1_0000
    case 3 => 0x100_0000
    case 4 => 0x1_0000_0000
    case 5 => 0x100_0000_0000
    case 6 => 0x1_0000_0000_0000
    case 7 => 0x100_0000_0000_0000
  }

  /** UnitWord(r) is the word uint64(0x01) << (r * 8) of decrypt_lastblock. */
  lemma UnitWordShift(r: nat)
    requires r < WordBytes
    ensures UnitWord(r) == (0x01 as Word) << (r * 8)
  {
  }

  /** 0x80 << 56, the word that undoes the top bit of byte 79. */
  const TopWord: Word := 0x8000_0000_0000_0000

  /** TopWord is the word uint64(0x80) << ((BYTES64(RATE) - 1) % 8 * 8) of
      decrypt_lastblock. */
  lemma TopWordShift()
    ensures TopWord == (0x80 as Word) << ((RateBytes - 1) % 8 * 8)
  {
  }

  /** The unit word decrypt_lastblock XORs into rate word k: UnitWord(L mod 8)
      into word L / 8, zero into every other word. */
  function UnitAt(L: nat, k: nat): Word
    requires L < RateBytes
  {
    if k == L / 8 then UnitWord(L % 8) else 0
  }

  /** TopWord into word 9, zero into every other word. */
  function TopAt(k: nat): Word
  {
    if k == RateWords - 1 then TopWord else 0
  }

  /** Everything decrypt_lastblock XORs into rate word k to undo the
      padding of an L-byte block. */
  function MaskWord(L: nat, k: nat): Word
    requires L < RateBytes
  {
    Xor(UnitAt(L, k), TopAt(k))
  }

  /** The two XORs of decrypt_lastblock that undo the padding, applied to
      the prepared state p. */
  function UndoPad(p: seq<Word>, L: nat): (r: seq<Word>)
    requires |p| == StateWords && L < RateBytes
    ensures |r| == StateWords
  {
    var a := p[L / 8 := Xor(p[L / 8], UnitWord(L % 8))];
    a[RateWords - 1 := Xor(a[RateWords - 1], TopWord)]
  }

  /** UndoPad XORs MaskWord(L, k) into every rate word k and leaves the
      capacity alone. */
  lemma UndoPadWord(p: seq<Word>, L: nat, k: nat)
    requires |p| == StateWords && L < RateBytes && k < StateWords
    ensures UndoPad(p, L)[k] == if k < RateWords then Xor(p[k], MaskWord(L, k)) else p[k]
  {
    var w := L / 8;
    if k < RateWords {
      if k == w && k == RateWords - 1 {
        XorAssoc(p[k], UnitWord(L % 8), TopWord);
      } else if k == w {
        XorZero(UnitWord(L % 8));
      } else if k == RateWords - 1 {
        XorZero(TopWord);
      } else {
        XorZero(0);
        XorZero(p[k]);
      }
    }
  }

  /** Byte j of UnitWord(r): 0x01 at position r, zero elsewhere. */
  lemma UnitBytes(r: nat, j: nat)
    requires r < WordBytes && j < WordBytes
    ensures Bytes64(UnitWord(r))[j] == if j == r then 0x01 else 0
  {
    assert Bytes64(UnitWord(r))[j] == ByteOf(UnitWord(r), j);
  }

  /** Byte j of TopWord: 0x80 in the last position, zero elsewhere. */
  lemma TopBytes(j: nat)
    requires j < WordBytes
    ensures Bytes64(TopWord)[j] == if j == WordBytes - 1 then 0x80 else 0
  {
    assert Bytes64(TopWord)[j] == ByteOf(TopWord, j);
  }

  /** Byte j of the zero word. */
  lemma ZeroBytes(j: nat)
    requires j < WordBytes
    ensures Bytes64(0)[j] == 0
  {
    assert Bytes64(0)[j] == ByteOf(0, j);
  }

  /** Byte i of the padding mask. */
  lemma PadMaskAt(L: nat, i: nat)
    requires i < RateBytes
    ensures PadMask(L)[i] == MaskAt(L, i)
  {
  }

  /** Byte j of UnitAt(L, k) is 0x01 exactly at position 8k + j == L. */
  lemma UnitAtByte(L: nat, k: nat, j: nat)
    requires L < RateBytes && j < WordBytes
    ensures Bytes64(UnitAt(L, k))[j] == if 8 * k + j == L then 0x01 else 0
  {
    if k == L / 8 {
      UnitBytes(L % 8, j);
    } else {
      ZeroBytes(j);
    }
  }

  /** Byte j of TopAt(k) is 0x80 exactly at position 8k + j == 79. */
  lemma TopAtByte(k: nat, j: nat)
    requires j < WordBytes
    ensures Bytes64(TopAt(k))[j] == if 8 * k + j == RateBytes - 1 then 0x80 else 0
  {
    if k == RateWords - 1 {
      TopBytes(j);
    } else {
      ZeroBytes(j);
    }
  }

  /** Byte j of Xor(a, b), when byte j of a is 0x01 or zero and byte j of
      b is 0x80 or zero. */
  lemma MixBytes(a: Word, b: Word, j: nat, c: bool, d: bool)
    requires j < WordBytes
    requires Bytes64(a)[j] == (if c then 0x01 else 0) && Bytes64(b)[j] == (if d then 0x80 else 0)
    ensures Bytes64(Xor(a, b))[j] == if c && d then 0x81 else if c then 0x01 else if d then 0x80 else 0
  {
    var x, y := Bytes64(a)[j], Bytes64(b)[j];
    MixOf(x, y, c, d);
    Bytes64XorAt(a, b, j);
    assert Bytes64(Xor(a, b))[j] == x ^ y;
  }

  /** Byte j of mask word k is byte 8k + j of the padding mask. */
  lemma MaskByte(L: nat, k: nat, j: nat)
    requires L < RateBytes && k < RateWords && j < WordBytes
    ensures Bytes64(MaskWord(L, k))[j] == PadMask(L)[8 * k + j]
  {
    PadMaskAt(L, 8 * k + j);
    UnitAtByte(L, k, j);
    TopAtByte(k, j);
    MixBytes(UnitAt(L, k), TopAt(k), j, 8 * k + j == L, 8 * k + j == RateBytes - 1);
  }

  /** Mask word k stores as bytes 8k .. 8k+8 of the padding mask. */
  lemma MaskWordBytes(L: nat, k: nat)
    requires L < RateBytes && k < RateWords
    ensures Bytes64(MaskWord(L, k)) == PadMask(L)[8 * k..8 * k + 8]
  {
    forall j | 0 <= j < 8
      ensures Bytes64(MaskWord(L, k))[j] == PadMask(L)[8 * k..8 * k + 8][j]
    {
      MaskByte(L, k, j);
    }
  }

  /** Appending XORed pieces is XORing the appended pieces. */
  lemma MaskedSnoc(a: seq<Byte>, b: seq<Byte>, ma: seq<Byte>, mb: seq<Byte>, x: seq<Byte>, y: seq<Byte>)
    requires |a| == |ma| && |b| == |mb|
    requires x == XorBytes(a, ma) && y == XorBytes(b, mb)
    ensures x + y == XorBytes(a + b, ma + mb)
  {
    XorBytesConcat(a, b, ma, mb);
  }

  /** Splitting the last word off p, q and the mask keeps the hypothesis of
      BytesOfMasked on the prefixes and states it for the last word. */
  lemma MaskedSplit(p: seq<Word>, q: seq<Word>, mask: seq<Byte>, n: nat)
    requires |p| == |q| && 8 * |p| == |mask| && n + 1 == |p|
    requires forall k :: 0 <= k < |p| ==> Bytes64(q[k]) == XorBytes(Bytes64(p[k]), mask[8 * k..8 * k + 8])
    ensures forall k :: 0 <= k < n ==> Bytes64(q[..n][k]) == XorBytes(Bytes64(p[..n][k]), mask[..8 * n][8 * k..8 * k + 8])
    ensures Bytes64(q[n]) == XorBytes(Bytes64(p[n]), mask[8 * n..8 * n + 8])
    ensures mask == mask[..8 * n] + mask[8 * n..8 * n + 8]
  {
    forall k | 0 <= k < n
      ensures Bytes64(q[..n][k]) == XorBytes(Bytes64(p[..n][k]), mask[..8 * n][8 * k..8 * k + 8])
    {
      assert mask[..8 * n][8 * k..8 * k + 8] == mask[8 * k..8 * k + 8];
    }
  }

  /** Words q whose bytes are those of p XOR a mask store as the bytes of p
      XOR that mask. */
  lemma {:induction false} BytesOfMasked(p: seq<Word>, q: seq<Word>, mask: seq<Byte>)
    requires |p| == |q| && 8 * |p| == |mask|
    requires forall k :: 0 <= k < |p| ==> Bytes64(q[k]) == XorBytes(Bytes64(p[k]), mask[8 * k..8 * k + 8])
    ensures BytesOf(q) == XorBytes(BytesOf(p), mask)
  {
    if p != [] {
      var n := |p| - 1;
      MaskedSplit(p, q, mask, n);
      var ma, mb := mask[..8 * n], mask[8 * n..8 * n + 8];
      BytesOfMasked(p[..n], q[..n], ma);
      MaskedSnoc(BytesOf(p[..n]), Bytes64(p[n]), ma, mb, BytesOf(q[..n]), Bytes64(q[n]));
    }
  }

  /** Rate word k of UndoPad(p, L) stores as the bytes of p[k] XOR bytes
      8k .. 8k+8 of the padding mask. */
  lemma UndoPadBytes(p: seq<Word>, L: nat, k: nat)
    requires |p| == StateWords && L < RateBytes && k < RateWords
    ensures Bytes64(UndoPad(p, L)[k]) == XorBytes(Bytes64(p[k]), PadMask(L)[8 * k..8 * k + 8])
  {
    UndoPadWord(p, L, k);
    Bytes64Xor(p[k], MaskWord(L, k));
    MaskWordBytes(L, k);
  }

  /** Undoing the padding in the state turns its key stream into the key
      stream XOR the padding mask. */
  lemma KeystreamUndoPad(p: seq<Word>, L: nat)
    requires |p| == StateWords && L < RateBytes
    ensures Keystream(UndoPad(p, L)) == XorBytes(Keystream(p), PadMask(L))
  {
    forall k | 0 <= k < RateWords
      ensures Bytes64(UndoPad(p, L)[k]) == XorBytes(Bytes64(p[k]), PadMask(L)[8 * k..8 * k + 8])
    {
      UndoPadBytes(p, L, k);
    }
    BytesOfMasked(p[..RateWords], UndoPad(p, L)[..RateWords], PadMask(L));
  }

  // ---------------------------------------------------------------------
  // The last block, as state values

  /** encrypt_msg's last block: the x bytes left over are padded, encrypted
      as a full block, and only the first |x| bytes are kept. */
  function LastCipher(s: seq<Word>, x: seq<Byte>): (c: seq<Byte>)
    requires |s| == StateWords && |x| < RateBytes
    ensures |c| == |x|
  {
    KeyedBlock(s, Padded(x))[..|x|]
  }

  /** The state encrypt_msg leaves after its last block. */
  function LastAbsorbed(s: seq<Word>, x: seq<Byte>): (r: seq<Word>)
    requires |s| == StateWords && |x| < RateBytes
    ensures |r| == StateWords
  {
    Absorbed(s, Padded(x), PayloadTag)
  }

  /** The prepared state with the padding of an L-byte block undone. */
  function Unpadded(s: seq<Word>, L: nat): (r: seq<Word>)
    requires |s| == StateWords && L < RateBytes
    ensures |r| == StateWords
  {
    UndoPad(Prepared(s, PayloadTag), L)
  }

  /** The bytes decrypt_lastblock writes once the padding is undone in q:
      the key stream of q XOR the ciphertext. */
  function UnpaddedPlain(q: seq<Word>, c: seq<Byte>): (m: seq<Byte>)
    requires |q| == StateWords && |c| < RateBytes
    ensures |m| == |c|
  {
    XorBytes(Keystream(q)[..|c|], c)
  }

  /** The state decrypt_lastblock leaves once the padding is undone in q:
      the ciphertext bytes replace the first |c| key stream bytes. */
  function UnpaddedState(q: seq<Word>, c: seq<Byte>): (r: seq<Word>)
    requires |q| == StateWords && |c| < RateBytes
    ensures |r| == StateWords
  {
    WordsOf(c + Keystream(q)[|c|..], RateWords) + q[RateWords..]
  }

  /** The bytes decrypt_lastblock writes: the key stream of the unpadded
      state XOR the ciphertext. */
  function LastPlain(s: seq<Word>, c: seq<Byte>): (m: seq<Byte>)
    requires |s| == StateWords && |c| < RateBytes
    ensures |m| == |c|
  {
    UnpaddedPlain(Unpadded(s, |c|), c)
  }

  /** The state decrypt_lastblock leaves: the ciphertext bytes replace the
      first |c| key stream bytes of the unpadded state. */
  function LastDecryptedState(s: seq<Word>, c: seq<Byte>): (r: seq<Word>)
    requires |s| == StateWords && |c| < RateBytes
    ensures |r| == StateWords
  {
    UnpaddedState(Unpadded(s, |c|), c)
  }

  /** Undoing the padding leaves the key stream bytes that meet the
      ciphertext alone and flips exactly the padding bits after them. */
  lemma UnpaddedKeystream(s: seq<Word>, L: nat)
    requires |s| == StateWords && L < RateBytes
    ensures Unpadded(s, L)[RateWords..] == Prepared(s, PayloadTag)[RateWords..]
    ensures forall j :: 0 <= j < L ==> Keystream(Unpadded(s, L))[j] == Keystream(Prepared(s, PayloadTag))[j]
    ensures forall j :: L <= j < RateBytes ==>
      Keystream(Unpadded(s, L))[j] == Keystream(Prepared(s, PayloadTag))[j] ^ MaskAt(L, j)
  {
    var p := Prepared(s, PayloadTag);
    KeystreamUndoPad(p, L);
    forall k | RateWords <= k < StateWords
      ensures Unpadded(s, L)[k] == p[k]
    {
      UndoPadWord(p, L, k);
    }
  }

  /** Byte j of a padded block: x, then the padding mask. */
  lemma PaddedAt(x: seq<Byte>, j: nat)
    requires |x| < RateBytes && j < RateBytes
    ensures Padded(x)[j] == if j < |x| then x[j] else MaskAt(|x|, j)
  {
    PaddedBytes(x);
  }

  /** Byte j of a key stream kp XOR a padded block. */
  lemma PaddedXorAt(kp: seq<Byte>, x: seq<Byte>, j: nat)
    requires |kp| == RateBytes && |x| < RateBytes && j < RateBytes
    ensures XorBytes(kp, Padded(x))[j] == kp[j] ^ (if j < |x| then x[j] else MaskAt(|x|, j))
  {
    PaddedAt(x, j);
  }

  /** The round trip on key streams: kq is kp with the padding bits after
      the first |x| bytes flipped. Decrypting the first |x| bytes of kp XOR
      Padded(x) with kq gives x back, and those bytes followed by the rest
      of kq are kp XOR Padded(x). */
  lemma UnpadRoundTrip(kp: seq<Byte>, kq: seq<Byte>, x: seq<Byte>)
    requires |kp| == RateBytes && |kq| == RateBytes && |x| < RateBytes
    requires forall j :: 0 <= j < |x| ==> kq[j] == kp[j]
    requires forall j :: |x| <= j < RateBytes ==> kq[j] == kp[j] ^ MaskAt(|x|, j)
    ensures XorBytes(kq[..|x|], XorBytes(kp, Padded(x))[..|x|]) == x
    ensures XorBytes(kp, Padded(x))[..|x|] + kq[|x|..] == XorBytes(kp, Padded(x))
  {
    var e, L := XorBytes(kp, Padded(x)), |x|;
    var m := XorBytes(kq[..L], e[..L]);
    forall j | 0 <= j < L
      ensures m[j] == x[j]
    {
      PaddedXorAt(kp, x, j);
    }
    var d := e[..L] + kq[L..];
    forall j | 0 <= j < RateBytes
      ensures d[j] == e[j]
    {
      PaddedXorAt(kp, x, j);
    }
  }

  /** The other round trip: decrypting c with kq and encrypting the result
      with kp as a padded block gives c back, and the block is c followed by
      the rest of kq. */
  lemma PadRoundTrip(kp: seq<Byte>, kq: seq<Byte>, c: seq<Byte>)
    requires |kp| == RateBytes && |kq| == RateBytes && |c| < RateBytes
    requires forall j :: 0 <= j < |c| ==> kq[j] == kp[j]
    requires forall j :: |c| <= j < RateBytes ==> kq[j] == kp[j] ^ MaskAt(|c|, j)
    ensures XorBytes(kp, Padded(XorBytes(kq[..|c|], c)))[..|c|] == c
    ensures c + kq[|c|..] == XorBytes(kp, Padded(XorBytes(kq[..|c|], c)))
  {
    var x, L := XorBytes(kq[..|c|], c), |c|;
    var e := XorBytes(kp, Padded(x));
    forall j | 0 <= j < L
      ensures e[j] == c[j]
    {
      PaddedXorAt(kp, x, j);
    }
    var d := c + kq[L..];
    forall j | 0 <= j < RateBytes
      ensures d[j] == e[j]
    {
      PaddedXorAt(kp, x, j);
    }
  }

  /** Decrypting the last block encrypt_msg wrote, from the same state,
      gives back the plaintext and ends in the state encryption ended in. */
  lemma DecryptEncryptedLast(s: seq<Word>, x: seq<Byte>)
    requires |s| == StateWords && |x| < RateBytes
    ensures LastPlain(s, LastCipher(s, x)) == x
    ensures LastDecryptedState(s, LastCipher(s, x)) == LastAbsorbed(s, x)
  {
    var p := Prepared(s, PayloadTag);
    UnpaddedKeystream(s, |x|);
    UnpadRoundTrip(Keystream(p), Keystream(Unpadded(s, |x|)), x);
  }

  /** Encrypting the plaintext decrypt_lastblock wrote, from the same state,
      gives back the ciphertext and ends in the state decryption ended in. */
  lemma EncryptDecryptedLast(s: seq<Word>, c: seq<Byte>)
    requires |s| == StateWords && |c| < RateBytes
    ensures LastCipher(s, LastPlain(s, c)) == c
    ensures LastAbsorbed(s, LastPlain(s, c)) == LastDecryptedState(s, c)
  {
    var p := Prepared(s, PayloadTag);
    UnpaddedKeystream(s, |c|);
    PadRoundTrip(Keystream(p), Keystream(Unpadded(s, |c|)), c);
  }

  // ---------------------------------------------------------------------
  // Facts the decrypt_lastblock loops rely on

  /** Each full word of the ciphertext c, XORed into the unpadded state q,
      stores as the matching eight plaintext bytes. */
  lemma LastWordsKeyed(q: seq<Word>, c: seq<Byte>)
    requires |q| == StateWords && |c| < RateBytes
    ensures forall k: nat :: 8 * k + 8 <= |c| ==>
      Bytes64(Xor(q[k], WordAt(c, k))) == XorBytes(Keystream(q)[..|c|], c)[8 * k..8 * k + 8]
  {
    forall k: nat | 8 * k + 8 <= |c|
      ensures Bytes64(Xor(q[k], WordAt(c, k))) == XorBytes(Keystream(q)[..|c|], c)[8 * k..8 * k + 8]
    {
      KeystreamWord(q, c, k);
    }
  }

  /** The plaintext bytes of the partial word i are the stored bytes of
      state word i XOR the ciphertext bytes. */
  lemma LastTailKeyed(q: seq<Word>, c: seq<Byte>, i: nat)
    requires |q| == StateWords && |c| < RateBytes && 8 * i <= |c| < 8 * i + 8
    ensures forall j :: 8 * i <= j < |c| ==>
      XorBytes(Keystream(q)[..|c|], c)[j] == Bytes64(q[i])[j - 8 * i] ^ c[j]
  {
    BytesOfWord(q[..RateWords], i);
    forall j | 8 * i <= j < |c|
      ensures Keystream(q)[j] == Bytes64(q[i])[j - 8 * i]
    {
      assert Keystream(q)[j] == Keystream(q)[8 * i..8 * i + 8][j - 8 * i];
    }
  }

  /** A word of c + Keystream(q)[|c|..] that lies inside c is a word of c. */
  lemma LastWordBefore(q: seq<Word>, c: seq<Byte>, k: nat)
    requires |q| == StateWords && |c| < RateBytes && 8 * k + 8 <= |c|
    ensures WordAt(c + Keystream(q)[|c|..], k) == WordAt(c, k)
  {
    ConcatSlice(c, Keystream(q)[|c|..], 8 * k, 8 * k + 8);
  }

  /** For any bytes ks whose word at i stores as w: the word at i of
      c + ks[|c|..], across the end of c, loads the last bytes of c
      followed by the remaining bytes of w. */
  lemma WordAcrossSeam(c: seq<Byte>, ks: seq<Byte>, i: nat, w: Word)
    requires 8 * i <= |c| < 8 * i + 8 <= |ks| && ks[8 * i..8 * i + 8] == Bytes64(w)
    ensures WordAt(c + ks[|c|..], i) == Load64(c[8 * i..] + Bytes64(w)[|c| - 8 * i..])
  {
    ConcatSlice(c, ks[|c|..], 8 * i, 8 * i + 8);
    SliceOfSlice(ks, 8 * i, 8 * i + 8, |c| - 8 * i, 8);
    SliceOfSlice(ks, |c|, |ks|, 0, 8 * i + 8 - |c|);
  }

  /** For any bytes ks whose word at k stores as w: the word at k of
      c + ks[|c|..], past the end of c, is w. */
  lemma WordAfterSeam(c: seq<Byte>, ks: seq<Byte>, k: nat, w: Word)
    requires |c| <= 8 * k && 8 * k + 8 <= |ks| && ks[8 * k..8 * k + 8] == Bytes64(w)
    ensures WordAt(c + ks[|c|..], k) == w
  {
    ConcatSlice(c, ks[|c|..], 8 * k, 8 * k + 8);
    SliceOfSlice(ks, |c|, |ks|, 8 * k - |c|, 8 * k + 8 - |c|);
    LoadOfStore(w);
  }

  /** The word across the end of c loads the last ciphertext bytes
      followed by the remaining stored bytes of q[i]. */
  lemma LastWordPartial(q: seq<Word>, c: seq<Byte>, i: nat)
    requires |q| == StateWords && |c| < RateBytes && 8 * i <= |c| < 8 * i + 8
    ensures WordAt(c + Keystream(q)[|c|..], i) == Load64(c[8 * i..] + Bytes64(q[i])[|c| - 8 * i..])
  {
    BytesOfWord(q[..RateWords], i);
    WordAcrossSeam(c, Keystream(q), i, q[i]);
  }

  /** A word of c + Keystream(q)[|c|..] past the end of c is the state
      word itself. */
  lemma LastWordAfter(q: seq<Word>, c: seq<Byte>, k: nat)
    requires |q| == StateWords && |c| < RateBytes && |c| <= 8 * k && k < RateWords
    ensures WordAt(c + Keystream(q)[|c|..], k) == q[k]
  {
    BytesOfWord(q[..RateWords], k);
    WordAfterSeam(c, Keystream(q), k, q[k]);
  }

  /** The state the two loops leave is LastDecryptedState: full ciphertext
      words, then the partial word, then the unpadded state. */
  lemma LastStateFilled(s: seq<Word>, q: seq<Word>, c: seq<Byte>, i: nat)
    requires |s| == StateWords && |q| == StateWords && |c| < RateBytes && 8 * i <= |c| < 8 * i + 8
    requires forall k :: 0 <= k < i ==> s[k] == WordAt(c, k)
    requires s[i] == Load64(c[8 * i..] + Bytes64(q[i])[|c| - 8 * i..])
    requires forall k :: i < k < StateWords ==> s[k] == q[k]
    ensures s == WordsOf(c + Keystream(q)[|c|..], RateWords) + q[RateWords..]
  {
    var x := c + Keystream(q)[|c|..];
    forall k | 0 <= k < RateWords
      ensures s[k] == WordAt(x, k)
    {
      if k < i {
        LastWordBefore(q, c, k);
      } else if k == i {
        LastWordPartial(q, c, i);
      } else {
        LastWordAfter(q, c, k);
      }
    }
    RateFilled(s, x, q);
  }

  // ---------------------------------------------------------------------
  // decrypt_lastblock, in place on the state

  /** The "undo padding" lines: XOR 0x01 << 8(inlen % 8) into word inlen / 8
      and 0x80 << 56 into word 9, so that the key stream holds the padding
      bits encryption XORed into the block. */
  method UndoPadding(st: State, inlen: nat)
    requires st.Valid() && inlen < RateBytes
    modifies st.s
    ensures st.s[..] == UndoPad(old(st.s[..]), inlen)
  {
    UnitWordShift(inlen % 8);
    TopWordShift();
    st.s[inlen / 8] := Xor(st.s[inlen / 8], (0x01 as Word) << (inlen % 8 * 8));
    st.s[RateWords - 1] := Xor(st.s[RateWords - 1], (0x80 as Word) << ((RateBytes - 1) % 8 * 8));
  }

  /** The word loop of decrypt_lastblock: while eight or more bytes are
      left, decrypts a full word as decrypt_block does. Returns the number
      i of full words; the plaintext d is given by its words. */
  method DecryptWords(st: State, out: array<Byte>, outOff: nat, inp: array<Byte>, inOff: nat,
                      inlen: nat, ghost c: seq<Byte>, ghost d: seq<Byte>) returns (i: nat)
    requires st.Valid()
    requires |c| == inlen && |d| == inlen && inlen < RateBytes
    requires outOff + inlen <= out.Length && inOff + inlen <= inp.Length
    requires inp == out ==> inOff == outOff
    requires forall j :: 0 <= j < inlen ==> inp[inOff + j] == c[j]
    requires forall k: nat :: 8 * k + 8 <= |c| ==> Bytes64(Xor(st.s[k], WordAt(c, k))) == d[8 * k..8 * k + 8]
    modifies st.s, out
    ensures 8 * i <= inlen < 8 * i + 8
    ensures forall k :: 0 <= k < i ==> st.s[k] == WordAt(c, k)
    ensures forall k :: i <= k < StateWords ==> st.s[k] == old(st.s[k])
    ensures forall k :: 0 <= k < outOff ==> out[k] == old(out[k])
    ensures forall j :: 0 <= j < 8 * i ==> out[outOff + j] == d[j]
    ensures forall k :: outOff + 8 * i <= k < out.Length ==> out[k] == old(out[k])
    ensures forall j :: 8 * i <= j < inlen ==> inp[inOff + j] == c[j]
  {
    ghost var o := out[..];
    ghost var p := st.s[..];
    var rest := inlen;
    i := 0;
    while rest >= 8
      invariant rest == inlen - 8 * i && i < RateWords
      invariant forall k :: 0 <= k < i ==> st.s[k] == WordAt(c, k)
      invariant forall k :: i <= k < StateWords ==> st.s[k] == p[k]
      invariant forall k :: 0 <= k < outOff ==> out[k] == o[k]
      invariant forall j :: 0 <= j < 8 * i ==> out[outOff + j] == d[j]
      invariant forall k :: outOff + 8 * i <= k < out.Length ==> out[k] == o[k]
      invariant forall j :: 8 * i <= j < inlen ==> inp[inOff + j] == c[j]
    {
      DecryptWord(st, out, outOff, inp, inOff, i, c, d, o, p);
      rest := rest - 8;
      i := i + 1;
    }
  }

  /** The byte loop of decrypt_lastblock on the partial word that starts
      at byte base: b holds the stored state word w; each remaining
      ciphertext byte is XORed with its byte of b into the output and then
      replaces that byte of b. */
  method XorTail(b: array<Byte>, out: array<Byte>, outOff: nat, inp: array<Byte>, inOff: nat,
                 base: nat, inlen: nat, ghost c: seq<Byte>, ghost d: seq<Byte>, ghost w: seq<Byte>)
    requires b.Length == 8 && b != out && b != inp
    requires |c| == inlen && |d| == inlen && |w| == 8 && base <= inlen < base + 8
    requires outOff + inlen <= out.Length && inOff + inlen <= inp.Length
    requires inp == out ==> inOff == outOff
    requires forall t :: 0 <= t < 8 ==> b[t] == w[t]
    requires forall j :: base <= j < inlen ==> inp[inOff + j] == c[j]
    requires forall j :: base <= j < inlen ==> d[j] == w[j - base] ^ c[j]
    modifies b, out
    ensures b[..] == c[base..] + w[inlen - base..]
    ensures forall k :: 0 <= k < outOff + base ==> out[k] == old(out[k])
    ensures forall j :: base <= j < inlen ==> out[outOff + j] == d[j]
    ensures forall k :: outOff + inlen <= k < out.Length ==> out[k] == old(out[k])
  {
    ghost var o := out[..];
    var j := 0;
    while j < inlen - base
      invariant 0 <= j <= inlen - base
      invariant forall t :: 0 <= t < j ==> b[t] == c[base + t]
      invariant forall t :: j <= t < 8 ==> b[t] == w[t]
      invariant forall k :: 0 <= k < outOff + base ==> out[k] == o[k]
      invariant forall t :: base <= t < base + j ==> out[outOff + t] == d[t]
      invariant forall k :: outOff + base + j <= k < out.Length ==> out[k] == o[k]
      invariant forall t :: base + j <= t < inlen ==> inp[inOff + t] == c[t]
    {
      var x := inp[inOff + base + j];
      assert b[j] ^ x == d[base + j];
      out[outOff + base + j] := b[j] ^ x;
      b[j] := x;
      j := j + 1;
    }
    assert b[..] == c[base..] + w[inlen - base..];
  }

  /** The partial word i of decrypt_lastblock: state word i is stored to a
      scratch buffer, the byte loop runs, and the buffer is loaded back
      into word i and wiped. */
  method DecryptTail(st: State, out: array<Byte>, outOff: nat, inp: array<Byte>, inOff: nat,
                     inlen: nat, i: nat, ghost c: seq<Byte>, ghost d: seq<Byte>, ghost w: seq<Byte>)
    requires st.Valid()
    requires |c| == inlen && |d| == inlen && inlen < RateBytes && 8 * i <= inlen < 8 * i + 8
    requires outOff + inlen <= out.Length && inOff + inlen <= inp.Length
    requires inp == out ==> inOff == outOff
    requires forall j :: 8 * i <= j < inlen ==> inp[inOff + j] == c[j]
    requires w == Bytes64(st.s[i])
    requires forall j :: 8 * i <= j < inlen ==> d[j] == w[j - 8 * i] ^ c[j]
    modifies st.s, out
    ensures st.s[..] == old(st.s[..])[i := Load64(c[8 * i..] + w[inlen - 8 * i..])]
    ensures forall k :: 0 <= k < outOff + 8 * i ==> out[k] == old(out[k])
    ensures forall j :: 8 * i <= j < inlen ==> out[outOff + j] == d[j]
    ensures forall k :: outOff + inlen <= k < out.Length ==> out[k] == old(out[k])
  {
    var b := new Byte[8];
    ghost var b0 := b[..];
    Store64(b, 0, st.s[i]);
    forall t | 0 <= t < 8
      ensures b[t] == w[t]
    {
      SpliceAt(b0, 0, w, t);
    }
    XorTail(b, out, outOff, inp, inOff, 8 * i, inlen, c, d, w);
    var v := Load64(b[..]);
    Burn8(b, 8);
    st.s[i] := v;
  }

  /** The output of the two loops: bytes before the block untouched, the
      plaintext d in place, bytes after it untouched. */
  lemma LastOutFilled(o: seq<Byte>, o2: seq<Byte>, o3: seq<Byte>, off: nat, d: seq<Byte>, base: nat)
    requires |o| == |o2| == |o3| && off + |d| <= |o| && base <= |d|
    requires forall k :: 0 <= k < off ==> o2[k] == o[k]
    requires forall j :: 0 <= j < base ==> o2[off + j] == d[j]
    requires forall k :: off + base <= k < |o| ==> o2[k] == o[k]
    requires forall k :: 0 <= k < off + base ==> o3[k] == o2[k]
    requires forall j :: base <= j < |d| ==> o3[off + j] == d[j]
    requires forall k :: off + |d| <= k < |o| ==> o3[k] == o2[k]
    ensures o3 == Splice(o, off, d)
  {
    forall j | 0 <= j < |d|
      ensures o3[off + j] == d[j]
    {
      if j < base {
        assert o3[off + j] == o2[off + j];
      }
    }
    SpliceFilled(o3, o, off, d);
  }

  /** decrypt_lastblock after the padding has been undone: the full words,
      then the partial word, against the key stream of the state as it is
      on entry. */
  method DecryptUnpadded(st: State, out: array<Byte>, outOff: nat, inp: array<Byte>, inOff: nat, inlen: nat)
    requires st.Valid() && inlen < RateBytes
    requires outOff + inlen <= out.Length && inOff + inlen <= inp.Length
    requires inp == out ==> inOff == outOff
    modifies st.s, out
    ensures st.s[..] == UnpaddedState(old(st.s[..]), old(inp[inOff..inOff + inlen]))
    ensures out[..] == Splice(old(out[..]), outOff, UnpaddedPlain(old(st.s[..]), old(inp[inOff..inOff + inlen])))
  {
    ghost var c := inp[inOff..inOff + inlen];
    ghost var q := st.s[..];
    ghost var o := out[..];
    ghost var d := UnpaddedPlain(q, c);
    LastWordsKeyed(q, c);
    var i := DecryptWords(st, out, outOff, inp, inOff, inlen, c, d);
    FinishUnpadded(st, out, outOff, inp, inOff, inlen, i, q, c, o);
  }

  /** The partial word of decrypt_lastblock, after the full words: with
      words 0 .. i-1 of the state and bytes 0 .. 8i-1 of the plaintext in
      place, the byte loop completes the state and the output. */
  method FinishUnpadded(st: State, out: array<Byte>, outOff: nat, inp: array<Byte>, inOff: nat,
                        inlen: nat, i: nat, ghost q: seq<Word>, ghost c: seq<Byte>, ghost o: seq<Byte>)
    requires st.Valid() && |q| == StateWords && |o| == out.Length
    requires |c| == inlen && inlen < RateBytes && 8 * i <= inlen < 8 * i + 8
    requires outOff + inlen <= out.Length && inOff + inlen <= inp.Length
    requires inp == out ==> inOff == outOff
    requires forall k :: 0 <= k < i ==> st.s[k] == WordAt(c, k)
    requires forall k :: i <= k < StateWords ==> st.s[k] == q[k]
    requires forall k :: 0 <= k < outOff ==> out[k] == o[k]
    requires forall j :: 0 <= j < 8 * i ==> out[outOff + j] == UnpaddedPlain(q, c)[j]
    requires forall k :: outOff + 8 * i <= k < out.Length ==> out[k] == o[k]
    requires forall j :: 8 * i <= j < inlen ==> inp[inOff + j] == c[j]
    modifies st.s, out
    ensures st.s[..] == UnpaddedState(q, c)
    ensures out[..] == Splice(o, outOff, UnpaddedPlain(q, c))
  {
    ghost var d := UnpaddedPlain(q, c);
    ghost var o2 := out[..];
    LastTailKeyed(q, c, i);
    DecryptTail(st, out, outOff, inp, inOff, inlen, i, c, d, Bytes64(q[i]));
    LastStateFilled(st.s[..], q, c, i);
    LastOutFilled(o, o2, out[..], outOff, d, 8 * i);
  }

  /** The first lines of decrypt_lastblock: inject the payload tag,
      permute, undo the padding of an inlen-byte block. */
  method PrepareUnpadded(st: State, inlen: nat)
    requires st.Valid() && inlen < RateBytes
    modifies st.s
    ensures st.s[..] == Unpadded(old(st.s[..]), inlen)
  {
    Prepare(st, PayloadTag);
    UndoPadding(st, inlen);
  }

  /** decrypt_lastblock: decrypts the final inlen < 80 ciphertext bytes.
      After injecting the payload tag and permuting, the padding encryption
      would have added is XORed into the state, the full words are
      decrypted as in decrypt_block and the partial word byte by byte. out
      and inp may be the same buffer at the same offset. */
  method DecryptLastBlock(st: State, out: array<Byte>, outOff: nat, inp: array<Byte>, inOff: nat, inlen: nat)
    requires st.Valid() && inlen < RateBytes
    requires outOff + inlen <= out.Length && inOff + inlen <= inp.Length
    requires inp == out ==> inOff == outOff
    modifies st.s, out
    ensures st.s[..] == LastDecryptedState(old(st.s[..]), old(inp[inOff..inOff + inlen]))
    ensures out[..] == Splice(old(out[..]), outOff, LastPlain(old(st.s[..]), old(inp[inOff..inOff + inlen])))
  {
    ghost var s0, c := st.s[..], inp[inOff..inOff + inlen];
    assert |c| == inlen;
    PrepareUnpadded(st, inlen);
    assert st.s[..] == Unpadded(s0, |c|);
    DecryptUnpadded(st, out, outOff, inp, inOff, inlen);
  }
}

/** Byte and word helpers of NORX (aead/utils.go): little-endian loads and
    stores of 64-bit words, and the zeroing of buffer prefixes. */
module Utils {

  type Byte = bv8
  type Word = bv64

  /** The low eight bits of w, which is what Go's uint8(w) conversion keeps. */
  function Lo8(w: Word): Byte
  {
    (w & 0xFF) as Byte
  }

  /** Byte j of w in little-endian order, uint8(w >> 8j): the byte STORE64
      writes at position j. */
  function ByteOf(w: Word, j: nat): Byte
    requires j < 8
  {
    match j
    case 0 => Lo8(w)
    case 1 => Lo8(w >> 8)
    case 2 => Lo8(w >> 16)
    case 3 => Lo8(w >> 24)
    case 4 => Lo8(w >> 32)
    case 5 => Lo8(w >> 40)
    case 6 => Lo8(w >> 48)
    case 7 => Lo8(w >> 56)
  }

  /** The eight little-endian bytes of w. */
  function Bytes64(w: Word): (b: seq<Byte>)
    ensures |b| == 8
  {
    seq(8, j requires 0 <= j < 8 => ByteOf(w, j))
  }

  /** The bytes of w spelled out, as STORE64 writes them one by one. */
  lemma Bytes64Spelled(w: Word)
    ensures Bytes64(w) == [Lo8(w), Lo8(w >> 8), Lo8(w >> 16), Lo8(w >> 24),
                           Lo8(w >> 32), Lo8(w >> 40), Lo8(w >> 48), Lo8(w >> 56)]
  {
  }

  /** The OR of eight bytes, byte i shifted left by 8i. */
  function Pack(a: Byte, b: Byte, c: Byte, d: Byte, e: Byte, f: Byte, g: Byte, h: Byte): Word
  {
    (a as Word) | ((b as Word) << 8) | ((c as Word) << 16) | ((d as Word) << 24) |
    ((e as Word) << 32) | ((f as Word) << 40) | ((g as Word) << 48) | ((h as Word) << 56)
  }

  /** LOAD64: the little-endian word of the bytes x[0..8). */
  function Load64(x: seq<Byte>): Word
    requires |x| >= 8
  {
    Pack(x[0], x[1], x[2], x[3], x[4], x[5], x[6], x[7])
  }

  /** Each byte of a packed word can be shifted back out. */
  lemma PackBytes(a: Byte, b: Byte, c: Byte, d: Byte, e: Byte, f: Byte, g: Byte, h: Byte)
    ensures var v := Pack(a, b, c, d, e, f, g, h);
      Lo8(v) == a && Lo8(v >> 8) == b && Lo8(v >> 16) == c && Lo8(v >> 24) == d &&
      Lo8(v >> 32) == e && Lo8(v >> 40) == f && Lo8(v >> 48) == g && Lo8(v >> 56) == h
  {
  }

  /** Packing the eight bytes of a word gives back the word. */
  lemma PackOfBytes(v: Word)
    ensures Pack(Lo8(v), Lo8(v >> 8), Lo8(v >> 16), Lo8(v >> 24),
                 Lo8(v >> 32), Lo8(v >> 40), Lo8(v >> 48), Lo8(v >> 56)) == v
  {
  }

  /** A word whose eight shifted-out bytes are a .. h stores as a .. h. */
  lemma Bytes64Of(v: Word, a: Byte, b: Byte, c: Byte, d: Byte, e: Byte, f: Byte, g: Byte, h: Byte)
    requires Lo8(v) == a && Lo8(v >> 8) == b && Lo8(v >> 16) == c && Lo8(v >> 24) == d
    requires Lo8(v >> 32) == e && Lo8(v >> 40) == f && Lo8(v >> 48) == g && Lo8(v >> 56) == h
    ensures Bytes64(v) == [a, b, c, d, e, f, g, h]
  {
    Bytes64Spelled(v);
  }

  /** Storing a packed word gives back the bytes it was packed from. */
  lemma StorePack(a: Byte, b: Byte, c: Byte, d: Byte, e: Byte, f: Byte, g: Byte, h: Byte)
    ensures Bytes64(Pack(a, b, c, d, e, f, g, h)) == [a, b, c, d, e, f, g, h]
  {
    PackBytes(a, b, c, d, e, f, g, h);
    Bytes64Of(Pack(a, b, c, d, e, f, g, h), a, b, c, d, e, f, g, h);
  }

  /** Storing a loaded word reproduces the eight bytes it was loaded from. */
  lemma StoreOfLoad(x: seq<Byte>)
    requires |x| >= 8
    ensures Bytes64(Load64(x)) == x[..8]
  {
    StorePack(x[0], x[1], x[2], x[3], x[4], x[5], x[6], x[7]);
    assert [x[0], x[1], x[2], x[3], x[4], x[5], x[6], x[7]] == x[..8];
  }

  /** Loading the bytes that STORE64 wrote gives back the stored word. */
  lemma LoadOfStore(v: Word)
    ensures Load64(Bytes64(v)) == v
  {
    Bytes64Spelled(v);
    PackOfBytes(v);
  }

  /** Two words with the same little-endian bytes are equal. */
  lemma Bytes64Injective(v: Word, w: Word)
    requires Bytes64(v) == Bytes64(w)
    ensures v == w
  {
    LoadOfStore(v);
    LoadOfStore(w);
  }

  /** The number whose little-endian base-256 digits are b: the sum of
      b[i] * 256^i. */
  function LittleEndian(b: seq<Byte>): int
  {
    if b == [] then 0 else b[0] as int + 256 * LittleEndian(b[1..])
  }

  /** 256^n. */
  function Pow256(n: nat): nat
  {
    if n == 0 then 1 else 256 * Pow256(n - 1)
  }

  /** v shifted right by 8 bits, n times. */
  function ShiftBytes(v: Word, n: nat): Word
  {
    if n == 0 then v else ShiftBytes(v >> 8, n - 1)
  }

  /** The low n bytes of v, least significant first. */
  function LowBytes(v: Word, n: nat): (b: seq<Byte>)
    ensures |b| == n
  {
    if n == 0 then [] else [Lo8(v)] + LowBytes(v >> 8, n - 1)
  }

  lemma OrShifted(a: Byte, w: Word)
    requires w < 0x100_0000_0000_0000
    ensures ((a as Word) | (w << 8)) as int == a as int + 256 * (w as int)
  {
  }

  lemma SplitLowByte(v: Word)
    ensures v == (Lo8(v) as Word) | ((v >> 8) << 8)
    ensures v >> 8 < 0x100_0000_0000_0000
  {
  }

  /** A word is its low byte plus 256 times the rest. */
  lemma LowByteValue(v: Word)
    ensures v as int == Lo8(v) as int + 256 * (v >> 8) as int
  {
    SplitLowByte(v);
    OrShifted(Lo8(v), v >> 8);
  }

  lemma HornerStep(lo: int, hi: int, low: int, p: int, rest: int, v: int, low': int, p': int)
    requires low + p * rest == hi && v == lo + 256 * hi
    requires low' == lo + 256 * low && p' == 256 * p
    ensures low' + p' * rest == v
  {
  }

  /** The low n bytes of v, read as a number, plus 256^n times what is
      left above them, give v back. */
  lemma {:induction false} LowBytesValue(v: Word, n: nat)
    ensures LittleEndian(LowBytes(v, n)) + Pow256(n) * ShiftBytes(v, n) as int == v as int
  {
    if n > 0 {
      var w := v >> 8;
      LowBytesValue(w, n - 1);
      LowByteValue(v);
      assert LowBytes(v, n)[1..] == LowBytes(w, n - 1);
      HornerStep(Lo8(v) as int, w as int, LittleEndian(LowBytes(w, n - 1)), Pow256(n - 1), ShiftBytes(w, n - 1) as int, v as int,
                 LittleEndian(LowBytes(v, n)), Pow256(n));
    }
  }

  lemma {:induction false} LowBytesAt(v: Word, n: nat, j: nat)
    requires j < n
    ensures LowBytes(v, n)[j] == Lo8(ShiftBytes(v, j))
  {
    if j > 0 {
      LowBytesAt(v >> 8, n - 1, j - 1);
    }
  }

  lemma ShiftsCompose(v: Word)
    ensures v >> 8 >> 8 == v >> 16 && v >> 16 >> 8 == v >> 24 && v >> 24 >> 8 == v >> 32
    ensures v >> 32 >> 8 == v >> 40 && v >> 40 >> 8 == v >> 48 && v >> 48 >> 8 == v >> 56
  {
  }

  /** Eight byte shifts leave nothing of a 64-bit word. */
  lemma ShiftBytesEight(v: Word)
    ensures ShiftBytes(v, 8) == 0
  {
    assert ShiftBytes(v, 8) == ShiftBytes(v >> 8, 7) == ShiftBytes(v >> 8 >> 8, 6) == ShiftBytes(v >> 8 >> 8 >> 8, 5)
        == ShiftBytes(v >> 8 >> 8 >> 8 >> 8, 4) == ShiftBytes(v >> 8 >> 8 >> 8 >> 8 >> 8, 3)
        == ShiftBytes(v >> 8 >> 8 >> 8 >> 8 >> 8 >> 8, 2) == ShiftBytes(v >> 8 >> 8 >> 8 >> 8 >> 8 >> 8 >> 8, 1)
        == v >> 8 >> 8 >> 8 >> 8 >> 8 >> 8 >> 8 >> 8;
  }

  lemma ShiftBytesSpelled(v: Word)
    ensures ShiftBytes(v, 1) == v >> 8 && ShiftBytes(v, 2) == v >> 16 && ShiftBytes(v, 3) == v >> 24
    ensures ShiftBytes(v, 4) == v >> 32 && ShiftBytes(v, 5) == v >> 40 && ShiftBytes(v, 6) == v >> 48
    ensures ShiftBytes(v, 7) == v >> 56
  {
    ShiftsCompose(v);
    assert ShiftBytes(v, 7) == ShiftBytes(v >> 8, 6) == ShiftBytes(v >> 8 >> 8, 5) == ShiftBytes(v >> 16 >> 8, 4)
        == ShiftBytes(v >> 24 >> 8, 3) == ShiftBytes(v >> 32 >> 8, 2) == ShiftBytes(v >> 40 >> 8, 1) == v >> 48 >> 8;
  }

  /** The eight low bytes of a word are the bytes STORE64 writes. */
  lemma LowBytesEight(v: Word)
    ensures LowBytes(v, 8) == Bytes64(v)
  {
    ShiftBytesSpelled(v);
    forall j | 0 <= j < 8
      ensures LowBytes(v, 8)[j] == Bytes64(v)[j]
    {
      LowBytesAt(v, 8, j);
    }
  }

  /** STORE64 writes the little-endian base-256 digits of v. */
  lemma Store64Value(v: Word)
    ensures LittleEndian(Bytes64(v)) == v as int
  {
    LowBytesValue(v, 8);
    ShiftBytesEight(v);
    LowBytesEight(v);
  }

  /** LOAD64(x) is the number x[0] + 256 x[1] + ... + 256^7 x[7]. */
  lemma Load64Value(x: seq<Byte>)
    requires |x| >= 8
    ensures Load64(x) as int == LittleEndian(x[..8])
  {
    StoreOfLoad(x);
    Store64Value(Load64(x));
  }

  /** The XOR of two words. */
  function Xor(v: Word, w: Word): Word
  {
    v ^ w
  }

  /** XOR of words is associative. */
  lemma XorAssoc(u: Word, v: Word, w: Word)
    ensures Xor(Xor(u, v), w) == Xor(u, Xor(v, w))
  {
  }

  /** XOR with zero changes nothing. */
  lemma XorZero(v: Word)
    ensures Xor(v, 0) == v && Xor(0, v) == v
  {
  }

  /** Byte-wise XOR of two byte strings of the same length. */
  function XorBytes(a: seq<Byte>, b: seq<Byte>): (r: seq<Byte>)
    requires |a| == |b|
    ensures |r| == |a|
    ensures forall i :: 0 <= i < |a| ==> r[i] == a[i] ^ b[i]
  {
    seq(|a|, i requires 0 <= i < |a| => a[i] ^ b[i])
  }

  /** XOR works byte by byte: byte j of v ^ w is byte j of v XOR byte j of w. */
  lemma ByteOfXor(v: Word, w: Word, j: nat)
    requires j < 8
    ensures ByteOf(v ^ w, j) == ByteOf(v, j) ^ ByteOf(w, j)
  {
    match j
    case 0 =>
    case 1 => assert (v ^ w) >> 8 == (v >> 8) ^ (w >> 8);
    case 2 => assert (v ^ w) >> 16 == (v >> 16) ^ (w >> 16);
    case 3 => assert (v ^ w) >> 24 == (v >> 24) ^ (w >> 24);
    case 4 => assert (v ^ w) >> 32 == (v >> 32) ^ (w >> 32);
    case 5 => assert (v ^ w) >> 40 == (v >> 40) ^ (w >> 40);
    case 6 => assert (v ^ w) >> 48 == (v >> 48) ^ (w >> 48);
    case 7 => assert (v ^ w) >> 56 == (v >> 56) ^ (w >> 56);
  }

  /** Byte j of Bytes64(v ^ w) is byte j of Bytes64(v) XOR byte j of Bytes64(w). */
  lemma Bytes64XorAt(v: Word, w: Word, j: nat)
    requires j < 8
    ensures Bytes64(v ^ w)[j] == Bytes64(v)[j] ^ Bytes64(w)[j]
  {
    ByteOfXor(v, w, j);
  }

  /** The bytes of an XOR of words are the XOR of their bytes. */
  lemma Bytes64Xor(v: Word, w: Word)
    ensures Bytes64(v ^ w) == XorBytes(Bytes64(v), Bytes64(w))
  {
    forall j | 0 <= j < 8
      ensures Bytes64(v ^ w)[j] == XorBytes(Bytes64(v), Bytes64(w))[j]
    {
      Bytes64XorAt(v, w, j);
    }
  }

  /** Taking a prefix commutes with byte-wise XOR. */
  lemma XorBytesPrefix(x: seq<Byte>, y: seq<Byte>, n: nat)
    requires |x| == |y| && n <= |x|
    ensures XorBytes(x, y)[..n] == XorBytes(x[..n], y[..n])
  {
  }

  /** Taking a slice commutes with byte-wise XOR. */
  lemma XorBytesSlice(x: seq<Byte>, y: seq<Byte>, lo: nat, hi: nat)
    requires |x| == |y| && lo <= hi <= |x|
    ensures XorBytes(x, y)[lo..hi] == XorBytes(x[lo..hi], y[lo..hi])
  {
  }

  /** Byte-wise XOR of two concatenations is the concatenation of the XORs. */
  lemma XorBytesConcat(a1: seq<Byte>, a2: seq<Byte>, b1: seq<Byte>, b2: seq<Byte>)
    requires |a1| == |b1| && |a2| == |b2|
    ensures XorBytes(a1 + a2, b1 + b2) == XorBytes(a1, b1) + XorBytes(a2, b2)
  {
    var l, r := XorBytes(a1 + a2, b1 + b2), XorBytes(a1, b1) + XorBytes(a2, b2);
    forall j | 0 <= j < |l|
      ensures l[j] == r[j]
    {
    }
  }

  /** XORing a loaded word into v is XORing its bytes into the bytes of v. */
  lemma XorLoaded(v: Word, y: seq<Byte>)
    requires |y| == 8
    ensures Bytes64(v ^ Load64(y)) == XorBytes(Bytes64(v), y)
    ensures Load64(XorBytes(Bytes64(v), y)) == v ^ Load64(y)
  {
    var w := Load64(y);
    StoreOfLoad(y);
    assert y[..8] == y;
    assert Bytes64(w) == y;
    Bytes64Xor(v, w);
    assert Bytes64(v ^ w) == XorBytes(Bytes64(v), y);
    LoadOfStore(v ^ w);
  }

  /** XOR with the same bytes twice is the identity. */
  lemma XorBytesTwice(k: seq<Byte>, m: seq<Byte>)
    requires |k| == |m|
    ensures XorBytes(k, XorBytes(k, m)) == m
  {
    var r := XorBytes(k, XorBytes(k, m));
    forall j | 0 <= j < |m|
      ensures r[j] == m[j]
    {
    }
  }

  /** Loading commutes with byte-wise XOR. */
  lemma Load64Xor(x: seq<Byte>, y: seq<Byte>)
    requires |x| == |y| >= 8
    ensures Load64(XorBytes(x, y)) == Load64(x) ^ Load64(y)
  {
    var u, v, z := Load64(x), Load64(y), XorBytes(x, y);
    StoreOfLoad(x);
    StoreOfLoad(y);
    StoreOfLoad(z);
    Bytes64Xor(u, v);
    XorBytesPrefix(x, y, 8);
    Bytes64Injective(Load64(z), u ^ v);
  }

  /** A slice of a + b: inside a, inside b, or across the seam. */
  lemma ConcatSlice(a: seq<Byte>, b: seq<Byte>, lo: nat, hi: nat)
    requires lo <= hi <= |a| + |b|
    ensures hi <= |a| ==> (a + b)[lo..hi] == a[lo..hi]
    ensures |a| <= lo ==> (a + b)[lo..hi] == b[lo - |a|..hi - |a|]
    ensures lo <= |a| <= hi ==> (a + b)[lo..hi] == a[lo..] + b[..hi - |a|]
  {
  }

  /** A prefix of a + b[..r] that reaches n bytes into b is a + b[..n]. */
  lemma ConcatTakePrefix(a: seq<Byte>, b: seq<Byte>, r: nat, n: nat)
    requires n <= r <= |b|
    ensures (a + b[..r])[..|a| + n] == a + b[..n]
  {
    var u, w := (a + b[..r])[..|a| + n], a + b[..n];
    forall j | 0 <= j < |a| + n
      ensures u[j] == w[j]
    {
    }
    assert u == w;
  }

  /** A slice of a slice is a slice. */
  lemma SliceOfSlice(y: seq<Byte>, lo: nat, hi: nat, i: nat, j: nat)
    requires lo <= hi <= |y| && i <= j <= hi - lo
    ensures y[lo..hi][i..j] == y[lo + i..lo + j]
    ensures y[lo..][i..j] == y[lo + i..lo + j]
  {
    var u, v, w := y[lo..hi][i..j], y[lo..][i..j], y[lo + i..lo + j];
    forall t | 0 <= t < j - i
      ensures u[t] == w[t] && v[t] == w[t]
    {
    }
    assert u == w;
    assert v == w;
  }

  /** Taking k elements after dropping lo is the slice lo .. lo + k. */
  lemma TakeOfDrop(y: seq<Byte>, lo: nat, k: nat)
    requires lo + k <= |y|
    ensures y[lo..][..k] == y[lo..lo + k]
  {
    var u, w := y[lo..][..k], y[lo..lo + k];
    forall t | 0 <= t < k
      ensures u[t] == w[t]
    {
    }
    assert u == w;
  }

  /** When a[lo..hi] is all of b from lo on, their first k bytes from lo
      agree. */
  lemma SuffixPrefix(a: seq<Byte>, b: seq<Byte>, lo: nat, hi: nat, k: nat)
    requires lo + k <= hi <= |a| && hi == |b| && a[lo..hi] == b[lo..]
    ensures a[lo..lo + k] == b[lo..lo + k]
  {
    var u, w := a[lo..lo + k], b[lo..lo + k];
    forall t | 0 <= t < k
      ensures u[t] == w[t]
    {
      assert u[t] == a[lo..hi][t];
      assert w[t] == b[lo..][t];
    }
    assert u == w;
  }

  /** Dropping lo and then k elements is dropping lo + k. */
  lemma DropOfDrop(y: seq<Byte>, lo: nat, k: nat)
    requires lo + k <= |y|
    ensures y[lo..][k..] == y[lo + k..]
  {
    var u, w := y[lo..][k..], y[lo + k..];
    forall t | 0 <= t < |w|
      ensures u[t] == w[t]
    {
    }
    assert u == w;
  }

  /** a with the bytes b written over it from position off on. */
  function Splice(a: seq<Byte>, off: nat, b: seq<Byte>): (r: seq<Byte>)
    requires off + |b| <= |a|
    ensures |r| == |a|
  {
    a[..off] + b + a[off + |b|..]
  }

  /** Byte j after a write: from b inside the written range, from a outside. */
  lemma SpliceAt(a: seq<Byte>, off: nat, b: seq<Byte>, j: nat)
    requires off + |b| <= |a| && j < |a|
    ensures Splice(a, off, b)[j] == if off <= j < off + |b| then b[j - off] else a[j]
  {
  }

  /** Writing x and then y right after it is writing x + y. */
  lemma SpliceConcat(a: seq<Byte>, off: nat, x: seq<Byte>, y: seq<Byte>)
    requires off + |x| + |y| <= |a|
    ensures Splice(Splice(a, off, x), off + |x|, y) == Splice(a, off, x + y)
  {
    var l, r := Splice(Splice(a, off, x), off + |x|, y), Splice(a, off, x + y);
    assert forall j :: 0 <= j < |a| ==> l[j] == r[j];
  }

  /** Writing the prefix e[..lo] and then e[lo..hi] right after it is
      writing the prefix e[..hi]. */
  lemma SplicePrefix(a: seq<Byte>, off: nat, e: seq<Byte>, lo: nat, hi: nat)
    requires off + |e| <= |a| && lo <= hi <= |e|
    ensures Splice(Splice(a, off, e[..lo]), off + lo, e[lo..hi]) == Splice(a, off, e[..hi])
  {
    SpliceConcat(a, off, e[..lo], e[lo..hi]);
    assert e[..lo] + e[lo..hi] == e[..hi];
  }

  /** Bytes that agree one by one with m[lo..hi] form the slice m[lo..hi]. */
  lemma SliceAgrees(a: seq<Byte>, off: nat, m: seq<Byte>, lo: nat, hi: nat)
    requires lo <= hi <= |m| && off + hi <= |a|
    requires forall j :: lo <= j < hi ==> a[off + j] == m[j]
    ensures a[off + lo..off + hi] == m[lo..hi]
  {
    assert forall j :: 0 <= j < hi - lo ==> a[off + lo..off + hi][j] == m[lo..hi][j];
  }

  /** Bytes that agree one by one with a write of b into o are that write. */
  lemma SpliceFilled(a: seq<Byte>, o: seq<Byte>, off: nat, b: seq<Byte>)
    requires |a| == |o| && off + |b| <= |o|
    requires forall k :: 0 <= k < off ==> a[k] == o[k]
    requires forall j :: 0 <= j < |b| ==> a[off + j] == b[j]
    requires forall k :: off + |b| <= k < |a| ==> a[k] == o[k]
    ensures a == Splice(o, off, b)
  {
    forall k | 0 <= k < |a|
      ensures a[k] == Splice(o, off, b)[k]
    {
      SpliceAt(o, off, b, k);
      if off <= k < off + |b| {
        assert a[off + (k - off)] == b[k - off];
      }
    }
  }

  /** A write leaves every byte outside its range as it was. */
  lemma SpliceOutside(a: seq<Byte>, off: nat, b: seq<Byte>, lo: nat, hi: nat)
    requires off + |b| <= |a| && lo <= hi <= |a|
    requires hi <= off || off + |b| <= lo
    ensures Splice(a, off, b)[lo..hi] == a[lo..hi]
  {
  }

  /** A write puts exactly its bytes into its range. */
  lemma SpliceInside(a: seq<Byte>, off: nat, b: seq<Byte>)
    requires off + |b| <= |a|
    ensures Splice(a, off, b)[off..off + |b|] == b
  {
  }

  /** The first n bytes of a string written at offset 0 are read back
      from the start. */
  lemma SpliceTake(a: seq<Byte>, b: seq<Byte>, n: nat)
    requires |b| <= |a| && n <= |b|
    ensures Splice(a, 0, b)[..n] == b[..n]
  {
    var u := Splice(a, 0, b);
    forall j | 0 <= j < n
      ensures u[..n][j] == b[..n][j]
    {
    }
  }

  /** STORE64: writes the little-endian bytes of v, byte j being
      uint8(v >> 8j), into out[off .. off+8) and nothing else. The offset
      stands for the Go sub-slice out[off:]; the eight writes are independent
      and are made as one parallel assignment. */
  method Store64(out: array<Byte>, off: nat, v: Word)
    requires off + 8 <= out.Length
    modifies out
    ensures out[..] == Splice(old(out[..]), off, Bytes64(v))
  {
    ghost var o := out[..];
    forall j | 0 <= j < 8 {
      out[off + j] := ByteOf(v, j);
    }
    SpliceFilled(out[..], o, off, Bytes64(v));
  }

  /** Go's copy(dst[off:off+n], src): the first n bytes of src written into
      dst at off, as one parallel assignment (src is a different buffer). */
  method CopyInto(dst: array<Byte>, off: nat, src: array<Byte>, n: nat)
    requires dst != src && off + n <= dst.Length && n <= src.Length
    modifies dst
    ensures dst[..] == Splice(old(dst[..]), off, src[..n])
  {
    ghost var o := dst[..];
    forall j | 0 <= j < n {
      dst[off + j] := src[j];
    }
    SpliceFilled(dst[..], o, off, src[..n]);
  }

  /** A write of as many bytes as there are replaces everything. */
  lemma SpliceWhole(a: seq<Byte>, b: seq<Byte>)
    requires |a| == |b|
    ensures Splice(a, 0, b) == b
  {
    assert a[..0] + b + a[|b|..] == b;
  }

  /** BURN8: zeroes x[0 .. xlen) and leaves the rest of x alone. */
  method Burn8(x: array<Byte>, xlen: nat)
    requires xlen <= x.Length
    modifies x
    ensures forall j :: 0 <= j < xlen ==> x[j] == 0
    ensures x[xlen..] == old(x[xlen..])
  {
    var i := 0;
    while i < xlen
      invariant i <= xlen
      invariant forall j :: 0 <= j < i ==> x[j] == 0
      invariant x[xlen..] == old(x[xlen..])
    {
      x[i] := 0;
      i := i + 1;
    }
  }

  /** BURN64: zeroes the words x[0 .. xlen) and leaves the rest of x alone. */
  method Burn64(x: array<Word>, xlen: nat)
    requires xlen <= x.Length
    modifies x
    ensures forall j :: 0 <= j < xlen ==> x[j] == 0
    ensures x[xlen..] == old(x[xlen..])
  {
    var i := 0;
    while i < xlen
      invariant i <= xlen
      invariant forall j :: 0 <= j < i ==> x[j] == 0
      invariant x[xlen..] == old(x[xlen..])
    {
      x[i] := 0;
      i := i + 1;
    }
  }
}

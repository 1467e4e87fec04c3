/** The NORX permutation of aead/norx.go, for the parameter set of that file:
    64-bit words, four rounds. ROTR, H and G are pure word functions; F and
    permute rewrite the 16-word state in place. */
module NorxPermutation {
  import opened Utils

  /** NORX_W, the word size in bits. */
  const WordBits: Word := 64
  /** NORX_R, the number of rounds of F in one permutation. */
  const Rounds: nat := 4
  /** The rotation offsets R0 .. R3. */
  const R0: Word := 8
  const R1: Word := 19
  const R2: Word := 40
  const R3: Word := 63

  /** Go's x >> n on uint64: a shift by 64 or more bits gives 0. */
  function Shr(x: Word, n: Word): Word
  {
    if n <= 64 then x >> n else 0
  }

  /** Go's x << n on uint64: a shift by 64 or more bits gives 0. */
  function Shl(x: Word, n: Word): Word
  {
    if n <= 64 then x << n else 0
  }

  /** ROTR as written: x >> c | x << (NORX_W - c), where the subtraction
      wraps around modulo 2^64 like Go's uint64 arithmetic. With each of
      the four offsets of G (R0 = 8, R1 = 19, R2 = 40, R3 = 63) it is a
      true 64-bit right rotation. */
  function Rotr(x: Word, c: Word): (r: Word)
    ensures c == R0 ==> r == x.RotateRight(8)
    ensures c == R1 ==> r == x.RotateRight(19)
    ensures c == R2 ==> r == x.RotateRight(40)
    ensures c == R3 ==> r == x.RotateRight(63)
  {
    Shr(x, c) | Shl(x, 64 - c)
  }

  /** H: the nonlinear combiner, (x ^ y) ^ ((x & y) << 1). */
  function H(x: Word, y: Word): Word
  {
    (x ^ y) ^ ((x & y) << 1)
  }

  /** A word that equals its AND with y shifted left by one is zero: its
      lowest set bit would have to come from a lower one. */
  lemma NoFixedCarry(z: Word, y: Word)
    requires z == (z & y) << 1
    ensures z == 0
  {
  }

  /** The carry-like terms of two words differ by that of their XOR. */
  lemma CarryXor(x: Word, x': Word, y: Word)
    ensures ((x & y) << 1) ^ ((x' & y) << 1) == ((x ^ x') & y) << 1
  {
  }

  /** For a fixed second argument H is injective, so x is determined by
      H(x, y) and y. This is what lets every line of G, and so G, F and
      the permutation, be undone. */
  lemma HInjective(x: Word, x': Word, y: Word)
    requires H(x, y) == H(x', y)
    ensures x == x'
  {
    CarryXor(x, x', y);
    NoFixedCarry(x ^ x', y);
  }

  /** G: the quarter-round on four words, line by line as in the source. */
  function G(a: Word, b: Word, c: Word, d: Word): (Word, Word, Word, Word)
  {
    var a1 := H(a, b);
    var d1 := Rotr(a1 ^ d, R0);
    var c1 := H(c, d1);
    var b1 := Rotr(b ^ c1, R1);
    var a2 := H(a1, b1);
    var d2 := Rotr(a2 ^ d1, R2);
    var c2 := H(c1, d2);
    var b2 := Rotr(b1 ^ c2, R3);
    (a2, b2, c2, d2)
  }

  /** A position in the 16-word state. */
  type Index = i: nat | i < 16

  /** Four state positions that one application of G rewrites. */
  type Quad = (Index, Index, Index, Index)

  /** The column step of F. */
  const Columns: seq<Quad> := [(0, 4, 8, 12), (1, 5, 9, 13), (2, 6, 10, 14), (3, 7, 11, 15)]
  /** The diagonal step of F. */
  const Diagonals: seq<Quad> := [(0, 5, 10, 15), (1, 6, 11, 12), (2, 7, 8, 13), (3, 4, 9, 14)]
  /** The positions of a list of quads, in order. */
  function Positions(qs: seq<Quad>): (r: seq<Index>)
    ensures |r| == 4 * |qs|
  {
    if qs == [] then [] else [qs[0].0, qs[0].1, qs[0].2, qs[0].3] + Positions(qs[1..])
  }

  /** The quads rewrite every one of the 16 words of the state exactly once:
      16 positions in all, and each of 0 .. 15 among them. */
  predicate PartitionsState(qs: seq<Quad>)
  {
    var p := Positions(qs);
    |p| == 16 && forall i: Index :: i in p
  }

  /** The column step rewrites every word exactly once. */
  lemma ColumnsPartitionState()
    ensures PartitionsState(Columns)
  {
    assert Positions(Columns) == [0, 4, 8, 12, 1, 5, 9, 13, 2, 6, 10, 14, 3, 7, 11, 15];
  }

  /** The diagonal step rewrites every word exactly once. */
  lemma DiagonalsPartitionState()
    ensures PartitionsState(Diagonals)
  {
    assert Positions(Diagonals) == [0, 5, 10, 15, 1, 6, 11, 12, 2, 7, 8, 13, 3, 4, 9, 14];
  }

  /** The state after G has rewritten the positions of q. */
  function ApplyG(s: seq<Word>, q: Quad): (r: seq<Word>)
    requires |s| == 16
    ensures |r| == 16
  {
    var g := G(s[q.0], s[q.1], s[q.2], s[q.3]);
    s[q.0 := g.0][q.1 := g.1][q.2 := g.2][q.3 := g.3]
  }

  /** G applied to the quads qs[k..] in turn. */
  function ApplyQuads(s: seq<Word>, qs: seq<Quad>, k: nat): (r: seq<Word>)
    requires |s| == 16 && k <= |qs|
    ensures |r| == 16
    decreases |qs| - k
  {
    if k == |qs| then s else ApplyQuads(ApplyG(s, qs[k]), qs, k + 1)
  }

  /** The eight G applications of F, in order: the four columns, then the
      four diagonals. */
  const Schedule: seq<Quad> := Columns + Diagonals

  /** What F does to a state: G on the four columns, then G on the four
      diagonals. */
  function Round(s: seq<Word>): (r: seq<Word>)
    requires |s| == 16
    ensures |r| == 16
  {
    ApplyQuads(s, Schedule, 0)
  }

  /** Applying the quads of a + b from k on is applying those of a from k
      on, then all of b. */
  lemma {:induction false} ApplyQuadsConcat(s: seq<Word>, a: seq<Quad>, b: seq<Quad>, k: nat)
    requires |s| == 16 && k <= |a|
    ensures ApplyQuads(s, a + b, k) == ApplyQuads(ApplyQuads(s, a, k), b, 0)
    decreases |a| - k
  {
    if k < |a| {
      assert (a + b)[k] == a[k];
      ApplyQuadsConcat(ApplyG(s, a[k]), a, b, k + 1);
    } else {
      ApplyQuadsShift(s, a, b, 0);
    }
  }

  /** Past the end of a, the quads of a + b are those of b. */
  lemma {:induction false} ApplyQuadsShift(s: seq<Word>, a: seq<Quad>, b: seq<Quad>, j: nat)
    requires |s| == 16 && j <= |b|
    ensures ApplyQuads(s, a + b, |a| + j) == ApplyQuads(s, b, j)
    decreases |b| - j
  {
    if j < |b| {
      assert (a + b)[|a| + j] == b[j];
      ApplyQuadsShift(ApplyG(s, b[j]), a, b, j + 1);
    }
  }

  /** A round is the column step followed by the diagonal step. */
  lemma RoundIsColumnsThenDiagonals(s: seq<Word>)
    requires |s| == 16
    ensures Round(s) == ApplyQuads(ApplyQuads(s, Columns, 0), Diagonals, 0)
  {
    assert Schedule == Columns + Diagonals;
    ApplyQuadsConcat(s, Columns, Diagonals, 0);
  }

  /** F applied n times. */
  function RoundsOf(s: seq<Word>, n: nat): (r: seq<Word>)
    requires |s| == 16
    ensures |r| == 16
  {
    if n == 0 then s else Round(RoundsOf(s, n - 1))
  }

  /** What permute does to a state. */
  function Permuted(s: seq<Word>): (r: seq<Word>)
    requires |s| == 16
    ensures |r| == 16
  {
    RoundsOf(s, Rounds)
  }

  /** permute applies F exactly four times. */
  lemma PermutedIsFourRounds(s: seq<Word>)
    requires |s| == 16
    ensures Permuted(s) == Round(Round(Round(Round(s))))
  {
    assert RoundsOf(s, 1) == Round(s);
    assert RoundsOf(s, 2) == Round(RoundsOf(s, 1));
    assert RoundsOf(s, 3) == Round(RoundsOf(s, 2));
    assert RoundsOf(s, 4) == Round(RoundsOf(s, 3));
  }

  /** state_t: the 16-word NORX state. */
  class State {
    const s: array<Word>

    predicate Valid()
    {
      s.Length == 16
    }

    /** new(state_t): a fresh state with every word zero. */
    constructor ()
      ensures Valid() && fresh(s)
      ensures forall i :: 0 <= i < 16 ==> s[i] == 0
    {
      s := new Word[16](_ => 0);
    }
  }

  /** One line of F: G on the words at positions q, written back in place. */
  method GAt(s: array<Word>, q: Quad)
    requires s.Length == 16
    modifies s
    ensures s[..] == ApplyG(old(s[..]), q)
  {
    var g := G(s[q.0], s[q.1], s[q.2], s[q.3]);
    s[q.0] := g.0;
    s[q.1] := g.1;
    s[q.2] := g.2;
    s[q.3] := g.3;
  }

  /** The column step of F, in place. */
  method ColumnStep(s: array<Word>)
    requires s.Length == 16
    modifies s
    ensures s[..] == ApplyQuads(old(s[..]), Columns, 0)
  {
    ghost var r := ApplyQuads(s[..], Columns, 0);
    GAt(s, (0, 4, 8, 12));
    assert r == ApplyQuads(s[..], Columns, 1);
    GAt(s, (1, 5, 9, 13));
    assert r == ApplyQuads(s[..], Columns, 2);
    GAt(s, (2, 6, 10, 14));
    assert r == ApplyQuads(s[..], Columns, 3);
    GAt(s, (3, 7, 11, 15));
  }

  /** The diagonal step of F, in place. */
  method DiagonalStep(s: array<Word>)
    requires s.Length == 16
    modifies s
    ensures s[..] == ApplyQuads(old(s[..]), Diagonals, 0)
  {
    ghost var r := ApplyQuads(s[..], Diagonals, 0);
    GAt(s, (0, 5, 10, 15));
    assert r == ApplyQuads(s[..], Diagonals, 1);
    GAt(s, (1, 6, 11, 12));
    assert r == ApplyQuads(s[..], Diagonals, 2);
    GAt(s, (2, 7, 8, 13));
    assert r == ApplyQuads(s[..], Diagonals, 3);
    GAt(s, (3, 4, 9, 14));
  }

  /** F: one double round, in place. */
  method F(s: array<Word>)
    requires s.Length == 16
    modifies s
    ensures s[..] == Round(old(s[..]))
  {
    RoundIsColumnsThenDiagonals(s[..]);
    ColumnStep(s);
    DiagonalStep(s);
  }

  /** One more application of F advances RoundsOf by one. */
  lemma RoundsOfNext(s: seq<Word>, i: nat, before: seq<Word>, after: seq<Word>)
    requires |s| == 16 && before == RoundsOf(s, i) && after == Round(before)
    ensures after == RoundsOf(s, i + 1)
  {
  }

  /** permute: F, Rounds times, in place. */
  method Permute(st: State)
    requires st.Valid()
    modifies st.s
    ensures st.s[..] == Permuted(old(st.s[..]))
  {
    ghost var s0 := st.s[..];
    var i := 0;
    while i < 4
      invariant i <= Rounds
      invariant st.s[..] == RoundsOf(s0, i)
    {
      ghost var before := st.s[..];
      F(st.s);
      RoundsOfNext(s0, i, before, st.s[..]);
      i := i + 1;
    }
  }
}

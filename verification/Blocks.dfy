/** Row-major and blocked positions of the entries of a matrix
    (A3/traceprogs/blocked.c:37-46,249-319).

    The matrix has `nb` rows and columns of blocks, each of `b` rows and columns;
    its order is n = nb * b. */
module Blocks {

  /** The block size divides the order. */
  predicate Fits(n: nat, nb: nat, b: nat) {
    0 < b && n == nb * b
  }

  // ----- one number out of two

  /** Counting `x` full rounds of `m` and `y` more. */
  function Pair(x: nat, y: nat, m: nat): nat {
    x * m + y
  }

  /** Division and remainder by repeated subtraction, which keeps proofs linear;
      Division says what they are. */
  function Quot(p: nat, m: nat): nat
    requires 0 < m
  {
    if p < m then 0 else 1 + Quot(p - m, m)
  }

  function Rem(p: nat, m: nat): nat
    requires 0 < m
  {
    if p < m then p else Rem(p - m, m)
  }

  lemma {:induction false} PairJoins(p: nat, m: nat)
    requires 0 < m
    ensures Pair(Quot(p, m), Rem(p, m), m) == p && Rem(p, m) < m
  {
    if p >= m {
      PairJoins(p - m, m);
      assert (1 + Quot(p - m, m)) * m == m + Quot(p - m, m) * m;
    }
  }

  lemma {:induction false} MoreRounds(q: nat, x: nat, m: nat)
    requires x < q
    ensures q * m >= x * m + m
  {
    if q > x + 1 {
      MoreRounds(q - 1, x, m);
    }
    assert q * m == (q - 1) * m + m;
  }

  lemma PairUnique(x: nat, y: nat, q: nat, r: nat, m: nat)
    requires y < m && r < m && Pair(x, y, m) == Pair(q, r, m)
    ensures q == x && r == y
  {
    if q > x {
      MoreRounds(q, x, m);
    } else if q < x {
      MoreRounds(x, q, m);
    }
  }

  lemma PairSplits(x: nat, y: nat, m: nat)
    requires y < m
    ensures Quot(Pair(x, y, m), m) == x && Rem(Pair(x, y, m), m) == y
  {
    var z := Pair(x, y, m);
    PairJoins(z, m);
    PairUnique(x, y, Quot(z, m), Rem(z, m), m);
  }

  lemma PairBelow(x: nat, y: nat, m: nat, k: nat)
    requires x < k && y < m
    ensures Pair(x, y, m) < k * m
  {
    MoreRounds(k, x, m);
  }

  lemma QuotBelow(p: nat, m: nat, k: nat)
    requires 0 < m && p < k * m
    ensures Quot(p, m) < k && Rem(p, m) < m
  {
    PairJoins(p, m);
    if Quot(p, m) > k {
      MoreRounds(Quot(p, m), k, m);
    }
  }

  lemma DivisionJoins(p: nat, m: nat)
    requires 0 < m
    ensures Pair(p / m, p % m, m) == p
  {
  }

  lemma Division(p: nat, m: nat)
    requires 0 < m
    ensures Quot(p, m) == p / m && Rem(p, m) == p % m
  {
    DivisionJoins(p, m);
    PairJoins(p, m);
    PairUnique(p / m, p % m, Quot(p, m), Rem(p, m), m);
  }

  /** Both layouts have the same number of entries. */
  lemma SameSize(n: nat, nb: nat, b: nat)
    requires Fits(n, nb, b)
    ensures n * n == nb * nb * (b * b)
  {
    assert (nb * b) * (nb * b) == nb * nb * (b * b);
  }

  // ----- positions

  /** Entry (ii, jj) of block (ib, jb), row by row over the whole matrix. */
  function RowPos(n: nat, b: nat, ib: nat, jb: nat, ii: nat, jj: nat): nat {
    Pair(Pair(ib, ii, b), Pair(jb, jj, b), n)
  }

  /** The same entry, block by block and row by row in each. */
  function BlockPos(nb: nat, b: nat, ib: nat, jb: nat, ii: nat, jj: nat): nat {
    Pair(Pair(ib, jb, nb), Pair(ii, jj, b), b * b)
  }

  /** Where block (ib, jb) starts. */
  function BlockStart(ib: nat, jb: nat, nb: nat, bSqr: nat): nat {
    (ib * nb + jb) * bSqr
  }

  predicate InBlock(nb: nat, b: nat, ib: nat, jb: nat, ii: nat, jj: nat) {
    ib < nb && jb < nb && ii < b && jj < b
  }

  lemma Square(b: nat)
    requires 0 < b
    ensures 0 < b <= b * b
  {
  }

  lemma PosBelow(n: nat, nb: nat, b: nat, ib: nat, jb: nat, ii: nat, jj: nat)
    requires Fits(n, nb, b) && InBlock(nb, b, ib, jb, ii, jj)
    ensures RowPos(n, b, ib, jb, ii, jj) < n * n && BlockPos(nb, b, ib, jb, ii, jj) < n * n
    ensures Pair(ib, ii, b) < n && Pair(jb, jj, b) < n && Pair(ii, jj, b) < b * b
  {
    PairBelow(ib, ii, b, nb);
    PairBelow(jb, jj, b, nb);
    PairBelow(Pair(ib, ii, b), Pair(jb, jj, b), n, n);
    PairBelow(ib, jb, nb, nb);
    PairBelow(ii, jj, b, b);
    PairBelow(Pair(ib, jb, nb), Pair(ii, jj, b), b * b, nb * nb);
    SameSize(n, nb, b);
  }

  lemma RowParts(n: nat, nb: nat, b: nat, r: nat)
    requires Fits(n, nb, b) && r < n * n
    ensures 0 < n && Quot(r, n) < n && Rem(r, n) < n
    ensures InBlock(nb, b, Quot(Quot(r, n), b), Quot(Rem(r, n), b), Rem(Quot(r, n), b), Rem(Rem(r, n), b))
  {
    QuotBelow(r, n, n);
    QuotBelow(Quot(r, n), b, nb);
    QuotBelow(Rem(r, n), b, nb);
  }

  lemma BlockParts(n: nat, nb: nat, b: nat, p: nat)
    requires Fits(n, nb, b) && p < n * n
    ensures 0 < nb && 0 < b * b
    ensures InBlock(nb, b, Quot(Quot(p, b * b), nb), Rem(Quot(p, b * b), nb), Quot(Rem(p, b * b), b), Rem(Rem(p,
            b * b), b))
  {
    SameSize(n, nb, b);
    Square(b);
    QuotBelow(p, b * b, nb * nb);
    QuotBelow(Quot(p, b * b), nb, nb);
    QuotBelow(Rem(p, b * b), b, b);
  }

  /** Where the entry at row-major position `r` goes: with r = i * n + j, it is
      entry (i mod b, j mod b) of block (i / b, j / b). */
  function ToPos(n: nat, nb: nat, b: nat, r: nat): (p: nat)
    requires Fits(n, nb, b) && r < n * n
    ensures p < n * n
  {
    RowParts(n, nb, b, r);
    var i, j := Quot(r, n), Rem(r, n);
    PosBelow(n, nb, b, Quot(i, b), Quot(j, b), Rem(i, b), Rem(j, b));
    BlockPos(nb, b, Quot(i, b), Quot(j, b), Rem(i, b), Rem(j, b))
  }

  /** Which row-major position blocked position `p` holds. */
  function FromPos(n: nat, nb: nat, b: nat, p: nat): (r: nat)
    requires Fits(n, nb, b) && p < n * n
    ensures r < n * n
  {
    BlockParts(n, nb, b, p);
    var block, off := Quot(p, b * b), Rem(p, b * b);
    PosBelow(n, nb, b, Quot(block, nb), Rem(block, nb), Quot(off, b), Rem(off, b));
    RowPos(n, b, Quot(block, nb), Rem(block, nb), Quot(off, b), Rem(off, b))
  }

  /** Entry (i, j) goes to (i/b * n/b + j/b) * b*b + (i mod b) * b + j mod b. */
  lemma ToPosFormula(n: nat, nb: nat, b: nat, i: nat, j: nat)
    requires Fits(n, nb, b) && i < n && j < n
    ensures Pair(i, j, n) < n * n
    ensures ToPos(n, nb, b, Pair(i, j, n)) == (i / b * nb + j / b) * (b * b) + (i % b * b + j % b)
  {
    PairBelow(i, j, n, n);
    PairSplits(i, j, n);
    Division(i, b);
    Division(j, b);
  }

  /** The two maps take the positions of an entry to one another. */
  lemma PosMaps(n: nat, nb: nat, b: nat, ib: nat, jb: nat, ii: nat, jj: nat)
    requires Fits(n, nb, b) && InBlock(nb, b, ib, jb, ii, jj)
    ensures RowPos(n, b, ib, jb, ii, jj) < n * n && BlockPos(nb, b, ib, jb, ii, jj) < n * n
    ensures ToPos(n, nb, b, RowPos(n, b, ib, jb, ii, jj)) == BlockPos(nb, b, ib, jb, ii, jj)
    ensures FromPos(n, nb, b, BlockPos(nb, b, ib, jb, ii, jj)) == RowPos(n, b, ib, jb, ii, jj)
  {
    PosBelow(n, nb, b, ib, jb, ii, jj);
    PairSplits(Pair(ib, ii, b), Pair(jb, jj, b), n);
    PairSplits(ib, ii, b);
    PairSplits(jb, jj, b);
    PairSplits(Pair(ib, jb, nb), Pair(ii, jj, b), b * b);
    PairSplits(ib, jb, nb);
    PairSplits(ii, jj, b);
  }

  /** The maps are inverse permutations of the positions. */
  lemma PosInverse(n: nat, nb: nat, b: nat, p: nat)
    requires Fits(n, nb, b) && p < n * n
    ensures ToPos(n, nb, b, FromPos(n, nb, b, p)) == p
    ensures FromPos(n, nb, b, ToPos(n, nb, b, p)) == p
  {
    RowFirst(n, nb, b, p);
    BlockFirst(n, nb, b, p);
  }

  lemma RowFirst(n: nat, nb: nat, b: nat, r: nat)
    requires Fits(n, nb, b) && r < n * n
    ensures FromPos(n, nb, b, ToPos(n, nb, b, r)) == r
  {
    RowParts(n, nb, b, r);
    var i, j := Quot(r, n), Rem(r, n);
    PairJoins(i, b);
    PairJoins(j, b);
    PairJoins(r, n);
    PosMaps(n, nb, b, Quot(i, b), Quot(j, b), Rem(i, b), Rem(j, b));
  }

  lemma BlockFirst(n: nat, nb: nat, b: nat, p: nat)
    requires Fits(n, nb, b) && p < n * n
    ensures ToPos(n, nb, b, FromPos(n, nb, b, p)) == p
  {
    BlockParts(n, nb, b, p);
    var block, off := Quot(p, b * b), Rem(p, b * b);
    PairJoins(block, nb);
    PairJoins(off, b);
    PairJoins(p, b * b);
    PosMaps(n, nb, b, Quot(block, nb), Rem(block, nb), Quot(off, b), Rem(off, b));
  }

  // ----- a whole matrix in either layout

  /** The matrix block by block. */
  function Blocked<T>(x: seq<T>, n: nat, nb: nat, b: nat): (y: seq<T>)
    requires Fits(n, nb, b) && |x| == n * n
    ensures |y| == |x| && forall p: nat | p < n * n :: y[p] == x[FromPos(n, nb, b, p)]
  {
    seq(n * n, p requires 0 <= p < n * n => x[FromPos(n, nb, b, p)])
  }

  /** The matrix row by row again. */
  function Unblocked<T>(y: seq<T>, n: nat, nb: nat, b: nat): (x: seq<T>)
    requires Fits(n, nb, b) && |y| == n * n
    ensures |x| == |y| && forall p: nat | p < n * n :: x[p] == y[ToPos(n, nb, b, p)]
  {
    seq(n * n, p requires 0 <= p < n * n => y[ToPos(n, nb, b, p)])
  }

  /** The layouts are two ways to store the same matrix: each conversion undoes the other. */
  lemma Conversions<T>(x: seq<T>, n: nat, nb: nat, b: nat)
    requires Fits(n, nb, b) && |x| == n * n
    ensures Unblocked(Blocked(x, n, nb, b), n, nb, b) == x
    ensures Blocked(Unblocked(x, n, nb, b), n, nb, b) == x
  {
    forall p: nat | p < n * n
      ensures Unblocked(Blocked(x, n, nb, b), n, nb, b)[p] == x[p]
      ensures Blocked(Unblocked(x, n, nb, b), n, nb, b)[p] == x[p]
    {
      PosInverse(n, nb, b, p);
    }
  }

  /** An entry keeps its value: blocked position and row-major position of (ii, jj)
      in block (ib, jb). */
  lemma BlockedEntry<T>(x: seq<T>, n: nat, nb: nat, b: nat, ib: nat, jb: nat, ii: nat, jj: nat)
    requires Fits(n, nb, b) && |x| == n * n && InBlock(nb, b, ib, jb, ii, jj)
    ensures BlockPos(nb, b, ib, jb, ii, jj) < n * n && RowPos(n, b, ib, jb, ii, jj) < n * n
    ensures Blocked(x, n, nb, b)[BlockPos(nb, b, ib, jb, ii, jj)] == x[RowPos(n, b, ib, jb, ii, jj)]
  {
    PosMaps(n, nb, b, ib, jb, ii, jj);
  }
}

/** The product of two matrices, row by row and block by block.

    Numbers are any type with a zero, an addition and a multiplication, about which
    nothing is assumed: both programs do the same operations in the same order, so
    they agree even where the operations round. */
module Products {
  import opened Blocks

  datatype Arithmetic<!T> = Arithmetic(zero: T, add: (T, T) -> T, mul: (T, T) -> T)

  /** Entry (i, j) of a matrix stored row by row. */
  function At<T>(x: seq<T>, n: nat, i: nat, j: nat): T
    requires |x| == n * n && i < n && j < n
  {
    PairBelow(i, j, n, n);
    x[Pair(i, j, n)]
  }

  /** The first `k` terms of the sum for entry (i, j) of the product. */
  function Dot<T>(ops: Arithmetic<T>, x: seq<T>, y: seq<T>, n: nat, i: nat, j: nat, k: nat): T
    requires |x| == |y| == n * n && i < n && j < n && k <= n
  {
    if k == 0 then ops.zero
    else ops.add(Dot(ops, x, y, n, i, j, k - 1), ops.mul(At(x, n, i, k - 1), At(y, n, k - 1, j)))
  }

  ghost function ProductAt<T>(ops: Arithmetic<T>, x: seq<T>, y: seq<T>, n: nat, r: nat): T
    requires |x| == |y| == n * n && r < n * n
  {
    QuotBelow(r, n, n);
    Dot(ops, x, y, n, Quot(r, n), Rem(r, n), n)
  }

  /** The product, row by row. */
  ghost function Product<T>(ops: Arithmetic<T>, x: seq<T>, y: seq<T>, n: nat): (c: seq<T>)
    requires |x| == |y| == n * n
    ensures |c| == n * n && forall r: nat | r < n * n :: c[r] == ProductAt(ops, x, y, n, r)
  {
    seq(n * n, r requires 0 <= r < n * n => ProductAt(ops, x, y, n, r))
  }

  // ----- blocks

  /** Entry (ii, jj) of block (ib, jb) of a matrix stored block by block. */
  function BlockAt<T>(x: seq<T>, n: nat, nb: nat, b: nat, ib: nat, jb: nat, ii: nat, jj: nat): T
    requires Fits(n, nb, b) && |x| == n * n && InBlock(nb, b, ib, jb, ii, jj)
  {
    PosBelow(n, nb, b, ib, jb, ii, jj);
    x[BlockPos(nb, b, ib, jb, ii, jj)]
  }

  /** `c` plus the first `k` terms that block `kb` adds to entry (ii, jj) of block (ib, jb). */
  function AddBlock<T>(ops: Arithmetic<T>, c: T, x: seq<T>, y: seq<T>, n: nat, nb: nat, b: nat,
                       ib: nat, jb: nat, kb: nat, ii: nat, jj: nat, k: nat): T
    requires Fits(n, nb, b) && |x| == |y| == n * n && InBlock(nb, b, ib, jb, ii, jj) && kb < nb && k <= b
  {
    if k == 0 then c
    else ops.add(AddBlock(ops, c, x, y, n, nb, b, ib, jb, kb, ii, jj, k - 1),
                 ops.mul(BlockAt(x, n, nb, b, ib, kb, ii, k - 1), BlockAt(y, n, nb, b, kb, jb, k - 1, jj)))
  }

  /** What the first `kb` blocks add up to. */
  function BlockDot<T>(ops: Arithmetic<T>, x: seq<T>, y: seq<T>, n: nat, nb: nat, b: nat,
                       ib: nat, jb: nat, ii: nat, jj: nat, kb: nat): T
    requires Fits(n, nb, b) && |x| == |y| == n * n && InBlock(nb, b, ib, jb, ii, jj) && kb <= nb
  {
    if kb == 0 then ops.zero
    else AddBlock(ops, BlockDot(ops, x, y, n, nb, b, ib, jb, ii, jj, kb - 1), x, y, n, nb, b, ib, jb, kb - 1, ii, jj, b)
  }

  ghost function BlockProductAt<T>(ops: Arithmetic<T>, x: seq<T>, y: seq<T>, n: nat, nb: nat, b: nat, p: nat): T
    requires Fits(n, nb, b) && |x| == |y| == n * n && p < n * n
  {
    BlockParts(n, nb, b, p);
    BlockDot(ops, x, y, n, nb, b, Quot(Quot(p, b * b), nb), Rem(Quot(p, b * b), nb),
             Quot(Rem(p, b * b), b), Rem(Rem(p, b * b), b), nb)
  }

  /** What the blocked program computes from two matrices stored block by block. */
  ghost function BlockProduct<T>(ops: Arithmetic<T>, x: seq<T>, y: seq<T>, n: nat, nb: nat, b: nat): (c: seq<T>)
    requires Fits(n, nb, b) && |x| == |y| == n * n
    ensures |c| == n * n && forall p: nat | p < n * n :: c[p] == BlockProductAt(ops, x, y, n, nb, b, p)
  {
    seq(n * n, p requires 0 <= p < n * n => BlockProductAt(ops, x, y, n, nb, b, p))
  }

  // ----- the same sums

  /** An entry of a matrix is the same in either layout. */
  lemma SameEntry<T>(x: seq<T>, n: nat, nb: nat, b: nat, ib: nat, jb: nat, ii: nat, jj: nat)
    requires Fits(n, nb, b) && |x| == n * n && InBlock(nb, b, ib, jb, ii, jj)
    ensures Pair(ib, ii, b) < n && Pair(jb, jj, b) < n
    ensures BlockAt(Blocked(x, n, nb, b), n, nb, b, ib, jb, ii, jj) == At(x, n, Pair(ib, ii, b), Pair(jb, jj, b))
  {
    PosBelow(n, nb, b, ib, jb, ii, jj);
    BlockedEntry(x, n, nb, b, ib, jb, ii, jj);
  }

  /** The factors of term `k` of block `kb`, where `from` terms come before the block. */
  lemma SameFactors<T>(x: seq<T>, y: seq<T>, n: nat, nb: nat, b: nat, ib: nat, jb: nat, kb: nat, from: nat,
                       ii: nat, jj: nat, k: nat)
    requires Fits(n, nb, b) && |x| == |y| == n * n && InBlock(nb, b, ib, jb, ii, jj)
    requires kb < nb && from == Pair(kb, 0, b) && from + b <= n && k < b
    ensures Pair(ib, ii, b) < n && Pair(jb, jj, b) < n
    ensures BlockAt(Blocked(x, n, nb, b), n, nb, b, ib, kb, ii, k) == At(x, n, Pair(ib, ii, b), from + k)
    ensures BlockAt(Blocked(y, n, nb, b), n, nb, b, kb, jb, k, jj) == At(y, n, from + k, Pair(jb, jj, b))
  {
    SameEntry(x, n, nb, b, ib, kb, ii, k);
    SameEntry(y, n, nb, b, kb, jb, k, jj);
  }

  /** `k` terms of block `kb` after the `from` terms of the blocks before it. */
  lemma {:induction false} SameTerms<T>(ops: Arithmetic<T>, x: seq<T>, y: seq<T>, n: nat, nb: nat, b: nat,
                                       ib: nat, jb: nat, kb: nat, from: nat, ii: nat, jj: nat, k: nat)
    requires Fits(n, nb, b) && |x| == |y| == n * n && InBlock(nb, b, ib, jb, ii, jj)
    requires kb < nb && from == Pair(kb, 0, b) && from + b <= n && k <= b
    ensures Pair(ib, ii, b) < n && Pair(jb, jj, b) < n
    ensures AddBlock(ops, Dot(ops, x, y, n, Pair(ib, ii, b), Pair(jb, jj, b), from),
                     Blocked(x, n, nb, b), Blocked(y, n, nb, b), n, nb, b, ib, jb, kb, ii, jj, k)
         == Dot(ops, x, y, n, Pair(ib, ii, b), Pair(jb, jj, b), from + k)
  {
    hide Blocked, BlockAt, At, Pair;
    PosBelow(n, nb, b, ib, jb, ii, jj);
    if k > 0 {
      SameTerms(ops, x, y, n, nb, b, ib, jb, kb, from, ii, jj, k - 1);
      SameFactors(x, y, n, nb, b, ib, jb, kb, from, ii, jj, k - 1);
    }
  }

  lemma Rounds(kb: nat, nb: nat, b: nat)
    requires kb <= nb
    ensures kb * b <= nb * b
    ensures kb > 0 ==> (kb - 1) * b + b == kb * b
  {
    if kb < nb {
      MoreRounds(nb, kb, b);
    }
  }

  lemma NoBlocksBefore(b: nat)
    ensures Pair(0, 0, b) == 0
  {
  }

  /** The terms before block `kb` and those in it. */
  lemma BlocksBefore(kb: nat, n: nat, nb: nat, b: nat)
    requires kb < nb && Fits(n, nb, b)
    ensures Pair(kb, 0, b) + b == Pair(kb + 1, 0, b) <= n
  {
    MoreRounds(nb, kb, b);
  }

  /** The sum regrouped block by block is the sum; `k` is the number of terms in the
      first `kb` blocks. */
  lemma {:induction false} SameSum<T>(ops: Arithmetic<T>, x: seq<T>, y: seq<T>, n: nat, nb: nat, b: nat,
                                     ib: nat, jb: nat, ii: nat, jj: nat, kb: nat, k: nat)
    requires Fits(n, nb, b) && |x| == |y| == n * n && InBlock(nb, b, ib, jb, ii, jj)
    requires kb <= nb && k == Pair(kb, 0, b) <= n
    ensures Pair(ib, ii, b) < n && Pair(jb, jj, b) < n
    ensures BlockDot(ops, Blocked(x, n, nb, b), Blocked(y, n, nb, b), n, nb, b, ib, jb, ii, jj, kb)
         == Dot(ops, x, y, n, Pair(ib, ii, b), Pair(jb, jj, b), k)
    decreases kb
  {
    hide AddBlock, Blocked, Pair;
    PosBelow(n, nb, b, ib, jb, ii, jj);
    if kb == 0 {
      NoBlocksBefore(b);
    } else {
      BlocksBefore(kb - 1, n, nb, b);
      SameSum(ops, x, y, n, nb, b, ib, jb, ii, jj, kb - 1, k - b);
      SameTerms(ops, x, y, n, nb, b, ib, jb, kb - 1, k - b, ii, jj, b);
    }
  }

  lemma SameProductAt<T>(ops: Arithmetic<T>, x: seq<T>, y: seq<T>, n: nat, nb: nat, b: nat, p: nat)
    requires Fits(n, nb, b) && |x| == |y| == n * n && p < n * n
    ensures BlockProductAt(ops, Blocked(x, n, nb, b), Blocked(y, n, nb, b), n, nb, b, p)
         == ProductAt(ops, x, y, n, FromPos(n, nb, b, p))
  {
    BlockParts(n, nb, b, p);
    var block, off := Quot(p, b * b), Rem(p, b * b);
    var ib, jb, ii, jj := Quot(block, nb), Rem(block, nb), Quot(off, b), Rem(off, b);
    assert n == Pair(nb, 0, b);
    SameSum(ops, x, y, n, nb, b, ib, jb, ii, jj, nb, n);
    PosBelow(n, nb, b, ib, jb, ii, jj);
    PairSplits(Pair(ib, ii, b), Pair(jb, jj, b), n);
  }

  /** Blocked multiplication is correct: multiplying blocked matrices block by block
      gives the blocked product. */
  lemma BlockedProduct<T>(ops: Arithmetic<T>, x: seq<T>, y: seq<T>, n: nat, nb: nat, b: nat)
    requires Fits(n, nb, b) && |x| == |y| == n * n
    ensures BlockProduct(ops, Blocked(x, n, nb, b), Blocked(y, n, nb, b), n, nb, b)
            == Blocked(Product(ops, x, y, n), n, nb, b)
  {
    forall p: nat | p < n * n
      ensures BlockProductAt(ops, Blocked(x, n, nb, b), Blocked(y, n, nb, b), n, nb, b, p)
           == Blocked(Product(ops, x, y, n), n, nb, b)[p]
    {
      SameProductAt(ops, x, y, n, nb, b, p);
    }
  }

  /** On any two arrays the blocked program computes the product of the matrices they
      hold in blocked storage (the program's note 6: without the conversions it does
      not multiply the row-major ones). */
  lemma RawProduct<T>(ops: Arithmetic<T>, x: seq<T>, y: seq<T>, n: nat, nb: nat, b: nat)
    requires Fits(n, nb, b) && |x| == |y| == n * n
    ensures BlockProduct(ops, x, y, n, nb, b)
         == Blocked(Product(ops, Unblocked(x, n, nb, b), Unblocked(y, n, nb, b), n), n, nb, b)
  {
    BlockedProduct(ops, Unblocked(x, n, nb, b), Unblocked(y, n, nb, b), n, nb, b);
    Conversions(x, n, nb, b);
    Conversions(y, n, nb, b);
  }
}

/** The two matrix programs (A3/traceprogs/blocked.c, A3/traceprogs/matmul.c), over
    their global arrays. */
module BlockedProgram {
  import opened Blocks
  import opened Products

  lemma EntryOfProduct<T>(ops: Arithmetic<T>, x: seq<T>, y: seq<T>, n: nat, i: nat, j: nat)
    requires |x| == |y| == n * n && i < n && j < n
    ensures i * n + j < n * n && ProductAt(ops, x, y, n, i * n + j) == Dot(ops, x, y, n, i, j, n)
  {
    PairBelow(i, j, n, n);
    PairSplits(i, j, n);
  }

  lemma DotStep<T>(ops: Arithmetic<T>, x: seq<T>, y: seq<T>, n: nat, i: nat, j: nat, k: nat)
    requires |x| == |y| == n * n && i < n && j < n && k < n
    ensures i * n + k < n * n && k * n + j < n * n
    ensures Dot(ops, x, y, n, i, j, k + 1) == ops.add(Dot(ops, x, y, n, i, j, k), ops.mul(x[i * n + k], y[k * n + j]))
  {
    PairBelow(i, k, n, n);
    PairBelow(k, j, n, n);
  }

  lemma DotStart<T>(ops: Arithmetic<T>, x: seq<T>, y: seq<T>, n: nat, i: nat, j: nat)
    requires |x| == |y| == n * n && i < n && j < n
    ensures Dot(ops, x, y, n, i, j, 0) == ops.zero
  {
  }

  /** The standard algorithm. */
  method MatMult<T>(ops: Arithmetic<T>, a: array<T>, b: array<T>, c: array<T>, n: nat)
    requires a.Length == b.Length == c.Length == n * n && c != a && c != b
    modifies c
    ensures c[..] == Product(ops, a[..], b[..], n)
  {
    hide ProductAt, Dot;
    ghost var x, y := a[..], b[..];
    for i := 0 to n
      invariant i * n <= n * n
      invariant forall r: nat | r < i * n :: c[r] == ProductAt(ops, x, y, n, r)
    {
      Rounds(i, n, n);
      MoreRounds(n, i, n);
      for j := 0 to n
        invariant forall r: nat | r < i * n + j :: c[r] == ProductAt(ops, x, y, n, r)
      {
        EntryOfProduct(ops, x, y, n, i, j);
        DotStart(ops, x, y, n, i, j);
        c[i * n + j] := ops.zero;
        for k := 0 to n
          invariant c[i * n + j] == Dot(ops, x, y, n, i, j, k)
          invariant forall r: nat | r < i * n + j :: c[r] == ProductAt(ops, x, y, n, r)
        {
          DotStep(ops, x, y, n, i, j, k);
          c[i * n + j] := ops.add(c[i * n + j], ops.mul(a[i * n + k], b[k * n + j]));
        }
      }
      assert (i + 1) * n == i * n + n;
    }
  }

  /** Copies block (ib, jb) of the row-major matrix in `from` to `to`, from `t` on. */
  method CopyBlockOut<T>(from: array<T>, to: array<T>, n: nat, nb: nat, b: nat, ib: nat, jb: nat,
                         t: nat) returns (end: nat)
    requires Fits(n, nb, b) && from.Length == to.Length == n * n && to != from
    requires ib < nb && jb < nb && t == BlockStart(ib, jb, nb, b * b)
    requires forall p: nat | p < t && p < n * n :: to[p] == from[FromPos(n, nb, b, p)]
    modifies to
    ensures end == t + b * b <= n * n
    ensures forall p: nat | p < end :: to[p] == from[FromPos(n, nb, b, p)]
  {
    BlockEnds(n, nb, b, ib, jb);
    var fromP, toP := ib * b * n + jb * b, t;
    for i := 0 to b
      invariant toP == t + i * b <= t + b * b
      invariant fromP == Pair(ib, i, b) * n + jb * b
      invariant forall p: nat | p < toP :: to[p] == from[FromPos(n, nb, b, p)]
    {
      Rounds(i + 1, b, b);
      for j := 0 to b
        invariant toP == t + i * b + j
        invariant fromP == Pair(ib, i, b) * n + jb * b + j
        invariant forall p: nat | p < toP :: to[p] == from[FromPos(n, nb, b, p)]
      {
        PosMaps(n, nb, b, ib, jb, i, j);
        assert toP == BlockPos(nb, b, ib, jb, i, j);
        assert fromP == RowPos(n, b, ib, jb, i, j);
        to[toP] := from[fromP];
        toP := toP + 1;
        fromP := fromP + 1;
      }
      NextRow(n, nb, b, ib, i);
      fromP := fromP + (n - b);
    }
    end := toP;
  }

  lemma BlockEnds(n: nat, nb: nat, b: nat, ib: nat, jb: nat)
    requires Fits(n, nb, b) && ib < nb && jb < nb
    ensures BlockStart(ib, jb, nb, b * b) + b * b <= n * n
    ensures b <= n
  {
    PairBelow(ib, jb, nb, nb);
    SameSize(n, nb, b);
    MoreRounds(nb * nb, Pair(ib, jb, nb), b * b);
    MoreRounds(nb, 0, b);
  }

  lemma NextRow(n: nat, nb: nat, b: nat, ib: nat, i: nat)
    requires Fits(n, nb, b)
    ensures Pair(ib, i + 1, b) * n == Pair(ib, i, b) * n + n
  {
    assert Pair(ib, i + 1, b) == Pair(ib, i, b) + 1;
  }

  lemma NextBlock(n: nat, nb: nat, b: nat, ib: nat, jb: nat)
    ensures BlockStart(ib, jb + 1, nb, b * b) == BlockStart(ib, jb, nb, b * b) + b * b
    ensures BlockStart(ib, nb, nb, b * b) == BlockStart(ib + 1, 0, nb, b * b)
  {
    assert Pair(ib, jb + 1, nb) == Pair(ib, jb, nb) + 1;
    assert Pair(ib, nb, nb) == Pair(ib + 1, 0, nb);
  }

  lemma LastBlock(n: nat, nb: nat, b: nat)
    requires Fits(n, nb, b)
    ensures BlockStart(nb, 0, nb, b * b) == n * n
  {
    SameSize(n, nb, b);
  }

  /** Converts the matrix from row-major to blocked storage. */
  method ToBlocked<T(0)>(a: array<T>, n: nat, b: nat)
    requires 0 < b && n % b == 0 && a.Length == n * n
    modifies a
    ensures Fits(n, n / b, b) && a[..] == Blocked(old(a[..]), n, n / b, b)
  {
    var nBar := n / b;
    ghost var was := a[..];
    var temp := new T[n * n];
    var t := 0;
    for ib := 0 to nBar
      invariant t == BlockStart(ib, 0, nBar, b * b)
      invariant a[..] == was
      invariant forall p: nat | p < t && p < n * n :: temp[p] == a[FromPos(n, nBar, b, p)]
    {
      for jb := 0 to nBar
        invariant t == BlockStart(ib, jb, nBar, b * b)
        invariant a[..] == was
        invariant forall p: nat | p < t && p < n * n :: temp[p] == a[FromPos(n, nBar, b, p)]
      {
        t := CopyBlockOut(a, temp, n, nBar, b, ib, jb, t);
        NextBlock(n, nBar, b, ib, jb);
      }
      NextBlock(n, nBar, b, ib, 0);
    }
    LastBlock(n, nBar, b);
    CopyAll(temp, a);
  }

  /** memcpy of a whole array. */
  method CopyAll<T>(from: array<T>, to: array<T>)
    requires from.Length == to.Length && from != to
    modifies to
    ensures to[..] == from[..]
  {
    for i := 0 to from.Length
      invariant to[..i] == from[..i]
    {
      to[i] := from[i];
    }
  }

  /** Copies block (ib, jb), stored in `from` from `c` on, to its rows in `to`. */
  method CopyBlockIn<T>(from: array<T>, to: array<T>, n: nat, nb: nat, b: nat, ib: nat, jb: nat,
                        c: nat) returns (end: nat)
    requires Fits(n, nb, b) && from.Length == to.Length == n * n && to != from
    requires ib < nb && jb < nb && c == BlockStart(ib, jb, nb, b * b)
    requires forall p: nat | p < c && p < n * n :: to[FromPos(n, nb, b, p)] == from[p]
    modifies to
    ensures end == c + b * b <= n * n
    ensures forall p: nat | p < end :: to[FromPos(n, nb, b, p)] == from[p]
  {
    BlockEnds(n, nb, b, ib, jb);
    var toP, fromP := ib * b * n + jb * b, c;
    for i := 0 to b
      invariant fromP == c + i * b <= c + b * b
      invariant toP == Pair(ib, i, b) * n + jb * b
      invariant forall p: nat | p < fromP :: to[FromPos(n, nb, b, p)] == from[p]
    {
      Rounds(i + 1, b, b);
      for j := 0 to b
        invariant fromP == c + i * b + j
        invariant toP == Pair(ib, i, b) * n + jb * b + j
        invariant forall p: nat | p < fromP :: to[FromPos(n, nb, b, p)] == from[p]
      {
        PosMaps(n, nb, b, ib, jb, i, j);
        assert fromP == BlockPos(nb, b, ib, jb, i, j);
        assert toP == RowPos(n, b, ib, jb, i, j);
        forall p: nat | p < fromP
          ensures FromPos(n, nb, b, p) != toP
        {
          PosInverse(n, nb, b, p);
        }
        to[toP] := from[fromP];
        toP := toP + 1;
        fromP := fromP + 1;
      }
      NextRow(n, nb, b, ib, i);
      toP := toP + (n - b);
    }
    end := fromP;
  }

  /** Converts the matrix from blocked to row-major storage. */
  method FromBlocked<T(0)>(c: array<T>, n: nat, b: nat)
    requires 0 < b && n % b == 0 && c.Length == n * n
    modifies c
    ensures Fits(n, n / b, b) && c[..] == Unblocked(old(c[..]), n, n / b, b)
  {
    var nBar := n / b;
    ghost var was := c[..];
    var temp := new T[n * n];
    var p := 0;
    for ib := 0 to nBar
      invariant p == BlockStart(ib, 0, nBar, b * b)
      invariant c[..] == was
      invariant forall r: nat | r < p && r < n * n :: temp[FromPos(n, nBar, b, r)] == c[r]
    {
      for jb := 0 to nBar
        invariant p == BlockStart(ib, jb, nBar, b * b)
        invariant c[..] == was
        invariant forall r: nat | r < p && r < n * n :: temp[FromPos(n, nBar, b, r)] == c[r]
      {
        p := CopyBlockIn(c, temp, n, nBar, b, ib, jb, p);
        NextBlock(n, nBar, b, ib, jb);
      }
      NextBlock(n, nBar, b, ib, 0);
    }
    LastBlock(n, nBar, b);
    forall r: nat | r < n * n
      ensures temp[r] == Unblocked(was, n, nBar, b)[r]
    {
      PosInverse(n, nBar, b, r);
    }
    CopyAll(temp, c);
  }

  // ----- the blocked algorithm

  /** Zeroes block (ib, jb); the result points to its start. */
  method ZeroC<T>(ops: Arithmetic<T>, c: array<T>, n: nat, nb: nat, b: nat, bSqr: nat, ib: nat,
                  jb: nat) returns (cP: nat)
    requires Fits(n, nb, b) && bSqr == b * b && c.Length == n * n && ib < nb && jb < nb
    modifies c
    ensures cP == BlockStart(ib, jb, nb, bSqr) && cP + bSqr <= n * n
    ensures forall p: nat | cP <= p < cP + bSqr :: c[p] == ops.zero
    ensures forall p: nat | p < cP || cP + bSqr <= p < n * n :: c[p] == old(c[p])
  {
    BlockEnds(n, nb, b, ib, jb);
    cP := BlockStart(ib, jb, nb, bSqr);
    ClearFrom(ops, c, cP, bSqr);
  }

  /** memset to zero. */
  method ClearFrom<T>(ops: Arithmetic<T>, c: array<T>, from: nat, size: nat)
    requires from + size <= c.Length
    modifies c
    ensures forall p: nat | from <= p < from + size :: c[p] == ops.zero
    ensures forall p: nat | p < from || from + size <= p < c.Length :: c[p] == old(c[p])
  {
    for p := from to from + size
      invariant forall q: nat | from <= q < p :: c[q] == ops.zero
      invariant forall q: nat | q < from || p <= q < c.Length :: c[q] == old(c[q])
    {
      c[p] := ops.zero;
    }
  }

  /** What the entry `was` at offset `off` of block (ib, jb) becomes when the terms of
      block `kb` are added. */
  ghost function Added<T>(ops: Arithmetic<T>, was: T, x: seq<T>, y: seq<T>, n: nat, nb: nat, b: nat,
                          ib: nat, jb: nat, kb: nat, off: nat): T
    requires Fits(n, nb, b) && |x| == |y| == n * n && ib < nb && jb < nb && kb < nb
  {
    if Quot(off, b) < b && Rem(off, b) < b then
      AddBlock(ops, was, x, y, n, nb, b, ib, jb, kb, Quot(off, b), Rem(off, b), b)
    else was
  }

  lemma AddedAt<T>(ops: Arithmetic<T>, was: T, x: seq<T>, y: seq<T>, n: nat, nb: nat, b: nat,
                   ib: nat, jb: nat, kb: nat, i: nat, j: nat)
    requires Fits(n, nb, b) && |x| == |y| == n * n && InBlock(nb, b, ib, jb, i, j) && kb < nb
    ensures Added(ops, was, x, y, n, nb, b, ib, jb, kb, Pair(i, j, b))
            == AddBlock(ops, was, x, y, n, nb, b, ib, jb, kb, i, j, b)
  {
    PairSplits(i, j, b);
  }

  /** The innermost loop: one entry. */
  method AddTerms<T>(ops: Arithmetic<T>, a: array<T>, bb: array<T>, c: array<T>, n: nat, nb: nat, b: nat,
                     aP: nat, bP: nat, ib: nat, jb: nat, kb: nat, i: nat, j: nat, at: nat)
    requires Fits(n, nb, b) && a.Length == bb.Length == c.Length == n * n && c != a && c != bb
    requires InBlock(nb, b, ib, jb, i, j) && kb < nb && at < n * n
    requires aP == BlockStart(ib, kb, nb, b * b) && bP == BlockStart(kb, jb, nb, b * b)
    modifies c
    ensures c[at] == AddBlock(ops, old(c[at]), a[..], bb[..], n, nb, b, ib, jb, kb, i, j, b)
    ensures forall p: nat | p < n * n && p != at :: c[p] == old(c[p])
  {
    for k := 0 to b
      invariant c[at] == AddBlock(ops, old(c[at]), a[..], bb[..], n, nb, b, ib, jb, kb, i, j, k)
      invariant forall p: nat | p < n * n && p != at :: c[p] == old(c[p])
    {
      PosBelow(n, nb, b, ib, kb, i, k);
      PosBelow(n, nb, b, kb, jb, k, j);
      assert aP + i * b + k == BlockPos(nb, b, ib, kb, i, k);
      assert bP + k * b + j == BlockPos(nb, b, kb, jb, k, j);
      c[at] := ops.add(c[at], ops.mul(a[aP + i * b + k], bb[bP + k * b + j]));
    }
  }

  /** One row of the block, which starts at `row`. */
  method AddRow<T>(ops: Arithmetic<T>, a: array<T>, bb: array<T>, c: array<T>, n: nat, nb: nat, b: nat,
                   aP: nat, bP: nat, cP: nat, ib: nat, jb: nat, kb: nat, i: nat, row: nat)
    requires Fits(n, nb, b) && a.Length == bb.Length == c.Length == n * n && c != a && c != bb
    requires ib < nb && jb < nb && kb < nb && i < b && cP <= row == cP + i * b && row + b <= n * n
    requires aP == BlockStart(ib, kb, nb, b * b) && bP == BlockStart(kb, jb, nb, b * b)
    modifies c
    ensures forall p: nat | p < row || row + b <= p < n * n :: c[p] == old(c[p])
    ensures forall p: nat | row <= p < row + b ::
              c[p] == Added(ops, old(c[p]), a[..], bb[..], n, nb, b, ib, jb, kb, p - cP)
  {
    ghost var x, y, was := a[..], bb[..], c[..];
    for j := 0 to b
      invariant forall p: nat | p < row || row + j <= p < n * n :: c[p] == was[p]
      invariant forall p: nat | row <= p < row + j :: c[p] == Added(ops, was[p], x, y, n, nb, b, ib, jb, kb, p - cP)
    {
      AddedAt(ops, was[row + j], x, y, n, nb, b, ib, jb, kb, i, j);
      AddTerms(ops, a, bb, c, n, nb, b, aP, bP, ib, jb, kb, i, j, row + j);
    }
  }

  /** Adds the product of block (ib, kb) of `a` and block (kb, jb) of `bb` to the
      block of `c` that starts at `cP`. */
  method MultAdd<T>(ops: Arithmetic<T>, a: array<T>, bb: array<T>, c: array<T>, n: nat, nb: nat, b: nat,
                    cP: nat, ib: nat, jb: nat, kb: nat)
    requires Fits(n, nb, b) && a.Length == bb.Length == c.Length == n * n && c != a && c != bb
    requires ib < nb && jb < nb && kb < nb && cP + b * b <= n * n
    modifies c
    ensures forall p: nat | p < cP || cP + b * b <= p < n * n :: c[p] == old(c[p])
    ensures forall p: nat | cP <= p < cP + b * b ::
              c[p] == Added(ops, old(c[p]), a[..], bb[..], n, nb, b, ib, jb, kb, p - cP)
  {
    ghost var x, y, was := a[..], bb[..], c[..];
    var aP := BlockStart(ib, kb, nb, b * b);
    var bP := BlockStart(kb, jb, nb, b * b);
    var row := cP;
    for i := 0 to b
      invariant cP <= row == cP + i * b <= cP + b * b
      invariant forall p: nat | p < cP || row <= p < n * n :: c[p] == was[p]
      invariant forall p: nat | cP <= p < row :: c[p] == Added(ops, was[p], x, y, n, nb, b, ib, jb, kb, p - cP)
    {
      Rounds(i + 1, b, b);
      AddRow(ops, a, bb, c, n, nb, b, aP, bP, cP, ib, jb, kb, i, row);
      row := row + b;
    }
  }

  /** The entry at offset `off` of block (ib, jb) after the first `kb` blocks. */
  ghost function Partial<T>(ops: Arithmetic<T>, x: seq<T>, y: seq<T>, n: nat, nb: nat, b: nat,
                            ib: nat, jb: nat, off: nat, kb: nat): T
    requires Fits(n, nb, b) && |x| == |y| == n * n && ib < nb && jb < nb && kb <= nb && off < b * b
  {
    QuotBelow(off, b, b);
    BlockDot(ops, x, y, n, nb, b, ib, jb, Quot(off, b), Rem(off, b), kb)
  }

  lemma PartialStep<T>(ops: Arithmetic<T>, x: seq<T>, y: seq<T>, n: nat, nb: nat, b: nat, ib: nat, jb: nat, off: nat,
                       kb: nat)
    requires Fits(n, nb, b) && |x| == |y| == n * n && ib < nb && jb < nb && kb < nb && off < b * b
    ensures Partial(ops, x, y, n, nb, b, ib, jb, off, 0) == ops.zero
    ensures Added(ops, Partial(ops, x, y, n, nb, b, ib, jb, off, kb), x, y, n, nb, b, ib, jb, kb, off)
         == Partial(ops, x, y, n, nb, b, ib, jb, off, kb + 1)
  {
    QuotBelow(off, b, b);
  }

  lemma PartialEnd<T>(ops: Arithmetic<T>, x: seq<T>, y: seq<T>, n: nat, nb: nat, b: nat, ib: nat, jb: nat, off: nat)
    requires Fits(n, nb, b) && |x| == |y| == n * n && ib < nb && jb < nb && off < b * b
    ensures BlockStart(ib, jb, nb, b * b) + off < n * n
    ensures BlockProductAt(ops, x, y, n, nb, b, BlockStart(ib, jb, nb, b * b) + off)
            == Partial(ops, x, y, n, nb, b, ib, jb, off, nb)
  {
    BlockEnds(n, nb, b, ib, jb);
    PairSplits(Pair(ib, jb, nb), off, b * b);
    PairSplits(ib, jb, nb);
  }

  /** Block (ib, jb) of the product. */
  method MultiplyBlock<T>(ops: Arithmetic<T>, a: array<T>, bb: array<T>, c: array<T>, n: nat, nb: nat, b: nat,
                          ib: nat, jb: nat)
    requires Fits(n, nb, b) && a.Length == bb.Length == c.Length == n * n && c != a && c != bb
    requires ib < nb && jb < nb
    modifies c
    ensures BlockStart(ib, jb, nb, b * b) + b * b <= n * n
    ensures var cP := BlockStart(ib, jb, nb, b * b);
            && (forall p: nat | p < cP :: c[p] == old(c[p]))
            && forall p: nat | cP <= p < cP + b * b :: c[p] == BlockProductAt(ops, a[..], bb[..], n, nb, b, p)
  {
    ghost var x, y := a[..], bb[..];
    var cP := ZeroC(ops, c, n, nb, b, b * b, ib, jb);
    for kb := 0 to nb
      invariant forall p: nat | p < cP :: c[p] == old(c[p])
      invariant forall p: nat | cP <= p < cP + b * b :: c[p] == Partial(ops, x, y, n, nb, b, ib, jb, p - cP, kb)
    {
      MultAdd(ops, a, bb, c, n, nb, b, cP, ib, jb, kb);
      forall p: nat | cP <= p < cP + b * b
        ensures c[p] == Partial(ops, x, y, n, nb, b, ib, jb, p - cP, kb + 1)
      {
        PartialStep(ops, x, y, n, nb, b, ib, jb, p - cP, kb);
      }
    }
    forall p: nat | cP <= p < cP + b * b
      ensures c[p] == BlockProductAt(ops, x, y, n, nb, b, p)
    {
      PartialEnd(ops, x, y, n, nb, b, ib, jb, p - cP);
    }
  }

  /** Blocked matrix multiplication, on matrices in blocked storage. */
  method BlockedMatMult<T>(ops: Arithmetic<T>, a: array<T>, bb: array<T>, c: array<T>, n: nat, b: nat)
    requires 0 < b && n % b == 0 && a.Length == bb.Length == c.Length == n * n && c != a && c != bb
    modifies c
    ensures Fits(n, n / b, b) && c[..] == BlockProduct(ops, a[..], bb[..], n, n / b, b)
  {
    var nBar := n / b;
    ghost var x, y := a[..], bb[..];
    ghost var done := 0;
    for ib := 0 to nBar
      invariant done == BlockStart(ib, 0, nBar, b * b)
      invariant forall p: nat | p < done && p < n * n :: c[p] == BlockProductAt(ops, x, y, n, nBar, b, p)
    {
      for jb := 0 to nBar
        invariant done == BlockStart(ib, jb, nBar, b * b)
        invariant forall p: nat | p < done && p < n * n :: c[p] == BlockProductAt(ops, x, y, n, nBar, b, p)
      {
        MultiplyBlock(ops, a, bb, c, n, nBar, b, ib, jb);
        NextBlock(n, nBar, b, ib, jb);
        done := done + b * b;
      }
      NextBlock(n, nBar, b, ib, 0);
    }
    LastBlock(n, nBar, b);
  }

  /** The program's run with DEBUG set: convert the factors, multiply block by block,
      convert the product back.  The result is that of the standard algorithm. */
  method MultiplyThroughBlocks<T(0)>(ops: Arithmetic<T>, a: array<T>, bb: array<T>, c: array<T>, n: nat, b: nat)
    requires 0 < b && n % b == 0 && a.Length == bb.Length == c.Length == n * n && a != bb && c != a && c != bb
    modifies a, bb, c
    ensures c[..] == Product(ops, old(a[..]), old(bb[..]), n)
  {
    ghost var x, y := a[..], bb[..];
    ToBlocked(a, n, b);
    ToBlocked(bb, n, b);
    BlockedMatMult(ops, a, bb, c, n, b);
    BlockedProduct(ops, x, y, n, n / b, b);
    Conversions(Product(ops, x, y, n), n, n / b, b);
    FromBlocked(c, n, b);
  }
}

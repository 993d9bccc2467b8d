/** Finite sums of reals, accumulated left to right the way Python's
    `sum` and the `total += ...` loops of the factor algebra accumulate them. */
module Sums {

  /** g(0) + g(1) + ... + g(n - 1), added from the left. */
  function SumF(g: int -> real, n: nat): real
  {
    if n == 0 then 0.0 else SumF(g, n - 1) + g(n - 1)
  }

  /** Python's `sum(values)`: a left fold from 0 over the list. */
  function Sum(s: seq<real>): real
  {
    if |s| == 0 then 0.0 else Sum(s[..|s| - 1]) + s[|s| - 1]
  }

  /** 1.0 times every term, multiplied from the left. */
  function Prod(s: seq<real>): real
  {
    if |s| == 0 then 1.0 else Prod(s[..|s| - 1]) * s[|s| - 1]
  }

  /** The table entry at i, or 0 past the end. */
  function At(s: seq<real>, i: int): real
  {
    if 0 <= i < |s| then s[i] else 0.0
  }

  ghost predicate NonNegative(s: seq<real>)
  {
    forall i :: 0 <= i < |s| ==> s[i] >= 0.0
  }

  lemma {:induction false} SumFExt(f: int -> real, g: int -> real, n: nat)
    requires forall i :: 0 <= i < n ==> f(i) == g(i)
    ensures SumF(f, n) == SumF(g, n)
  {
    if n > 0 {
      SumFExt(f, g, n - 1);
    }
  }

  lemma {:induction false} SumFZero(g: int -> real, n: nat)
    requires forall i :: 0 <= i < n ==> g(i) == 0.0
    ensures SumF(g, n) == 0.0
  {
    if n > 0 {
      SumFZero(g, n - 1);
    }
  }

  lemma {:induction false} SumIsSumF(s: seq<real>)
    ensures Sum(s) == SumF(i => At(s, i), |s|)
  {
    if |s| > 0 {
      var t := s[..|s| - 1];
      SumIsSumF(t);
      SumFExt(i => At(t, i), i => At(s, i), |t|);
    }
  }

  /** Splitting a range of length a + b into its first a and last b terms. */
  lemma {:induction false} SumFSplit(g: int -> real, a: nat, b: nat)
    ensures SumF(g, a + b) == SumF(g, a) + SumF(j => g(a + j), b)
  {
    if b > 0 {
      SumFSplit(g, a, b - 1);
    }
  }

  lemma {:induction false} SumFAdd(f: int -> real, g: int -> real, n: nat)
    ensures SumF(i => f(i) + g(i), n) == SumF(f, n) + SumF(g, n)
  {
    if n > 0 {
      SumFAdd(f, g, n - 1);
    }
  }

  /** A range of m * n terms is m consecutive blocks of n terms each. */
  lemma {:induction false} SumFBlocks(g: int -> real, m: nat, n: nat)
    ensures SumF(g, m * n) == SumF(i => SumF(j => g(i * n + j), n), m)
  {
    if m > 0 {
      var blocks := i => SumF(j => g(i * n + j), n);
      SumFBlocks(g, m - 1, n);
      MulPred(m, n);
      SumFSplitAt(g, (m - 1) * n, n, m * n);
      assert blocks(m - 1) == SumF(j => g((m - 1) * n + j), n);
      assert SumF(blocks, m) == SumF(blocks, m - 1) + blocks(m - 1);
    } else {
      assert m * n == 0;
    }
  }

  lemma MulPred(m: int, n: int)
    ensures m * n == (m - 1) * n + n
  {
  }

  lemma SumFSplitAt(g: int -> real, a: nat, b: nat, total: nat)
    requires total == a + b
    ensures SumF(g, total) == SumF(g, a) + SumF(j => g(a + j), b)
  {
    SumFSplit(g, a, b);
  }

  /** Row i of a rectangular array h: the sum of h(i, j) over j < n. */
  function RowSums(h: (int, int) -> real, n: nat): int -> real
  {
    i => SumF(j => h(i, j), n)
  }

  /** Column j of a rectangular array h: the sum of h(i, j) over i < m. */
  function ColSums(h: (int, int) -> real, m: nat): int -> real
  {
    j => SumF(i => h(i, j), m)
  }

  /** Finite double sums may be taken in either order. */
  lemma {:induction false} SumFSwap(h: (int, int) -> real, m: nat, n: nat)
    ensures SumF(RowSums(h, n), m) == SumF(ColSums(h, m), n)
  {
    if m > 0 {
      var lastRow := (j: int) => h(m - 1, j);
      SumFSwap(h, m - 1, n);
      SumFAdd(ColSums(h, m - 1), lastRow, n);
      SumFExt(j => ColSums(h, m - 1)(j) + lastRow(j), ColSums(h, m), n);
      assert RowSums(h, n)(m - 1) == SumF(lastRow, n) by {
        SumFExt(j => h(m - 1, j), lastRow, n);
      }
    } else {
      SumFZero(ColSums(h, 0), n);
    }
  }

  /** A range of m * n * k terms, read as m blocks of n sub-blocks of k
      terms, may be summed with the middle and inner positions exchanged. */
  lemma SumFTriple(g: int -> real, m: nat, n: nat, k: nat)
    ensures SumF(g, m * n * k) == SumF(a => SumF(c => Fiber(g, a, n, k, c), k), m)
  {
    var blocks := (b: int) => SumF(c => g(b * k + c), k);
    SumFBlocks(g, m * n, k);
    SumFExt(i => SumF(j => g(i * k + j), k), blocks, m * n);
    SumFBlocks(blocks, m, n);
    forall a | 0 <= a < m
      ensures SumF(j => blocks(a * n + j), n) == SumF(c => Fiber(g, a, n, k, c), k)
    {
      SumFSwapBlock(g, blocks, a, n, k);
    }
    SumFExt(i => SumF(j => blocks(i * n + j), n), a => SumF(c => Fiber(g, a, n, k, c), k), m);
  }

  /** A table of nL * nR cells whose cell a * nR + c holds the sum of the
      cells (a * n + t) * nR + c, t < n, of a table of nL * n * nR cells
      has the same total: each cell of the larger table is counted once. */
  lemma SumLayout(out: seq<real>, s: seq<real>, g: int -> real, nL: nat, n: nat, nR: nat)
    requires |out| == nL * nR && |s| == nL * n * nR
    requires forall i :: g(i) == At(s, i)
    requires forall a, c :: 0 <= a < nL && 0 <= c < nR ==> At(out, a * nR + c) == Fiber(g, a, n, nR, c)
    ensures Sum(out) == Sum(s)
  {
    var h := (i: int) => At(out, i);
    SumIsSumF(out);
    SumFBlocks(h, nL, nR);
    forall a | 0 <= a < nL
      ensures SumF(j => h(a * nR + j), nR) == SumF(c => Fiber(g, a, n, nR, c), nR)
    {
      SumFExt(j => h(a * nR + j), c => Fiber(g, a, n, nR, c), nR);
    }
    SumFExt(i => SumF(j => h(i * nR + j), nR), a => SumF(c => Fiber(g, a, n, nR, c), nR), nL);
    assert Sum(out) == SumF(a => SumF(c => Fiber(g, a, n, nR, c), nR), nL);
    SumFTriple(g, nL, n, nR);
    SumIsSumF(s);
    SumFExt(g, i => At(s, i), |s|);
  }

  /** Column c of block a of a range laid out as blocks of n rows of k
      terms: the n terms (a * n + t) * k + c, t < n, summed. */
  function Fiber(g: int -> real, a: int, n: nat, k: nat, c: int): real
  {
    SumF(t => g((a * n + t) * k + c), n)
  }

  /** Block a of SumFTriple as an n-by-k array. */
  function Grid(g: int -> real, a: int, n: nat, k: nat): (int, int) -> real
  {
    (j, c) => g((a * n + j) * k + c)
  }

  /** One block of SumFTriple: its n sub-blocks of k terms, summed either way. */
  lemma SumFSwapBlock(g: int -> real, blocks: int -> real, a: int, n: nat, k: nat)
    requires forall b :: blocks(b) == SumF(c => g(b * k + c), k)
    ensures SumF(j => blocks(a * n + j), n) == SumF(c => Fiber(g, a, n, k, c), k)
  {
    SumFSwap(Grid(g, a, n, k), n, k);
    BlockRows(g, blocks, a, n, k);
    BlockColumns(g, a, n, k);
  }

  lemma BlockRows(g: int -> real, blocks: int -> real, a: int, n: nat, k: nat)
    requires forall b :: blocks(b) == SumF(c => g(b * k + c), k)
    ensures SumF(j => blocks(a * n + j), n) == SumF(RowSums(Grid(g, a, n, k), k), n)
  {
    var h := Grid(g, a, n, k);
    forall j | 0 <= j < n
      ensures blocks(a * n + j) == RowSums(h, k)(j)
    {
      SumFExt(c => g((a * n + j) * k + c), c => h(j, c), k);
    }
    SumFExt(j => blocks(a * n + j), RowSums(h, k), n);
  }

  lemma BlockColumns(g: int -> real, a: int, n: nat, k: nat)
    ensures SumF(ColSums(Grid(g, a, n, k), n), k) == SumF(c => Fiber(g, a, n, k, c), k)
  {
    var h := Grid(g, a, n, k);
    forall c | 0 <= c < k
      ensures ColSums(h, n)(c) == Fiber(g, a, n, k, c)
    {
      SumFExt(j => h(j, c), j => g((a * n + j) * k + c), n);
    }
    SumFExt(ColSums(h, n), c => Fiber(g, a, n, k, c), k);
  }

  /** Dividing every term by c divides the sum by c. */
  lemma {:induction false} SumDiv(s: seq<real>, c: real, d: seq<real>)
    requires c != 0.0 && |d| == |s|
    requires forall i :: 0 <= i < |s| ==> d[i] == s[i] / c
    ensures Sum(d) == Sum(s) / c
  {
    if |s| > 0 {
      SumDiv(s[..|s| - 1], c, d[..|d| - 1]);
    }
  }

  lemma {:induction false} SumNonNegative(s: seq<real>)
    requires NonNegative(s)
    ensures Sum(s) >= 0.0
  {
    if |s| > 0 {
      SumNonNegative(s[..|s| - 1]);
    }
  }

  lemma {:induction false} ProdNonNegative(s: seq<real>)
    requires NonNegative(s)
    ensures Prod(s) >= 0.0
  {
    if |s| > 0 {
      ProdNonNegative(s[..|s| - 1]);
    }
  }

  /** n copies of c add up to n * c. */
  lemma {:induction false} SumConstant(s: seq<real>, c: real)
    requires forall i :: 0 <= i < |s| ==> s[i] == c
    ensures Sum(s) == |s| as real * c
  {
    if |s| > 0 {
      SumConstant(s[..|s| - 1], c);
    }
  }
}

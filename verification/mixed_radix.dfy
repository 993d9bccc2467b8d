/** Mixed-radix numbering: how a factor lays out its table. A tuple of
    per-variable indices, one per scope variable in scope order, is
    numbered by the left fold `index := index * size + idx` over the scope,
    so the last variable varies fastest. */
module MixedRadix {

  /** Every index of the tuple is below the size at its position. */
  predicate InRange(sizes: seq<nat>, idx: seq<nat>)
  {
    |idx| == |sizes| && forall i :: 0 <= i < |sizes| ==> idx[i] < sizes[i]
  }

  /** Number of tuples in range: the product of the sizes, 1 when there are none. */
  function Product(sizes: seq<nat>): nat
  {
    if |sizes| == 0 then 1 else Product(sizes[..|sizes| - 1]) * sizes[|sizes| - 1]
  }

  /** The left fold `index := index * size + idx`, unrolled from its last step. */
  function Encode(sizes: seq<nat>, idx: seq<nat>): nat
    requires |idx| == |sizes|
  {
    if |sizes| == 0 then 0
    else Encode(sizes[..|sizes| - 1], idx[..|idx| - 1]) * sizes[|sizes| - 1] + idx[|idx| - 1]
  }

  /** The tuple numbered k: its last index is k mod the last size. */
  function Decode(sizes: seq<nat>, k: nat): (idx: seq<nat>)
    requires k < Product(sizes)
    ensures InRange(sizes, idx)
  {
    if |sizes| == 0 then []
    else
      var last := sizes[|sizes| - 1];
      var init := sizes[..|sizes| - 1];
      DivBelowProduct(k, Product(init), last);
      var prefix := Decode(init, k / last);
      prefix + [k % last]
  }

  /** k < p * n bounds the quotient k / n by p (and forces n > 0). */
  lemma DivBelowProduct(k: nat, p: nat, n: nat)
    requires k < p * n
    ensures n > 0 && k / n < p && k % n < n
  {
    assert n != 0;
    MulMonotone(p, k / n, n);
  }

  lemma MulMonotone(a: nat, b: nat, n: nat)
    ensures a <= b ==> a * n <= b * n
  {
  }

  /** Writing q * n + r with 0 <= r < n, q and r are the quotient and the remainder. */
  lemma DivModOfEncoding(q: nat, n: nat, r: nat)
    requires r < n
    ensures (q * n + r) / n == q && (q * n + r) % n == r
  {
    var k := q * n + r;
    MulMonotone(q + 1, k / n, n);
    MulMonotone(k / n + 1, q, n);
  }

  /** An in-range tuple is numbered inside [0, Product(sizes)). */
  lemma {:induction false} EncodeBelowProduct(sizes: seq<nat>, idx: seq<nat>)
    requires InRange(sizes, idx)
    ensures Encode(sizes, idx) < Product(sizes)
  {
    if |sizes| > 0 {
      var init, last := sizes[..|sizes| - 1], sizes[|sizes| - 1];
      var prefix := idx[..|idx| - 1];
      EncodeBelowProduct(init, prefix);
      assert InRange(sizes, idx);
      BelowBound(Encode(sizes, idx), Encode(init, prefix), last, idx[|idx| - 1], Product(init), Product(sizes));
    }
  }

  /** e * n + r with r < n and e < p lies below p * n. */
  lemma BelowBound(total: int, e: nat, n: nat, r: nat, p: nat, prod: int)
    requires total == e * n + r && r < n && e < p && prod == p * n
    ensures total < prod
  {
    MulMonotone(e + 1, p, n);
  }

  /** Decoding the number of an in-range tuple gives the tuple back. */
  lemma {:induction false} DecodeEncode(sizes: seq<nat>, idx: seq<nat>)
    requires InRange(sizes, idx)
    ensures Encode(sizes, idx) < Product(sizes)
    ensures Decode(sizes, Encode(sizes, idx)) == idx
  {
    EncodeBelowProduct(sizes, idx);
    if |sizes| > 0 {
      var init, last := sizes[..|sizes| - 1], sizes[|sizes| - 1];
      var prefix := idx[..|idx| - 1];
      EncodeStep(sizes, idx, init, prefix);
      QuotRem(Encode(sizes, idx), Encode(init, prefix), last, idx[|idx| - 1]);
      DecodeStep(sizes, Encode(sizes, idx), init, last);
      DecodeEncode(init, prefix);
      assert idx == prefix + [idx[|idx| - 1]];
    }
  }

  lemma QuotRem(k: int, q: nat, n: nat, r: nat)
    requires k == q * n + r && r < n
    ensures k / n == q && k % n == r
  {
    DivModOfEncoding(q, n, r);
  }

  /** One step of Decode, with the shorter prefix of sizes named. */
  lemma DecodeStep(sizes: seq<nat>, k: nat, init: seq<nat>, last: nat)
    requires |sizes| > 0 && init == sizes[..|sizes| - 1] && last == sizes[|sizes| - 1]
    requires k < Product(sizes)
    ensures last > 0 && k / last < Product(init)
    ensures Decode(sizes, k) == Decode(init, k / last) + [k % last]
  {
    DivBelowProduct(k, Product(init), last);
  }

  /** Encoding the decoded tuple of k gives k back. */
  lemma {:induction false} EncodeDecode(sizes: seq<nat>, k: nat)
    requires k < Product(sizes)
    ensures Encode(sizes, Decode(sizes, k)) == k
  {
    if |sizes| > 0 {
      var init, last := sizes[..|sizes| - 1], sizes[|sizes| - 1];
      DivBelowProduct(k, Product(init), last);
      var q, r := k / last, k % last;
      var idx := Decode(sizes, k);
      var prefix := idx[..|idx| - 1];
      assert idx == Decode(init, q) + [r];
      assert prefix == Decode(init, q);
      EncodeDecode(init, q);
      DivMod(k, last);
      Recombine(Encode(sizes, idx), Encode(init, prefix), q, last, idx[|idx| - 1], k);
    }
  }

  lemma DivMod(k: nat, n: nat)
    requires n > 0
    ensures (k / n) * n + k % n == k
  {
  }

  lemma Recombine(total: int, e: int, q: int, n: int, r: int, k: int)
    requires total == e * n + r && e == q && q * n + r == k
    ensures total == k
  {
  }

  /** Distinct in-range tuples get distinct numbers. */
  lemma EncodeInjective(sizes: seq<nat>, idx1: seq<nat>, idx2: seq<nat>)
    requires InRange(sizes, idx1) && InRange(sizes, idx2)
    requires Encode(sizes, idx1) == Encode(sizes, idx2)
    ensures idx1 == idx2
  {
    DecodeEncode(sizes, idx1);
    DecodeEncode(sizes, idx2);
  }

  /** The number of a tuple split into two blocks: the first block's number
      shifted past every tuple of the second block. */
  lemma {:induction false} EncodeAppend(s1: seq<nat>, s2: seq<nat>, i1: seq<nat>, i2: seq<nat>)
    requires |i1| == |s1| && |i2| == |s2|
    ensures Encode(s1 + s2, i1 + i2) == Encode(s1, i1) * Product(s2) + Encode(s2, i2)
  {
    if |s2| > 0 {
      var s, i := s1 + s2, i1 + i2;
      var t2, j2 := s2[..|s2| - 1], i2[..|i2| - 1];
      var n, r := s2[|s2| - 1], i2[|i2| - 1];
      assert s[..|s| - 1] == s1 + t2;
      assert i[..|i| - 1] == i1 + j2;
      EncodeAppend(s1, t2, i1, j2);
      EncodeStep(s, i, s1 + t2, i1 + j2);
      EncodeStep(s2, i2, t2, j2);
      ProductStep(s2, t2);
      Regroup(Encode(s, i), Encode(s1 + t2, i1 + j2), s[|s| - 1], i[|i| - 1],
              Encode(s1, i1), Product(t2), Encode(t2, j2), n, r, Product(s2), Encode(s2, i2));
    } else {
      assert s1 + s2 == s1 && i1 + i2 == i1;
    }
  }

  /** One step of the fold, with the shorter prefix named. */
  lemma EncodeStep(s: seq<nat>, i: seq<nat>, init: seq<nat>, initIdx: seq<nat>)
    requires |s| > 0 && |i| == |s|
    requires s[..|s| - 1] == init && i[..|i| - 1] == initIdx
    ensures Encode(s, i) == Encode(init, initIdx) * s[|s| - 1] + i[|i| - 1]
  {
  }

  lemma ProductStep(s: seq<nat>, init: seq<nat>)
    requires |s| > 0 && s[..|s| - 1] == init
    ensures Product(s) == Product(init) * s[|s| - 1]
  {
  }

  /** The arithmetic of one induction step of EncodeAppend. */
  lemma Regroup(total: int, head: int, last: int, lastIdx: int,
                e1: int, p: int, e2: int, n: int, r: int, p': int, e2': int)
    requires total == head * last + lastIdx && head == e1 * p + e2
    requires last == n && lastIdx == r
    requires p' == p * n && e2' == e2 * n + r
    ensures total == e1 * p' + e2'
  {
  }

  /** The number of a tuple with one position singled out between two blocks. */
  lemma {:induction false} EncodeAround(s1: seq<nat>, n: nat, s2: seq<nat>, i1: seq<nat>, j: nat, i2: seq<nat>)
    requires |i1| == |s1| && |i2| == |s2|
    ensures Encode(s1 + [n] + s2, i1 + [j] + i2) == (Encode(s1, i1) * n + j) * Product(s2) + Encode(s2, i2)
  {
    var x := Encode(s1, i1) * n + j;
    if |s2| == 0 {
      assert s1 + [n] + s2 == s1 + [n] && i1 + [j] + i2 == i1 + [j];
      EncodeLast(s1, n, i1, j);
      assert Product(s2) == 1 && Encode(s2, i2) == 0;
      Substitute(Encode(s1 + [n], i1 + [j]), x, 1, 0, x);
    } else {
      var s, i := s1 + [n] + s2, i1 + [j] + i2;
      var t2, j2 := s2[..|s2| - 1], i2[..|i2| - 1];
      var m, r := s2[|s2| - 1], i2[|i2| - 1];
      assert s[..|s| - 1] == s1 + [n] + t2;
      assert i[..|i| - 1] == i1 + [j] + j2;
      EncodeAround(s1, n, t2, i1, j, j2);
      EncodeStep(s, i, s1 + [n] + t2, i1 + [j] + j2);
      EncodeStep(s2, i2, t2, j2);
      ProductStep(s2, t2);
      Regroup(Encode(s, i), Encode(s1 + [n] + t2, i1 + [j] + j2), s[|s| - 1], i[|i| - 1],
              x, Product(t2), Encode(t2, j2), m, r, Product(s2), Encode(s2, i2));
    }
  }

  /** The number of the tuple made of the tuple numbered a, the index j and
      the tuple numbered c. */
  lemma EncodeAroundDecoded(s1: seq<nat>, n: nat, s2: seq<nat>, a: nat, j: nat, c: nat)
    requires a < Product(s1) && c < Product(s2)
    ensures Encode(s1 + [n] + s2, Decode(s1, a) + [j] + Decode(s2, c)) == (a * n + j) * Product(s2) + c
  {
    var i1, i2 := Decode(s1, a), Decode(s2, c);
    EncodeAround(s1, n, s2, i1, j, i2);
    EncodeDecode(s1, a);
    EncodeDecode(s2, c);
    Subst2(Encode(s1 + [n] + s2, i1 + [j] + i2), Encode(s1, i1), a, n, j, Product(s2), Encode(s2, i2), c);
  }

  lemma Subst2(total: int, e1: int, a: int, n: int, j: int, pr: int, e2: int, c: int)
    requires total == (e1 * n + j) * pr + e2 && e1 == a && e2 == c
    ensures total == (a * n + j) * pr + c
  {
  }

  lemma EncodeLast(s1: seq<nat>, n: nat, i1: seq<nat>, j: nat)
    requires |i1| == |s1|
    ensures Encode(s1 + [n], i1 + [j]) == Encode(s1, i1) * n + j
  {
    EncodeAppend(s1, [n], i1, [j]);
    EncodeSingle(n, j);
  }

  lemma Substitute(whole: int, head: int, p: int, tail: int, x: int)
    requires whole == head * p + tail && head == x
    ensures whole == x * p + tail
  {
  }

  lemma EncodeSingle(n: nat, j: nat)
    ensures Encode([n], [j]) == j && Product([n]) == n
  {
    assert [n][..0] == [] && [j][..0] == [];
  }

  lemma {:induction false} ProductAppend(s1: seq<nat>, s2: seq<nat>)
    ensures Product(s1 + s2) == Product(s1) * Product(s2)
  {
    if |s2| > 0 {
      var s := s1 + s2;
      assert s[..|s| - 1] == s1 + s2[..|s2| - 1];
      ProductAppend(s1, s2[..|s2| - 1]);
      assert Product(s1) * Product(s2[..|s2| - 1]) * s2[|s2| - 1]
          == Product(s1) * (Product(s2[..|s2| - 1]) * s2[|s2| - 1]);
    } else {
      assert s1 + s2 == s1;
    }
  }

  /** Decoding a number of the two-block form splits into the two blocks' tuples. */
  lemma DecodeAppend(s1: seq<nat>, s2: seq<nat>, a: nat, b: nat, k: nat)
    requires a < Product(s1) && b < Product(s2) && k == a * Product(s2) + b
    ensures Product(s1 + s2) == Product(s1) * Product(s2)
    ensures k < Product(s1 + s2)
    ensures Decode(s1 + s2, k) == Decode(s1, a) + Decode(s2, b)
  {
    ProductAppend(s1, s2);
    BelowBound(k, a, Product(s2), b, Product(s1), Product(s1 + s2));
    var i1, i2 := Decode(s1, a), Decode(s2, b);
    EncodeDecode(s1, a);
    EncodeDecode(s2, b);
    EncodeAppend(s1, s2, i1, i2);
    Substitute(Encode(s1 + s2, i1 + i2), Encode(s1, i1), Product(s2), Encode(s2, i2), a);
    assert InRange(s1 + s2, i1 + i2);
    DecodeAt(s1 + s2, i1 + i2, k);
  }

  lemma DecodeAt(sizes: seq<nat>, idx: seq<nat>, k: nat)
    requires InRange(sizes, idx) && Encode(sizes, idx) == k
    ensures k < Product(sizes) && Decode(sizes, k) == idx
  {
    DecodeEncode(sizes, idx);
  }
}

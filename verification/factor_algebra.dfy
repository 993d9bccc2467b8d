/** The factor operations of naive_bayes_solution.py: `normalize`,
    `restrict`, `sum_out` and `multiply`. None of them takes the scratch
    indices: each builds its result by visiting every assignment of the new
    scope (`Tabulate`), so none can disturb its inputs or any variable. */
module FactorAlgebra {
  import opened Wrappers
  import opened MixedRadix
  import opened Sums
  import opened BNetBase
  import opened Tables

  // ---------------------------------------------------------------------
  // normalize
  // ---------------------------------------------------------------------

  /** `normalize(factor)`: every cell divided by the total of the table;
      when the total is 0 every cell of the result is 0. */
  function Normalize(f: Factor): (r: Factor)
    requires WellFormed(f)
    ensures WellFormed(r) && r.scope == f.scope
  {
    var total := Sum(f.values);
    Factor(f.name + "_normalized", f.scope,
      Tabulate(f.scope, a => if total != 0.0 then ValueAt(f, a) / total else 0.0))
  }

  /** Cell by cell, normalize divides by the total (or writes 0). */
  lemma NormalizeCells(f: Factor)
    requires WellFormed(f)
    ensures forall k :: 0 <= k < |f.values| ==>
      Normalize(f).values[k] == if Sum(f.values) != 0.0 then f.values[k] / Sum(f.values) else 0.0
  {
    forall k | 0 <= k < |f.values|
      ensures Normalize(f).values[k] == if Sum(f.values) != 0.0 then f.values[k] / Sum(f.values) else 0.0
    {
      AssignmentAtOffset(f.scope, k);
    }
  }

  /** With a non-zero total, normalize divides every value by it. */
  lemma NormalizeDivides(f: Factor)
    requires WellFormed(f) && Sum(f.values) != 0.0
    ensures forall a :: Covers(f.scope, a) ==> ValueAt(Normalize(f), a) == ValueAt(f, a) / Sum(f.values)
  {
    NormalizeCells(f);
    forall a | Covers(f.scope, a)
      ensures ValueAt(Normalize(f), a) == ValueAt(f, a) / Sum(f.values)
    {
      OffsetInTable(f.scope, a);
    }
  }

  /** With a non-zero total, the normalized table sums to 1. */
  lemma NormalizeSumsToOne(f: Factor)
    requires WellFormed(f) && Sum(f.values) != 0.0
    ensures Sum(Normalize(f).values) == 1.0
  {
    var total := Sum(f.values);
    NormalizeCells(f);
    SumDiv(f.values, total, Normalize(f).values);
    assert total / total == 1.0;
  }

  /** With a zero total, normalize writes zeros (not a uniform table). */
  lemma NormalizeZeroTotal(f: Factor)
    requires WellFormed(f) && Sum(f.values) == 0.0
    ensures forall k :: 0 <= k < |Normalize(f).values| ==> Normalize(f).values[k] == 0.0
  {
    NormalizeCells(f);
  }

  /** Normalizing a non-negative table gives a non-negative table. */
  lemma NormalizeNonNegative(f: Factor)
    requires WellFormed(f) && NonNegative(f.values)
    ensures NonNegative(Normalize(f).values)
  {
    NormalizeCells(f);
    SumNonNegative(f.values);
  }

  // ---------------------------------------------------------------------
  // restrict
  // ---------------------------------------------------------------------

  /** `restrict(factor, variable, value)`. The Python loop looks the
      variable up in the dict of each full assignment, so a variable outside
      the scope raises KeyError -- unless the table is empty and the loop body
      never runs. A value outside the domain never matches, leaving the
      all-zero table. */
  function Restrict(f: Factor, x: Variable, value: Value): (r: Result<Factor, Error>)
    requires WellFormed(f)
    ensures r.Err? <==> x !in f.scope && TableSize(f.scope) > 0
    ensures r.Err? ==> r.error == KeyNotFound
    ensures r.Ok? ==> WellFormed(r.value) && r.value.scope == Remove(f.scope, x)
  {
    var name := f.name + "_restricted_" + x.name + "_" + value;
    var scope := Remove(f.scope, x);
    DistinctDomainsSub(f.scope, scope);
    if x !in f.scope && TableSize(f.scope) > 0 then Err(KeyNotFound)
    else match ValueIndex(x, value)
      case None => Ok(NewFactor(name, scope))
      case Some(j) => Ok(Factor(name, scope, Tabulate(scope, a => ValueAt(f, Extend(a, x, j)))))
  }

  /** Each cell of the restriction is f's cell at that assignment extended
      with x = value; a value outside the domain gives an all-zero factor. */
  lemma RestrictCells(f: Factor, x: Variable, value: Value)
    requires WellFormed(f) && x in f.scope
    ensures Restrict(f, x, value).Ok?
    ensures value in x.dom ==> forall a :: Covers(Remove(f.scope, x), a) ==>
      ValueAt(Restrict(f, x, value).value, a) == ValueAt(f, a[x := ValueIndex(x, value).value])
    ensures value !in x.dom ==> forall k :: 0 <= k < |Restrict(f, x, value).value.values| ==>
      Restrict(f, x, value).value.values[k] == 0.0
  {
    var scope := Remove(f.scope, x);
    if value in x.dom {
      var j := ValueIndex(x, value).value;
      var cell := (a: Indices) => ValueAt(f, Extend(a, x, j));
      forall a | Covers(scope, a)
        ensures ValueAt(Restrict(f, x, value).value, a) == ValueAt(f, a[x := j])
      {
        var c := Canonical(scope, a);
        CanonicalAgrees(scope, a);
        AgreeOnUpdate(f.scope, x, c, a, j);
        ValueAtAgree(f, c[x := j], a[x := j]);
        TabulateValueAt(scope, cell, a, f.name + "_restricted_" + x.name + "_" + value);
      }
    }
  }

  /** The restricted table is |dom x| times smaller than f's. */
  lemma RestrictTableSize(f: Factor, x: Variable, value: Value)
    requires WellFormed(f) && x in f.scope
    ensures Restrict(f, x, value).Ok?
    ensures |f.values| == |Restrict(f, x, value).value.values| * |x.dom|
  {
    RemoveTableSize(f.scope, x);
  }

  lemma RestrictNonNegative(f: Factor, x: Variable, value: Value)
    requires WellFormed(f) && NonNegative(f.values)
    requires Restrict(f, x, value).Ok?
    ensures NonNegative(Restrict(f, x, value).value.values)
  {
    var scope := Remove(f.scope, x);
    if value in x.dom {
      var j := ValueIndex(x, value).value;
      TabulateNonNegative(scope, a => ValueAt(f, Extend(a, x, j)));
    }
  }

  // ---------------------------------------------------------------------
  // sum_out
  // ---------------------------------------------------------------------

  /** The sum, over x's domain in order, of f at a extended with each value of x. */
  function Marginal(f: Factor, x: Variable, a: Indices): real
  {
    SumF(j => ValueAt(f, Extend(a, x, j)), |x.dom|)
  }

  /** `sum_out(factor, variable)`. */
  function SumOut(f: Factor, x: Variable): (r: Factor)
    requires WellFormed(f)
    ensures WellFormed(r) && r.scope == Remove(f.scope, x)
  {
    var scope := Remove(f.scope, x);
    DistinctDomainsSub(f.scope, scope);
    Factor(f.name + "_sumout_" + x.name, scope, Tabulate(scope, a => Marginal(f, x, a)))
  }

  lemma MarginalAgree(f: Factor, x: Variable, a: Indices, b: Indices)
    requires AgreeOn(Remove(f.scope, x), a, b)
    ensures Marginal(f, x, a) == Marginal(f, x, b)
  {
    forall j: int | 0 <= j < |x.dom|
      ensures ValueAt(f, Extend(a, x, j)) == ValueAt(f, Extend(b, x, j))
    {
      AgreeOnUpdate(f.scope, x, a, b, j);
      ValueAtAgree(f, Extend(a, x, j), Extend(b, x, j));
    }
    SumFExt(j => ValueAt(f, Extend(a, x, j)), j => ValueAt(f, Extend(b, x, j)), |x.dom|);
  }

  /** Marginal consistency: each cell of the result is the sum over x's
      domain of f's cells at the extended assignment. */
  lemma SumOutCells(f: Factor, x: Variable)
    requires WellFormed(f)
    ensures forall a :: Covers(Remove(f.scope, x), a) ==> ValueAt(SumOut(f, x), a) == Marginal(f, x, a)
  {
    var scope := Remove(f.scope, x);
    forall a | Covers(scope, a)
      ensures ValueAt(SumOut(f, x), a) == Marginal(f, x, a)
    {
      CanonicalAgrees(scope, a);
      MarginalAgree(f, x, Canonical(scope, a), a);
      TabulateValueAt(scope, a => Marginal(f, x, a), a, f.name + "_sumout_" + x.name);
    }
  }

  /** Summing out a variable the factor does not mention multiplies every
      cell by the size of its domain. */
  lemma SumOutAbsent(f: Factor, x: Variable)
    requires WellFormed(f) && x !in f.scope
    ensures SumOut(f, x).scope == f.scope
    ensures forall a :: Covers(f.scope, a) ==> ValueAt(SumOut(f, x), a) == |x.dom| as real * ValueAt(f, a)
  {
    SumOutCells(f, x);
    forall a | Covers(f.scope, a)
      ensures Marginal(f, x, a) == |x.dom| as real * ValueAt(f, a)
    {
      MarginalAbsent(f, x, a);
    }
  }

  lemma MarginalAbsent(f: Factor, x: Variable, a: Indices)
    requires x !in f.scope
    ensures Marginal(f, x, a) == |x.dom| as real * ValueAt(f, a)
  {
    forall j: int | 0 <= j < |x.dom|
      ensures ValueAt(f, Extend(a, x, j)) == ValueAt(f, a)
    {
      assert AgreeOn(f.scope, Extend(a, x, j), a);
      ValueAtAgree(f, Extend(a, x, j), a);
    }
    SumFConstant(j => ValueAt(f, Extend(a, x, j)), |x.dom|, ValueAt(f, a));
  }

  lemma {:induction false} SumFConstant(g: int -> real, n: nat, c: real)
    requires forall j :: 0 <= j < n ==> g(j) == c
    ensures SumF(g, n) == n as real * c
  {
    if n > 0 {
      SumFConstant(g, n - 1, c);
      assert (n - 1) as real * c + c == n as real * c;
    }
  }

  lemma SumOutNonNegative(f: Factor, x: Variable)
    requires WellFormed(f) && NonNegative(f.values)
    ensures NonNegative(SumOut(f, x).values)
  {
    forall a: Indices
      ensures Marginal(f, x, a) >= 0.0
    {
      SumFNonNegative(j => ValueAt(f, Extend(a, x, j)), |x.dom|);
    }
    TabulateNonNegative(Remove(f.scope, x), a => Marginal(f, x, a));
  }

  lemma {:induction false} SumFNonNegative(g: int -> real, n: nat)
    requires forall j :: 0 <= j < n ==> g(j) >= 0.0
    ensures SumF(g, n) >= 0.0
  {
    if n > 0 {
      SumFNonNegative(g, n - 1);
    }
  }

  /** Summing out a variable of the scope keeps the total mass of the table:
      every cell of f is counted in exactly one cell of the result. */
  lemma SumOutMass(f: Factor, x: Variable)
    requires WellFormed(f) && x in f.scope
    ensures Sum(SumOut(f, x).values) == Sum(f.values)
  {
    var p :| 0 <= p < |f.scope| && f.scope[p] == x;
    SumOutMassAt(f, p);
  }

  lemma SumOutMassAt(f: Factor, p: nat)
    requires WellFormed(f) && p < |f.scope|
    ensures Sum(SumOut(f, f.scope[p]).values) == Sum(f.values)
  {
    var n, nL, nR := |f.scope[p].dom|, Product(Sizes(f.scope[..p])), Product(Sizes(f.scope[p + 1..]));
    var g := (i: int) => At(f.values, i);
    SumOutLayout(f, p);
    forall a: nat, c: nat | a < nL && c < nR
      ensures At(SumOut(f, f.scope[p]).values, a * nR + c) == Fiber(g, a, n, nR, c)
    {
      SumOutCell(f, p, g, a, c, a * nR + c);
    }
    SumLayout(SumOut(f, f.scope[p]).values, f.values, g, nL, n, nR);
  }

  /** With x at position p of the scope, f's table has nL * |dom x| * nR
      cells and the result of summing x out has nL * nR, where nL and nR
      count the assignments of the variables before and after x. */
  lemma SumOutLayout(f: Factor, p: nat)
    requires WellFormed(f) && p < |f.scope|
    ensures |f.values| == Product(Sizes(f.scope[..p])) * |f.scope[p].dom| * Product(Sizes(f.scope[p + 1..]))
    ensures |SumOut(f, f.scope[p]).values| == Product(Sizes(f.scope[..p])) * Product(Sizes(f.scope[p + 1..]))
  {
    var l, r := f.scope[..p], f.scope[p + 1..];
    RemoveAt(f.scope, p);
    SizesAround(f.scope, p);
    SizesAppend(l, r);
    ProductAppend(Sizes(l), Sizes(r));
    ProductAppend(Sizes(l) + [|f.scope[p].dom|], Sizes(r));
    ProductAppend(Sizes(l), [|f.scope[p].dom|]);
    EncodeSingle(|f.scope[p].dom|, 0);
  }

  /** Cell a * nR + c of the result of summing out the variable at position
      p is the sum, over t, of f's cells (a * |dom x| + t) * nR + c. */
  lemma SumOutCell(f: Factor, p: nat, g: int -> real, a: nat, c: nat, k: int)
    requires WellFormed(f) && p < |f.scope|
    requires forall i :: g(i) == At(f.values, i)
    requires a < Product(Sizes(f.scope[..p])) && c < Product(Sizes(f.scope[p + 1..]))
    requires k == a * Product(Sizes(f.scope[p + 1..])) + c
    ensures At(SumOut(f, f.scope[p]).values, k) == Fiber(g, a, |f.scope[p].dom|, Product(Sizes(f.scope[p + 1..])), c)
  {
    SumOutLookup(f, p, a, c, k);
    MarginalFiber(f, p, g, a, c);
  }

  /** Cell a * nR + c of the result of summing out the variable at position p
      holds the marginal at the assignment for the tuples numbered a and c. */
  lemma SumOutLookup(f: Factor, p: nat, a: nat, c: nat, k: int)
    requires WellFormed(f) && p < |f.scope|
    requires a < Product(Sizes(f.scope[..p])) && c < Product(Sizes(f.scope[p + 1..]))
    requires k == a * Product(Sizes(f.scope[p + 1..])) + c
    ensures At(SumOut(f, f.scope[p]).values, k)
         == Marginal(f, f.scope[p], ToIndices(f.scope[..p] + f.scope[p + 1..],
                                              Decode(Sizes(f.scope[..p]), a) + Decode(Sizes(f.scope[p + 1..]), c)))
  {
    var x, l, r := f.scope[p], f.scope[..p], f.scope[p + 1..];
    var rest := Remove(f.scope, x);
    CombinationNonNegative(a, Product(Sizes(r)), c);
    RemoveAt(f.scope, p);
    assert rest == l + r;
    SizesAppend(l, r);
    DecodeAppend(Sizes(l), Sizes(r), a, c, k);
    assert k < TableSize(rest);
    TabulateCell(rest, a => Marginal(f, x, a), k);
    assert AssignmentAt(rest, k) == ToIndices(l + r, Decode(Sizes(l), a) + Decode(Sizes(r), c));
  }

  lemma CombinationNonNegative(a: nat, n: nat, c: nat)
    ensures a * n + c >= 0
  {
  }

  /** The marginal at the assignment for tuples numbered a and c around
      position p collects the cells of f in column c of block a. */
  lemma MarginalFiber(f: Factor, p: nat, g: int -> real, a: nat, c: nat)
    requires Distinct(f.scope) && p < |f.scope|
    requires forall i :: g(i) == At(f.values, i)
    requires a < Product(Sizes(f.scope[..p])) && c < Product(Sizes(f.scope[p + 1..]))
    ensures Marginal(f, f.scope[p], ToIndices(f.scope[..p] + f.scope[p + 1..],
                                              Decode(Sizes(f.scope[..p]), a) + Decode(Sizes(f.scope[p + 1..]), c)))
         == Fiber(g, a, |f.scope[p].dom|, Product(Sizes(f.scope[p + 1..])), c)
  {
    var x, l, r := f.scope[p], f.scope[..p], f.scope[p + 1..];
    var n, nR := |x.dom|, Product(Sizes(r));
    var m := ToIndices(l + r, Decode(Sizes(l), a) + Decode(Sizes(r), c));
    forall j: int | 0 <= j < n
      ensures ValueAt(f, Extend(m, x, j)) == g((a * n + j) * nR + c)
    {
      ExtendedCell(f, p, g, a, c, j, (a * n + j) * nR + c);
    }
    MarginalColumn(f, x, m, g, a, n, nR, c);
  }

  lemma MarginalColumn(f: Factor, x: Variable, m: Indices, g: int -> real, a: int, n: nat, nR: nat, c: int)
    requires n == |x.dom|
    requires forall j: int :: 0 <= j < n ==> ValueAt(f, Extend(m, x, j)) == g((a * n + j) * nR + c)
    ensures Marginal(f, x, m) == Fiber(g, a, n, nR, c)
  {
    SumFExt(j => ValueAt(f, Extend(m, x, j)), t => g((a * n + t) * nR + c), n);
  }

  /** The cell of f at the assignment that gives the variables before p the
      tuple numbered a, x the index j and the variables after p the tuple
      numbered c. */
  lemma ExtendedCell(f: Factor, p: nat, g: int -> real, a: nat, c: nat, j: nat, k: int)
    requires Distinct(f.scope) && p < |f.scope|
    requires forall i :: g(i) == At(f.values, i)
    requires a < Product(Sizes(f.scope[..p])) && c < Product(Sizes(f.scope[p + 1..]))
    requires k == (a * |f.scope[p].dom| + j) * Product(Sizes(f.scope[p + 1..])) + c
    ensures ValueAt(f, Extend(ToIndices(f.scope[..p] + f.scope[p + 1..],
                                        Decode(Sizes(f.scope[..p]), a) + Decode(Sizes(f.scope[p + 1..]), c)),
                             f.scope[p], j))
         == g(k)
  {
    ExtendedOffset(f.scope, p, a, c, j, k);
  }

  /** The offset of that assignment is (a * |dom x| + j) * nR + c. */
  lemma ExtendedOffset(scope: seq<Variable>, p: nat, a: nat, c: nat, j: nat, k: int)
    requires Distinct(scope) && p < |scope|
    requires a < Product(Sizes(scope[..p])) && c < Product(Sizes(scope[p + 1..]))
    requires k == (a * |scope[p].dom| + j) * Product(Sizes(scope[p + 1..])) + c
    ensures Offset(scope, Extend(ToIndices(scope[..p] + scope[p + 1..],
                                          Decode(Sizes(scope[..p]), a) + Decode(Sizes(scope[p + 1..]), c)),
                               scope[p], j))
         == k
  {
    var l, r := scope[..p], scope[p + 1..];
    OffsetAround(scope, p, Decode(Sizes(l), a), j, Decode(Sizes(r), c));
    EncodeAroundDecoded(Sizes(l), |scope[p].dom|, Sizes(r), a, j, c);
  }

  /** The offset of the assignment built from tuples for the variables before
      and after position p, with the variable at p set to j. */
  lemma OffsetAround(scope: seq<Variable>, p: nat, il: seq<nat>, j: nat, ir: seq<nat>)
    requires Distinct(scope) && p < |scope|
    requires |il| == p && |ir| == |scope| - p - 1
    ensures Offset(scope, Extend(ToIndices(scope[..p] + scope[p + 1..], il + ir), scope[p], j))
         == Encode(Sizes(scope[..p]) + [|scope[p].dom|] + Sizes(scope[p + 1..]), il + [j] + ir)
  {
    ProjectAround(scope, p, il, j, ir);
    SizesAround(scope, p);
  }

  /** The scope tuple of an assignment built from tuples for the variables
      before and after position p, with the variable at p set to j. */
  lemma ProjectAround(scope: seq<Variable>, p: nat, il: seq<nat>, j: nat, ir: seq<nat>)
    requires Distinct(scope) && p < |scope|
    requires |il| == p && |ir| == |scope| - p - 1
    ensures Project(scope, Extend(ToIndices(scope[..p] + scope[p + 1..], il + ir), scope[p], j))
         == il + [j] + ir
  {
    var x, rest := scope[p], scope[..p] + scope[p + 1..];
    DistinctAround(scope, p);
    var m := ToIndices(rest, il + ir);
    var lhs, rhs := Project(scope, m[x := j]), il + [j] + ir;
    forall i | 0 <= i < |scope|
      ensures lhs[i] == rhs[i]
    {
      if i < p {
        assert scope[i] == rest[i] && scope[i] != scope[p];
        ToIndicesAt(rest, il + ir, i);
        assert (il + ir)[i] == rhs[i];
      } else if i > p {
        assert scope[i] == rest[i - 1] && scope[i] != scope[p];
        ToIndicesAt(rest, il + ir, i - 1);
        assert (il + ir)[i - 1] == rhs[i];
      }
    }
    assert |lhs| == |rhs|;
  }

  /** The scope without position p is still free of duplicates. */
  lemma DistinctAround(scope: seq<Variable>, p: nat)
    requires Distinct(scope) && p < |scope|
    ensures Distinct(scope[..p] + scope[p + 1..])
  {
    var rest := scope[..p] + scope[p + 1..];
    forall i, k | 0 <= i < k < |rest|
      ensures rest[i] != rest[k]
    {
      var i', k' := if i < p then i else i + 1, if k < p then k else k + 1;
      assert rest[i] == scope[i'] && rest[k] == scope[k'];
    }
  }

  // ---------------------------------------------------------------------
  // multiply
  // ---------------------------------------------------------------------

  /** Append the variables of vs not yet in acc, in vs's order. */
  function AddNew(acc: seq<Variable>, vs: seq<Variable>): (r: seq<Variable>)
    ensures forall v :: v in r <==> v in acc || v in vs
    ensures Distinct(acc) ==> Distinct(r)
    ensures |acc| <= |r| && r[..|acc|] == acc
    decreases |vs|
  {
    if |vs| == 0 then acc
    else if vs[0] in acc then AddNew(acc, vs[1..])
    else
      assert Distinct(acc) ==> Distinct(acc + [vs[0]]);
      var r := AddNew(acc + [vs[0]], vs[1..]);
      assert r[..|acc|] == (acc + [vs[0]])[..|acc|];
      r
  }

  /** The scope of `multiply(factors)`: every variable of every input scope,
      without repeats, in order of first occurrence across the list. */
  function UnionScope(fs: seq<Factor>): (r: seq<Variable>)
    ensures Distinct(r)
    ensures forall v :: v in r <==> exists i :: 0 <= i < |fs| && v in fs[i].scope
  {
    if |fs| == 0 then []
    else
      var init := UnionScope(fs[..|fs| - 1]);
      assert forall i :: 0 <= i < |fs| - 1 ==> fs[..|fs| - 1][i] == fs[i];
      AddNew(init, fs[|fs| - 1].scope)
  }

  /** First-occurrence order is stable: the union over a prefix of the list
      is a prefix of the union over the whole list. */
  lemma {:induction false} UnionScopePrefix(fs: seq<Factor>, n: nat)
    requires n <= |fs|
    ensures |UnionScope(fs[..n])| <= |UnionScope(fs)|
    ensures UnionScope(fs) [..|UnionScope(fs[..n])|] == UnionScope(fs[..n])
    decreases |fs|
  {
    if n < |fs| {
      var init := fs[..|fs| - 1];
      assert init[..n] == fs[..n];
      UnionScopePrefix(init, n);
    } else {
      assert fs[..n] == fs;
    }
  }

  /** One variable: appended exactly when it is not already there. */
  lemma AddNewSingle(acc: seq<Variable>, v: Variable)
    ensures AddNew(acc, [v]) == if v in acc then acc else acc + [v]
  {
    assert [v][1..] == [];
  }

  /** Scanning xs + ys is scanning xs, then ys. With AddNewSingle this fixes
      AddNew completely: each variable is appended at its first occurrence. */
  lemma {:induction false} AddNewAppend(acc: seq<Variable>, xs: seq<Variable>, ys: seq<Variable>)
    ensures AddNew(acc, xs + ys) == AddNew(AddNew(acc, xs), ys)
    decreases |xs|
  {
    if |xs| == 0 {
      assert xs + ys == ys;
    } else {
      assert (xs + ys)[0] == xs[0];
      assert (xs + ys)[1..] == xs[1..] + ys;
      if xs[0] in acc {
        AddNewAppend(acc, xs[1..], ys);
      } else {
        AddNewAppend(acc + [xs[0]], xs[1..], ys);
      }
    }
  }

  /** Every input scope, one after the other, in list order. */
  function Scopes(fs: seq<Factor>): seq<Variable>
  {
    if |fs| == 0 then [] else Scopes(fs[..|fs| - 1]) + fs[|fs| - 1].scope
  }

  /** The product scope is the concatenated input scopes with every repeat
      dropped: each variable sits where it first occurs across the list. */
  lemma {:induction false} UnionScopeFirstOccurrence(fs: seq<Factor>)
    ensures UnionScope(fs) == AddNew([], Scopes(fs))
    decreases |fs|
  {
    if |fs| > 0 {
      var init := fs[..|fs| - 1];
      UnionScopeFirstOccurrence(init);
      AddNewAppend([], Scopes(init), fs[|fs| - 1].scope);
    }
  }

  lemma UnionDistinctDomains(fs: seq<Factor>)
    requires forall i :: 0 <= i < |fs| ==> WellFormed(fs[i])
    ensures DistinctDomains(UnionScope(fs))
  {
    var scope := UnionScope(fs);
    forall k | 0 <= k < |scope|
      ensures Distinct(scope[k].dom)
    {
      var v := scope[k];
      assert v in scope;
      var i :| 0 <= i < |fs| && v in fs[i].scope;
      assert WellFormed(fs[i]);
      var j :| 0 <= j < |fs[i].scope| && fs[i].scope[j] == v;
    }
  }

  /** The union of one distinct scope is that scope. */
  lemma UnionScopeSingle(f: Factor)
    requires Distinct(f.scope)
    ensures UnionScope([f]) == f.scope
  {
    assert [f][..0] == [];
    AddNewFresh([], f.scope);
  }

  lemma {:induction false} AddNewFresh(acc: seq<Variable>, vs: seq<Variable>)
    requires Distinct(vs) && forall v :: v in vs ==> v !in acc
    ensures AddNew(acc, vs) == acc + vs
    decreases |vs|
  {
    if |vs| > 0 {
      DistinctTail(vs);
      AddNewFresh(acc + [vs[0]], vs[1..]);
      AppendHead(acc, vs);
    }
  }

  lemma AppendHead<T>(acc: seq<T>, vs: seq<T>)
    requires |vs| > 0
    ensures acc + [vs[0]] + vs[1..] == acc + vs
  {
    assert vs == [vs[0]] + vs[1..];
  }

  /** Each factor's value at the assignment, in list order. */
  function FactorValues(fs: seq<Factor>, a: Indices): (r: seq<real>)
    ensures |r| == |fs|
    ensures forall i :: 0 <= i < |fs| ==> r[i] == ValueAt(fs[i], a)
  {
    seq(|fs|, i requires 0 <= i < |fs| => ValueAt(fs[i], a))
  }

  /** 1.0 times the value of each factor, multiplied in list order. */
  function ProductAt(fs: seq<Factor>, a: Indices): real
  {
    Prod(FactorValues(fs, a))
  }

  /** `multiply(factor_list)`; an empty list gives the scalar factor 1.0. */
  function Multiply(fs: seq<Factor>): (r: Factor)
    requires forall i :: 0 <= i < |fs| ==> WellFormed(fs[i])
    ensures WellFormed(r) && r.scope == UnionScope(fs)
  {
    var scope := UnionScope(fs);
    UnionDistinctDomains(fs);
    Factor("ProductFactor", scope, Tabulate(scope, a => ProductAt(fs, a)))
  }

  lemma ProductAtAgree(fs: seq<Factor>, a: Indices, b: Indices)
    requires forall i :: 0 <= i < |fs| ==> AgreeOn(fs[i].scope, a, b)
    ensures ProductAt(fs, a) == ProductAt(fs, b)
  {
    forall i | 0 <= i < |fs|
      ensures FactorValues(fs, a)[i] == FactorValues(fs, b)[i]
    {
      ValueAtAgree(fs[i], a, b);
    }
    assert FactorValues(fs, a) == FactorValues(fs, b);
  }

  /** Each cell of the product is the product of every input's value at its
      own part of the assignment. */
  lemma MultiplyCells(fs: seq<Factor>)
    requires forall i :: 0 <= i < |fs| ==> WellFormed(fs[i])
    ensures forall a :: Covers(UnionScope(fs), a) ==> ValueAt(Multiply(fs), a) == ProductAt(fs, a)
  {
    var scope := UnionScope(fs);
    forall a | Covers(scope, a)
      ensures ValueAt(Multiply(fs), a) == ProductAt(fs, a)
    {
      CanonicalAgrees(scope, a);
      forall i | 0 <= i < |fs|
        ensures AgreeOn(fs[i].scope, Canonical(scope, a), a)
      {
        AgreeOnPart(scope, fs[i].scope, Canonical(scope, a), a);
      }
      ProductAtAgree(fs, Canonical(scope, a), a);
      TabulateValueAt(scope, a => ProductAt(fs, a), a, "ProductFactor");
    }
  }

  /** Multiplying no factors gives the scalar factor 1.0. */
  lemma MultiplyEmpty()
    ensures Multiply([]).scope == [] && Multiply([]).values == [1.0]
  {
    assert Sizes([]) == [];
    var t := Multiply([]).values;
    assert |t| == 1 && t[0] == ProductAt([], AssignmentAt([], 0));
    assert FactorValues([], AssignmentAt([], 0)) == [];
  }

  lemma ProductAtNonNegative(fs: seq<Factor>, a: Indices)
    requires forall i :: 0 <= i < |fs| ==> NonNegative(fs[i].values)
    ensures ProductAt(fs, a) >= 0.0
  {
    forall i | 0 <= i < |fs|
      ensures FactorValues(fs, a)[i] >= 0.0
    {
      ValueAtNonNegative(fs[i], a);
    }
    ProdNonNegative(FactorValues(fs, a));
  }

  lemma MultiplyNonNegative(fs: seq<Factor>)
    requires forall i :: 0 <= i < |fs| ==> WellFormed(fs[i]) && NonNegative(fs[i].values)
    ensures NonNegative(Multiply(fs).values)
  {
    forall a: Indices
      ensures ProductAt(fs, a) >= 0.0
    {
      ProductAtNonNegative(fs, a);
    }
    TabulateNonNegative(UnionScope(fs), a => ProductAt(fs, a));
  }
}

/** Building factor tables cell by cell. The Python operations visit the
    assignments of a scope with `itertools.product` over the domains, which
    enumerates them in mixed-radix order (last variable fastest), so the
    k-th assignment visited is the one stored at offset k. `Tabulate` is that
    loop: cell k holds the cell function's value at the k-th assignment. */
module Tables {
  import opened MixedRadix
  import opened Sums
  import opened BNetBase

  /** The scratch map that gives scope[i] the index idx[i]. */
  function ToIndices(scope: seq<Variable>, idx: seq<nat>): Indices
    requires |idx| == |scope|
  {
    if |scope| == 0 then map[]
    else ToIndices(scope[..|scope| - 1], idx[..|idx| - 1])[scope[|scope| - 1] := idx[|idx| - 1]]
  }

  /** a and b give the same index to every variable of the scope. */
  ghost predicate AgreeOn(scope: seq<Variable>, a: Indices, b: Indices)
  {
    forall v :: v in scope ==> IndexOf(a, v) == IndexOf(b, v)
  }

  /** The part of a that the scope reads, and nothing else. */
  function Canonical(scope: seq<Variable>, a: Indices): Indices
  {
    ToIndices(scope, Project(scope, a))
  }

  /** The assignment a factor over the scope stores at offset k. */
  function AssignmentAt(scope: seq<Variable>, k: nat): Indices
    requires k < TableSize(scope)
  {
    ToIndices(scope, Decode(Sizes(scope), k))
  }

  /** The table of a factor over the scope whose value at each assignment is cell's. */
  function Tabulate(scope: seq<Variable>, cell: Indices -> real): (t: seq<real>)
    ensures |t| == TableSize(scope)
  {
    seq(TableSize(scope), k requires 0 <= k < TableSize(scope) => cell(AssignmentAt(scope, k)))
  }

  /** The assignment a with x set to index j; a negative j (which no
      domain position is) leaves a as it is. */
  function Extend(a: Indices, x: Variable, j: int): (b: Indices)
    ensures j >= 0 ==> b == a[x := j]
  {
    if j < 0 then a else a[x := j]
  }

  /** A scope drawn from variables with duplicate-free domains has them too. */
  lemma DistinctDomainsSub(scope: seq<Variable>, sub: seq<Variable>)
    requires DistinctDomains(scope)
    requires forall v :: v in sub ==> v in scope
    ensures DistinctDomains(sub)
  {
    forall i | 0 <= i < |sub|
      ensures Distinct(sub[i].dom)
    {
      assert sub[i] in scope;
      var j :| 0 <= j < |scope| && scope[j] == sub[i];
    }
  }

  lemma {:induction false} ToIndicesAt(scope: seq<Variable>, idx: seq<nat>, i: nat)
    requires |idx| == |scope| && Distinct(scope) && i < |scope|
    ensures IndexOf(ToIndices(scope, idx), scope[i]) == idx[i]
  {
    if i < |scope| - 1 {
      ToIndicesAt(scope[..|scope| - 1], idx[..|idx| - 1], i);
    }
  }

  lemma {:induction false} ToIndicesOutside(scope: seq<Variable>, idx: seq<nat>, v: Variable)
    requires |idx| == |scope| && v !in scope
    ensures v !in ToIndices(scope, idx)
  {
    if |scope| > 0 {
      ToIndicesOutside(scope[..|scope| - 1], idx[..|idx| - 1], v);
    }
  }

  /** Reading an assignment through the scope keeps every index the scope reads. */
  lemma {:induction false} CanonicalAgrees(scope: seq<Variable>, a: Indices)
    ensures AgreeOn(scope, Canonical(scope, a), a)
  {
    if |scope| > 0 {
      var init := scope[..|scope| - 1];
      assert Project(scope, a)[..|scope| - 1] == Project(init, a);
      CanonicalAgrees(init, a);
      forall v | v in scope
        ensures IndexOf(Canonical(scope, a), v) == IndexOf(a, v)
      {
        if v != scope[|scope| - 1] {
          assert v in init;
        }
      }
    }
  }

  /** Agreement on a scope carries over to every part of it. */
  lemma AgreeOnPart(scope: seq<Variable>, part: seq<Variable>, a: Indices, b: Indices)
    requires forall v :: v in part ==> v in scope
    requires AgreeOn(scope, a, b)
    ensures AgreeOn(part, a, b)
  {
  }

  /** Setting x alike in two assignments that agree off x makes them agree everywhere. */
  lemma AgreeOnUpdate(scope: seq<Variable>, x: Variable, a: Indices, b: Indices, j: nat)
    requires AgreeOn(Remove(scope, x), a, b)
    ensures AgreeOn(scope, a[x := j], b[x := j])
  {
    forall v | v in scope
      ensures IndexOf(a[x := j], v) == IndexOf(b[x := j], v)
    {
      if v != x {
        assert v in Remove(scope, x);
      }
    }
  }

  /** A factor reads only its own scope. */
  lemma OffsetAgree(scope: seq<Variable>, a: Indices, b: Indices)
    requires AgreeOn(scope, a, b)
    ensures Offset(scope, a) == Offset(scope, b)
  {
    assert Project(scope, a) == Project(scope, b);
  }

  lemma ValueAtAgree(f: Factor, a: Indices, b: Indices)
    requires AgreeOn(f.scope, a, b)
    ensures ValueAt(f, a) == ValueAt(f, b)
  {
    OffsetAgree(f.scope, a, b);
  }

  /** The assignment stored at offset k is in every domain and is stored at k. */
  lemma AssignmentAtOffset(scope: seq<Variable>, k: nat)
    requires Distinct(scope) && k < TableSize(scope)
    ensures Covers(scope, AssignmentAt(scope, k))
    ensures Offset(scope, AssignmentAt(scope, k)) == k
  {
    var idx := Decode(Sizes(scope), k);
    var a := AssignmentAt(scope, k);
    forall i | 0 <= i < |scope|
      ensures Project(scope, a)[i] == idx[i]
    {
      ToIndicesAt(scope, idx, i);
    }
    assert Project(scope, a) == idx;
    EncodeDecode(Sizes(scope), k);
  }

  /** Cell k of a tabulated table holds the cell function at the k-th assignment. */
  lemma TabulateCell(scope: seq<Variable>, cell: Indices -> real, k: int)
    requires 0 <= k < TableSize(scope)
    ensures At(Tabulate(scope, cell), k) == cell(AssignmentAt(scope, k))
  {
  }

  /** The cell a covering assignment addresses holds the cell function's
      value at (the scope's part of) that assignment. */
  lemma TabulateAt(scope: seq<Variable>, cell: Indices -> real, a: Indices)
    requires Covers(scope, a)
    ensures Offset(scope, a) < TableSize(scope)
    ensures Tabulate(scope, cell)[Offset(scope, a)] == cell(Canonical(scope, a))
  {
    var sizes, idx := Sizes(scope), Project(scope, a);
    CoversInRange(scope, a);
    OffsetInTable(scope, a);
    var k := Offset(scope, a);
    assert k == Encode(sizes, idx);
    DecodeEncode(sizes, idx);
    assert AssignmentAt(scope, k) == Canonical(scope, a);
  }

  lemma CoversInRange(scope: seq<Variable>, a: Indices)
    requires Covers(scope, a)
    ensures InRange(Sizes(scope), Project(scope, a))
  {
    forall i | 0 <= i < |scope|
      ensures Project(scope, a)[i] < Sizes(scope)[i]
    {
      assert scope[i] in scope;
    }
  }

  /** When the cell function reads only the scope, the table holds its value
      at every covering assignment. */
  lemma TabulateValueAt(scope: seq<Variable>, cell: Indices -> real, a: Indices, name: string)
    requires Covers(scope, a)
    requires cell(Canonical(scope, a)) == cell(a)
    ensures ValueAt(Factor(name, scope, Tabulate(scope, cell)), a) == cell(a)
  {
    TabulateAt(scope, cell, a);
  }

  /** A table whose cells are all non-negative. */
  lemma TabulateNonNegative(scope: seq<Variable>, cell: Indices -> real)
    requires Distinct(scope)
    requires forall a :: Covers(scope, a) ==> cell(a) >= 0.0
    ensures NonNegative(Tabulate(scope, cell))
  {
    forall k | 0 <= k < TableSize(scope)
      ensures Tabulate(scope, cell)[k] >= 0.0
    {
      AssignmentAtOffset(scope, k);
    }
  }

  lemma ValueAtNonNegative(f: Factor, a: Indices)
    requires NonNegative(f.values)
    ensures ValueAt(f, a) >= 0.0
  {
  }

  // ---------------------------------------------------------------------
  // Scope algebra
  // ---------------------------------------------------------------------

  /** `[var for var in scope if var != x]`. */
  function Remove(scope: seq<Variable>, x: Variable): (r: seq<Variable>)
    ensures forall v :: v in r <==> v in scope && v != x
    ensures Distinct(scope) ==> Distinct(r)
    ensures x !in scope ==> r == scope
  {
    if |scope| == 0 then []
    else
      var rest := Remove(scope[1..], x);
      DistinctTail(scope);
      if scope[0] == x then rest
      else
        DistinctCons(scope[0], rest);
        assert x !in scope ==> [scope[0]] + scope[1..] == scope;
        [scope[0]] + rest
  }

  lemma DistinctCons(h: Variable, t: seq<Variable>)
    ensures Distinct(t) && h !in t ==> Distinct([h] + t)
  {
    if Distinct(t) && h !in t {
      forall i, j | 0 <= i < j < |[h] + t|
        ensures ([h] + t)[i] != ([h] + t)[j]
      {
        assert ([h] + t)[j] == t[j - 1];
      }
    }
  }

  lemma DistinctTail(s: seq<Variable>)
    requires |s| > 0
    ensures Distinct(s) ==> Distinct(s[1..]) && s[0] !in s[1..]
  {
    if Distinct(s) {
      forall i | 0 <= i < |s[1..]|
        ensures s[1..][i] != s[0]
      {
        assert s[1..][i] == s[i + 1];
      }
    }
  }

  /** Removing the variable at position p of a distinct scope leaves the
      variables before it and after it, in order. */
  lemma {:induction false} RemoveAt(scope: seq<Variable>, p: nat)
    requires Distinct(scope) && p < |scope|
    ensures Remove(scope, scope[p]) == scope[..p] + scope[p + 1..]
  {
    DistinctTail(scope);
    var t, x := scope[1..], scope[p];
    if p == 0 {
      assert Remove(scope, x) == Remove(t, x);
      assert scope[..0] + scope[1..] == t;
    } else {
      assert t[p - 1] == x && x != scope[0];
      RemoveAt(t, p - 1);
      assert Remove(scope, x) == [scope[0]] + (t[..p - 1] + t[p..]);
      ConsAround(scope, p);
    }
  }

  lemma ConsAround<T>(s: seq<T>, p: nat)
    requires 0 < p < |s|
    ensures [s[0]] + (s[1..][..p - 1] + s[1..][p..]) == s[..p] + s[p + 1..]
  {
    assert s[..p] == [s[0]] + s[1..][..p - 1];
    assert s[p + 1..] == s[1..][p..];
  }

  /** The table of the scope with x removed is |dom x| times smaller. */
  lemma RemoveTableSize(scope: seq<Variable>, x: Variable)
    requires Distinct(scope) && x in scope
    ensures TableSize(scope) == TableSize(Remove(scope, x)) * |x.dom|
  {
    var p :| 0 <= p < |scope| && scope[p] == x;
    var l, r := scope[..p], scope[p + 1..];
    assert Remove(scope, x) == l + r by {
      RemoveAt(scope, p);
    }
    SizesAround(scope, p);
    assert Sizes(l + r) == Sizes(l) + Sizes(r) by {
      SizesAppend(l, r);
    }
    ProductSplit(Sizes(l), |x.dom|, Sizes(r));
  }

  lemma SizesAround(scope: seq<Variable>, p: nat)
    requires p < |scope|
    ensures Sizes(scope) == Sizes(scope[..p]) + [|scope[p].dom|] + Sizes(scope[p + 1..])
  {
    assert scope == scope[..p] + [scope[p]] + scope[p + 1..];
    SizesAppend(scope[..p] + [scope[p]], scope[p + 1..]);
    SizesAppend(scope[..p], [scope[p]]);
  }

  lemma SizesAppend(s: seq<Variable>, t: seq<Variable>)
    ensures Sizes(s + t) == Sizes(s) + Sizes(t)
  {
  }

  lemma ProductSplit(left: seq<nat>, n: nat, right: seq<nat>)
    ensures Product(left + [n] + right) == Product(left + right) * n
  {
    ProductAppend(left + [n], right);
    ProductAppend(left, [n]);
    ProductAppend(left, right);
    EncodeSingle(n, 0);
    Rearrange(Product(left + [n] + right), Product(left + [n]), Product(left + right),
              Product(left), n, Product(right));
  }

  lemma Rearrange(whole: int, head: int, rest: int, a: int, n: int, b: int)
    requires whole == head * b && head == a * n && rest == a * b
    ensures whole == rest * n
  {
  }
}

/** `ve(bayes_net, var_query, EvidenceVars)`: variable elimination over the
    factors of a network. The evidence each evidence variable holds is its
    `evidence_index`, passed here as the scratch map `ev`. */
module VariableElimination {
  import opened Wrappers
  import opened MixedRadix
  import opened Sums
  import opened BNetBase
  import opened Tables
  import opened FactorAlgebra

  ghost predicate AllWellFormed(fs: seq<Factor>)
  {
    forall i :: 0 <= i < |fs| ==> WellFormed(fs[i])
  }

  ghost predicate AllNonNegative(fs: seq<Factor>)
  {
    forall i :: 0 <= i < |fs| ==> NonNegative(fs[i].values)
  }

  // ---------------------------------------------------------------------
  // Step 1: restricting every factor to the evidence
  // ---------------------------------------------------------------------

  /** The assignment a with every evidence variable set to its evidence index. */
  function Observe(a: Indices, evidence: seq<Variable>, ev: Indices): (b: Indices)
    ensures forall v :: IndexOf(b, v) == if v in evidence then IndexOf(ev, v) else IndexOf(a, v)
  {
    if |evidence| == 0 then a
    else Observe(a, evidence[1..], ev)[evidence[0] := IndexOf(ev, evidence[0])]
  }

  /** Some evidence variable of the scope holds an evidence index past the
      end of its domain, so that `get_evidence()` raises IndexError. */
  ghost predicate BadEvidence(scope: seq<Variable>, evidence: seq<Variable>, ev: Indices)
  {
    exists i :: 0 <= i < |evidence| && evidence[i] in scope && IndexOf(ev, evidence[i]) >= |evidence[i].dom|
  }

  /** The inner loop of step 1: restrict the factor to the evidence of each
      evidence variable still in its scope, in the order of the evidence list. */
  function RestrictEvidence(f: Factor, evidence: seq<Variable>, ev: Indices): (r: Result<Factor, Error>)
    requires WellFormed(f)
    ensures r.Err? <==> BadEvidence(f.scope, evidence, ev)
    ensures r.Err? ==> r.error == IndexOutOfRange
    ensures r.Ok? ==> WellFormed(r.value)
    ensures r.Ok? ==> forall v :: v in r.value.scope <==> v in f.scope && v !in evidence
    ensures (forall v :: v in evidence ==> v !in f.scope) ==> r == Ok(f)
    decreases |evidence|
  {
    if |evidence| == 0 then Ok(f)
    else
      var e := evidence[0];
      var rest := evidence[1..];
      assert forall v :: v in evidence <==> v == e || v in rest;
      if e in f.scope then
        var value :- CurrentValue(ev, e);
        var g := Restrict(f, e, value).value;
        BadEvidenceStep(f.scope, evidence, ev, g.scope);
        RestrictEvidence(g, rest, ev)
      else
        BadEvidenceStep(f.scope, evidence, ev, f.scope);
        RestrictEvidence(f, rest, ev)
  }

  /** Once the head of the evidence list has been dealt with (restricted
      away with a readable evidence, or not in the scope at all), the rest of
      the list has bad evidence exactly when the whole list had. */
  lemma BadEvidenceStep(scope: seq<Variable>, evidence: seq<Variable>, ev: Indices, next: seq<Variable>)
    requires |evidence| > 0
    requires evidence[0] in scope ==> IndexOf(ev, evidence[0]) < |evidence[0].dom|
    requires forall v :: v in next <==> v in scope && v != evidence[0]
    ensures BadEvidence(scope, evidence, ev) <==> BadEvidence(next, evidence[1..], ev)
  {
    var rest := evidence[1..];
    if BadEvidence(scope, evidence, ev) {
      var i :| 0 <= i < |evidence| && evidence[i] in scope && IndexOf(ev, evidence[i]) >= |evidence[i].dom|;
      assert i > 0 && evidence[i] == rest[i - 1];
    }
    if BadEvidence(next, rest, ev) {
      var i :| 0 <= i < |rest| && rest[i] in next && IndexOf(ev, rest[i]) >= |rest[i].dom|;
      assert evidence[i + 1] == rest[i];
    }
  }

  /** Each cell of the restricted factor is the original factor's cell at
      that assignment completed with the evidence of every evidence variable. */
  lemma {:induction false} RestrictEvidenceCells(f: Factor, evidence: seq<Variable>, ev: Indices)
    requires WellFormed(f) && RestrictEvidence(f, evidence, ev).Ok?
    ensures forall a :: Covers(RestrictEvidence(f, evidence, ev).value.scope, a) ==>
      ValueAt(RestrictEvidence(f, evidence, ev).value, a) == ValueAt(f, Observe(a, evidence, ev))
    decreases |evidence|
  {
    if |evidence| > 0 {
      var e, rest := evidence[0], evidence[1..];
      var r := RestrictEvidence(f, evidence, ev).value;
      if e in f.scope {
        var g := Restrict(f, e, CurrentValue(ev, e).value).value;
        assert RestrictEvidence(f, evidence, ev) == RestrictEvidence(g, rest, ev);
        RestrictEvidenceCells(g, rest, ev);
        forall a | Covers(r.scope, a)
          ensures ValueAt(r, a) == ValueAt(f, Observe(a, evidence, ev))
        {
          ObservedCell(f, e, rest, ev, a, g, r);
        }
      } else {
        RestrictEvidenceCells(f, rest, ev);
        forall a | Covers(r.scope, a)
          ensures ValueAt(r, a) == ValueAt(f, Observe(a, evidence, ev))
        {
          ValueAtAgree(f, Observe(a, rest, ev), Observe(a, evidence, ev));
        }
      }
    }
  }

  /** One step of RestrictEvidenceCells: restricting to e's evidence and then
      to the rest's is reading f at the assignment completed with all of it. */
  lemma ObservedCell(f: Factor, e: Variable, rest: seq<Variable>, ev: Indices, a: Indices, g: Factor, r: Factor)
    requires WellFormed(f) && e in f.scope && IndexOf(ev, e) < |e.dom|
    requires Restrict(f, e, CurrentValue(ev, e).value) == Ok(g)
    requires RestrictEvidence(g, rest, ev) == Ok(r)
    requires forall b :: Covers(r.scope, b) ==> ValueAt(r, b) == ValueAt(g, Observe(b, rest, ev))
    requires Covers(r.scope, a)
    ensures ValueAt(r, a) == ValueAt(f, Observe(a, [e] + rest, ev))
  {
    var j := IndexOf(ev, e);
    var b := Observe(a, rest, ev);
    DomainOfScope(f.scope, e);
    FirstIndexDistinct(e.dom, j);
    GoodEvidence(g.scope, rest, ev);
    assert Covers(g.scope, b);
    RestrictCells(f, e, e.dom[j]);
    assert ([e] + rest)[1..] == rest;
  }

  /** Without bad evidence, every evidence variable of the scope holds an
      index inside its domain. */
  lemma GoodEvidence(scope: seq<Variable>, evidence: seq<Variable>, ev: Indices)
    requires !BadEvidence(scope, evidence, ev)
    ensures forall v :: v in evidence && v in scope ==> IndexOf(ev, v) < |v.dom|
  {
    forall v | v in evidence && v in scope
      ensures IndexOf(ev, v) < |v.dom|
    {
      var i :| 0 <= i < |evidence| && evidence[i] == v;
    }
  }

  lemma DomainOfScope(scope: seq<Variable>, v: Variable)
    requires DistinctDomains(scope) && v in scope
    ensures Distinct(v.dom)
  {
    var i :| 0 <= i < |scope| && scope[i] == v;
  }

  /** In a duplicate-free domain the value at j is first found at j. */
  lemma FirstIndexDistinct(s: seq<Value>, j: nat)
    requires Distinct(s) && j < |s|
    ensures FirstIndex(s, s[j]) == Some(j)
  {
  }

  /** Some factor of the list has bad evidence. */
  ghost predicate AnyBadEvidence(fs: seq<Factor>, evidence: seq<Variable>, ev: Indices)
  {
    exists i :: 0 <= i < |fs| && BadEvidence(fs[i].scope, evidence, ev)
  }

  /** Step 1 over the network's factors, in order; the first factor whose
      evidence cannot be read stops the whole call. */
  function RestrictAll(fs: seq<Factor>, evidence: seq<Variable>, ev: Indices): (r: Result<seq<Factor>, Error>)
    requires AllWellFormed(fs)
    ensures r.Err? <==> AnyBadEvidence(fs, evidence, ev)
    ensures r.Err? ==> r.error == IndexOutOfRange
    ensures r.Ok? ==> |r.value| == |fs| && AllWellFormed(r.value)
  {
    if |fs| == 0 then Ok([])
    else
      AnyBadStep(fs, evidence, ev);
      var head :- RestrictEvidence(fs[0], evidence, ev);
      var tail :- RestrictAll(fs[1..], evidence, ev);
      assert forall i :: 0 < i <= |tail| ==> ([head] + tail)[i] == tail[i - 1];
      Ok([head] + tail)
  }

  lemma AnyBadStep(fs: seq<Factor>, evidence: seq<Variable>, ev: Indices)
    requires |fs| > 0
    ensures AnyBadEvidence(fs, evidence, ev) <==>
      BadEvidence(fs[0].scope, evidence, ev) || AnyBadEvidence(fs[1..], evidence, ev)
  {
    if AnyBadEvidence(fs, evidence, ev) {
      var i :| 0 <= i < |fs| && BadEvidence(fs[i].scope, evidence, ev);
      assert i == 0 || fs[i] == fs[1..][i - 1];
    }
    if AnyBadEvidence(fs[1..], evidence, ev) {
      var i :| 0 <= i < |fs[1..]| && BadEvidence(fs[1..][i].scope, evidence, ev);
      assert fs[1..][i] == fs[i + 1];
    }
  }

  /** Factor i of the restricted list is factor i restricted to the evidence. */
  lemma {:induction false} RestrictAllAt(fs: seq<Factor>, evidence: seq<Variable>, ev: Indices, i: nat)
    requires AllWellFormed(fs) && RestrictAll(fs, evidence, ev).Ok? && i < |fs|
    ensures RestrictEvidence(fs[i], evidence, ev) == Ok(RestrictAll(fs, evidence, ev).value[i])
    decreases |fs|
  {
    var head := RestrictEvidence(fs[0], evidence, ev).value;
    var tail := RestrictAll(fs[1..], evidence, ev).value;
    assert RestrictAll(fs, evidence, ev).value == [head] + tail;
    if i > 0 {
      RestrictAllAt(fs[1..], evidence, ev, i - 1);
      assert fs[1..][i - 1] == fs[i];
    }
  }

  /** Restriction keeps every factor well formed and drops the evidence
      variables from every scope. */
  lemma RestrictAllScopes(fs: seq<Factor>, evidence: seq<Variable>, ev: Indices)
    requires AllWellFormed(fs) && RestrictAll(fs, evidence, ev).Ok?
    ensures AllWellFormed(RestrictAll(fs, evidence, ev).value)
    ensures forall v :: Mentions(RestrictAll(fs, evidence, ev).value, v) <==> Mentions(fs, v) && v !in evidence
  {
    var rs := RestrictAll(fs, evidence, ev).value;
    forall i | 0 <= i < |fs|
      ensures WellFormed(rs[i]) && forall v :: v in rs[i].scope <==> v in fs[i].scope && v !in evidence
    {
      RestrictAllAt(fs, evidence, ev, i);
    }
    forall v
      ensures Mentions(rs, v) <==> Mentions(fs, v) && v !in evidence
    {
      if Mentions(rs, v) {
        var i :| 0 <= i < |rs| && v in rs[i].scope;
      }
      if Mentions(fs, v) && v !in evidence {
        var i :| 0 <= i < |fs| && v in fs[i].scope;
        assert v in rs[i].scope;
      }
    }
  }

  /** Restriction keeps tables non-negative. */
  lemma {:induction false} RestrictEvidenceNonNegative(f: Factor, evidence: seq<Variable>, ev: Indices)
    requires WellFormed(f) && NonNegative(f.values) && RestrictEvidence(f, evidence, ev).Ok?
    ensures NonNegative(RestrictEvidence(f, evidence, ev).value.values)
    decreases |evidence|
  {
    if |evidence| > 0 {
      var e, rest := evidence[0], evidence[1..];
      if e in f.scope {
        var value := CurrentValue(ev, e).value;
        RestrictNonNegative(f, e, value);
        RestrictEvidenceNonNegative(Restrict(f, e, value).value, rest, ev);
      } else {
        RestrictEvidenceNonNegative(f, rest, ev);
      }
    }
  }

  // ---------------------------------------------------------------------
  // Step 2: eliminating the hidden variables
  // ---------------------------------------------------------------------

  /** Some factor of the list has v in its scope. */
  ghost predicate Mentions(fs: seq<Factor>, v: Variable)
  {
    exists i :: 0 <= i < |fs| && v in fs[i].scope
  }

  /** The network's variables other than the query and the evidence, in
      network order. */
  function EliminationOrder(variables: seq<Variable>, query: Variable, evidence: seq<Variable>): (r: seq<Variable>)
    ensures forall v :: v in r <==> v in variables && v != query && v !in evidence
    ensures |r| <= |variables|
  {
    if |variables| == 0 then []
    else
      var v := variables[0];
      var rest := EliminationOrder(variables[1..], query, evidence);
      assert forall w :: w in variables <==> w == v || w in variables[1..];
      if v != query && v !in evidence then [v] + rest else rest
  }

  /** A single network variable is eliminated exactly when it is neither the
      query nor evidence. */
  lemma EliminationOrderSingle(v: Variable, query: Variable, evidence: seq<Variable>)
    ensures EliminationOrder([v], query, evidence)
         == if v != query && v !in evidence then [v] else []
  {
    assert [v][1..] == [];
  }

  /** The order splits over concatenation, so with EliminationOrderSingle it
      keeps the network's own variable order. */
  lemma {:induction false} EliminationOrderAppend(xs: seq<Variable>, ys: seq<Variable>, query: Variable, evidence: seq<Variable>)
    ensures EliminationOrder(xs + ys, query, evidence)
         == EliminationOrder(xs, query, evidence) + EliminationOrder(ys, query, evidence)
    decreases |xs|
  {
    if |xs| == 0 {
      assert xs + ys == ys;
    } else {
      assert (xs + ys)[0] == xs[0];
      assert (xs + ys)[1..] == xs[1..] + ys;
      EliminationOrderAppend(xs[1..], ys, query, evidence);
    }
  }

  /** `[f for f in remaining_factors if variable in f.get_scope()]`. */
  function Touching(fs: seq<Factor>, v: Variable): (r: seq<Factor>)
    ensures forall f :: f in r <==> f in fs && v in f.scope
    ensures |r| == 0 <==> !Mentions(fs, v)
  {
    if |fs| == 0 then []
    else
      var rest := Touching(fs[1..], v);
      assert forall f :: f in fs <==> f == fs[0] || f in fs[1..];
      assert Mentions(fs, v) <==> v in fs[0].scope || Mentions(fs[1..], v) by {
        if Mentions(fs, v) {
          var i :| 0 <= i < |fs| && v in fs[i].scope;
          assert i == 0 || fs[i] == fs[1..][i - 1];
        }
        if Mentions(fs[1..], v) {
          var i :| 0 <= i < |fs[1..]| && v in fs[1..][i].scope;
          assert fs[1..][i] == fs[i + 1];
        }
      }
      if v in fs[0].scope then [fs[0]] + rest else rest
  }

  /** `[f for f in remaining_factors if f not in factors_to_multiply]`:
      exactly the factors without v, in order. */
  function Untouching(fs: seq<Factor>, v: Variable): (r: seq<Factor>)
    ensures forall f :: f in r <==> f in fs && v !in f.scope
    ensures !Mentions(fs, v) ==> r == fs
  {
    if |fs| == 0 then []
    else
      var rest := Untouching(fs[1..], v);
      assert forall f :: f in fs <==> f == fs[0] || f in fs[1..];
      assert !Mentions(fs, v) ==> !Mentions(fs[1..], v) && v !in fs[0].scope by {
        if Mentions(fs[1..], v) {
          var i :| 0 <= i < |fs[1..]| && v in fs[1..][i].scope;
          assert fs[1..][i] == fs[i + 1];
        }
      }
      assert [fs[0]] + fs[1..] == fs;
      if v in fs[0].scope then rest else [fs[0]] + rest
  }

  /** One pass of the elimination loop: multiply the factors that mention
      v, sum v out of the product and append the result to the others. */
  function EliminateOne(fs: seq<Factor>, v: Variable): (r: seq<Factor>)
    requires AllWellFormed(fs)
    ensures AllWellFormed(r)
  {
    var touching := Touching(fs, v);
    var others := Untouching(fs, v);
    InList(fs, touching);
    InList(fs, others);
    if |touching| == 0 then others
    else others + [SumOut(Multiply(touching), v)]
  }

  /** A list whose members all come from a well-formed list is well formed. */
  lemma InList(fs: seq<Factor>, sub: seq<Factor>)
    requires AllWellFormed(fs) && forall f :: f in sub ==> f in fs
    ensures AllWellFormed(sub)
  {
    forall i | 0 <= i < |sub|
      ensures WellFormed(sub[i])
    {
      assert sub[i] in sub;
    }
  }

  /** After one pass no factor mentions v, and every other variable is
      mentioned exactly when it was before. */
  lemma EliminateOneMentions(fs: seq<Factor>, v: Variable)
    requires AllWellFormed(fs)
    ensures forall w :: Mentions(EliminateOne(fs, v), w) <==> Mentions(fs, w) && w != v
  {
    forall w
      ensures Mentions(EliminateOne(fs, v), w) <==> Mentions(fs, w) && w != v
    {
      if Mentions(EliminateOne(fs, v), w) {
        MentionedAfter(fs, v, w);
      }
      if Mentions(fs, w) && w != v {
        MentionedBefore(fs, v, w);
      }
    }
  }

  lemma MentionedAfter(fs: seq<Factor>, v: Variable, w: Variable)
    requires AllWellFormed(fs) && Mentions(EliminateOne(fs, v), w)
    ensures Mentions(fs, w) && w != v
  {
    var touching := Touching(fs, v);
    var others := Untouching(fs, v);
    var r := EliminateOne(fs, v);
    var i :| 0 <= i < |r| && w in r[i].scope;
    if i < |others| {
      assert others[i] in others;
      var k :| 0 <= k < |fs| && fs[k] == others[i];
    } else {
      InList(fs, touching);
      assert w in UnionScope(touching) && w != v;
      var j :| 0 <= j < |touching| && w in touching[j].scope;
      assert touching[j] in touching;
      var k :| 0 <= k < |fs| && fs[k] == touching[j];
    }
  }

  lemma MentionedBefore(fs: seq<Factor>, v: Variable, w: Variable)
    requires AllWellFormed(fs) && Mentions(fs, w) && w != v
    ensures Mentions(EliminateOne(fs, v), w)
  {
    var i :| 0 <= i < |fs| && w in fs[i].scope;
    if v in fs[i].scope {
      TouchedSurvives(fs, v, w, i);
    } else {
      var others := Untouching(fs, v);
      assert fs[i] in fs;
      var j :| 0 <= j < |others| && others[j] == fs[i];
      assert EliminateOne(fs, v)[j] == others[j];
    }
  }

  /** A factor that mentions v passes its other variables on to the
      summed-out product. */
  lemma TouchedSurvives(fs: seq<Factor>, v: Variable, w: Variable, i: nat)
    requires AllWellFormed(fs) && i < |fs| && v in fs[i].scope && w in fs[i].scope && w != v
    ensures Mentions(EliminateOne(fs, v), w)
  {
    var touching := Touching(fs, v);
    var others := Untouching(fs, v);
    assert fs[i] in fs;
    InList(fs, touching);
    var j :| 0 <= j < |touching| && touching[j] == fs[i];
    var p := Multiply(touching);
    assert w in Remove(p.scope, v);
    assert EliminateOne(fs, v)[|others|] == SumOut(p, v);
  }

  /** A variable no factor mentions is eliminated without any change. */
  lemma EliminateOneAbsent(fs: seq<Factor>, v: Variable)
    requires AllWellFormed(fs) && !Mentions(fs, v)
    ensures EliminateOne(fs, v) == fs
  {
  }

  /** The loop of step 2 over the elimination order. */
  function EliminateAll(fs: seq<Factor>, order: seq<Variable>): (r: seq<Factor>)
    requires AllWellFormed(fs)
    ensures AllWellFormed(r)
    decreases |order|
  {
    if |order| == 0 then fs
    else EliminateAll(EliminateOne(fs, order[0]), order[1..])
  }

  /** After step 2 exactly the variables outside the elimination order that
      some factor mentioned are mentioned. */
  lemma {:induction false} EliminateAllMentions(fs: seq<Factor>, order: seq<Variable>)
    requires AllWellFormed(fs)
    ensures forall w :: Mentions(EliminateAll(fs, order), w) <==> Mentions(fs, w) && w !in order
    decreases |order|
  {
    if |order| > 0 {
      EliminateOneMentions(fs, order[0]);
      EliminateAllMentions(EliminateOne(fs, order[0]), order[1..]);
      assert forall w :: w in order <==> w == order[0] || w in order[1..];
    }
  }

  /** Elimination keeps tables non-negative. */
  lemma EliminateOneNonNegative(fs: seq<Factor>, v: Variable)
    requires AllWellFormed(fs) && AllNonNegative(fs)
    ensures AllNonNegative(EliminateOne(fs, v))
  {
    var touching := Touching(fs, v);
    var others := Untouching(fs, v);
    InList(fs, touching);
    NonNegativeInList(fs, touching);
    NonNegativeInList(fs, others);
    if |touching| > 0 {
      MultiplyNonNegative(touching);
      SumOutNonNegative(Multiply(touching), v);
    }
  }

  lemma {:induction false} EliminateAllNonNegative(fs: seq<Factor>, order: seq<Variable>)
    requires AllWellFormed(fs) && AllNonNegative(fs)
    ensures AllNonNegative(EliminateAll(fs, order))
    decreases |order|
  {
    if |order| > 0 {
      EliminateOneNonNegative(fs, order[0]);
      EliminateAllNonNegative(EliminateOne(fs, order[0]), order[1..]);
    }
  }

  lemma NonNegativeInList(fs: seq<Factor>, sub: seq<Factor>)
    requires AllNonNegative(fs) && forall f :: f in sub ==> f in fs
    ensures AllNonNegative(sub)
  {
    forall i | 0 <= i < |sub|
      ensures NonNegative(sub[i].values)
    {
      assert sub[i] in sub;
    }
  }

  // ---------------------------------------------------------------------
  // Steps 3 and 4: the final factor
  // ---------------------------------------------------------------------

  /** A factor on the single variable v has |dom v| cells, addressed by v's index. */
  lemma SingleScope(v: Variable, a: Indices)
    ensures TableSize([v]) == |v.dom| && Offset([v], a) == IndexOf(a, v)
  {
    assert Sizes([v]) == [|v.dom|];
    assert Project([v], a) == [IndexOf(a, v)];
    EncodeSingle(|v.dom|, IndexOf(a, v));
  }

  /** The loop `for value in vals: v.set_assignment(value);
      factor.add_value_at_current_assignment(x)` over a factor on [v]: each
      value writes x into the cell of its first position in the domain. */
  function Fill(f: Factor, v: Variable, vals: seq<Value>, x: real): (r: Factor)
    requires f.scope == [v] && |f.values| == |v.dom|
    requires forall i :: 0 <= i < |vals| ==> vals[i] in v.dom
    ensures r.scope == [v] && |r.values| == |v.dom|
    ensures forall k :: 0 <= k < |v.dom| ==>
      r.values[k] == if v.dom[k] in vals && ValueIndex(v, v.dom[k]) == Some(k) then x else f.values[k]
    decreases |vals|
  {
    if |vals| == 0 then f
    else
      var a := SetValue(map[], v, vals[0]).value;
      SingleScope(v, a);
      var g := AddValueAtCurrentAssignment(f, a, x).value;
      assert forall w :: w in vals <==> w == vals[0] || w in vals[1..];
      Fill(g, v, vals[1..], x)
  }

  /** The uniform factor of steps 3 and 4: `1.0 / domain_size()` written at
      every value of the query's domain; an empty domain divides by zero. */
  function Uniform(query: Variable, name: string): (r: Result<Factor, Error>)
    ensures r.Err? <==> |query.dom| == 0
    ensures r.Err? ==> r.error == DivisionByZero
    ensures r.Ok? ==> r.value.scope == [query] && |r.value.values| == |query.dom|
    ensures r.Ok? && Distinct(query.dom) ==> WellFormed(r.value)
    ensures r.Ok? && Distinct(query.dom) ==>
      forall k :: 0 <= k < |query.dom| ==> r.value.values[k] == 1.0 / |query.dom| as real
  {
    if |query.dom| == 0 then Err(DivisionByZero)
    else
      SingleScope(query, map[]);
      var f := NewFactor(name, [query]);
      var r := Fill(f, query, query.dom, 1.0 / |query.dom| as real);
      DomainPositions(query);
      assert Distinct(query.dom) ==> DistinctDomains([query]);
      Ok(r)
  }

  /** In a duplicate-free domain every value is first found at its own position. */
  lemma DomainPositions(v: Variable)
    ensures Distinct(v.dom) ==> forall k :: 0 <= k < |v.dom| ==> ValueIndex(v, v.dom[k]) == Some(k)
  {
    if Distinct(v.dom) {
      forall k | 0 <= k < |v.dom|
        ensures ValueIndex(v, v.dom[k]) == Some(k)
      {
        FirstIndexDistinct(v.dom, k);
      }
    }
  }

  /** With a duplicate-free domain the uniform factor is a distribution. */
  lemma UniformSumsToOne(query: Variable, name: string)
    requires Distinct(query.dom)
    ensures Uniform(query, name).Ok? ==> Sum(Uniform(query, name).value.values) == 1.0
    ensures Uniform(query, name).Ok? ==> NonNegative(Uniform(query, name).value.values)
  {
    if |query.dom| > 0 {
      UniformTable(Uniform(query, name).value.values, |query.dom|);
    }
  }

  /** n cells of 1 / n add up to 1. */
  lemma UniformTable(s: seq<real>, n: nat)
    requires n > 0 && |s| == n
    requires forall k :: 0 <= k < |s| ==> s[k] == 1.0 / n as real
    ensures Sum(s) == 1.0 && NonNegative(s)
  {
    var c := 1.0 / n as real;
    SumConstant(s, c);
    Reciprocal(n as real, c);
  }

  lemma Reciprocal(n: real, c: real)
    requires n > 0.0 && c == 1.0 / n
    ensures n * c == 1.0 && c > 0.0
  {
  }

  /** The last loop of ve: sum each listed variable out in turn. */
  function SumOutAll(f: Factor, vs: seq<Variable>): (r: Factor)
    requires WellFormed(f)
    ensures WellFormed(r)
    ensures forall v :: v in r.scope <==> v in f.scope && v !in vs
    decreases |vs|
  {
    if |vs| == 0 then f
    else
      assert forall v :: v in vs <==> v == vs[0] || v in vs[1..];
      SumOutAll(SumOut(f, vs[0]), vs[1..])
  }

  /** Summing out distinct variables of the scope keeps the total mass. */
  lemma {:induction false} SumOutAllMass(f: Factor, vs: seq<Variable>)
    requires WellFormed(f) && Distinct(vs) && forall v :: v in vs ==> v in f.scope
    ensures Sum(SumOutAll(f, vs).values) == Sum(f.values)
    decreases |vs|
  {
    if |vs| > 0 {
      SumOutMass(f, vs[0]);
      DistinctTail(vs);
      SumOutAllMass(SumOut(f, vs[0]), vs[1..]);
    }
  }

  lemma {:induction false} SumOutAllNonNegative(f: Factor, vs: seq<Variable>)
    requires WellFormed(f) && NonNegative(f.values)
    ensures NonNegative(SumOutAll(f, vs).values)
    decreases |vs|
  {
    if |vs| > 0 {
      SumOutNonNegative(f, vs[0]);
      SumOutAllNonNegative(SumOut(f, vs[0]), vs[1..]);
    }
  }

  /** A duplicate-free scope whose only variable can be q is [] or [q]. */
  lemma OnlyQuery(scope: seq<Variable>, q: Variable)
    requires Distinct(scope) && forall v :: v in scope ==> v == q
    ensures scope == [] || scope == [q]
  {
    DistinctCard(scope);
    if |scope| > 0 {
      assert scope[0] in scope;
      assert (set v | v in scope) == {q};
    }
  }

  /** A duplicate-free list has as many members as positions. */
  lemma {:induction false} DistinctCard(s: seq<Variable>)
    requires Distinct(s)
    ensures |(set v | v in s)| == |s|
  {
    if |s| > 0 {
      DistinctTail(s);
      DistinctCard(s[1..]);
      assert (set v | v in s) == (set v | v in s[1..]) + {s[0]};
    }
  }

  /** Step 3: the product of the factors left, or the uniform factor
      "Uniform_<query>" when none is left. */
  function FinalProduct(remaining: seq<Factor>, query: Variable): (r: Result<Factor, Error>)
    requires AllWellFormed(remaining) && Distinct(query.dom)
    ensures r.Err? <==> |remaining| == 0 && |query.dom| == 0
    ensures r.Err? ==> r.error == DivisionByZero
    ensures r.Ok? ==> WellFormed(r.value)
    ensures r.Ok? && |remaining| == 0 ==> r.value.scope == [query]
    ensures r.Ok? && |remaining| > 0 ==> forall v :: v in r.value.scope <==> Mentions(remaining, v)
  {
    if |remaining| > 0 then Ok(Multiply(remaining))
    else Uniform(query, "Uniform_" + query.name)
  }

  /** Step 3's cells: at every full assignment of its scope, the product of
      the remaining factors' entries, or 1 / |dom| at every query value when
      none remains. */
  lemma FinalProductCells(remaining: seq<Factor>, query: Variable)
    requires AllWellFormed(remaining) && Distinct(query.dom)
    ensures |remaining| > 0 ==> (FinalProduct(remaining, query).Ok? &&
      forall a :: Covers(FinalProduct(remaining, query).value.scope, a) ==>
        ValueAt(FinalProduct(remaining, query).value, a) == ProductAt(remaining, a))
    ensures |remaining| == 0 && FinalProduct(remaining, query).Ok? ==>
      (|FinalProduct(remaining, query).value.values| == |query.dom| &&
       forall k :: 0 <= k < |query.dom| ==> FinalProduct(remaining, query).value.values[k] == 1.0 / |query.dom| as real)
  {
    if |remaining| > 0 {
      MultiplyCells(remaining);
    }
  }

  /** Step 4: normalize, or fall back to the uniform factor
      "Normalized_<query>" when the total is 0. Either way the result is a
      distribution. */
  function NormalizeOrUniform(f: Factor, query: Variable): (r: Result<Factor, Error>)
    requires WellFormed(f) && Distinct(query.dom)
    ensures r.Err? <==> Sum(f.values) == 0.0 && |query.dom| == 0
    ensures r.Err? ==> r.error == DivisionByZero
    ensures r.Ok? ==> WellFormed(r.value) && Sum(r.value.values) == 1.0
    ensures r.Ok? ==> r.value.scope == if Sum(f.values) == 0.0 then [query] else f.scope
  {
    if Sum(f.values) == 0.0 then
      UniformSumsToOne(query, "Normalized_" + query.name);
      Uniform(query, "Normalized_" + query.name)
    else
      NormalizeSumsToOne(f);
      Ok(Normalize(f))
  }

  /** Step 4's cells: each entry divided by the total, or 1 / |dom| at every
      query value when the total is 0. */
  lemma NormalizeOrUniformCells(f: Factor, query: Variable)
    requires WellFormed(f) && Distinct(query.dom)
    ensures Sum(f.values) != 0.0 ==> (NormalizeOrUniform(f, query).Ok? &&
      |NormalizeOrUniform(f, query).value.values| == |f.values| &&
      forall k :: 0 <= k < |f.values| ==>
        NormalizeOrUniform(f, query).value.values[k] == f.values[k] / Sum(f.values))
    ensures Sum(f.values) == 0.0 && NormalizeOrUniform(f, query).Ok? ==>
      (|NormalizeOrUniform(f, query).value.values| == |query.dom| &&
       forall k :: 0 <= k < |query.dom| ==> NormalizeOrUniform(f, query).value.values[k] == 1.0 / |query.dom| as real)
  {
    if Sum(f.values) != 0.0 {
      NormalizeCells(f);
    }
  }

  /** `ve(bayes_net, var_query, EvidenceVars)`. The final loop sums out every
      variable of the normalized factor other than the query; when its scope
      is already [query] that list is empty, as in the guarded Python loop. */
  function Ve(bn: BN, query: Variable, evidence: seq<Variable>, ev: Indices): (r: Result<Factor, Error>)
    requires AllWellFormed(bn.factors) && Distinct(query.dom)
    ensures r.Err? ==> r.error == IndexOutOfRange || r.error == DivisionByZero
    ensures (r.Err? && r.error == IndexOutOfRange) <==> AnyBadEvidence(bn.factors, evidence, ev)
    ensures r.Err? && r.error == DivisionByZero ==> |query.dom| == 0
    ensures r.Ok? ==> WellFormed(r.value) && (r.value.scope == [query] || r.value.scope == [])
    ensures r.Ok? ==> Sum(r.value.values) == 1.0
  {
    var restricted :- RestrictAll(bn.factors, evidence, ev);
    var remaining := EliminateAll(restricted, EliminationOrder(bn.variables, query, evidence));
    var product :- FinalProduct(remaining, query);
    var normalized :- NormalizeOrUniform(product, query);
    var others := Remove(normalized.scope, query);
    SumOutAllMass(normalized, others);
    OnlyQuery(SumOutAll(normalized, others).scope, query);
    Ok(SumOutAll(normalized, others))
  }

  lemma RestrictAllNonNegative(fs: seq<Factor>, evidence: seq<Variable>, ev: Indices)
    requires AllWellFormed(fs) && AllNonNegative(fs) && RestrictAll(fs, evidence, ev).Ok?
    ensures AllNonNegative(RestrictAll(fs, evidence, ev).value)
  {
    forall i | 0 <= i < |fs|
      ensures NonNegative(RestrictAll(fs, evidence, ev).value[i].values)
    {
      RestrictAllAt(fs, evidence, ev, i);
      RestrictEvidenceNonNegative(fs[i], evidence, ev);
    }
  }

  /** On a network whose factors hold no negative entry, ve returns a
      table without negative entries that sums to 1: a distribution. */
  lemma VeNonNegative(bn: BN, query: Variable, evidence: seq<Variable>, ev: Indices)
    requires AllWellFormed(bn.factors) && Distinct(query.dom) && AllNonNegative(bn.factors)
    ensures Ve(bn, query, evidence, ev).Ok? ==> NonNegative(Ve(bn, query, evidence, ev).value.values)
  {
    if Ve(bn, query, evidence, ev).Ok? {
      var restricted := RestrictAll(bn.factors, evidence, ev).value;
      RestrictAllNonNegative(bn.factors, evidence, ev);
      var remaining := EliminateAll(restricted, EliminationOrder(bn.variables, query, evidence));
      EliminateAllNonNegative(restricted, EliminationOrder(bn.variables, query, evidence));
      var product := FinalProduct(remaining, query).value;
      if |remaining| > 0 {
        MultiplyNonNegative(remaining);
      } else {
        UniformSumsToOne(query, "Uniform_" + query.name);
      }
      var normalized := NormalizeOrUniform(product, query).value;
      if Sum(product.values) == 0.0 {
        UniformSumsToOne(query, "Normalized_" + query.name);
      } else {
        NormalizeNonNegative(product);
      }
      SumOutAllNonNegative(normalized, Remove(normalized.scope, query));
    }
  }

  /** On a consistent network, the factors left after step 2 mention the
      query and nothing else -- and the query only when it is not evidence
      and some factor of the network mentions it. */
  lemma EliminationLeavesQuery(bn: BN, query: Variable, evidence: seq<Variable>, ev: Indices, restricted: seq<Factor>)
    requires Consistent(bn) && AllWellFormed(bn.factors)
    requires RestrictAll(bn.factors, evidence, ev) == Ok(restricted)
    ensures forall w :: Mentions(EliminateAll(restricted, EliminationOrder(bn.variables, query, evidence)), w) <==>
      w == query && query !in evidence && Mentions(bn.factors, query)
  {
    var order := EliminationOrder(bn.variables, query, evidence);
    RestrictAllScopes(bn.factors, evidence, ev);
    EliminateAllMentions(restricted, order);
    forall w | Mentions(bn.factors, w)
      ensures w in bn.variables
    {
      var i :| 0 <= i < |bn.factors| && w in bn.factors[i].scope;
      var j :| 0 <= j < |bn.factors[i].scope| && bn.factors[i].scope[j] == w;
    }
  }

  /** When the query is not evidence and some factor mentions it, ve's
      answer is a factor over exactly [query]. */
  lemma VeKeepsQuery(bn: BN, query: Variable, evidence: seq<Variable>, ev: Indices)
    requires AllWellFormed(bn.factors) && Distinct(query.dom)
    requires query !in evidence && Mentions(bn.factors, query)
    ensures Ve(bn, query, evidence, ev).Ok? ==> Ve(bn, query, evidence, ev).value.scope == [query]
  {
    if Ve(bn, query, evidence, ev).Ok? {
      var order := EliminationOrder(bn.variables, query, evidence);
      var restricted := RestrictAll(bn.factors, evidence, ev).value;
      RestrictAllScopes(bn.factors, evidence, ev);
      var remaining := EliminateAll(restricted, order);
      EliminateAllMentions(restricted, order);
      assert Mentions(remaining, query);
      var product := FinalProduct(remaining, query).value;
      var normalized := NormalizeOrUniform(product, query).value;
      assert query in normalized.scope;
      var r := SumOutAll(normalized, Remove(normalized.scope, query));
      assert query in r.scope;
    }
  }

  /** When the query is not evidence, some factor mentions it and the
      product of the factors step 2 leaves has a non-zero total, ve answers
      on a consistent network with that product normalized: the cell of the
      query's k-th value is the product of the remaining factors at that
      value divided by the total. */
  lemma VePosterior(bn: BN, query: Variable, evidence: seq<Variable>, ev: Indices, remaining: seq<Factor>)
    requires Consistent(bn) && AllWellFormed(bn.factors) && Distinct(query.dom)
    requires query !in evidence && Mentions(bn.factors, query)
    requires RestrictAll(bn.factors, evidence, ev).Ok?
    requires remaining == EliminateAll(RestrictAll(bn.factors, evidence, ev).value,
                                       EliminationOrder(bn.variables, query, evidence))
    requires Sum(Multiply(remaining).values) != 0.0
    ensures Multiply(remaining).scope == [query]
    ensures Ve(bn, query, evidence, ev) == Ok(Normalize(Multiply(remaining)))
    ensures forall k :: 0 <= k < |query.dom| ==>
      k < |Ve(bn, query, evidence, ev).value.values| &&
      Ve(bn, query, evidence, ev).value.values[k]
        == ProductAt(remaining, map[query := k]) / Sum(Multiply(remaining).values)
  {
    var restricted := RestrictAll(bn.factors, evidence, ev).value;
    EliminationLeavesQuery(bn, query, evidence, ev, restricted);
    ProductOnQuery(remaining, query);
    VeNormalizedProduct(bn, query, evidence, ev, remaining);
    ProductCellsOnQuery(remaining, query);
  }

  /** Factors that mention the query and nothing else multiply to a factor
      on [query]. */
  lemma ProductOnQuery(remaining: seq<Factor>, query: Variable)
    requires AllWellFormed(remaining)
    requires forall w :: Mentions(remaining, w) <==> w == query
    ensures |remaining| > 0 && Multiply(remaining).scope == [query]
  {
    assert Mentions(remaining, query);
    forall v | v in Multiply(remaining).scope
      ensures v == query
    {
      assert Mentions(remaining, v);
    }
    OnlyQuery(Multiply(remaining).scope, query);
    var i :| 0 <= i < |remaining| && query in remaining[i].scope;
    assert query in Multiply(remaining).scope;
  }

  /** The normalized product on [query] is what ve returns. */
  lemma VeNormalizedProduct(bn: BN, query: Variable, evidence: seq<Variable>, ev: Indices, remaining: seq<Factor>)
    requires AllWellFormed(bn.factors) && Distinct(query.dom)
    requires RestrictAll(bn.factors, evidence, ev).Ok?
    requires remaining == EliminateAll(RestrictAll(bn.factors, evidence, ev).value,
                                       EliminationOrder(bn.variables, query, evidence))
    requires |remaining| > 0 && Multiply(remaining).scope == [query]
    requires Sum(Multiply(remaining).values) != 0.0
    ensures Ve(bn, query, evidence, ev) == Ok(Normalize(Multiply(remaining)))
  {
    OnlyQueryLeft(Normalize(Multiply(remaining)), query);
  }

  /** A factor on [query] has nothing for the final loop to sum out. */
  lemma OnlyQueryLeft(f: Factor, query: Variable)
    requires WellFormed(f) && f.scope == [query]
    ensures Remove(f.scope, query) == [] && SumOutAll(f, []) == f
  {
    assert forall v :: v !in Remove(f.scope, query);
  }

  /** The normalized product on [query], cell by cell. */
  lemma ProductCellsOnQuery(remaining: seq<Factor>, query: Variable)
    requires AllWellFormed(remaining) && Multiply(remaining).scope == [query]
    requires Sum(Multiply(remaining).values) != 0.0
    ensures forall k :: 0 <= k < |query.dom| ==>
      k < |Normalize(Multiply(remaining)).values| &&
      Normalize(Multiply(remaining)).values[k]
        == ProductAt(remaining, map[query := k]) / Sum(Multiply(remaining).values)
  {
    var p := Multiply(remaining);
    NormalizeCells(p);
    MultiplyCells(remaining);
    forall k | 0 <= k < |query.dom|
      ensures k < |p.values| && p.values[k] == ProductAt(remaining, map[query := k])
    {
      SingleScope(query, map[query := k]);
      assert Covers(p.scope, map[query := k]);
    }
  }

  /** When no factor is left after step 2, or the product of those left
      totals 0, ve answers with the uniform distribution over the query's
      domain, and fails with a division by zero exactly when that domain is
      empty. */
  lemma VeUniformFallback(bn: BN, query: Variable, evidence: seq<Variable>, ev: Indices, remaining: seq<Factor>)
    requires AllWellFormed(bn.factors) && Distinct(query.dom)
    requires RestrictAll(bn.factors, evidence, ev).Ok?
    requires remaining == EliminateAll(RestrictAll(bn.factors, evidence, ev).value,
                                       EliminationOrder(bn.variables, query, evidence))
    requires |remaining| == 0 || Sum(Multiply(remaining).values) == 0.0
    ensures Ve(bn, query, evidence, ev).Ok? <==> |query.dom| > 0
    ensures Ve(bn, query, evidence, ev).Ok? ==>
      Ve(bn, query, evidence, ev).value.scope == [query] &&
      |Ve(bn, query, evidence, ev).value.values| == |query.dom| &&
      forall k :: 0 <= k < |query.dom| ==> Ve(bn, query, evidence, ev).value.values[k] == 1.0 / |query.dom| as real
  {
    if |query.dom| > 0 {
      var product := FinalProduct(remaining, query).value;
      if |remaining| == 0 {
        UniformSumsToOne(query, "Uniform_" + query.name);
        FinalProductCells(remaining, query);
        UniformTable(product.values, |query.dom|);
      }
      NormalizeOrUniformCells(product, query);
      var normalized := NormalizeOrUniform(product, query).value;
      OnlyQueryLeft(normalized, query);
    }
  }

  /** With factors left after step 2 and a non-zero total, ve normalizes
      their product and then sums out every variable of it other than the
      query. On an inconsistent network this includes the factor variables
      missing from the network's list, which step 2 never eliminates. */
  lemma VeSumsOutRest(bn: BN, query: Variable, evidence: seq<Variable>, ev: Indices, remaining: seq<Factor>)
    requires AllWellFormed(bn.factors) && Distinct(query.dom)
    requires RestrictAll(bn.factors, evidence, ev).Ok?
    requires remaining == EliminateAll(RestrictAll(bn.factors, evidence, ev).value,
                                       EliminationOrder(bn.variables, query, evidence))
    requires |remaining| > 0 && Sum(Multiply(remaining).values) != 0.0
    ensures Ve(bn, query, evidence, ev)
         == Ok(SumOutAll(Normalize(Multiply(remaining)), Remove(Multiply(remaining).scope, query)))
  {
  }
}

/** The representation of a discrete Bayesian network: variables with an
    ordered domain, factors holding a dense table laid out in mixed-radix
    order over their scope, and the network that groups them (bnetbase.py).

    The Python `Variable` keeps two scratch fields, `evidence_index` and
    `assignment_index`, on the shared object. Here they become explicit
    `Indices` maps passed as arguments; a variable the map does not mention
    has index 0, the value both fields start with. */
module BNetBase {
  import opened Wrappers
  import opened MixedRadix
  import opened Sums

  /** Domain values are the strings the network is built from. */
  type Value = string

  /** The Python exceptions the core can raise. */
  datatype Error =
    | ValueNotInDomain   // `list.index` raised ValueError
    | IndexOutOfRange    // a list subscript raised IndexError
    | KeyNotFound        // a dict lookup raised KeyError
    | RowTooLong         // a row of `add_values` carried more than one value per scope variable
    | DivisionByZero     // `1.0 / 0` raised ZeroDivisionError

  /** A random variable: its name and ordered domain. Identity is the pair. */
  datatype Variable = Variable(name: string, dom: seq<Value>)

  predicate Distinct<T(==)>(s: seq<T>)
  {
    forall i, j :: 0 <= i < j < |s| ==> s[i] != s[j]
  }

  /** `list.index`: the position of the first occurrence of x in s, or None
      where Python raises ValueError. */
  function FirstIndex<T(==)>(s: seq<T>, x: T): (r: Option<nat>)
    ensures r.None? <==> x !in s
    ensures r.Some? ==> r.value < |s| && s[r.value] == x
    ensures r.Some? ==> forall j :: 0 <= j < r.value ==> s[j] != x
  {
    if |s| == 0 then None
    else if s[0] == x then Some(0)
    else match FirstIndex(s[1..], x)
      case None => None
      case Some(i) => Some(i + 1)
  }

  /** `Variable.value_index`. */
  function ValueIndex(v: Variable, value: Value): Option<nat>
  {
    FirstIndex(v.dom, value)
  }

  // ---------------------------------------------------------------------
  // Scratch indices: `evidence_index` and `assignment_index`
  // ---------------------------------------------------------------------

  /** One scratch index per variable; both Python fields start at 0. */
  type Indices = map<Variable, nat>

  function IndexOf(m: Indices, v: Variable): nat
  {
    if v in m then m[v] else 0
  }

  /** `set_evidence(val)` and `set_assignment(val)`: store the index of val
      in v's domain, failing as `value_index` does. */
  function SetValue(m: Indices, v: Variable, value: Value): (r: Result<Indices, Error>)
    ensures r.Err? <==> value !in v.dom
    ensures r.Err? ==> r.error == ValueNotInDomain
    ensures r.Ok? ==> forall w :: w != v ==> IndexOf(r.value, w) == IndexOf(m, w)
  {
    match ValueIndex(v, value)
    case None => Err(ValueNotInDomain)
    case Some(i) => Ok(m[v := i])
  }

  /** `get_evidence()` and `get_assignment()`: the domain value at the stored
      index; an index past the domain raises IndexError. */
  function CurrentValue(m: Indices, v: Variable): Result<Value, Error>
  {
    if IndexOf(m, v) < |v.dom| then Ok(v.dom[IndexOf(m, v)]) else Err(IndexOutOfRange)
  }

  /** Setting a value and reading it back gives the value (even when the
      domain repeats it, because `index` finds an occurrence of it). */
  lemma SetThenGet(m: Indices, v: Variable, value: Value)
    requires value in v.dom
    ensures SetValue(m, v, value).Ok?
    ensures CurrentValue(SetValue(m, v, value).value, v) == Ok(value)
  {
  }

  /** A variable whose evidence was never set reads as observing its first
      domain value: `evidence_index` starts at 0, not at "unset". */
  lemma FreshEvidenceIsFirstValue(v: Variable)
    requires |v.dom| > 0
    ensures CurrentValue(map[], v) == Ok(v.dom[0])
  {
  }

  // ---------------------------------------------------------------------
  // Factors
  // ---------------------------------------------------------------------

  /** A factor: a dense table over the assignments of its ordered scope. */
  datatype Factor = Factor(name: string, scope: seq<Variable>, values: seq<real>)

  /** The domain sizes of the scope, in scope order. */
  function Sizes(scope: seq<Variable>): (s: seq<nat>)
    ensures |s| == |scope|
    ensures forall i :: 0 <= i < |scope| ==> s[i] == |scope[i].dom|
  {
    seq(|scope|, i requires 0 <= i < |scope| => |scope[i].dom|)
  }

  function TableSize(scope: seq<Variable>): nat
  {
    Product(Sizes(scope))
  }

  /** Every variable of the scope has a duplicate-free domain. */
  ghost predicate DistinctDomains(scope: seq<Variable>)
  {
    forall i :: 0 <= i < |scope| ==> Distinct(scope[i].dom)
  }

  /** The shape every factor the algebra works on has: distinct scope
      variables, distinct values in each domain (so that iterating domain
      values and iterating indices coincide) and a table of the product size. */
  ghost predicate WellFormed(f: Factor)
  {
    && Distinct(f.scope)
    && DistinctDomains(f.scope)
    && |f.values| == TableSize(f.scope)
  }

  /** `Factor(name, scope)`: a zero table with one cell per assignment. */
  function NewFactor(name: string, scope: seq<Variable>): (f: Factor)
    ensures f.scope == scope
    ensures |f.values| == Product(Sizes(scope))
    ensures scope == [] ==> |f.values| == 1
    ensures forall k :: 0 <= k < |f.values| ==> f.values[k] == 0.0
    ensures Distinct(scope) && DistinctDomains(scope) ==> WellFormed(f)
  {
    Factor(name, scope, seq(TableSize(scope), _ => 0.0))
  }

  /** The index tuple the scratch map assigns to the scope. */
  function Project(scope: seq<Variable>, a: Indices): (p: seq<nat>)
    ensures |p| == |scope|
    ensures forall i :: 0 <= i < |scope| ==> p[i] == IndexOf(a, scope[i])
  {
    seq(|scope|, i requires 0 <= i < |scope| => IndexOf(a, scope[i]))
  }

  /** The map gives every scope variable an index inside its domain. */
  ghost predicate Covers(scope: seq<Variable>, a: Indices)
  {
    forall v :: v in scope ==> IndexOf(a, v) < |v.dom|
  }

  /** The table offset the scratch map addresses: the mixed-radix fold of
      `index * domain_size() + get_assignment_index()` over the scope. */
  function Offset(scope: seq<Variable>, a: Indices): nat
  {
    Encode(Sizes(scope), Project(scope, a))
  }

  /** An assignment inside every domain addresses a cell of the table. */
  lemma OffsetInTable(scope: seq<Variable>, a: Indices)
    ensures Covers(scope, a) ==> Offset(scope, a) < TableSize(scope)
  {
    if Covers(scope, a) {
      forall i | 0 <= i < |scope|
        ensures Project(scope, a)[i] < Sizes(scope)[i]
      {
        assert scope[i] in scope;
      }
      EncodeBelowProduct(Sizes(scope), Project(scope, a));
    }
  }

  /** The factor's value at an assignment (0 where no cell is addressed). */
  function ValueAt(f: Factor, a: Indices): real
  {
    At(f.values, Offset(f.scope, a))
  }

  /** `get_value_at_current_assignments()`. */
  function GetValueAtCurrentAssignments(f: Factor, a: Indices): (r: Result<real, Error>)
    ensures r.Ok? <==> Offset(f.scope, a) < |f.values|
    ensures r.Ok? ==> r.value == ValueAt(f, a)
    ensures WellFormed(f) && Covers(f.scope, a) ==> r.Ok?
  {
    OffsetInTable(f.scope, a);
    var k := Offset(f.scope, a);
    if k < |f.values| then Ok(f.values[k]) else Err(IndexOutOfRange)
  }

  /** `add_value_at_current_assignment(number)`: overwrite the addressed cell. */
  function AddValueAtCurrentAssignment(f: Factor, a: Indices, x: real): (r: Result<Factor, Error>)
    ensures r.Ok? <==> Offset(f.scope, a) < |f.values|
    ensures r.Ok? ==> r.value.scope == f.scope && |r.value.values| == |f.values|
    ensures r.Ok? ==> ValueAt(r.value, a) == x
    ensures r.Ok? ==> forall k :: 0 <= k < |f.values| && k != Offset(f.scope, a) ==> r.value.values[k] == f.values[k]
  {
    var k := Offset(f.scope, a);
    if k < |f.values| then Ok(f.(values := f.values[k := x])) else Err(IndexOutOfRange)
  }

  /** The per-variable `value_index` of an explicit value tuple, in scope
      order; the first failure wins. A tuple shorter than the scope raises
      IndexError when its values run out. Extra values are ignored. */
  function ValueIndices(scope: seq<Variable>, vals: seq<Value>): (r: Result<seq<nat>, Error>)
    ensures r.Ok? <==> |vals| >= |scope| && forall i :: 0 <= i < |scope| ==> vals[i] in scope[i].dom
    ensures r.Err? ==> r.error == IndexOutOfRange || r.error == ValueNotInDomain
    ensures r.Ok? ==> InRange(Sizes(scope), r.value)
    ensures r.Ok? ==> forall i :: 0 <= i < |scope| ==> scope[i].dom[r.value[i]] == vals[i]
  {
    if |scope| == 0 then Ok([])
    else if |vals| == 0 then Err(IndexOutOfRange)
    else match ValueIndex(scope[0], vals[0])
      case None => Err(ValueNotInDomain)
      case Some(i) =>
        match ValueIndices(scope[1..], vals[1..])
        case Err(e) => Err(e)
        case Ok(rest) => Ok([i] + rest)
  }

  /** `get_value(variable_values)`. */
  function GetValue(f: Factor, vals: seq<Value>): Result<real, Error>
  {
    match ValueIndices(f.scope, vals)
    case Err(e) => Err(e)
    case Ok(idx) =>
      var k := Encode(Sizes(f.scope), idx);
      if k < |f.values| then Ok(f.values[k]) else Err(IndexOutOfRange)
  }

  /** A row of `add_values`: one value per scope variable, then the number. */
  datatype Row = Row(vals: seq<Value>, number: real)

  /** `add_values(rows)`: write each row's number at the cell its values
      address, row by row. The number follows the values in the Python list,
      so a row too short for the scope hands the number to `value_index`,
      which raises ValueError. */
  function AddValues(f: Factor, rows: seq<Row>): (r: Result<Factor, Error>)
    ensures r.Ok? ==> r.value.scope == f.scope && |r.value.values| == |f.values|
    decreases |rows|
  {
    if |rows| == 0 then Ok(f)
    else
      var row := rows[0];
      match ValueIndices(f.scope, row.vals)
      case Err(IndexOutOfRange) => Err(ValueNotInDomain)
      case Err(e) => Err(e)
      case Ok(idx) =>
        if |row.vals| > |f.scope| then Err(RowTooLong)
        else
          var k := Encode(Sizes(f.scope), idx);
          if k < |f.values| then AddValues(f.(values := f.values[k := row.number]), rows[1..])
          else Err(IndexOutOfRange)
  }

  /** Loading one in-domain row of the scope's length writes its number at
      the mixed-radix offset of its values and nowhere else. */
  lemma AddOneRow(f: Factor, vals: seq<Value>, x: real)
    requires WellFormed(f)
    requires |vals| == |f.scope|
    requires forall i :: 0 <= i < |f.scope| ==> vals[i] in f.scope[i].dom
    ensures ValueIndices(f.scope, vals).Ok?
    ensures Encode(Sizes(f.scope), ValueIndices(f.scope, vals).value) < |f.values|
    ensures AddValues(f, [Row(vals, x)])
            == Ok(f.(values := f.values[Encode(Sizes(f.scope), ValueIndices(f.scope, vals).value) := x]))
  {
    var idx := ValueIndices(f.scope, vals).value;
    EncodeBelowProduct(Sizes(f.scope), idx);
    var k := Encode(Sizes(f.scope), idx);
    assert [Row(vals, x)][1..] == [];
    assert AddValues(f.(values := f.values[k := x]), []) == Ok(f.(values := f.values[k := x]));
  }

  /** After loading one row, `get_value` on its values reads its number back,
      and every other cell is as before. */
  lemma AddValuesThenGetValue(f: Factor, vals: seq<Value>, x: real)
    requires WellFormed(f)
    requires |vals| == |f.scope|
    requires forall i :: 0 <= i < |f.scope| ==> vals[i] in f.scope[i].dom
    ensures AddValues(f, [Row(vals, x)]).Ok?
    ensures GetValue(AddValues(f, [Row(vals, x)]).value, vals) == Ok(x)
    ensures forall w: seq<Value> :: GetValue(f, w).Ok? && ValueIndices(f.scope, w) != ValueIndices(f.scope, vals)
              ==> GetValue(AddValues(f, [Row(vals, x)]).value, w) == GetValue(f, w)
  {
    AddOneRow(f, vals, x);
    WriteCell(f, vals, x);
  }

  /** A row `add_values` accepts: exactly one in-domain value per scope
      variable. */
  predicate RowFits(scope: seq<Variable>, row: Row)
  {
    |row.vals| == |scope| && forall i :: 0 <= i < |scope| ==> row.vals[i] in scope[i].dom
  }

  /** The factor after writing one row's number at the cell its values
      address. */
  function WriteRow(f: Factor, row: Row): Factor
    requires ValueIndices(f.scope, row.vals).Ok?
  {
    var k := Encode(Sizes(f.scope), ValueIndices(f.scope, row.vals).value);
    if k < |f.values| then f.(values := f.values[k := row.number]) else f
  }

  /** A fitting first row is written and loading goes on with the rest. */
  lemma FitStep(f: Factor, rows: seq<Row>)
    requires WellFormed(f) && |rows| > 0 && RowFits(f.scope, rows[0])
    ensures ValueIndices(f.scope, rows[0].vals).Ok?
    ensures WellFormed(WriteRow(f, rows[0])) && WriteRow(f, rows[0]).scope == f.scope
    ensures AddValues(f, rows) == AddValues(WriteRow(f, rows[0]), rows[1..])
  {
    AddOneRow(f, rows[0].vals, rows[0].number);
  }

  /** A first row that does not fit stops loading with an error. */
  lemma MisfitStep(f: Factor, rows: seq<Row>)
    requires |rows| > 0 && !RowFits(f.scope, rows[0])
    ensures AddValues(f, rows).Err?
    ensures AddValues(f, rows).error == ValueNotInDomain
         || (AddValues(f, rows).error == RowTooLong && |rows[0].vals| > |f.scope|)
  {
  }

  /** On a well-formed factor `add_values` succeeds exactly when every row
      fits, and a failure is the ValueError of a missing or out-of-domain
      value or the error of a row longer than the scope. */
  lemma {:induction false} AddValuesSucceeds(f: Factor, rows: seq<Row>)
    requires WellFormed(f)
    ensures AddValues(f, rows).Ok? <==> forall i :: 0 <= i < |rows| ==> RowFits(f.scope, rows[i])
    ensures AddValues(f, rows).Err? ==>
              AddValues(f, rows).error == ValueNotInDomain || AddValues(f, rows).error == RowTooLong
    ensures AddValues(f, rows).Err? && AddValues(f, rows).error == RowTooLong ==>
              exists i :: 0 <= i < |rows| && |rows[i].vals| > |f.scope|
    decreases |rows|
  {
    if |rows| > 0 {
      if RowFits(f.scope, rows[0]) {
        FitStep(f, rows);
        AddValuesSucceeds(WriteRow(f, rows[0]), rows[1..]);
        FitsTail(f.scope, rows);
        if AddValues(f, rows).Err? && AddValues(f, rows).error == RowTooLong {
          var i :| 0 <= i < |rows[1..]| && |rows[1..][i].vals| > |f.scope|;
          assert |rows[i + 1].vals| > |f.scope|;
        }
      } else {
        MisfitStep(f, rows);
      }
    }
  }

  /** All rows fit exactly when the first does and all the others do. */
  lemma FitsTail(scope: seq<Variable>, rows: seq<Row>)
    requires |rows| > 0
    ensures (forall i :: 0 <= i < |rows| ==> RowFits(scope, rows[i]))
        <==> RowFits(scope, rows[0]) && forall i :: 0 <= i < |rows[1..]| ==> RowFits(scope, rows[1..][i])
  {
    assert forall i :: 1 <= i < |rows| ==> rows[i] == rows[1..][i - 1];
  }

  /** The cell a row sequence last writes for the index tuple idx, if any:
      a later row overwrites an earlier one. */
  function LastWrite(scope: seq<Variable>, rows: seq<Row>, idx: seq<nat>): Option<real>
    decreases |rows|
  {
    if |rows| == 0 then None
    else match LastWrite(scope, rows[1..], idx)
      case Some(x) => Some(x)
      case None => if ValueIndices(scope, rows[0].vals) == Ok(idx) then Some(rows[0].number) else None
  }

  /** After loading fitting rows, `get_value` reads the number of the last row
      with the same values, and the factor's earlier number where no row
      wrote. */
  lemma {:induction false} AddValuesReadBack(f: Factor, rows: seq<Row>, w: seq<Value>)
    requires WellFormed(f)
    requires forall i :: 0 <= i < |rows| ==> RowFits(f.scope, rows[i])
    requires GetValue(f, w).Ok?
    ensures AddValues(f, rows).Ok?
    ensures GetValue(AddValues(f, rows).value, w)
         == match LastWrite(f.scope, rows, ValueIndices(f.scope, w).value)
            case Some(x) => Ok(x)
            case None => GetValue(f, w)
    decreases |rows|
  {
    if |rows| > 0 {
      FitStep(f, rows);
      ReadAfterWrite(f, rows[0], w);
      FitsTail(f.scope, rows);
      AddValuesReadBack(WriteRow(f, rows[0]), rows[1..], w);
    }
  }

  /** Reading a tuple after writing one fitting row: the row's number if the
      tuple addresses the same cell, the old number otherwise. */
  lemma ReadAfterWrite(f: Factor, row: Row, w: seq<Value>)
    requires WellFormed(f) && RowFits(f.scope, row) && GetValue(f, w).Ok?
    ensures ValueIndices(f.scope, row.vals).Ok?
    ensures GetValue(WriteRow(f, row), w)
         == if ValueIndices(f.scope, w) == ValueIndices(f.scope, row.vals) then Ok(row.number) else GetValue(f, w)
  {
    AddOneRow(f, row.vals, row.number);
    WriteCell(f, row.vals, row.number);
    if ValueIndices(f.scope, w) == ValueIndices(f.scope, row.vals) {
      assert GetValue(WriteRow(f, row), w) == GetValue(WriteRow(f, row), row.vals);
    }
  }

  /** Writing x at the offset of vals: `get_value` reads x there and the old
      number at every other tuple. */
  lemma WriteCell(f: Factor, vals: seq<Value>, x: real)
    requires ValueIndices(f.scope, vals).Ok?
    requires Encode(Sizes(f.scope), ValueIndices(f.scope, vals).value) < |f.values|
    ensures GetValue(f.(values := f.values[Encode(Sizes(f.scope), ValueIndices(f.scope, vals).value) := x]), vals) == Ok(x)
    ensures forall w: seq<Value> :: GetValue(f, w).Ok? && ValueIndices(f.scope, w) != ValueIndices(f.scope, vals)
              ==> GetValue(f.(values := f.values[Encode(Sizes(f.scope), ValueIndices(f.scope, vals).value) := x]), w) == GetValue(f, w)
  {
    var idx := ValueIndices(f.scope, vals).value;
    var k := Encode(Sizes(f.scope), idx);
    var g := f.(values := f.values[k := x]);
    assert g.values[k] == x;
    forall w: seq<Value> | GetValue(f, w).Ok? && ValueIndices(f.scope, w) != ValueIndices(f.scope, vals)
      ensures GetValue(g, w) == GetValue(f, w)
    {
      var idw := ValueIndices(f.scope, w).value;
      var kw := Encode(Sizes(f.scope), idw);
      if kw == k {
        EncodeInjective(Sizes(f.scope), idw, idx);
      }
      assert g.values[kw] == f.values[kw];
    }
  }

  /** `set_assignment` on each scope variable in turn. */
  function SetValues(m: Indices, scope: seq<Variable>, vals: seq<Value>): Result<Indices, Error>
    requires |vals| == |scope|
    decreases |scope|
  {
    if |scope| == 0 then Ok(m)
    else
      var m' :- SetValue(m, scope[0], vals[0]);
      SetValues(m', scope[1..], vals[1..])
  }

  lemma {:induction false} SetValuesProject(m: Indices, scope: seq<Variable>, vals: seq<Value>)
    requires |vals| == |scope| && Distinct(scope)
    requires forall i :: 0 <= i < |scope| ==> vals[i] in scope[i].dom
    ensures SetValues(m, scope, vals).Ok?
    ensures ValueIndices(scope, vals).Ok?
    ensures Project(scope, SetValues(m, scope, vals).value) == ValueIndices(scope, vals).value
    decreases |scope|
  {
    if |scope| > 0 {
      var m' := SetValue(m, scope[0], vals[0]).value;
      SetValuesProject(m', scope[1..], vals[1..]);
      var m'' := SetValues(m', scope[1..], vals[1..]).value;
      SetValuesFrame(m', scope[1..], vals[1..], scope[0]);
      var p := Project(scope, m'');
      var rest := ValueIndices(scope[1..], vals[1..]).value;
      var q := ValueIndices(scope, vals).value;
      assert q == [ValueIndex(scope[0], vals[0]).value] + rest;
      assert |p| == |q|;
      forall i | 0 <= i < |scope|
        ensures p[i] == q[i]
      {
        if i > 0 {
          assert p[i] == Project(scope[1..], m'')[i - 1];
        }
      }
      assert p == q;
    }
  }

  /** `set_assignment` on other variables leaves v's index alone. */
  lemma {:induction false} SetValuesFrame(m: Indices, scope: seq<Variable>, vals: seq<Value>, v: Variable)
    requires |vals| == |scope| && v !in scope
    requires SetValues(m, scope, vals).Ok?
    ensures IndexOf(SetValues(m, scope, vals).value, v) == IndexOf(m, v)
    decreases |scope|
  {
    if |scope| > 0 {
      var m' := SetValue(m, scope[0], vals[0]).value;
      SetValuesFrame(m', scope[1..], vals[1..], v);
    }
  }

  /** The two access protocols address the same cell: assigning each scope
      variable its value and writing at the current assignment is the same
      as `add_values` with that row, and reading at the current assignment
      then returns the number. */
  lemma CurrentAssignmentMatchesAddValues(f: Factor, m: Indices, vals: seq<Value>, x: real)
    requires WellFormed(f)
    requires |vals| == |f.scope|
    requires forall i :: 0 <= i < |f.scope| ==> vals[i] in f.scope[i].dom
    ensures SetValues(m, f.scope, vals).Ok?
    ensures AddValues(f, [Row(vals, x)]).Ok?
    ensures AddValueAtCurrentAssignment(f, SetValues(m, f.scope, vals).value, x)
            == AddValues(f, [Row(vals, x)])
    ensures GetValueAtCurrentAssignments(AddValues(f, [Row(vals, x)]).value,
                                         SetValues(m, f.scope, vals).value) == Ok(x)
  {
    SetValuesProject(m, f.scope, vals);
    AddOneRow(f, vals, x);
    var a := SetValues(m, f.scope, vals).value;
    var k := Encode(Sizes(f.scope), ValueIndices(f.scope, vals).value);
    assert Offset(f.scope, a) == k;
    var g := f.(values := f.values[k := x]);
    assert AddValueAtCurrentAssignment(f, a, x) == Ok(g);
    assert Offset(g.scope, a) == k;
  }

  // ---------------------------------------------------------------------
  // The network
  // ---------------------------------------------------------------------

  /** `BN(name, Vars, Factors)`: construction never fails. */
  datatype BN = BN(name: string, variables: seq<Variable>, factors: seq<Factor>)

  /** Every variable of every factor's scope is a network variable. */
  ghost predicate Consistent(bn: BN)
  {
    forall i, j :: 0 <= i < |bn.factors| && 0 <= j < |bn.factors[i].scope| ==>
      bn.factors[i].scope[j] in bn.variables
  }

  /** The (factor, variable) pairs the constructor reports, in the order it
      prints them; reporting is all it does about them. */
  function ScopeViolations(variables: seq<Variable>, factors: seq<Factor>): (r: seq<(Factor, Variable)>)
    ensures forall f, v :: (f, v) in r <==> f in factors && v in f.scope && v !in variables
  {
    if |factors| == 0 then []
    else
      var f := factors[0];
      MissingFrom(f, f.scope, variables) + ScopeViolations(variables, factors[1..])
  }

  function MissingFrom(f: Factor, scope: seq<Variable>, variables: seq<Variable>): (r: seq<(Factor, Variable)>)
    ensures forall g, v :: (g, v) in r <==> g == f && v in scope && v !in variables
  {
    if |scope| == 0 then []
    else (if scope[0] in variables then [] else [(f, scope[0])]) + MissingFrom(f, scope[1..], variables)
  }

  /** The constructor is silent exactly on consistent networks. */
  lemma NoViolationsIffConsistent(bn: BN)
    ensures ScopeViolations(bn.variables, bn.factors) == [] <==> Consistent(bn)
  {
    var r := ScopeViolations(bn.variables, bn.factors);
    if r != [] {
      var (f, v) := r[0];
      assert (f, v) in r;
      var i :| 0 <= i < |bn.factors| && bn.factors[i] == f;
      var j :| 0 <= j < |f.scope| && f.scope[j] == v;
      assert !Consistent(bn);
    }
    if !Consistent(bn) {
      var i, j :| 0 <= i < |bn.factors| && 0 <= j < |bn.factors[i].scope| &&
        bn.factors[i].scope[j] !in bn.variables;
      assert (bn.factors[i], bn.factors[i].scope[j]) in r;
    }
  }

  /** `get_variable(name)` over a list: the first variable with that name. */
  function FindByName(vs: seq<Variable>, name: string): (r: Option<Variable>)
    ensures r.None? <==> forall i :: 0 <= i < |vs| ==> vs[i].name != name
    ensures r.Some? ==> exists i :: 0 <= i < |vs| && vs[i] == r.value && r.value.name == name &&
                          forall j :: 0 <= j < i ==> vs[j].name != name
  {
    if |vs| == 0 then None
    else if vs[0].name == name then Some(vs[0])
    else
      var r := FindByName(vs[1..], name);
      if r.Some? then
        ghost var i :| 0 <= i < |vs[1..]| && vs[1..][i] == r.value && r.value.name == name &&
                       forall j :: 0 <= j < i ==> vs[1..][j].name != name;
        assert vs[i + 1] == r.value;
        r
      else r
  }

  /** `BN.get_variable(name)`. */
  function GetVariable(bn: BN, name: string): Option<Variable>
  {
    FindByName(bn.variables, name)
  }
}

# SalaryPredict: a Dafny model of the Bayesian-network core and the survey cleaners

SalaryPredict predicts a developer's salary bracket with a naive Bayes
network. This project models two of its parts.

- **The network representation and variable elimination.** This covers
  `bnetbase.py` (`Variable`, `Factor`, `BN`) and the factor operations of
  `naive_bayes_solution.py`: `normalize`, `restrict`, `sum_out`, `multiply`
  and `ve`.
  - A factor is an ordered scope plus a dense table of reals.
  - The table is laid out in mixed-radix order, with the last variable
    varying fastest. This matches both the `index = index * domain_size + idx`
    fold and the order in which `itertools.product` visits the assignments.
  - Python keeps the `evidence_index` and `assignment_index` scratch fields
    on shared `Variable` objects. The model passes them explicitly as
    `Indices` maps. A variable a map does not mention has index 0, which is
    the value both fields start with.
  - Every operation builds its result by tabulating a cell function over the
    assignments of the new scope, so no input factor is ever modified. The
    scratch fields are not state in the model; "## Left out" lists the
    places where Python leaves them changed.
- **The per-value helpers of `preprocess_stackoverflow.py`.** These are the
  realistic-salary filter, `categorize_salary`, and the nested cleaners
  `clean_employment`, `clean_remote`, `clean_years_code`, `clean_dev_type`,
  `clean_org_size` and `clean_country`.
  - A missing pandas cell (NaN) is `None`.
  - Each `if`/`elif` chain is a list of rules tried in order.
  - Each cleaner comes with a lemma equating it to the chain written out
    test by test.

Modules:
- `Wrappers`: `Option` and `Result`.
- `MixedRadix`: the table layout and its encode/decode bijection.
- `Sums`: Python's left-fold `sum`.
- `BNetBase`: variables, factors and the network.
- `Tables`: tabulation and scope removal.
- `FactorAlgebra`: the four factor operations.
- `VariableElimination`: `ve`.
- `Preprocess`: the survey helpers.

Python exceptions become `Err` values:
- `ValueNotInDomain` for `list.index`;
- `IndexOutOfRange` for `IndexError`;
- `KeyNotFound` for a dict lookup;
- `DivisionByZero` for `1.0 / 0`.

Edge cases of the code that the model keeps as written:
- `normalize` with a zero total writes zeros (naive_bayes_solution.py:38-41).
  The uniform fallback exists only inside `ve`
  (naive_bayes_solution.py:266-285).
- `multiply` of an empty list gives the scalar factor 1.0
  (naive_bayes_solution.py:173-203).
- A query or evidence variable that is not in the network raises no error.
  The evidence is applied only to factors that mention it
  (naive_bayes_solution.py:245-247), and the query is simply never
  eliminated (naive_bayes_solution.py:252).

## Model

| member | source | states |
|---|---|---|
| BNetBase.FirstIndex | bnetbase.py:49-55 | `value_index` finds the first position of the value, and fails exactly when the value is absent from the domain |
| BNetBase.SetValue | bnetbase.py:73-94 | `set_evidence`/`set_assignment` fail exactly for a value outside the domain; on success no other variable's index changes |
| BNetBase.SetThenGet | bnetbase.py:73-99 | reading back after setting an in-domain value gives that value, even with repeated domain values |
| BNetBase.FreshEvidenceIsFirstValue | bnetbase.py:29-39 | a variable whose evidence was never set reads as observing its first domain value, because the index starts at 0 |
| BNetBase.NewFactor | bnetbase.py:144-157 | a new table has one cell per assignment (1 for the empty scope), every cell is 0, and the result is well formed when scope and domains are duplicate-free |
| BNetBase.OffsetInTable | bnetbase.py:286-289 | an assignment inside every domain addresses a cell inside the table |
| BNetBase.GetValueAtCurrentAssignments | bnetbase.py:271-289 | the read succeeds exactly when the addressed offset is inside the table, and always does for a well-formed factor with in-domain indices |
| BNetBase.AddValueAtCurrentAssignment | bnetbase.py:232-268 | the write succeeds exactly when the offset is in the table; it sets the addressed cell and leaves every other cell and the scope unchanged |
| BNetBase.ValueIndices | bnetbase.py:225-228 | a value tuple converts exactly when it is long enough and each value is in its variable's domain; the indices are in range and point back at the values |
| BNetBase.AddValues | bnetbase.py:176-210 | loading rows keeps the scope and the table length |
| BNetBase.AddValuesSucceeds | bnetbase.py:205-210 | on a well-formed factor, loading succeeds exactly when every row has one in-domain value per scope variable; a failure is the ValueError of a missing or out-of-domain value, or a row longer than the scope |
| BNetBase.AddValuesReadBack | bnetbase.py:205-229 | after loading fitting rows, `get_value` on a tuple reads the number of the last row with the same values, and the earlier number when no row has them |
| BNetBase.ReadAfterWrite | bnetbase.py:205-229 | after one fitting row, a tuple addressing the row's cell reads the row's number and any other tuple reads its old number |
| BNetBase.AddOneRow | bnetbase.py:205-210 | one in-domain row writes its number at the mixed-radix offset of its values |
| BNetBase.AddValuesThenGetValue | bnetbase.py:205-229 | after `add_values` of one row, `get_value` on the row's values reads its number back, and every other readable cell is unchanged |
| BNetBase.WriteCell | bnetbase.py:213-229 | overwriting the cell of a value tuple changes what `get_value` reads for that tuple only |
| BNetBase.SetValuesProject | bnetbase.py:90-94 | assigning each scope variable a value gives the scope the same index tuple that `value_index` computes |
| BNetBase.SetValuesFrame | bnetbase.py:90-94 | assigning the scope variables leaves every other variable's index alone |
| BNetBase.CurrentAssignmentMatchesAddValues | bnetbase.py:241-268 | both access protocols address the same cell: setting the assignments and writing x equals `add_values` of the row, and reading back gives x |
| BNetBase.ScopeViolations | bnetbase.py:329-338 | the constructor reports exactly the (factor, variable) pairs whose variable is missing from the network's list |
| BNetBase.NoViolationsIffConsistent | bnetbase.py:333-338 | the constructor is silent exactly when every scope variable is a network variable |
| BNetBase.FindByName | bnetbase.py:352-359 | `get_variable` returns the first variable in list order with the name, and None exactly when no variable has it |
| MixedRadix.Decode | naive_bayes_solution.py:29 | the assignment visited at step k of `itertools.product` lies inside every domain |
| MixedRadix.EncodeBelowProduct | bnetbase.py:205-209 | the offset of an in-range index tuple lies in [0, table size) |
| MixedRadix.DecodeEncode | bnetbase.py:225-229 | decoding the offset of an in-range tuple gives the tuple back |
| MixedRadix.EncodeDecode | bnetbase.py:286-289 | the offset of the k-th tuple is k, so the product iteration visits cells 0, 1, 2, ... in order |
| MixedRadix.EncodeInjective | bnetbase.py:265-268 | distinct in-range tuples address distinct cells |
| MixedRadix.EncodeAppend | bnetbase.py:286-288 | the fold over a split scope is the first block's offset times the second block's size, plus the second block's offset |
| Tables.Remove | naive_bayes_solution.py:66 | the new scope holds exactly the old variables other than x, in order, stays duplicate-free, and is unchanged when x is absent |
| Tables.RemoveTableSize | naive_bayes_solution.py:116 | removing a scope variable divides the table size by its domain size |
| Tables.TabulateValueAt | naive_bayes_solution.py:29-44 | a table built over every assignment of the scope holds, at each in-domain assignment, the cell function's value there |
| FactorAlgebra.Normalize | naive_bayes_solution.py:7-50 | normalize keeps the scope and the table shape |
| FactorAlgebra.NormalizeCells | naive_bayes_solution.py:38-41 | each cell is divided by the total, or is 0 when the total is 0 |
| FactorAlgebra.NormalizeDivides | naive_bayes_solution.py:29-41 | with a non-zero total, the normalized value at every in-domain assignment is the original value there divided by the total |
| FactorAlgebra.NormalizeSumsToOne | naive_bayes_solution.py:19-44 | with a non-zero total the normalized cells sum to 1 |
| FactorAlgebra.NormalizeZeroTotal | naive_bayes_solution.py:38-41 | with a zero total every cell is 0 (not uniform) |
| FactorAlgebra.Restrict | naive_bayes_solution.py:53-103 | restrict raises KeyError exactly when x is outside the scope and the table is non-empty; otherwise the scope is the old scope without x |
| FactorAlgebra.RestrictTableSize | naive_bayes_solution.py:66-69 | restricting a scope variable succeeds and makes the table exactly as many times smaller as x has domain values |
| FactorAlgebra.RestrictCells | naive_bayes_solution.py:79-97 | each cell of the result is the original cell at the assignment extended with x's value; a value outside the domain gives the all-zero table |
| FactorAlgebra.SumOut | naive_bayes_solution.py:105-162 | the result is well formed, over the old scope without x |
| FactorAlgebra.SumOutCells | naive_bayes_solution.py:129-156 | each cell is the sum, over x's domain in order, of the original cell at the extended assignment |
| FactorAlgebra.SumOutAbsent | naive_bayes_solution.py:136-149 | summing out a variable the factor does not mention multiplies every cell by the domain size |
| FactorAlgebra.SumOutMass | naive_bayes_solution.py:129-156 | summing out a scope variable keeps the total of the table |
| FactorAlgebra.AddNew | naive_bayes_solution.py:175-177 | appending the unseen variables keeps the accumulated prefix, stays duplicate-free, and holds exactly the variables of both lists |
| FactorAlgebra.AddNewSingle | naive_bayes_solution.py:176-177 | one variable is appended exactly when it is not already collected |
| FactorAlgebra.AddNewAppend | naive_bayes_solution.py:174-177 | scanning two lists one after the other is scanning their concatenation, so with AddNewSingle each variable lands at its first occurrence |
| FactorAlgebra.UnionScopeFirstOccurrence | naive_bayes_solution.py:173-177 | the product scope is the concatenated input scopes with every repeat dropped, in first-occurrence order |
| FactorAlgebra.UnionScope | naive_bayes_solution.py:173-177 | the product scope is duplicate-free and holds exactly the variables of the input scopes |
| FactorAlgebra.UnionScopeSingle | naive_bayes_solution.py:173-177 | multiplying a single factor with a duplicate-free scope keeps that scope in its order |
| FactorAlgebra.UnionScopePrefix | naive_bayes_solution.py:174-177 | the union of a prefix of the factor list is a prefix of the union of the whole list |
| FactorAlgebra.Multiply | naive_bayes_solution.py:164-209 | the product is well formed over the union scope |
| FactorAlgebra.MultiplyCells | naive_bayes_solution.py:185-203 | each cell is 1.0 times every input's value at its part of the assignment, in list order |
| FactorAlgebra.MultiplyEmpty | naive_bayes_solution.py:180-203 | multiplying no factors gives the scalar factor 1.0 |
| FactorAlgebra.MultiplyNonNegative | naive_bayes_solution.py:196-200 | the product of non-negative tables is non-negative |
| VariableElimination.RestrictEvidence | naive_bayes_solution.py:244-248 | restricting one factor to the evidence fails (IndexError) exactly when an evidence variable of its scope holds an index past its domain; the result keeps the non-evidence variables, and a factor without evidence variables passes through unchanged |
| VariableElimination.RestrictEvidenceCells | naive_bayes_solution.py:245-247 | each cell of the restricted factor is the original cell with every evidence variable at its observed value |
| VariableElimination.RestrictAll | naive_bayes_solution.py:242-248 | step 1 fails exactly when some factor has bad evidence, and otherwise keeps the number of factors |
| VariableElimination.RestrictAllAt | naive_bayes_solution.py:243-248 | factor i of the result is network factor i restricted to the evidence |
| VariableElimination.RestrictAllScopes | naive_bayes_solution.py:242-248 | after step 1 the factors mention exactly the non-evidence variables the network's factors mention |
| VariableElimination.EliminationOrder | naive_bayes_solution.py:252 | the elimination list holds exactly the network variables other than the query and the evidence |
| VariableElimination.EliminationOrderSingle | naive_bayes_solution.py:252 | a single network variable is kept exactly when it is neither the query nor evidence |
| VariableElimination.EliminationOrderAppend | naive_bayes_solution.py:252 | the list comprehension splits over concatenation, so the elimination list keeps the network's variable order |
| VariableElimination.Touching | naive_bayes_solution.py:255 | the selected factors are exactly those mentioning v, and none are selected exactly when no factor mentions v |
| VariableElimination.Untouching | naive_bayes_solution.py:257 | the kept factors are exactly those not mentioning v, and the list is unchanged when no factor mentions v |
| VariableElimination.EliminateOneMentions | naive_bayes_solution.py:253-264 | after eliminating v no factor mentions v, and every other variable is still mentioned exactly when it was before |
| VariableElimination.EliminateOneAbsent | naive_bayes_solution.py:255-264 | eliminating a variable no factor mentions changes nothing |
| VariableElimination.EliminateAllMentions | naive_bayes_solution.py:253-264 | after step 2 exactly the previously mentioned variables outside the elimination list are mentioned |
| VariableElimination.EliminateAllNonNegative | naive_bayes_solution.py:258-264 | elimination keeps tables non-negative |
| VariableElimination.Fill | naive_bayes_solution.py:273-275 | the `set_assignment`/`add_value_at_current_assignment` loop writes x into the cell of each listed value's first domain position and leaves the rest |
| VariableElimination.Uniform | naive_bayes_solution.py:270-275 | the uniform factor over [query] fails with ZeroDivisionError exactly when the domain is empty; otherwise every cell is 1 / domain size |
| VariableElimination.UniformSumsToOne | naive_bayes_solution.py:272-285 | the uniform factor sums to 1 and is non-negative |
| VariableElimination.SumOutAll | naive_bayes_solution.py:290-295 | the final loop leaves exactly the scope variables that were not summed out |
| VariableElimination.SumOutAllMass | naive_bayes_solution.py:294-295 | summing out distinct scope variables in turn keeps the total |
| VariableElimination.FinalProduct | naive_bayes_solution.py:266-275 | step 3 fails exactly when no factor remains and the query domain is empty; otherwise the result is well formed, over [query] when no factor remains and over exactly the remaining factors' variables otherwise |
| VariableElimination.FinalProductCells | naive_bayes_solution.py:266-275 | step 3's cell at each full assignment is the product of the remaining factors' entries there; with no factor left every query value gets 1 / domain size |
| VariableElimination.NormalizeOrUniform | naive_bayes_solution.py:277-287 | step 4 fails exactly for a zero total with an empty query domain; otherwise it gives a well-formed table summing to 1, over the input's scope when the total is non-zero and over [query] when it is 0 |
| VariableElimination.NormalizeOrUniformCells | naive_bayes_solution.py:277-287 | with a non-zero total each cell is the input cell divided by the total; with a zero total every query value gets 1 / domain size |
| VariableElimination.Ve | naive_bayes_solution.py:211-297 | ve fails with IndexError exactly on bad evidence, and with ZeroDivisionError only for an empty query domain; otherwise the result is well formed, its scope is [query] or empty, and it sums to 1 |
| VariableElimination.VeNonNegative | naive_bayes_solution.py:241-297 | on a network with non-negative tables, ve returns a non-negative distribution |
| VariableElimination.EliminationLeavesQuery | naive_bayes_solution.py:250-264 | on a consistent network the factors left after step 2 mention only the query, and mention it exactly when it is not evidence and some factor mentions it |
| VariableElimination.VeKeepsQuery | naive_bayes_solution.py:250-297 | when the query is not evidence and some factor mentions it, ve's result has scope exactly [query] |
| VariableElimination.ProductOnQuery | naive_bayes_solution.py:266-268 | factors that mention only the query multiply to a factor on [query] |
| VariableElimination.VeNormalizedProduct | naive_bayes_solution.py:277-297 | when the remaining factors multiply to a factor on [query] with a non-zero total, ve returns that product normalized and the final loop sums nothing out |
| VariableElimination.ProductCellsOnQuery | naive_bayes_solution.py:266-287 | the normalized product on [query] holds, at the query's k-th value, the product of the remaining factors there divided by the total |
| VariableElimination.VePosterior | naive_bayes_solution.py:241-297 | on a consistent network with the query mentioned and not evidence, and a non-zero total, ve returns the normalized product of the factors step 2 leaves: the query's k-th value gets their product at that value over the total |
| VariableElimination.VeSumsOutRest | naive_bayes_solution.py:266-297 | on any network, with factors left and a non-zero total, ve returns their normalized product with every variable other than the query summed out |
| VariableElimination.VeUniformFallback | naive_bayes_solution.py:266-297 | when no factor is left or the product totals 0, ve returns 1 / domain size for every query value, and fails with ZeroDivisionError exactly when the domain is empty |
| Preprocess.RealisticSalaries | preprocess_stackoverflow.py:16-25 | every kept salary lies in [10000, 500000], and a value is kept exactly when it is within those bounds and present in the column |
| Preprocess.RealisticSalariesSingle | preprocess_stackoverflow.py:17-25 | a single cell is kept, as its value, exactly when it is present and within the bounds |
| Preprocess.RealisticSalariesAppend | preprocess_stackoverflow.py:22-25 | the filter splits over concatenation, so it keeps the surviving rows in their order and with their repeats |
| Preprocess.RealisticSalariesIdempotent | preprocess_stackoverflow.py:22-25 | filtering the kept salaries again keeps them all |
| Preprocess.CategorizeSalary | preprocess_stackoverflow.py:29-39 | the bracket is the half-open interval between consecutive thresholds 50000, 75000, 100000, 150000 that holds the salary; its label names that bracket and no other |
| Preprocess.CategorizeSalaryMonotone | preprocess_stackoverflow.py:29-39 | a higher salary never falls into a lower bracket |
| Preprocess.CleanSalaryData | preprocess_stackoverflow.py:12-42 | row i holds the i-th salary the filter keeps, which was present and realistic, and its bracket is the interval holding it |
| Preprocess.LowerIdempotent | preprocess_stackoverflow.py:78 | lower-casing twice is lower-casing once |
| Preprocess.ContainsOccurrence | preprocess_stackoverflow.py:78 | the substring test holds exactly when the pattern occurs at some position |
| Preprocess.FirstMatch | preprocess_stackoverflow.py:131-144 | an `if`/`elif` chain takes the first branch whose test holds, and the `else` exactly when none holds |
| Preprocess.ClassifyFirst | preprocess_stackoverflow.py:131-144 | when branch k is the first that holds, its label is returned |
| Preprocess.CleanEmployment | preprocess_stackoverflow.py:75-87 | the result is "Unknown" exactly for a missing answer |
| Preprocess.CleanEmploymentChain | preprocess_stackoverflow.py:78-87 | on the lower-cased text: full-time, then part-time, then contractor or freelance, then student, else Other, each label exactly under its condition |
| Preprocess.CleanEmploymentCaseInsensitive | preprocess_stackoverflow.py:78-85 | letter case never changes the category |
| Preprocess.CleanRemote | preprocess_stackoverflow.py:92-101 | the result is "Unknown" exactly for a missing answer |
| Preprocess.CleanRemoteChain | preprocess_stackoverflow.py:95-101 | "fully remote" wins over "hybrid"; everything else is In-person |
| Preprocess.CleanYearsCode | preprocess_stackoverflow.py:106-121 | the result is "Unknown" exactly for a missing answer |
| Preprocess.CleanYearsCodeChain | preprocess_stackoverflow.py:109-121 | "0" or "less than 1 year" gives <1 year, the exact answers "1" to "15" give their buckets, and any other text gives 15+ years |
| Preprocess.CleanDevType | preprocess_stackoverflow.py:126-144 | the result is "Unknown" exactly for a missing answer |
| Preprocess.CleanDevTypeChain | preprocess_stackoverflow.py:130-144 | the label of the first matching substring test, in source order, else Other |
| Preprocess.DataScientistSubsumed | preprocess_stackoverflow.py:139 | the "data scientist" test adds nothing to the "data" test beside it |
| Preprocess.CleanOrgSize | preprocess_stackoverflow.py:149-168 | a missing answer gives "Unknown" |
| Preprocess.CleanOrgSizeChain | preprocess_stackoverflow.py:152-168 | the label of the first matching size test, in source order, else Unknown |
| Preprocess.ReplaceWhole | preprocess_stackoverflow.py:180-181 | `replace` turns the whole pattern into the replacement |
| Preprocess.ReplaceMissingChar | preprocess_stackoverflow.py:180 | `replace` leaves alone a text that lacks some character of the pattern |
| Preprocess.CleanCountry | preprocess_stackoverflow.py:176-183 | anything other than "Other" comes from one of the ten listed countries |
| Preprocess.CleanCountryNames | preprocess_stackoverflow.py:173-183 | the two long official names are shortened, the other eight listed countries pass through, and every other answer gives Other |

## Left out

- FactorAlgebra.Normalize: requires a well-formed factor: a duplicate-free scope, duplicate-free domains, and a table of the right size. The same holds for Restrict, SumOut and Multiply. Python runs on any factor, but with repeated domain values its value-based iteration writes some cells twice and others never. Those factors are outside the model.
- VariableElimination.Ve: requires well-formed network factors and a duplicate-free query domain (the reason is the same as for Normalize).
  - VeSumsOutRest and VeUniformFallback state which table ve returns on any network. It is the normalized product of the factors left after elimination with every variable other than the query summed out, or else the uniform table. On a consistent network VePosterior shows that nothing is left to sum out. On an inconsistent one (bnetbase.py:333-338 only prints a warning), the factor variables missing from the network's list are never eliminated, and the final loop sums them out. The model does not define the network's joint distribution, so it does not prove that this table equals the conditional probability of the query given the evidence.
  - The invariance of the answer under the elimination order is not proved.
  - The model keeps Python's behaviour when the query is evidence, or when no factor mentions it. The result is then a scalar factor with scope [], as `VeKeepsQuery` delimits.
- BNetBase.AddValues: its own contract states only the shape of the result. When it succeeds and what the loaded table holds are stated by AddValuesSucceeds and AddValuesReadBack.
- BNetBase.AddValues: Python writes rows in place, so the rows before a failing row stay written in the factor (bnetbase.py:205-210). The model returns only the error and drops those writes.
- BNetBase.AddValues: when a row has more entries than the scope needs, Python stores the first extra entry (a domain value) in the table. The model returns `Err(RowTooLong)` instead, because a table of reals cannot hold a string.
- BNetBase.CurrentValue, BNetBase.GetValue, BNetBase.GetVariable: these carry no contract of their own. They are covered by SetThenGet, AddValuesThenGetValue and FindByName.
- Variable identity: Python compares `Variable` objects by identity, but the model compares them by (name, domain). Two distinct objects with the same name and domain are the same variable here.
- Scratch state: `assignment_index` is not state in the model. The save and restore of the four operations is therefore not modelled, and neither are the places where Python leaves an index changed:
  - `ve`'s uniform branches call `var_query.set_assignment` for every domain value and never restore it (naive_bayes_solution.py:272-275, 282-285);
  - `sum_out` of a variable outside the factor's scope sets that variable's index but restores only the scope's indices (naive_bayes_solution.py:125-126, 141-143, 158-160).
- Domain values: `Value` is a string. The `add_values` docstring uses integer domain values as well (bnetbase.py:188-200); those are modelled by their text.
- `add_domain_values`, `domain_size`, `domain()`, `get_scope()`, `factors()`, `variables()` and `Factor.get_variable`: these are accessors and defensive copies. Copies are immaterial for immutable values. `Factor.get_variable` is the same search as `FindByName`.
- `print_table`, `recursive_print_values`, `__repr__`, `__str__`, the constructor's error prints, and the zero-total warning in `ve`: console output only. The constructor's report is modelled as the list `ScopeViolations`.
- Floating point: table values are exact reals, so rounding in sums, products and divisions is not modelled.
- Preprocess.Lower: lower-cases ASCII letters only. Python's `str.lower()` also folds non-ASCII letters.
- `str(x)` conversion of non-string cells and `pd.to_numeric(errors='coerce')`: a cell is either missing or a string (a real for salaries). A non-numeric salary is modelled as missing, since it becomes NaN and fails both comparisons.
- pandas I/O and DataFrame plumbing (`read_csv`, `apply`, column selection, `create_training_data`, `main`): not modelled, and neither are the age and education dictionary mappings in `clean_categorical_features`.
- `naive_bayes_model` and `explore`: CSV reading, counting and reporting over files. Factors are taken as given.
- The web apps, the dataset integration script, the frontend and the demo script: outside the core.

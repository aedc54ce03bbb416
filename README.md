# dbn-pp core in Dafny

A model of the exact-inference core of dbn-pp, with proofs about it. dbn-pp is a C++ library for probabilistic graphical models. It has these parts:

- **Variables** are discrete, with an id taken from a global instance counter and a cardinality.
- A **domain** is an ordered scope of variables, linearised in mixed radix. The first scope variable has offset 1.
- A **factor** is a domain plus a table of reals, one per configuration of the scope.
- `product` and `sum_product` walk the result's configurations with an odometer. They keep running positions into both operands.
- The **interaction graph** proposes a min-fill elimination order.
- `variable_elimination` eliminates variables bucket by bucket.
- `load_uai_model` reads a model in the UAI inference-competition file format.

The Dafny modules follow the source files:

| module | file | models |
|---|---|---|
| `Wrappers` | wrappers.dfy | `Result` and the errors the code throws |
| `Variables` | variables.dfy | include/variable.h, src/variable.cpp |
| `Radix` | radix.dfy | mixed-radix arithmetic behind `Domain` (size, offsets, position, decoding, odometer) |
| `Domains` | domains.dfy | include/domain.h, src/domain.cpp |
| `Alignment` | alignment.dfy | reading one configuration through another domain's offsets (the running indices `j`, `k`) |
| `Factors` | factors.dfy | include/factor.h, src/factor.cpp |
| `Operations` | operations.dfy | src/operations.cpp |
| `Graphs` | graph.dfy | src/graph.cpp |
| `Inference` | inference.dfy | src/inference.cpp |
| `Uai` | uai.dfy | src/io.cpp |

Where the source changes state, the model does too:

- `Factor` and `Graph` are classes whose methods have `modifies` clauses.
- The constructors, `set`, `product`, `sum_product`, the graph construction, `ordering`, `variable_elimination` and the reader are methods with loops.
- Each method is proved equal to a specification function on values: `ProductTable`, `SumProductTable`, `Interaction`, `Greedy`, `Eliminate`/`VariableEliminationTable`, and `ParseUai`.
- Lemmas prove what the source promises about those functions.

A factor's table is read through `Val()`, a `Table(domain, values)` value.

The static instance counters of `Variable` and `Factor` become an `InstanceCounter` object. The operations that create objects take it as a parameter.

The reader works on a sequence of tokens (`Word`, `Int`, `Num`, `Eol`), as `std::cin >>` and `getline` see the input.

Variables are compared by id everywhere, as the C++ operators compare them. The graph is keyed by variable ids.

**Stride direction.** The UAI format lists the least significant variable last (src/io.cpp:89). The code arranges this in two places:

- `Domain` gives the *first* scope variable offset 1 (src/domain.cpp:31-36).
- The reader reverses every scope line, so the variable listed last in the file varies fastest (src/io.cpp:89-90).

The model follows the code in both places (`Radix.OffsetsRecurrence`, `Uai.StoredStrides`).

## Model

| member | source | states |
|---|---|---|
| Variables.NewVariable | include/variable.h:49 | the new variable's id is the counter's old value and its cardinality is the size given; the counter goes up by one |
| Variables.NewDimensionless | include/variable.h:48 | the default variable has cardinality 0 and takes the next id |
| Variables.EqualityById | include/variable.h:57-58 | `==` is an equivalence that holds exactly when the ids agree, and `!=` is its negation |
| Variables.TotalOrderById | include/variable.h:60-63 | `<`, `>`, `<=` and `>=` form the total order of ids: trichotomy, transitivity, antisymmetry up to `==`, and duality |
| Radix.OffsetsRecurrence | src/domain.cpp:31-36 | offset 0 is 1 and offset i+1 is offset i times the cardinality of scope variable i |
| Radix.SizeOfPositive | src/domain.cpp:31-34 | the domain size, the product of the cardinalities, is positive exactly when every cardinality is |
| Radix.PosBound | src/domain.cpp:39-44 | the position of a configuration whose digits are below their cardinalities lies in [0, size) |
| Radix.ConfigPos | src/domain.cpp:39-44 | every position below the size is the position of a valid configuration (decoding is a right inverse) |
| Radix.PosConfig | src/domain.cpp:39-44 | decoding the position of a valid configuration gives the configuration back |
| Radix.PosInjective | src/domain.cpp:39-44 | distinct valid configurations have distinct positions |
| Radix.IncrConfig | src/operations.cpp:45-60 | one odometer step (first digit fastest, carry on reaching the cardinality) turns the digits of position p into the digits of p+1 |
| Domains.Empty | include/domain.h:52 | the empty domain is valid, has width 0 and size 1 |
| Domains.SizeOfVar | include/domain.h:71-75 | `size_of_var(i)` is scope[i]'s cardinality exactly when i < width, and IndexOutOfRange otherwise |
| Domains.InScope | include/domain.h:95-101 | for a valid domain, `in_scope(v)` holds exactly when v's id is among the scope's ids, the keys of the index map |
| Domains.OffsetAt | include/domain.h:107-110 | `offset(i)` succeeds exactly when i < width, and then equals the product of the cardinalities before position i |
| Domains.OffsetOf | include/domain.h:112-122 | `offset(v)` is 0 when v is not in scope |
| Domains.OffsetOfInScope | include/domain.h:112-122 | for a duplicate-free scope, `offset(v)` at v's index i is offset i, the product of the cardinalities before i |
| Domains.VarAt | include/domain.h:124-127 | `var_at(i)` returns scope[i], the i-th variable of the scope |
| Domains.At | include/domain.h:130-133 | `operator[](i)` succeeds exactly when i < width, with `var_at(i)`, and is IndexOutOfRange otherwise |
| Domains.IndexMapDupFree | src/domain.cpp:35 | for a duplicate-free scope the index map sends scope[i].id to i |
| Domains.NewDomain | src/domain.cpp:26-37 | the constructor loop leaves size = product of the cardinalities, the offset table and the id-to-index map of the scope |
| Domains.Position | src/domain.cpp:39-44 | `position(c)` is the mixed-radix position of the first width digits of c |
| Domains.UnionScopeProperties | src/domain.cpp:47-56 | the union scope starts with d1's scope, is duplicate free, holds exactly the ids of both scopes and every variable of either |
| Domains.UnionScopeWithoutProperties | src/domain.cpp:59-70 | the union without v is duplicate free, holds exactly the ids of both scopes except v's, v is not in it, and every other variable of either scope is |
| Domains.UnionOf | src/domain.cpp:47-56 | `union_of(d1, d2)` is the domain of d1's scope followed by d2's variables not in d1, in d2's order |
| Domains.UnionOfWithout | src/domain.cpp:59-70 | `union_of(d1, d2, v)` is the same union with every variable equal to v dropped |
| Alignment.AlignedIsPosition | src/operations.cpp:38-60 | the sum of a configuration's digits times a sub-scope domain's offsets is the position of that configuration restricted to the sub-scope, and lies below its size |
| Alignment.AlignedDisjoint | include/domain.h:112-122 | through a domain sharing no variable with the configuration's scope, every configuration reads position 0 |
| Alignment.AlignedReset | src/operations.cpp:49-53 | resetting a digit that reached its cardinality moves the running index back by (card-1) times that variable's offset |
| Alignment.AlignedBump | src/operations.cpp:55-58 | raising a digit by one moves the running index forward by that variable's offset |
| Factors.Factor.Default | include/factor.h:50 | `Factor()` has the empty domain and the single value 0.0, and takes the next id |
| Factors.Factor.Constant | include/factor.h:51 | `Factor(value)` has the empty domain and the single value `value` |
| Factors.Factor.FromScope | include/factor.h:53 | `Factor(scope)` has domain `Domain(scope)` and one 0.0 per configuration |
| Factors.Factor.FromScopeValue | include/factor.h:54 | `Factor(scope, value)` has domain `Domain(scope)` and one `value` per configuration |
| Factors.Factor.Union | src/factor.cpp:31-36 | `Factor(f1, f2)` has domain `union_of` of the operands' domains and as many 0.0 entries as its size, with a fresh id |
| Factors.Factor.UnionWithout | src/factor.cpp:39-44 | `Factor(f1, f2, var)` has the union domain without var and as many 0.0 entries as its size, with a fresh id |
| Factors.Factor.Size | include/factor.h:66 | for a well-formed factor, `size()` is its domain's size |
| Factors.Factor.Width | include/factor.h:67 | `width()` is the domain's width |
| Factors.Factor.InScope | include/factor.h:91 | `in_scope(v)` holds exactly when v's id is in the domain's scope |
| Factors.Factor.Get | include/factor.h:118-121 | `operator[](i)` is entry i exactly when i < size, and IndexOutOfRange otherwise |
| Factors.Factor.Set | include/factor.h:103-106 | `set(i, x)` succeeds exactly when i < size and then changes entry i only; otherwise the table is unchanged |
| Factors.LessEq | include/factor.h:153-158 | `f <= g` holds exactly when the sizes agree and every entry of f is at most g's |
| Factors.GreaterEq | include/factor.h:161-166 | `f >= g` holds exactly when the sizes agree and every entry of f is at least g's |
| Factors.DominatedOrder | include/factor.h:153-166 | entrywise `<=` is reflexive, transitive and antisymmetric, and never holds between tables of different sizes |
| Operations.FillProducts | src/operations.cpp:38-61 | the odometer loop writes exactly the product table, keeping j and k at the operands' positions of the current configuration |
| Operations.Product | src/operations.cpp:34-65 | `product(f1, f2)` is a fresh factor whose value is the product table of the operands |
| Operations.ProductAt | src/operations.cpp:34-65 | at every configuration of the union scope, the product's entry is f1's entry at that configuration restricted to f1's scope times f2's, restricted to f2's |
| Operations.ProductScopeIs | src/operations.cpp:36 | the product's scope starts with f1's scope, and holds exactly the variables and ids of both operands |
| Operations.ProductConstantLeft | src/operations.cpp:34-65 | a constant factor times t has t's domain and every entry of t multiplied by the constant |
| Operations.ProductConstantRight | src/operations.cpp:34-65 | t times a constant factor has t's domain and every entry multiplied by the constant |
| Operations.ProductUnit | src/inference.cpp:63-67 | `product(Factor(1.0), t)` is t itself: same scope in the same order, same values |
| Operations.AddTerms | src/operations.cpp:84-116 | the inner loop adds the card(var) terms of entry i to the 0.0 it starts from, and changes no other entry |
| Operations.FillSums | src/operations.cpp:82-117 | the nested loops write exactly the sum-product table |
| Operations.SumProduct | src/operations.cpp:74-121 | `sum_product(f1, f2, var)` is a fresh factor whose value is the sum-product table |
| Operations.PartialSumIsMarginal | src/operations.cpp:84-86 | the running sum of the loop equals a sum over var's states of f1 times f2 at the configuration extended with var = m, each read through its own scope |
| Operations.SumProductAt | src/operations.cpp:74-121 | at every configuration c of the result scope, the entry is the sum over m < card(var) of f1·f2 at [m] + c, each operand restricted to its own scope |
| Graphs.Graph.constructor | src/graph.cpp:25-40 | the constructor's loops leave exactly the interaction graph of the scopes |
| Graphs.InteractionEdges | src/graph.cpp:25-40 | y is a neighbour of x exactly when some scope holds x and y at two different positions |
| Graphs.InteractionSymmetric | src/graph.cpp:35-36 | the adjacency is symmetric |
| Graphs.NarrowScopeAddsNothing | src/graph.cpp:29-31 | a scope of width 0 or 1 adds no edge |
| Graphs.Graph.LinkScope | src/graph.cpp:31-38 | the pair loops over one scope give the specification's fold over its pairs |
| Graphs.Graph.CountFill | src/graph.cpp:69-78 | the counting loops give the fill-in: the unprocessed neighbour pairs with v1.id < v2.id that are not adjacent |
| Graphs.Graph.Probe | src/graph.cpp:66-78 | one candidate's probe returns its fill-in; its only effect on the graph is an entry for the candidate |
| Graphs.Graph.MinFill | src/graph.cpp:58-87 | `min_fill` returns the specification's choice and only adds entries for the candidates |
| Graphs.MinFillChoice | src/graph.cpp:61-83 | the choice is the first index of minimal fill-in when that minimum is below the initial bound `_adj.size()`, and 0 otherwise |
| Graphs.EntriesSameFill | src/graph.cpp:67 | the entries `operator[]` inserts change no neighbourhood and no fill-in |
| Graphs.GreedyStep | src/graph.cpp:48-53 | each round emits the chosen variable, marks it processed and removes it from the remaining list |
| Graphs.GreedyPermutation | src/graph.cpp:45-55 | the ordering is a permutation of the input (same multiset, same length) |
| Graphs.Graph.Ordering | src/graph.cpp:42-56 | `ordering` returns the greedy min-fill order; the graph keeps every edge and only gains entries for candidates |
| Inference.Collect | src/inference.cpp:51-60 | the scan splits the pool into the bucket (tables with var in scope, the last met at the front) and the rest in pool order |
| Inference.BucketSplit | src/inference.cpp:53-60 | bucket and rest hold exactly the pool's tables with their multiplicities; the bucket has var in scope and the rest does not |
| Inference.RestIsPool | src/inference.cpp:53-62 | when no table has var in scope, the pool is unchanged |
| Inference.MultiplyAll | src/inference.cpp:75-78 | the final loop gives `Factor(1.0)` times every pool table, in pool order |
| Inference.MergeBucket | src/inference.cpp:62-70 | the bucket becomes `sum_product(p, last, var)`, where p is `Factor(1.0)` times every other bucket table |
| Inference.MergedAvoids | src/inference.cpp:70 | the merged table does not have var in scope, nor any variable that none of the bucket's tables had |
| Inference.EliminateVar | src/inference.cpp:49-72 | one round turns the pool into the specification's step |
| Inference.StepSize | src/inference.cpp:53-72 | an empty bucket leaves the pool unchanged; a bucket of b tables shrinks the pool by b-1 |
| Inference.StepAvoids | src/inference.cpp:53-70 | after var's step no pool table has var in scope, and a variable already absent stays absent |
| Inference.EliminateRemoves | src/inference.cpp:47-73 | after the loop, no pool table has any variable of the order in scope |
| Inference.VariableElimination | src/inference.cpp:42-79 | `variable_elimination` returns the specification's result and leaves the input factors unchanged |
| Inference.VariableEliminationScope | src/inference.cpp:42-79 | no variable of the order is in the result's scope |
| Inference.VariableEliminationConstant | src/inference.cpp:42-79 | when the order covers every model variable, the result has width 0 |
| Uai.Header | src/io.cpp:52-63 | after comment lines, reading succeeds only on BAYES or MARKOV, and consumes input |
| Uai.ReadHeader | src/io.cpp:52-63 | the comment-skipping loop gives the header read of the specification |
| Uai.BlankLineIgnored | src/io.cpp:52 | a blank line before the header changes nothing |
| Uai.CommentLineIgnored | src/io.cpp:53-58 | a line whose first word starts with '#' is skipped as a whole |
| Uai.HeaderRequired | src/io.cpp:59-63 | any other first word is BadHeader |
| Uai.ReadVariables | src/io.cpp:65-71 | exactly n variables are read, the k-th with id next+k |
| Uai.LoadVariables | src/io.cpp:65-71 | the loop creates the variables the specification reads and advances the counter by n |
| Uai.ScopeLine | src/io.cpp:81-91 | a scope line of count j yields exactly j variables |
| Uai.ScopeLineWithin | src/io.cpp:84-88 | every variable of a scope line read is a model variable |
| Uai.LoadScope | src/io.cpp:81-91 | the index loop stores the line in reverse, with the same errors as the specification |
| Uai.LoadFactor | src/io.cpp:78-92 | one scope entry becomes a fresh factor over the reversed scope with all entries 0.0 |
| Uai.LoadScopes | src/io.cpp:76-93 | the scope loop creates one distinct fresh factor per scope the specification reads, or fails as it does |
| Uai.StoredStrides | src/io.cpp:89-90 | the k-th listed variable of a scope has offset = product of the cardinalities listed after it, so the last listed varies fastest |
| Uai.Values | src/io.cpp:103-106 | j values are read |
| Uai.TableEntry | src/io.cpp:97-106 | a table succeeds only with a count equal to the domain size, and then has that many values |
| Uai.LoadTable | src/io.cpp:97-107 | the value loop stores the k-th listed value at position k, or fails as the specification does |
| Uai.Tables | src/io.cpp:95-108 | one table per factor, each of its factor's domain size |
| Uai.LoadTables | src/io.cpp:95-108 | the table loop fills every factor with the tables the specification reads, or fails as it does |
| Uai.Preamble | src/io.cpp:40-93 | the variables read are numbered from the counter's value and every scope is over them |
| Uai.ParseUai | src/io.cpp:40-110 | a model read has numbered variables, scopes over them and one table per scope, each of its scope's size |
| Uai.LoadUai | src/io.cpp:40-110 | `load_uai_model` returns exactly the model the specification reads, as fresh factors, or its error |
| Uai.ReadsPreamble | src/io.cpp:52-93 | a written file's preamble reads back as its numbered variables and reversed scopes |
| Uai.RefusesTables | src/io.cpp:97-101 | a table whose length differs from its factor's size is BadTableSize |
| Uai.ReadsBack | src/io.cpp:40-110 | writing a file and reading it back gives BadVariableIndex iff some index is out of range, the file's model if every table has its scope's size, and BadTableSize otherwise |
| Uai.LoadedRunnable | src/io.cpp:40-110 | a model read, with duplicate-free scopes, meets the conditions variable elimination runs under, for any order drawn from its variables |

## Left out

- Printing (every `operator<<`), verbosity output, and the variable and factor `name` strings: they affect only output.
- src/addfactor.cpp is not part of this model. It wraps decision diagrams of an external library.
- src/model.cpp and src/main.cpp are not part of this model. They are ownership plumbing and the command-line driver.
- The Python scripts are not part of this model.
- The commented-out `operator*` and swap/assignment in factor.h and factor.cpp are not modelled.
- Floating point: table values are `real`, so rounding and the order of additions are not modelled. The sums are still added in the loops' order (`PartialSum`).
- Unsigned 32-bit wrap-around of sizes, offsets and positions is not modelled. Integers are unbounded.
- Aliasing of a factor's `Domain*` is not modelled. Domains are values, and a factor's domain is fixed at construction.
- The pool copy in `variable_elimination` is a sequence of references to the caller's factors. The model proves that the caller's factors keep their values.
- `forward_list` moves and `erase_after` are modelled by rebuilding the bucket and rest sequences.
- `std::cin` is a token sequence. I/O errors and the end of input are ReadFailure, and whatever follows the last table is not read. Clearing the two output vectors is modelled by returning new sequences.
- Uai.Header: when the input ends right after a one-word comment with no line end (`#x` then end of input), the C++ comment loop does not terminate, because the failed `getline` and `>>` leave `#x` in `str`. The model gives BadHeader there.
- Uai.ReadInt: (likewise Uai.ReadReal) after a failed `cin >>` the C++ code stores 0 and goes on with every later read failing the same way, so for example a truncated table comes back zero-filled. The model stops with ReadFailure at the first failed read.
- Uai.ParseUai: the reader's error paths call a bare `throw;` with no active exception, which calls `std::terminate`. The model returns the error (BadHeader, BadVariableIndex, BadTableSize) instead.
- `Factor` methods `size_of_var`, `offset(i)` and `var_at` only forward to the domain. They are the `Domains` functions applied to the factor's `domain`. `get_num_instances` is the counter's `count`.
- Uai.ReadVariables: a negative cardinality is BadCount. The source stores it in an `int` and `size()` returns it wrapped as unsigned; the model's cardinalities are `nat`.
- Uai.Preamble: a negative variable count, factor count or scope size is BadCount. The source's `reserve`/`resize` throws there.
- Domains.VarAt: requires i < width. The C++ code does no bounds check and reads out of bounds otherwise.
- Inference.VariableElimination: requires the factors to be within the model's variables, with those variables agreeing on shared ids and the order drawn from them (`Runnable`). `Uai.LoadedRunnable` shows a model read from file meets it.
- Inference.EliminateRemoves: states that the eliminated variables are absent from every remaining scope. It does not state the remaining ids exactly.
- Graphs.Graph.constructor: takes each factor's scope as its sequence of variable ids, not the factors themselves.

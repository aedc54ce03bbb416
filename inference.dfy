/** Bucket variable elimination over a pool of factors (src/inference.cpp). */
module Inference {
  import opened Variables
  import opened Domains
  import opened Factors
  import opened Operations

  // ------------------------------------------------------------ pool values

  /** Every table of the pool is well formed and mentions only variables of
      U, the model's variables. */
  predicate Within(P: seq<Table>, U: set<Variable>)
  {
    forall t :: t in P ==> WellFormed(t) && Elems(t.domain.scope) <= U
  }

  /** No table of the pool has w in scope. */
  predicate Avoids(P: seq<Table>, w: Variable)
  {
    forall t :: t in P ==> !InScope(t.domain, w)
  }

  /** The conditions the elimination runs under: model variables that agree
      on every shared id, a pool over them and an order drawn from them. */
  predicate Runnable(P: seq<Table>, vars: seq<Variable>, U: set<Variable>)
  {
    Consistent(U) && Within(P, U) && Elems(vars) <= U
  }

  // ------------------------------------------------------------ the bucket

  /** The bucket of v after the pool scan: every table with v in scope, the
      one met last at the front. */
  function Bucket(P: seq<Table>, v: Variable): seq<Table>
  {
    if P == [] then []
    else
      var b := Bucket(P[..|P| - 1], v);
      if InScope(P[|P| - 1].domain, v) then [P[|P| - 1]] + b else b
  }

  /** What stays in the pool after the scan: the tables without v, in pool order. */
  function Rest(P: seq<Table>, v: Variable): seq<Table>
  {
    if P == [] then []
    else
      var r := Rest(P[..|P| - 1], v);
      if InScope(P[|P| - 1].domain, v) then r else r + [P[|P| - 1]]
  }

  /** The scan splits the pool: together bucket and rest hold every table of
      the pool exactly as often as the pool does, the bucket only tables with
      v in scope and the rest only tables without it. */
  lemma {:induction false} BucketSplit(P: seq<Table>, v: Variable)
    ensures multiset(Bucket(P, v)) + multiset(Rest(P, v)) == multiset(P)
    ensures |Bucket(P, v)| + |Rest(P, v)| == |P|
    ensures forall t :: t in Bucket(P, v) ==> InScope(t.domain, v)
    ensures Avoids(Rest(P, v), v)
  {
    if P != [] {
      var Q, t := P[..|P| - 1], P[|P| - 1];
      BucketSplit(Q, v);
      assert P == Q + [t];
    }
  }

  /** Hence each table of bucket or rest comes from the pool, and each table
      of the pool lands in one of them. */
  lemma BucketMembers(P: seq<Table>, v: Variable)
    ensures forall t :: t in P <==> t in Bucket(P, v) || t in Rest(P, v)
  {
    BucketSplit(P, v);
    forall t ensures t in P <==> t in Bucket(P, v) || t in Rest(P, v) {
      assert t in P <==> t in multiset(P);
      assert t in Bucket(P, v) <==> t in multiset(Bucket(P, v));
      assert t in Rest(P, v) <==> t in multiset(Rest(P, v));
    }
  }

  /** An empty bucket means that the scan leaves the pool as it was. */
  lemma {:induction false} RestIsPool(P: seq<Table>, v: Variable)
    requires Bucket(P, v) == []
    ensures Rest(P, v) == P
  {
    if P != [] {
      RestIsPool(P[..|P| - 1], v);
      assert P == P[..|P| - 1] + [P[|P| - 1]];
    }
  }

  // ------------------------------------------------------ folding products

  /** `p = product(p, f)` over ts in order, starting from acc. */
  function MulAll(acc: Table, ts: seq<Table>, U: set<Variable>): (r: Table)
    requires Consistent(U) && Within([acc] + ts, U)
    ensures WellFormed(r) && Elems(r.domain.scope) <= U
    decreases |ts|
  {
    if ts == [] then assert acc in [acc] + ts; acc
    else
      var front, last := ts[..|ts| - 1], ts[|ts| - 1];
      FrontWithin(acc, ts, U);
      var p := MulAll(acc, front, U);
      UnionScopeProperties(p.domain.scope, last.domain.scope);
      ProductTable(p, last)
  }

  lemma FrontWithin(acc: Table, ts: seq<Table>, U: set<Variable>)
    requires Within([acc] + ts, U) && ts != []
    ensures Within([acc] + ts[..|ts| - 1], U)
    ensures WellFormed(ts[|ts| - 1]) && Elems(ts[|ts| - 1].domain.scope) <= U
  {
    assert [acc] + ts == ([acc] + ts[..|ts| - 1]) + [ts[|ts| - 1]];
  }

  /** A variable none of the operands has in scope is not in the product's
      scope either. */
  lemma {:induction false} MulAllAvoids(acc: Table, ts: seq<Table>, U: set<Variable>, w: Variable)
    requires Consistent(U) && Within([acc] + ts, U) && Avoids([acc] + ts, w)
    ensures !InScope(MulAll(acc, ts, U).domain, w)
    decreases |ts|
  {
    if ts == [] {
      assert acc in [acc] + ts;
    } else {
      FrontWithin(acc, ts, U);
      assert [acc] + ts == ([acc] + ts[..|ts| - 1]) + [ts[|ts| - 1]];
      MulAllAvoids(acc, ts[..|ts| - 1], U, w);
      var p := MulAll(acc, ts[..|ts| - 1], U);
      UnionScopeProperties(p.domain.scope, ts[|ts| - 1].domain.scope);
    }
  }

  // --------------------------------------------------------- one elimination

  /** Operands drawn from the model's variables can be multiplied and
      summed over any model variable. */
  lemma OperandsFit(p: Table, last: Table, v: Variable, U: set<Variable>)
    requires Consistent(U) && v in U
    requires WellFormed(p) && Elems(p.domain.scope) <= U
    requires WellFormed(last) && Elems(last.domain.scope) <= U
    ensures CompatibleWith(p, last, v)
    ensures Elems(MarginalScope(p, last, v)) <= U
  {
    ConsistentSubset(Elems(p.domain.scope) + Elems(last.domain.scope) + {v}, U);
    UnionScopeWithoutProperties(p.domain.scope, last.domain.scope, v);
  }

  lemma ConsistentSubset(A: set<Variable>, U: set<Variable>)
    requires Consistent(U) && A <= U
    ensures Consistent(A)
  {
  }

  /** The product of every bucket table but the last. */
  function Front(b: seq<Table>, U: set<Variable>): (r: Table)
    requires Consistent(U) && Within(b, U) && b != []
    ensures WellFormed(r) && Elems(r.domain.scope) <= U
  {
    OneWithin(b, U);
    MulAll(ConstantTable(1.0), b[..|b| - 1], U)
  }

  /** The table a bucket becomes: `sum_product(p, last, v)` where p is
      `Factor(1.0)` times every bucket table but the last. */
  function Merged(b: seq<Table>, v: Variable, U: set<Variable>): (r: Table)
    requires Consistent(U) && Within(b, U) && v in U && b != []
    ensures WellFormed(r) && Elems(r.domain.scope) <= U
  {
    var p, last := Front(b, U), b[|b| - 1];
    assert last in b;
    OperandsFit(p, last, v, U);
    SumProductTable(p, last, v)
  }

  /** The merged table no longer has v in scope, nor any variable none of the
      bucket's tables had. */
  lemma MergedAvoids(b: seq<Table>, v: Variable, U: set<Variable>, w: Variable)
    requires Consistent(U) && Within(b, U) && v in U && b != []
    ensures !InScope(Merged(b, v, U).domain, v)
    ensures Avoids(b, w) ==> !InScope(Merged(b, v, U).domain, w)
  {
    var p, last := Front(b, U), b[|b| - 1];
    assert last in b;
    UnionScopeWithoutProperties(p.domain.scope, last.domain.scope, v);
    if Avoids(b, w) {
      OneWithin(b, U);
      OneAvoids(b, w);
      MulAllAvoids(ConstantTable(1.0), b[..|b| - 1], U, w);
    }
  }

  /** `Factor(1.0)` followed by the bucket's front is still over the model's
      variables, and still avoids what the bucket avoids. */
  lemma OneWithin(b: seq<Table>, U: set<Variable>)
    requires Within(b, U) && b != []
    ensures Within([ConstantTable(1.0)] + b[..|b| - 1], U)
  {
    var one := ConstantTable(1.0);
    assert forall t :: t in [one] + b[..|b| - 1] ==> t == one || t in b;
  }

  lemma OneAvoids(b: seq<Table>, w: Variable)
    requires Avoids(b, w) && b != []
    ensures Avoids([ConstantTable(1.0)] + b[..|b| - 1], w)
  {
    var one := ConstantTable(1.0);
    assert forall t :: t in [one] + b[..|b| - 1] ==> t == one || t in b;
  }

  /** The step for v: with an empty bucket the pool is unchanged; otherwise
      the merged bucket goes to the front of the rest. */
  function Step(P: seq<Table>, v: Variable, U: set<Variable>): seq<Table>
    requires Consistent(U) && Within(P, U) && v in U
  {
    var b := Bucket(P, v);
    if b == [] then P
    else
      BucketMembers(P, v);
      [Merged(b, v, U)] + Rest(P, v)
  }

  /** Eliminating each variable of the order in turn. */
  function Eliminate(P: seq<Table>, vars: seq<Variable>, U: set<Variable>): seq<Table>
    requires Runnable(P, vars, U)
    decreases |vars|
  {
    if vars == [] then P
    else
      StepWithin(P, vars[0], U);
      Eliminate(Step(P, vars[0], U), vars[1..], U)
  }

  /** The value `variable_elimination(variables, factors)` returns: the
      remaining pool multiplied together, starting from `Factor(1.0)`. */
  function VariableEliminationTable(P: seq<Table>, vars: seq<Variable>, U: set<Variable>): Table
    requires Runnable(P, vars, U)
  {
    EliminateWithin(P, vars, U);
    MulAll(ConstantTable(1.0), Eliminate(P, vars, U), U)
  }

  // -------------------------------------------------------------- properties

  /** A step keeps the pool over the model's variables. */
  lemma StepWithin(P: seq<Table>, v: Variable, U: set<Variable>)
    requires Consistent(U) && Within(P, U) && v in U
    ensures Within(Step(P, v, U), U)
  {
    BucketMembers(P, v);
  }

  lemma {:induction false} EliminateWithin(P: seq<Table>, vars: seq<Variable>, U: set<Variable>)
    requires Runnable(P, vars, U)
    ensures Within(Eliminate(P, vars, U), U)
    decreases |vars|
  {
    if vars != [] {
      StepWithin(P, vars[0], U);
      EliminateWithin(Step(P, vars[0], U), vars[1..], U);
    }
  }

  /** After v's step no table of the pool has v in scope, and a variable no
      table had in scope before the step is in no table's scope after it. */
  lemma StepAvoids(P: seq<Table>, v: Variable, U: set<Variable>, w: Variable)
    requires Consistent(U) && Within(P, U) && v in U
    ensures Avoids(Step(P, v, U), v)
    ensures Avoids(P, w) ==> Avoids(Step(P, v, U), w)
  {
    BucketSplit(P, v);
    BucketMembers(P, v);
    if Bucket(P, v) == [] {
      RestIsPool(P, v);
    } else {
      MergedAvoids(Bucket(P, v), v, U, w);
    }
  }

  /** A non-empty bucket of b tables shrinks the pool by b - 1; an empty one
      leaves it as it was. */
  lemma StepSize(P: seq<Table>, v: Variable, U: set<Variable>)
    requires Consistent(U) && Within(P, U) && v in U
    ensures Bucket(P, v) == [] ==> Step(P, v, U) == P
    ensures Bucket(P, v) != [] ==> |Step(P, v, U)| == |P| - |Bucket(P, v)| + 1
  {
    BucketSplit(P, v);
  }

  /** A variable no table has in scope stays out of every scope for the
      rest of the elimination. */
  lemma {:induction false} EliminateKeepsOut(P: seq<Table>, vars: seq<Variable>, U: set<Variable>, w: Variable)
    requires Runnable(P, vars, U) && Avoids(P, w)
    ensures Avoids(Eliminate(P, vars, U), w)
    decreases |vars|
  {
    if vars != [] {
      StepAvoids(P, vars[0], U, w);
      StepWithin(P, vars[0], U);
      EliminateKeepsOut(Step(P, vars[0], U), vars[1..], U, w);
    }
  }

  /** Once the order has been run through, no table of the pool has any of
      its variables in scope. */
  lemma {:induction false} EliminateRemoves(P: seq<Table>, vars: seq<Variable>, U: set<Variable>)
    requires Runnable(P, vars, U)
    ensures forall w :: w in vars ==> Avoids(Eliminate(P, vars, U), w)
    decreases |vars|
  {
    if vars != [] {
      var v := vars[0];
      StepWithin(P, v, U);
      StepAvoids(P, v, U, v);
      EliminateKeepsOut(Step(P, v, U), vars[1..], U, v);
      EliminateRemoves(Step(P, v, U), vars[1..], U);
      assert forall w :: w in vars ==> w == v || w in vars[1..];
    }
  }

  /** The result has none of the order's variables in scope; when the order
      holds every model variable it is a constant (width 0). */
  lemma VariableEliminationScope(P: seq<Table>, vars: seq<Variable>, U: set<Variable>)
    requires Runnable(P, vars, U)
    ensures forall w :: w in vars ==> !InScope(VariableEliminationTable(P, vars, U).domain, w)
  {
    EliminateWithin(P, vars, U);
    EliminateRemoves(P, vars, U);
    var E := Eliminate(P, vars, U);
    var r := VariableEliminationTable(P, vars, U);
    forall w | w in vars
      ensures !InScope(r.domain, w)
    {
      OneAvoids(E + [ConstantTable(1.0)], w);
      assert (E + [ConstantTable(1.0)])[..|E|] == E;
      MulAllAvoids(ConstantTable(1.0), E, U, w);
    }
  }

  lemma VariableEliminationConstant(P: seq<Table>, vars: seq<Variable>, U: set<Variable>)
    requires Runnable(P, vars, U) && U <= Elems(vars)
    ensures VariableEliminationTable(P, vars, U).domain.scope == []
  {
    VariableEliminationScope(P, vars, U);
    var r := VariableEliminationTable(P, vars, U);
    if r.domain.scope != [] {
      FirstInScope(r, vars, U);
      assert false;
    }
  }

  /** The first variable of a table over U, when U is drawn from vars, is a
      variable of vars the table has in scope. */
  lemma FirstInScope(t: Table, vars: seq<Variable>, U: set<Variable>)
    requires WellFormed(t) && Elems(t.domain.scope) <= U <= Elems(vars) && t.domain.scope != []
    ensures t.domain.scope[0] in vars && InScope(t.domain, t.domain.scope[0])
  {
    var x := t.domain.scope[0];
    assert x in Elems(t.domain.scope);
    assert x in Elems(vars);
  }

  // ------------------------------------------------------ the pool in place

  /** The values the factors of a pool hold. */
  function Vals(fs: seq<Factor>): (r: seq<Table>)
    reads fs
    ensures |r| == |fs| && forall i :: 0 <= i < |fs| ==> r[i] == fs[i].Val()
  {
    if fs == [] then [] else Vals(fs[..|fs| - 1]) + [fs[|fs| - 1].Val()]
  }

  /** `MulAll` with one more operand is one more `product`. */
  lemma MulAllSnoc(acc: Table, ts: seq<Table>, t: Table, U: set<Variable>)
    requires Consistent(U) && Within([acc] + ts + [t], U)
    ensures Within([acc] + ts, U) && Compatible(MulAll(acc, ts, U), t)
    ensures MulAll(acc, ts + [t], U) == ProductTable(MulAll(acc, ts, U), t)
  {
    assert (ts + [t])[..|ts|] == ts;
    FrontWithin(acc, ts + [t], U);
    var p := MulAll(acc, ts, U);
    ConsistentSubset(Elems(p.domain.scope) + Elems(t.domain.scope), U);
  }

  /** `Factor p(1.0)` followed by `p = product(p, f)` for every f of fs,
      whose values on entry are T. */
  method MultiplyAll(fs: seq<Factor>, ids: InstanceCounter, ghost T: seq<Table>, ghost U: set<Variable>)
      returns (p: Factor)
    requires Vals(fs) == T && Consistent(U) && Within(T, U)
    modifies ids
    ensures p.Val() == MulAll(ConstantTable(1.0), T, U)
  {
    p := new Factor.Constant(1.0, ids);
    PrefixWithin(T, 0, U);
    var i := 0;
    while i < |fs|
      invariant i <= |fs| && Within([ConstantTable(1.0)] + T[..i], U)
      invariant p.Val() == MulAll(ConstantTable(1.0), T[..i], U)
    {
      p := MultiplyNext(p, fs[i], ids, T, i, U);
      i := i + 1;
    }
    AllOf(T, U);
  }

  /** One round of the product loop: `p = product(p, f)` where f holds the
      next operand of T. */
  method MultiplyNext(p: Factor, f: Factor, ids: InstanceCounter, ghost T: seq<Table>, ghost i: nat, ghost U: set<Variable>)
      returns (q: Factor)
    requires Consistent(U) && Within(T, U) && i < |T| && f.Val() == T[i]
    requires Within([ConstantTable(1.0)] + T[..i], U) && p.Val() == MulAll(ConstantTable(1.0), T[..i], U)
    modifies ids
    ensures Within([ConstantTable(1.0)] + T[..i + 1], U)
    ensures q.Val() == MulAll(ConstantTable(1.0), T[..i + 1], U)
  {
    MulAllNext(T, i, U);
    q := Product(p, f, ids);
  }

  /** The operands of a pool over U, after `Factor(1.0)`, are over U. */
  lemma PrefixWithin(T: seq<Table>, n: nat, U: set<Variable>)
    requires Within(T, U) && n <= |T|
    ensures Within([ConstantTable(1.0)] + T[..n], U)
  {
    var one := ConstantTable(1.0);
    assert forall t :: t in [one] + T[..n] ==> t == one || t in T;
  }

  lemma AllOf(T: seq<Table>, U: set<Variable>)
    requires Consistent(U) && Within([ConstantTable(1.0)] + T[..|T|], U)
    ensures MulAll(ConstantTable(1.0), T[..|T|], U) == MulAll(ConstantTable(1.0), T, U)
  {
    assert T[..|T|] == T;
  }

  /** Multiplying in the next operand of T is one more `product`. */
  lemma MulAllNext(T: seq<Table>, i: nat, U: set<Variable>)
    requires Consistent(U) && Within(T, U) && i < |T|
    ensures Within([ConstantTable(1.0)] + T[..i], U) && Within([ConstantTable(1.0)] + T[..i + 1], U)
    ensures Compatible(MulAll(ConstantTable(1.0), T[..i], U), T[i])
    ensures MulAll(ConstantTable(1.0), T[..i + 1], U) == ProductTable(MulAll(ConstantTable(1.0), T[..i], U), T[i])
  {
    PrefixWithin(T, i, U);
    PrefixWithin(T, i + 1, U);
    assert T[..i + 1] == T[..i] + [T[i]];
    MulAllSnoc(ConstantTable(1.0), T[..i], T[i], U);
  }

  lemma ValsCons(f: Factor, fs: seq<Factor>)
    ensures Vals([f] + fs) == [f.Val()] + Vals(fs)
  {
  }

  lemma ValsSnoc(fs: seq<Factor>, f: Factor)
    ensures Vals(fs + [f]) == Vals(fs) + [f.Val()]
  {
  }

  lemma ValsPrefix(fs: seq<Factor>, n: nat)
    requires n <= |fs|
    ensures Vals(fs[..n]) == Vals(fs)[..n]
  {
  }

  /** The pool scan: the factors with v in scope go to the front of the
      bucket as they are met, the others stay in the pool in their order. */
  method Collect(pool: seq<Factor>, v: Variable, ghost T: seq<Table>) returns (bucket: seq<Factor>, rest: seq<Factor>)
    requires Vals(pool) == T
    ensures Vals(bucket) == Bucket(T, v) && Vals(rest) == Rest(T, v)
  {
    bucket, rest := [], [];
    for i := 0 to |pool|
      invariant Vals(bucket) == Bucket(T[..i], v) && Vals(rest) == Rest(T[..i], v)
    {
      assert T[..i + 1][..i] == T[..i];
      if pool[i].InScope(v) {
        ValsCons(pool[i], bucket);
        bucket := [pool[i]] + bucket;
      } else {
        ValsSnoc(rest, pool[i]);
        rest := rest + [pool[i]];
      }
    }
    assert T[..|pool|] == T;
  }

  lemma SplitWithin(P: seq<Table>, v: Variable, U: set<Variable>)
    requires Within(P, U)
    ensures Within(Bucket(P, v), U) && Within(Rest(P, v), U)
  {
    BucketMembers(P, v);
  }

  /** The value of the bucket's merged factor, from its parts. */
  lemma MergedIs(B: seq<Table>, v: Variable, U: set<Variable>)
    requires Consistent(U) && Within(B, U) && v in U && B != []
    ensures Within(B[..|B| - 1], U) && B[|B| - 1] in B
    ensures CompatibleWith(MulAll(ConstantTable(1.0), B[..|B| - 1], U), B[|B| - 1], v)
    ensures Merged(B, v, U) == SumProductTable(MulAll(ConstantTable(1.0), B[..|B| - 1], U), B[|B| - 1], v)
  {
    PrefixWithin(B, |B| - 1, U);
    assert forall t :: t in B[..|B| - 1] ==> t in B;
    var p := Front(B, U);
    OperandsFit(p, B[|B| - 1], v, U);
  }

  /** The bucket's merged factor: `Factor p(1.0)`, `p = product(p, f)` for
      every bucket factor but the last, then `sum_product(p, last, v)`. */
  method MergeBucket(bucket: seq<Factor>, v: Variable, ids: InstanceCounter, ghost B: seq<Table>, ghost U: set<Variable>)
      returns (m: Factor)
    requires Vals(bucket) == B && Consistent(U) && Within(B, U) && v in U && B != []
    modifies ids
    ensures m.Val() == Merged(B, v, U)
  {
    MergedIs(B, v, U);
    var n := |bucket| - 1;
    ValsPrefix(bucket, n);
    var p := MultiplyAll(bucket[..n], ids, B[..n], U);
    m := SumProduct(p, bucket[n], v, ids);
  }

  /** One pass of the loop over the order: collect v's bucket and, when it
      is not empty, put its merged factor at the front of the pool. */
  method EliminateVar(pool: seq<Factor>, v: Variable, ids: InstanceCounter, ghost T: seq<Table>, ghost U: set<Variable>)
      returns (pool': seq<Factor>)
    requires Vals(pool) == T && Consistent(U) && Within(T, U) && v in U
    modifies ids
    ensures Vals(pool') == Step(T, v, U)
  {
    var bucket, rest := Collect(pool, v, T);
    if |bucket| > 0 {
      SplitWithin(T, v, U);
      var m := MergeBucket(bucket, v, ids, Bucket(T, v), U);
      ValsCons(m, rest);
      pool' := [m] + rest;
    } else {
      RestIsPool(T, v);
      pool' := rest;
    }
  }

  /** Eliminating the rest of the order after one step. */
  lemma EliminateNext(P: seq<Table>, vars: seq<Variable>, k: nat, U: set<Variable>)
    requires k < |vars| && Runnable(P, vars[k..], U)
    ensures vars[k] in U && Within(Step(P, vars[k], U), U) && Runnable(Step(P, vars[k], U), vars[k + 1..], U)
    ensures Eliminate(P, vars[k..], U) == Eliminate(Step(P, vars[k], U), vars[k + 1..], U)
  {
    assert vars[k..][0] == vars[k] && vars[k..][1..] == vars[k + 1..];
    assert vars[k] in Elems(vars[k..]);
    StepWithin(P, vars[k], U);
  }

  /** `variable_elimination(variables, factors)`: the pool starts as the
      input factors, each variable of the order is eliminated in turn, and
      the remaining pool is multiplied into `Factor(1.0)`. The input factors
      themselves are not altered. */
  method VariableElimination(variables: seq<Variable>, factors: seq<Factor>, ids: InstanceCounter, ghost U: set<Variable>)
      returns (res: Factor)
    requires Runnable(Vals(factors), variables, U)
    modifies ids
    ensures res.Val() == VariableEliminationTable(old(Vals(factors)), variables, U)
    ensures forall i :: 0 <= i < |factors| ==> factors[i].Val() == old(factors[i].Val())
  {
    ghost var target := Eliminate(Vals(factors), variables, U);
    var pool := factors;
    for k := 0 to |variables|
      invariant Runnable(Vals(pool), variables[k..], U)
      invariant Eliminate(Vals(pool), variables[k..], U) == target
    {
      EliminateNext(Vals(pool), variables, k, U);
      pool := EliminateVar(pool, variables[k], ids, Vals(pool), U);
    }
    res := MultiplyAll(pool, ids, Vals(pool), U);
  }
}

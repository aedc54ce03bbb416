/** Real-valued factors: a domain plus a dense table (include/factor.h, src/factor.cpp). */
module Factors {
  import opened Wrappers
  import opened Variables
  import opened Radix
  import opened Domains

  /** `MSP_DEFAULT_VALUE`, the value new tables are filled with. */
  const DefaultValue: real := 0.0

  /** The value of a factor: its domain and its table. */
  datatype Table = Table(domain: Domain, values: seq<real>)

  /** A factor over distinct variables whose table has one entry per configuration. */
  predicate WellFormed(t: Table)
  {
    Valid(t.domain) && DupFree(t.domain.scope) && |t.values| == t.domain.size
  }

  function Filled(n: nat, x: real): (s: seq<real>)
    ensures |s| == n && forall i :: 0 <= i < n ==> s[i] == x
  {
    seq(n, _ => x)
  }

  /** `f <= g`: same size and entrywise at most. */
  predicate Dominated(a: seq<real>, b: seq<real>)
  {
    |a| == |b| && forall i :: 0 <= i < |a| ==> a[i] <= b[i]
  }

  class Factor {
    const id: nat
    const domain: Domain
    var values: seq<real>

    function Val(): Table
      reads this
    {
      Table(domain, values)
    }

    /** `Factor()`: the empty domain and the single default value. */
    constructor Default(ids: InstanceCounter)
      modifies ids
      ensures domain == Empty() && values == [DefaultValue]
      ensures id == old(ids.count) && ids.count == old(ids.count) + 1
    {
      var n := ids.Next();
      id := n;
      domain := Empty();
      values := [DefaultValue];
    }

    /** `Factor(value)`: the empty domain and the single entry `value`. */
    constructor Constant(value: real, ids: InstanceCounter)
      modifies ids
      ensures domain == Empty() && values == [value]
      ensures id == old(ids.count) && ids.count == old(ids.count) + 1
    {
      var n := ids.Next();
      id := n;
      domain := Empty();
      values := [value];
    }

    /** `Factor(scope, value)`: one entry `value` per configuration of the scope. */
    constructor FromScopeValue(scope: seq<Variable>, value: real, ids: InstanceCounter)
      modifies ids
      ensures domain == Build(scope) && values == Filled(SizeOf(scope), value)
      ensures id == old(ids.count) && ids.count == old(ids.count) + 1
    {
      var n := ids.Next();
      var d := NewDomain(scope);
      id := n;
      domain := d;
      values := Filled(d.size, value);
    }

    /** `Factor(scope)`: the same with the default value. */
    constructor FromScope(scope: seq<Variable>, ids: InstanceCounter)
      modifies ids
      ensures domain == Build(scope) && values == Filled(SizeOf(scope), DefaultValue)
      ensures id == old(ids.count) && ids.count == old(ids.count) + 1
    {
      var n := ids.Next();
      var d := NewDomain(scope);
      id := n;
      domain := d;
      values := Filled(d.size, DefaultValue);
    }

    /** `Factor(f1, f2)`: zero-filled factor over the union of the two domains. */
    constructor Union(f1: Factor, f2: Factor, ids: InstanceCounter)
      requires Valid(f1.domain)
      modifies ids
      ensures domain == Build(UnionScope(f1.domain.scope, f2.domain.scope))
      ensures values == Filled(domain.size, DefaultValue)
      ensures id == old(ids.count) && ids.count == old(ids.count) + 1
    {
      var n := ids.Next();
      var d := UnionOf(f1.domain, f2.domain);
      id := n;
      domain := d;
      values := Filled(d.size, DefaultValue);
    }

    /** `Factor(f1, f2, var)`: zero-filled factor over the union without `var`. */
    constructor UnionWithout(f1: Factor, f2: Factor, v: Variable, ids: InstanceCounter)
      requires Valid(f1.domain)
      modifies ids
      ensures domain == Build(UnionScopeWithout(f1.domain.scope, f2.domain.scope, v))
      ensures values == Filled(domain.size, DefaultValue)
      ensures id == old(ids.count) && ids.count == old(ids.count) + 1
    {
      var n := ids.Next();
      var d := UnionOfWithout(f1.domain, f2.domain, v);
      id := n;
      domain := d;
      values := Filled(d.size, DefaultValue);
    }

    /** `size()`: the table length. */
    function Size(): (n: nat)
      reads this
      ensures WellFormed(Val()) ==> n == domain.size
    {
      |values|
    }

    /** `width()`: the number of scope variables. */
    function Width(): (n: nat)
      reads this
      ensures n == |domain.scope|
    {
      Domains.Width(domain)
    }

    /** `in_scope(v)`. */
    function InScope(v: Variable): (r: bool)
      reads this
      ensures Valid(domain) ==> (r <==> v.id in Ids(domain.scope))
    {
      Domains.InScope(domain, v)
    }

    /** `offset(v)`. */
    function Offset(v: Variable): nat
      reads this
    {
      OffsetOf(domain, v)
    }

    /** `operator[](i)`: entry i, or an error past the end. */
    function Get(i: nat): (r: Result<real>)
      reads this
      ensures r.Ok? <==> i < |values|
      ensures r.Ok? ==> r.value == values[i]
      ensures r.Err? ==> r.error == IndexOutOfRange
    {
      if i < |values| then Ok(values[i]) else Err(IndexOutOfRange)
    }

    /** `set(i, value)`: writes entry i; past the end it fails and changes nothing. */
    method Set(i: nat, value: real) returns (ok: bool)
      modifies this
      ensures ok <==> i < |old(values)|
      ensures values == if ok then old(values)[i := value] else old(values)
    {
      ok := i < |values|;
      if ok {
        values := values[i := value];
      }
    }
  }

  /** `f <= g`: false for different sizes, else an entrywise comparison that stops
      at the first entry of f above g's. */
  method LessEq(f: Factor, g: Factor) returns (r: bool)
    ensures r <==> Dominated(f.values, g.values)
  {
    if |f.values| != |g.values| {
      return false;
    }
    var i := 0;
    while i < |f.values|
      invariant 0 <= i <= |f.values|
      invariant forall t :: 0 <= t < i ==> f.values[t] <= g.values[t]
    {
      if f.values[i] > g.values[i] {
        return false;
      }
      i := i + 1;
    }
    return true;
  }

  /** `f >= g`: the same comparison the other way round. */
  method GreaterEq(f: Factor, g: Factor) returns (r: bool)
    ensures r <==> Dominated(g.values, f.values)
  {
    if |f.values| != |g.values| {
      return false;
    }
    var i := 0;
    while i < |f.values|
      invariant 0 <= i <= |f.values|
      invariant forall t :: 0 <= t < i ==> f.values[t] >= g.values[t]
    {
      if f.values[i] < g.values[i] {
        return false;
      }
      i := i + 1;
    }
    return true;
  }

  /** Both comparisons are reflexive, `>=` is `<=` with the arguments swapped,
      and together they mean equal tables. */
  lemma DominatedOrder(a: seq<real>, b: seq<real>, c: seq<real>)
    ensures Dominated(a, a)
    ensures Dominated(a, b) && Dominated(b, c) ==> Dominated(a, c)
    ensures Dominated(a, b) && Dominated(b, a) ==> a == b
    ensures |a| != |b| ==> !Dominated(a, b) && !Dominated(b, a)
  {
    if Dominated(a, b) && Dominated(b, a) {
      assert forall i :: 0 <= i < |a| ==> a[i] == b[i];
    }
  }

  /** The tables the two union constructors build are well formed, and the
      operands' domains are left as they were. */
  lemma UnionTablesWellFormed(t1: Table, t2: Table, v: Variable)
    requires WellFormed(t1) && WellFormed(t2)
    ensures WellFormed(Table(Build(UnionScope(t1.domain.scope, t2.domain.scope)),
                             Filled(SizeOf(UnionScope(t1.domain.scope, t2.domain.scope)), DefaultValue)))
    ensures WellFormed(Table(Build(UnionScopeWithout(t1.domain.scope, t2.domain.scope, v)),
                             Filled(SizeOf(UnionScopeWithout(t1.domain.scope, t2.domain.scope, v)), DefaultValue)))
  {
    UnionScopeProperties(t1.domain.scope, t2.domain.scope);
    UnionScopeWithoutProperties(t1.domain.scope, t2.domain.scope, v);
  }
}

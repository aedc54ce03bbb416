/** Factor product and combined product / elimination (src/operations.cpp). */
module Operations {
  import opened Variables
  import opened Radix
  import opened Domains
  import opened Alignment
  import opened Factors

  // ------------------------------------------------------------ specification

  /** Two well-formed tables whose variables agree on every shared id. */
  predicate Compatible(t1: Table, t2: Table)
  {
    WellFormed(t1) && WellFormed(t2) && Consistent(Elems(t1.domain.scope) + Elems(t2.domain.scope))
  }

  /** The same, with the variable to eliminate agreeing too. */
  predicate CompatibleWith(t1: Table, t2: Table, v: Variable)
  {
    WellFormed(t1) && WellFormed(t2) && Consistent(Elems(t1.domain.scope) + Elems(t2.domain.scope) + {v})
  }

  function ProductScope(t1: Table, t2: Table): seq<Variable>
  {
    UnionScope(t1.domain.scope, t2.domain.scope)
  }

  /** Result scope of `sum_product(f1, f2, var)`. */
  function MarginalScope(t1: Table, t2: Table, v: Variable): seq<Variable>
  {
    UnionScopeWithout(t1.domain.scope, t2.domain.scope, v)
  }

  /** The scope the sum-product counter walks: var's digit first, then the result's. */
  function JointScope(t1: Table, t2: Table, v: Variable): seq<Variable>
  {
    [v] + MarginalScope(t1, t2, v)
  }

  lemma ProductCovers(t1: Table, t2: Table)
    requires Compatible(t1, t2)
    ensures Covers(ProductScope(t1, t2), t1.domain.scope)
    ensures Covers(ProductScope(t1, t2), t2.domain.scope)
  {
    UnionScopeProperties(t1.domain.scope, t2.domain.scope);
  }

  lemma JointCovers(t1: Table, t2: Table, v: Variable)
    requires CompatibleWith(t1, t2, v)
    ensures DupFree(MarginalScope(t1, t2, v))
    ensures Covers(JointScope(t1, t2, v), t1.domain.scope)
    ensures Covers(JointScope(t1, t2, v), t2.domain.scope)
  {
    var s1, s2 := t1.domain.scope, t2.domain.scope;
    var r := MarginalScope(t1, t2, v);
    UnionScopeWithoutProperties(s1, s2, v);
    assert [v][0] == v;
    assert Ids([v]) == {v.id};
    assert Elems([v]) == {v};
    IdsAppend([v], r);
    DupFreeAppend([v], r);
    assert Consistent(Elems(s1) + Elems(s2));
    forall x | x in Elems(s1) + Elems(s2) ensures x in Elems([v] + r) {
      if x.id == v.id {
        assert x == v;
      }
    }
  }

  /** The product of two table entries. */
  function Mul(x: real, y: real): real { x * y }

  /** Entry of t at configuration c of a scope e that covers t's scope. */
  function EntryAt(t: Table, e: seq<Variable>, c: seq<nat>): real
    requires WellFormed(t) && Covers(e, t.domain.scope) && ValidConfig(c, e)
  {
    AlignedIsPosition(t.domain.scope, e, c);
    t.values[Aligned(t.domain, e, c)]
  }

  function ProductEntry(t1: Table, t2: Table, p: nat): real
    requires Compatible(t1, t2) && p < SizeOf(ProductScope(t1, t2))
  {
    var e := ProductScope(t1, t2);
    ProductCovers(t1, t2);
    ConfigPos(p, e);
    Mul(EntryAt(t1, e, Config(p, e)), EntryAt(t2, e, Config(p, e)))
  }

  /** The value of `product(f1, f2)`. */
  function ProductTable(t1: Table, t2: Table): (r: Table)
    requires Compatible(t1, t2)
    ensures WellFormed(r) && r.domain == Build(ProductScope(t1, t2))
  {
    var e := ProductScope(t1, t2);
    UnionScopeProperties(t1.domain.scope, t2.domain.scope);
    Table(Build(e), seq(SizeOf(e), p requires 0 <= p < SizeOf(e) => ProductEntry(t1, t2, p)))
  }

  /** Term m of a sum-product entry: both operands at result configuration i
      extended with var = m. */
  function JointEntry(t1: Table, t2: Table, v: Variable, i: nat, m: nat): real
    requires CompatibleWith(t1, t2, v) && i < SizeOf(MarginalScope(t1, t2, v)) && m < v.card
  {
    var r := MarginalScope(t1, t2, v);
    var e := JointScope(t1, t2, v);
    JointCovers(t1, t2, v);
    ConfigPos(i, r);
    ValidConfigCons(m, Config(i, r), v, r);
    Mul(EntryAt(t1, e, [m] + Config(i, r)), EntryAt(t2, e, [m] + Config(i, r)))
  }

  /** The first n terms, added up from 0.0 in the order the loop adds them. */
  function PartialSum(t1: Table, t2: Table, v: Variable, i: nat, n: nat): real
    requires CompatibleWith(t1, t2, v) && i < SizeOf(MarginalScope(t1, t2, v)) && n <= v.card
  {
    if n == 0 then 0.0 else PartialSum(t1, t2, v, i, n - 1) + JointEntry(t1, t2, v, i, n - 1)
  }

  /** The value of `sum_product(f1, f2, var)`. */
  function SumProductTable(t1: Table, t2: Table, v: Variable): (r: Table)
    requires CompatibleWith(t1, t2, v)
    ensures WellFormed(r) && r.domain == Build(MarginalScope(t1, t2, v))
  {
    var s := MarginalScope(t1, t2, v);
    UnionScopeWithoutProperties(t1.domain.scope, t2.domain.scope, v);
    Table(Build(s), seq(SizeOf(s), i requires 0 <= i < SizeOf(s) => PartialSum(t1, t2, v, i, v.card)))
  }
  lemma EntryAtAligned(t: Table, e: seq<Variable>, c: seq<nat>)
    requires WellFormed(t) && Covers(e, t.domain.scope) && ValidConfig(c, e)
    ensures Aligned(t.domain, e, c) < |t.values|
    ensures EntryAt(t, e, c) == t.values[Aligned(t.domain, e, c)]
  {
    AlignedIsPosition(t.domain.scope, e, c);
  }

  /** Entry p of the product is the product of the operands' entries at their
      aligned positions of configuration p, both in range. */
  lemma ProductEntryAligned(t1: Table, t2: Table, p: nat)
    requires Compatible(t1, t2) && p < SizeOf(ProductScope(t1, t2))
    ensures Aligned(t1.domain, ProductScope(t1, t2), Config(p, ProductScope(t1, t2))) < |t1.values|
    ensures Aligned(t2.domain, ProductScope(t1, t2), Config(p, ProductScope(t1, t2))) < |t2.values|
    ensures ProductTable(t1, t2).values[p] ==
      Mul(t1.values[Aligned(t1.domain, ProductScope(t1, t2), Config(p, ProductScope(t1, t2)))],
          t2.values[Aligned(t2.domain, ProductScope(t1, t2), Config(p, ProductScope(t1, t2)))])
  {
    var e := ProductScope(t1, t2);
    ProductCovers(t1, t2);
    ConfigPos(p, e);
    EntryAtAligned(t1, e, Config(p, e));
    EntryAtAligned(t2, e, Config(p, e));
    assert ProductTable(t1, t2).values[p] == ProductEntry(t1, t2, p);
  }

  /** What one iteration of the product loop writes: entry i is f1[j] * f2[k]
      when c is configuration i and j, k are its aligned positions. */
  lemma ProductStep(t1: Table, t2: Table, i: nat, c: seq<nat>, j: int, k: int)
    requires Compatible(t1, t2) && i < SizeOf(ProductScope(t1, t2))
    requires c == Config(i, ProductScope(t1, t2))
    requires j == Aligned(t1.domain, ProductScope(t1, t2), c)
    requires k == Aligned(t2.domain, ProductScope(t1, t2), c)
    ensures 0 <= j < |t1.values| && 0 <= k < |t2.values|
    ensures ProductEntry(t1, t2, i) == Mul(t1.values[j], t2.values[k])
  {
    var e := ProductScope(t1, t2);
    ProductCovers(t1, t2);
    ConfigPos(i, e);
    EntryAtAligned(t1, e, c);
    EntryAtAligned(t2, e, c);
  }

  // ------------------------------------------------------------------ odometer

  /** One odometer step, the carry loop of `product` and `sum_product`: from
      digit 0 on, increment the digit and either stop or reset it and carry,
      moving the two running indices by the offsets, in d1 and d2, of the digit's
      variable. */
  method Advance(d1: Domain, d2: Domain, e: seq<Variable>, c0: seq<nat>, j0: int, k0: int)
    returns (c: seq<nat>, j: int, k: int)
    requires |c0| == |e|
    requires j0 == Aligned(d1, e, c0) && k0 == Aligned(d2, e, c0)
    ensures c == Incr(c0, e)
    ensures j == Aligned(d1, e, c) && k == Aligned(d2, e, c)
  {
    c, j, k := c0, j0, k0;
    IncrFromStart(c0, e);
    var l := 0;
    while l < |e|
      invariant l <= |e| && |c| == |e| && IncrFrom(c, e, l) == Incr(c0, e)
      invariant j == Aligned(d1, e, c) && k == Aligned(d2, e, c)
    {
      var v := e[l];
      var digit := c[l] + 1;
      if digit == v.card {
        AlignedReset(d1, e, c, l);
        AlignedReset(d2, e, c, l);
        c := c[l := 0];
        j := j - (v.card - 1) * OffsetOf(d1, v);
        k := k - (v.card - 1) * OffsetOf(d2, v);
      } else {
        AlignedBump(d1, e, c, l);
        AlignedBump(d2, e, c, l);
        c := c[l := digit];
        j := j + OffsetOf(d1, v);
        k := k + OffsetOf(d2, v);
        return;
      }
      l := l + 1;
    }
  }

  // ------------------------------------------------------------------ product

  /** The state of `product` before entry i: the entries before i are set, the
      counter c is configuration i, and j, k are its aligned positions. */
  predicate ProductState(t1: Table, t2: Table, vals: seq<real>, i: nat, c: seq<nat>, j: int, k: int)
  {
    Compatible(t1, t2) && |vals| == SizeOf(ProductScope(t1, t2)) && i <= |vals|
    && (forall t :: 0 <= t < i ==> vals[t] == ProductEntry(t1, t2, t))
    && |c| == |ProductScope(t1, t2)|
    && j == Aligned(t1.domain, ProductScope(t1, t2), c)
    && k == Aligned(t2.domain, ProductScope(t1, t2), c)
    && (i < |vals| ==> c == Config(i, ProductScope(t1, t2)))
  }

  /** Setting entry i and stepping the counter gives the state before entry i+1. */
  lemma ProductNext(t1: Table, t2: Table, vals: seq<real>, vals': seq<real>, i: nat,
                    c: seq<nat>, j: int, k: int, c': seq<nat>, j': int, k': int)
    requires ProductState(t1, t2, vals, i, c, j, k) && i < |vals|
    requires vals' == vals[i := ProductEntry(t1, t2, i)]
    requires c' == Incr(c, ProductScope(t1, t2))
    requires j' == Aligned(t1.domain, ProductScope(t1, t2), c')
    requires k' == Aligned(t2.domain, ProductScope(t1, t2), c')
    ensures ProductState(t1, t2, vals', i + 1, c', j', k')
  {
    if i + 1 < |vals| {
      IncrConfig(i, ProductScope(t1, t2));
    }
  }

  /** One round of the loop of `product`: entry i gets f1[j] * f2[k] and the
      counter moves on. */
  method ProductRound(t1: Table, t2: Table, res: Factor, e: seq<Variable>, i: nat, c0: seq<nat>, j0: int, k0: int)
    returns (c: seq<nat>, j: int, k: int)
    requires ProductState(t1, t2, res.values, i, c0, j0, k0) && i < |res.values| && e == ProductScope(t1, t2)
    modifies res
    ensures ProductState(t1, t2, res.values, i + 1, c, j, k)
  {
    ProductStep(t1, t2, i, c0, j0, k0);
    ghost var before := res.values;
    var ok := res.Set(i, Mul(t1.values[j0], t2.values[k0]));
    c, j, k := Advance(t1.domain, t2.domain, e, c0, j0, k0);
    ProductNext(t1, t2, before, res.values, i, c0, j0, k0, c, j, k);
  }

  /** The loop of `product`: every entry of the union domain, in position order. */
  method FillProducts(t1: Table, t2: Table, res: Factor, e: seq<Variable>)
    requires Compatible(t1, t2) && e == ProductScope(t1, t2)
    requires |res.values| == SizeOf(e)
    modifies res
    ensures res.values == ProductTable(t1, t2).values
  {
    var i := 0;
    var j: int, k: int := 0, 0;
    var c := Zeros(|e|);
    ConfigZero(e);
    DotZeros(c, Weights(t1.domain, e));
    DotZeros(c, Weights(t2.domain, e));
    while i < |res.values|
      invariant ProductState(t1, t2, res.values, i, c, j, k)
    {
      c, j, k := ProductRound(t1, t2, res, e, i, c, j, k);
      i := i + 1;
    }
    ProductValues(t1, t2, res.values);
  }

  /** Values holding every entry's product are the product's values. */
  lemma ProductValues(t1: Table, t2: Table, vals: seq<real>)
    requires Compatible(t1, t2) && |vals| == SizeOf(ProductScope(t1, t2))
    requires forall t :: 0 <= t < |vals| ==> vals[t] == ProductEntry(t1, t2, t)
    ensures vals == ProductTable(t1, t2).values
  {
  }

  /** `product(f1, f2)`: walks the union domain with the odometer c, keeping j and
      k at the aligned positions of c in f1 and f2. */
  method Product(f1: Factor, f2: Factor, ids: InstanceCounter) returns (res: Factor)
    requires Compatible(f1.Val(), f2.Val())
    modifies ids
    ensures fresh(res) && ids.count == old(ids.count) + 1
    ensures res.Val() == ProductTable(f1.Val(), f2.Val())
  {
    res := new Factor.Union(f1, f2, ids);
    FillProducts(f1.Val(), f2.Val(), res, res.domain.scope);
  }

  // ------------------------------------------------------- product properties

  /** Value of t at the configuration c of a covering scope e, read through the
      restriction of c to t's own scope. */
  function Operand(t: Table, e: seq<Variable>, c: seq<nat>): real
    requires WellFormed(t) && Covers(e, t.domain.scope) && ValidConfig(c, e)
  {
    AlignedIsPosition(t.domain.scope, e, c);
    t.values[Pos(Restrict(c, e, t.domain.scope), t.domain.scope)]
  }

  lemma EntryAtIsOperand(t: Table, e: seq<Variable>, c: seq<nat>)
    requires WellFormed(t) && Covers(e, t.domain.scope) && ValidConfig(c, e)
    ensures EntryAt(t, e, c) == Operand(t, e, c)
  {
    AlignedIsPosition(t.domain.scope, e, c);
  }

  /** Every entry of the product, at any configuration of the union scope, is the
      product of the operands' entries at that configuration restricted to their
      own scopes. */
  lemma ProductAt(t1: Table, t2: Table, c: seq<nat>)
    requires Compatible(t1, t2) && ValidConfig(c, ProductScope(t1, t2))
    ensures Covers(ProductScope(t1, t2), t1.domain.scope) && Covers(ProductScope(t1, t2), t2.domain.scope)
    ensures Pos(c, ProductScope(t1, t2)) < |ProductTable(t1, t2).values|
    ensures ProductTable(t1, t2).values[Pos(c, ProductScope(t1, t2))] ==
      Mul(Operand(t1, ProductScope(t1, t2), c), Operand(t2, ProductScope(t1, t2), c))
  {
    var e := ProductScope(t1, t2);
    ProductCovers(t1, t2);
    PosBound(c, e);
    PosConfig(c, e);
    var p := Pos(c, e);
    assert ProductTable(t1, t2).values[p] == ProductEntry(t1, t2, p);
    EntryAtIsOperand(t1, e, c);
    EntryAtIsOperand(t2, e, c);
  }

  /** Term m of a marginal entry at configuration c of the marginal scope:
      the operands at c extended with v = m, each read through its own scope. */
  function MarginalTerm(t1: Table, t2: Table, v: Variable, c: seq<nat>, m: nat): real
    requires CompatibleWith(t1, t2, v) && ValidConfig(c, MarginalScope(t1, t2, v)) && m < v.card
  {
    JointCovers(t1, t2, v);
    ValidConfigCons(m, c, v, MarginalScope(t1, t2, v));
    Mul(Operand(t1, JointScope(t1, t2, v), [m] + c), Operand(t2, JointScope(t1, t2, v), [m] + c))
  }

  /** The first n terms of a marginal entry, added up from 0.0. */
  function Marginal(t1: Table, t2: Table, v: Variable, c: seq<nat>, n: nat): real
    requires CompatibleWith(t1, t2, v) && ValidConfig(c, MarginalScope(t1, t2, v)) && n <= v.card
  {
    if n == 0 then 0.0 else Marginal(t1, t2, v, c, n - 1) + MarginalTerm(t1, t2, v, c, n - 1)
  }

  lemma TermIsMarginalTerm(t1: Table, t2: Table, v: Variable, i: nat, c: seq<nat>, m: nat)
    requires CompatibleWith(t1, t2, v) && i < SizeOf(MarginalScope(t1, t2, v)) && m < v.card
    requires ValidConfig(c, MarginalScope(t1, t2, v)) && c == Config(i, MarginalScope(t1, t2, v))
    ensures JointEntry(t1, t2, v, i, m) == MarginalTerm(t1, t2, v, c, m)
  {
    JointCovers(t1, t2, v);
    ValidConfigCons(m, c, v, MarginalScope(t1, t2, v));
    EntryAtIsOperand(t1, JointScope(t1, t2, v), [m] + c);
    EntryAtIsOperand(t2, JointScope(t1, t2, v), [m] + c);
  }

  lemma {:induction false} PartialSumIsMarginal(t1: Table, t2: Table, v: Variable, i: nat, c: seq<nat>, n: nat)
    requires CompatibleWith(t1, t2, v) && i < SizeOf(MarginalScope(t1, t2, v)) && n <= v.card
    requires ValidConfig(c, MarginalScope(t1, t2, v)) && c == Config(i, MarginalScope(t1, t2, v))
    ensures PartialSum(t1, t2, v, i, n) == Marginal(t1, t2, v, c, n)
    decreases n
  {
    if n > 0 {
      var m: nat := n - 1;
      PartialSumIsMarginal(t1, t2, v, i, c, m);
      MarginalStep(t1, t2, v, i, c, m);
    }
  }

  /** One more term on both sides keeps the two sums equal. */
  lemma MarginalStep(t1: Table, t2: Table, v: Variable, i: nat, c: seq<nat>, m: nat)
    requires CompatibleWith(t1, t2, v) && i < SizeOf(MarginalScope(t1, t2, v)) && m < v.card
    requires ValidConfig(c, MarginalScope(t1, t2, v)) && c == Config(i, MarginalScope(t1, t2, v))
    requires PartialSum(t1, t2, v, i, m) == Marginal(t1, t2, v, c, m)
    ensures PartialSum(t1, t2, v, i, m + 1) == Marginal(t1, t2, v, c, m + 1)
  {
    TermIsMarginalTerm(t1, t2, v, i, c, m);
  }

  /** Every entry of the sum-product, at any configuration of its scope, is the
      sum over the states of v of the operands' product at that configuration
      extended with v, each restricted to the operand's own scope. */
  lemma SumProductAt(t1: Table, t2: Table, v: Variable, c: seq<nat>)
    requires CompatibleWith(t1, t2, v) && ValidConfig(c, MarginalScope(t1, t2, v))
    ensures Pos(c, MarginalScope(t1, t2, v)) < |SumProductTable(t1, t2, v).values|
    ensures SumProductTable(t1, t2, v).values[Pos(c, MarginalScope(t1, t2, v))] == Marginal(t1, t2, v, c, v.card)
  {
    var r := MarginalScope(t1, t2, v);
    PosBound(c, r);
    PosConfig(c, r);
    var p := Pos(c, r);
    assert SumProductTable(t1, t2, v).values[p] == PartialSum(t1, t2, v, p, v.card);
    PartialSumIsMarginal(t1, t2, v, p, c, v.card);
  }

  /** The product's scope is f1's scope followed by f2's other variables; it holds
      exactly the variables of the two operands. */
  lemma ProductScopeIs(t1: Table, t2: Table)
    requires Compatible(t1, t2)
    ensures ProductScope(t1, t2)[..|t1.domain.scope|] == t1.domain.scope
    ensures Elems(ProductScope(t1, t2)) == Elems(t1.domain.scope) + Elems(t2.domain.scope)
    ensures Ids(ProductScope(t1, t2)) == Ids(t1.domain.scope) + Ids(t2.domain.scope)
  {
    UnionScopeProperties(t1.domain.scope, t2.domain.scope);
  }

  /** `Factor(x)`. */
  function ConstantTable(x: real): (t: Table)
    ensures WellFormed(t)
  {
    Table(Empty(), [x])
  }

  lemma ConstantCompatible(x: real, t: Table)
    requires WellFormed(t)
    ensures Compatible(ConstantTable(x), t) && Compatible(t, ConstantTable(x))
  {
    DupFreeConsistent(t.domain.scope);
    assert Elems(ConstantTable(x).domain.scope) == {};
  }

  lemma ConstantLeftScope(x: real, t: Table)
    requires WellFormed(t)
    ensures Compatible(ConstantTable(x), t)
    ensures ProductScope(ConstantTable(x), t) == t.domain.scope
  {
    ConstantCompatible(x, t);
    assert Ids(ConstantTable(x).domain.scope) == {};
    FilterOutDisjoint(t.domain.scope, {});
    assert ProductScope(ConstantTable(x), t) == [] + t.domain.scope;
  }

  lemma ConstantLeftAt(x: real, t: Table, p: nat)
    requires WellFormed(t) && p < |t.values|
    ensures Compatible(ConstantTable(x), t)
    ensures |ProductTable(ConstantTable(x), t).values| == |t.values|
    ensures ProductTable(ConstantTable(x), t).values[p] == Mul(x, t.values[p])
  {
    ConstantLeftScope(x, t);
    var u, s := ConstantTable(x), t.domain.scope;
    ConfigPos(p, s);
    ProductCovers(u, t);
    assert ProductTable(u, t).values[p] == ProductEntry(u, t, p);
    EntryAtAligned(u, s, Config(p, s));
    EntryAtAligned(t, s, Config(p, s));
    AlignedSelf(s, Config(p, s));
  }

  /** Multiplying by a constant factor on the left keeps t's domain, scope order
      included, and scales every entry. */
  lemma ProductConstantLeft(x: real, t: Table)
    requires WellFormed(t)
    ensures Compatible(ConstantTable(x), t)
    ensures ProductTable(ConstantTable(x), t).domain == t.domain
    ensures ProductTable(ConstantTable(x), t).values ==
      seq(|t.values|, i requires 0 <= i < |t.values| => Mul(x, t.values[i]))
  {
    ConstantLeftScope(x, t);
    forall p | 0 <= p < |t.values|
      ensures ProductTable(ConstantTable(x), t).values[p] == Mul(x, t.values[p])
    {
      ConstantLeftAt(x, t, p);
    }
  }

  /** The same on the right. */
  lemma ProductConstantRight(t: Table, x: real)
    requires WellFormed(t)
    ensures Compatible(t, ConstantTable(x))
    ensures ProductTable(t, ConstantTable(x)).domain == t.domain
    ensures ProductTable(t, ConstantTable(x)).values ==
      seq(|t.values|, i requires 0 <= i < |t.values| => Mul(t.values[i], x))
  {
    ConstantCompatible(x, t);
    var u := ConstantTable(x);
    var s := t.domain.scope;
    assert ProductScope(t, u) == s;
    var r := ProductTable(t, u);
    forall p | 0 <= p < |t.values| ensures r.values[p] == Mul(t.values[p], x) {
      ConfigPos(p, s);
      ProductCovers(t, u);
      assert r.values[p] == ProductEntry(t, u, p);
      EntryAtAligned(u, s, Config(p, s));
      EntryAtAligned(t, s, Config(p, s));
      AlignedSelf(s, Config(p, s));
    }
  }

  /** `product(Factor(1.0), f)` is f: same scope, same order, same values. */
  lemma ProductUnit(t: Table)
    requires WellFormed(t)
    ensures Compatible(ConstantTable(1.0), t)
    ensures ProductTable(ConstantTable(1.0), t) == t
  {
    ProductConstantLeft(1.0, t);
  }
  // -------------------------------------------------------------- sum-product

  /** The sum-product counter just before term m of the result entry whose
      configuration is cur: c is cur extended with var = m (or, once all terms
      are in, the next entry's configuration), and j, k are its aligned
      positions in the operands. */
  predicate AtTerm(t1: Table, t2: Table, v: Variable, cur: seq<nat>, m: nat, c: seq<nat>, j: int, k: int)
  {
    CompatibleWith(t1, t2, v) && |cur| == |MarginalScope(t1, t2, v)| && m <= v.card
    && |c| == |JointScope(t1, t2, v)|
    && j == Aligned(t1.domain, JointScope(t1, t2, v), c)
    && k == Aligned(t2.domain, JointScope(t1, t2, v), c)
    && (m < v.card ==> c == [m] + cur)
    && (0 < v.card && m == v.card ==> c == [0] + Incr(cur, MarginalScope(t1, t2, v)))
  }

  /** Term m of entry i, read at (j, k), extends the partial sum by one term,
      and both reads are in range. */
  lemma TermValue(t1: Table, t2: Table, v: Variable, i: nat, cur: seq<nat>, m: nat, c: seq<nat>, j: int, k: int)
    requires AtTerm(t1, t2, v, cur, m, c, j, k) && m < v.card
    requires i < SizeOf(MarginalScope(t1, t2, v)) && cur == Config(i, MarginalScope(t1, t2, v))
    ensures 0 <= j < |t1.values| && 0 <= k < |t2.values|
    ensures PartialSum(t1, t2, v, i, m + 1) == PartialSum(t1, t2, v, i, m) + Mul(t1.values[j], t2.values[k])
  {
    var r, e := MarginalScope(t1, t2, v), JointScope(t1, t2, v);
    JointCovers(t1, t2, v);
    ConfigPos(i, r);
    ValidConfigCons(m, cur, v, r);
    EntryAtAligned(t1, e, c);
    EntryAtAligned(t2, e, c);
  }

  /** One odometer step over [var] + scope moves the counter to term m+1: var's
      digit steps up, or wraps to 0 and carries into the result digits. */
  lemma TermAdvance(t1: Table, t2: Table, v: Variable, cur: seq<nat>, m: nat, c: seq<nat>, j: int, k: int,
                    c': seq<nat>, j': int, k': int)
    requires AtTerm(t1, t2, v, cur, m, c, j, k) && m < v.card
    requires c' == Incr(c, JointScope(t1, t2, v))
    requires j' == Aligned(t1.domain, JointScope(t1, t2, v), c')
    requires k' == Aligned(t2.domain, JointScope(t1, t2, v), c')
    ensures AtTerm(t1, t2, v, cur, m + 1, c', j', k')
  {
    IncrJointStep(v, MarginalScope(t1, t2, v), m, cur, c, c');
  }

  /** One odometer step on [v] + r from [m] + cur: the digit of v moves on,
      or wraps to 0 and carries into the rest. */
  lemma IncrJointStep(v: Variable, r: seq<Variable>, m: nat, cur: seq<nat>, c: seq<nat>, c': seq<nat>)
    requires |cur| == |r| && m < v.card && c == [m] + cur && c' == Incr(c, [v] + r)
    ensures m + 1 < v.card ==> c' == [m + 1] + cur
    ensures m + 1 == v.card ==> c' == [0] + Incr(cur, r)
  {
    assert ([m] + cur)[1..] == cur && ([v] + r)[1..] == r;
  }

  /** The counter after the last term of entry i stands before the first term
      of entry i+1 (with no terms at all, it never moves). */
  lemma NextEntry(t1: Table, t2: Table, v: Variable, i: nat, c: seq<nat>, j: int, k: int)
    requires CompatibleWith(t1, t2, v) && i + 1 < SizeOf(MarginalScope(t1, t2, v))
    requires AtTerm(t1, t2, v, Config(i, MarginalScope(t1, t2, v)), v.card, c, j, k)
    ensures AtTerm(t1, t2, v, Config(i + 1, MarginalScope(t1, t2, v)), 0, c, j, k)
  {
    IncrConfig(i, MarginalScope(t1, t2, v));
  }

  /** The result table of sum-product has one entry per configuration of its scope. */
  lemma SumProductShape(t1: Table, t2: Table, v: Variable)
    requires CompatibleWith(t1, t2, v)
    ensures SumProductTable(t1, t2, v).domain == Build(MarginalScope(t1, t2, v))
    ensures Build(MarginalScope(t1, t2, v)).size == SizeOf(MarginalScope(t1, t2, v))
  {
  }

  /** Values holding every entry's full partial sum are the sum-product's values. */
  lemma SumProductValues(t1: Table, t2: Table, v: Variable, vals: seq<real>)
    requires CompatibleWith(t1, t2, v) && |vals| == SizeOf(MarginalScope(t1, t2, v))
    requires forall t :: 0 <= t < |vals| ==> vals[t] == PartialSum(t1, t2, v, t, v.card)
    ensures vals == SumProductTable(t1, t2, v).values
  {
  }

  /** The all-zero counter stands before the first term of entry 0, at
      position 0 in both operands. */
  lemma SumProductStart(t1: Table, t2: Table, v: Variable, r: seq<Variable>, e: seq<Variable>, c: seq<nat>)
    requires CompatibleWith(t1, t2, v) && r == MarginalScope(t1, t2, v) && e == [v] + r && c == Zeros(|e|)
    ensures AtTerm(t1, t2, v, Config(0, r), 0, c, 0, 0)
  {
    ConfigZero(r);
    ZerosCons(|r|);
    DotZeros(c, Weights(t1.domain, e));
    DotZeros(c, Weights(t2.domain, e));
  }

  /** The inner loop of `sum_product` before term m of entry i: entry i (and
      acc) hold the first m terms, the other entries are unchanged from base,
      and the counter stands before term m. */
  predicate TermState(t1: Table, t2: Table, v: Variable, i: nat, cur: seq<nat>, base: seq<real>, vals: seq<real>,
                      acc: real, m: nat, c: seq<nat>, j: int, k: int)
  {
    AtTerm(t1, t2, v, cur, m, c, j, k)
    && i < SizeOf(MarginalScope(t1, t2, v)) && cur == Config(i, MarginalScope(t1, t2, v))
    && i < |base| && acc == PartialSum(t1, t2, v, i, m) && vals == base[i := acc]
  }

  /** Adding term m into entry i and stepping the counter gives the state
      before term m+1. */
  lemma TermNext(t1: Table, t2: Table, v: Variable, i: nat, cur: seq<nat>, base: seq<real>, vals: seq<real>,
                 acc: real, m: nat, c: seq<nat>, j: int, k: int, c': seq<nat>, j': int, k': int)
    requires TermState(t1, t2, v, i, cur, base, vals, acc, m, c, j, k) && m < v.card
    requires 0 <= j < |t1.values| && 0 <= k < |t2.values|
    requires c' == Incr(c, JointScope(t1, t2, v))
    requires j' == Aligned(t1.domain, JointScope(t1, t2, v), c')
    requires k' == Aligned(t2.domain, JointScope(t1, t2, v), c')
    ensures TermState(t1, t2, v, i, cur, base, vals[i := acc + Mul(t1.values[j], t2.values[k])],
                      acc + Mul(t1.values[j], t2.values[k]), m + 1, c', j', k')
  {
    var acc' := acc + Mul(t1.values[j], t2.values[k]);
    TermValue(t1, t2, v, i, cur, m, c, j, k);
    assert acc' == PartialSum(t1, t2, v, i, m + 1);
    TermAdvance(t1, t2, v, cur, m, c, j, k, c', j', k');
    UpdateTwice(base, i, acc, acc');
  }

  /** Writing entry i twice keeps only the second write. */
  lemma UpdateTwice(s: seq<real>, i: nat, x: real, y: real)
    requires i < |s|
    ensures s[i := x][i := y] == s[i := y]
  {
  }

  /** Before the first term, entry i holds the default value of a new factor. */
  lemma TermStart(t1: Table, t2: Table, v: Variable, i: nat, cur: seq<nat>, base: seq<real>, c: seq<nat>, j: int, k: int)
    requires AtTerm(t1, t2, v, cur, 0, c, j, k)
    requires i < SizeOf(MarginalScope(t1, t2, v)) && cur == Config(i, MarginalScope(t1, t2, v))
    requires i < |base| && base[i] == DefaultValue
    ensures TermState(t1, t2, v, i, cur, base, base, base[i], 0, c, j, k)
  {
    assert base == base[i := base[i]];
  }

  /** One round of the inner loop of `sum_product`: add f1[j] * f2[k] into
      entry i and step the counter. */
  method AddTerm(t1: Table, t2: Table, v: Variable, res: Factor, e: seq<Variable>, i: nat, ghost cur: seq<nat>,
                 ghost base: seq<real>, acc0: real, m: nat, c0: seq<nat>, j0: int, k0: int)
    returns (acc: real, c: seq<nat>, j: int, k: int)
    requires TermState(t1, t2, v, i, cur, base, res.values, acc0, m, c0, j0, k0) && m < v.card
    requires e == JointScope(t1, t2, v)
    modifies res
    ensures TermState(t1, t2, v, i, cur, base, res.values, acc, m + 1, c, j, k)
  {
    TermValue(t1, t2, v, i, cur, m, c0, j0, k0);
    acc := acc0 + Mul(t1.values[j0], t2.values[k0]);
    ghost var before := res.values;
    var ok := res.Set(i, acc);
    assert res.values == before[i := acc];
    c, j, k := Advance(t1.domain, t2.domain, e, c0, j0, k0);
    TermNext(t1, t2, v, i, cur, base, before, acc0, m, c0, j0, k0, c, j, k);
  }

  /** The inner loop of `sum_product` for result entry i: for each state m of
      var, add f1[j] * f2[k] into entry i and step the counter. The running
      value of entry i is also kept in acc, so that the entry is read back from
      a local rather than from the factor. */
  method AddTerms(t1: Table, t2: Table, v: Variable, res: Factor, e: seq<Variable>, i: nat, ghost cur: seq<nat>,
                  c0: seq<nat>, j0: int, k0: int)
    returns (c: seq<nat>, j: int, k: int)
    requires AtTerm(t1, t2, v, cur, 0, c0, j0, k0) && e == JointScope(t1, t2, v)
    requires i < SizeOf(MarginalScope(t1, t2, v)) && cur == Config(i, MarginalScope(t1, t2, v))
    requires i < |res.values| && res.values[i] == DefaultValue
    modifies res
    ensures res.values == old(res.values)[i := PartialSum(t1, t2, v, i, v.card)]
    ensures AtTerm(t1, t2, v, cur, v.card, c, j, k)
  {
    c, j, k := c0, j0, k0;
    var m := 0;
    var acc := res.values[i];
    ghost var base := res.values;
    TermStart(t1, t2, v, i, cur, base, c, j, k);
    while m < v.card
      invariant m <= v.card && TermState(t1, t2, v, i, cur, base, res.values, acc, m, c, j, k)
    {
      acc, c, j, k := AddTerm(t1, t2, v, res, e, i, cur, base, acc, m, c, j, k);
      m := m + 1;
    }
  }

  /** The state of `sum_product` before result entry i: the entries before i
      hold their full sums, the rest still hold the default value, and the
      counter stands before the first term of entry i. */
  predicate FillState(t1: Table, t2: Table, v: Variable, r: seq<Variable>, vals: seq<real>, i: nat,
                      c: seq<nat>, j: int, k: int)
  {
    CompatibleWith(t1, t2, v) && r == MarginalScope(t1, t2, v) && |vals| == SizeOf(r) && i <= |vals|
    && (forall t :: 0 <= t < i ==> vals[t] == PartialSum(t1, t2, v, t, v.card))
    && (forall t :: i <= t < |vals| ==> vals[t] == DefaultValue)
    && (i < |vals| ==> AtTerm(t1, t2, v, Config(i, r), 0, c, j, k))
  }

  /** Storing entry i's full sum and moving the counter on gives the state
      before entry i+1. */
  lemma FillStep(t1: Table, t2: Table, v: Variable, r: seq<Variable>, vals: seq<real>, vals': seq<real>, i: nat,
                 c: seq<nat>, j: int, k: int, c': seq<nat>, j': int, k': int)
    requires FillState(t1, t2, v, r, vals, i, c, j, k) && i < |vals|
    requires vals' == vals[i := PartialSum(t1, t2, v, i, v.card)]
    requires AtTerm(t1, t2, v, Config(i, r), v.card, c', j', k')
    ensures FillState(t1, t2, v, r, vals', i + 1, c', j', k')
  {
    if i + 1 < |vals| {
      NextEntry(t1, t2, v, i, c', j', k');
    }
  }

  /** One round of the outer loop of `sum_product`: result entry i collects
      its terms. */
  method FillEntry(t1: Table, t2: Table, v: Variable, res: Factor, r: seq<Variable>, e: seq<Variable>, i: nat,
                   c0: seq<nat>, j0: int, k0: int)
    returns (c: seq<nat>, j: int, k: int)
    requires FillState(t1, t2, v, r, res.values, i, c0, j0, k0) && i < |res.values| && e == [v] + r
    modifies res
    ensures FillState(t1, t2, v, r, res.values, i + 1, c, j, k)
  {
    ghost var before := res.values;
    c, j, k := AddTerms(t1, t2, v, res, e, i, Config(i, r), c0, j0, k0);
    FillStep(t1, t2, v, r, before, res.values, i, c0, j0, k0, c, j, k);
  }

  /** The outer loop of `sum_product`: entry by entry, in position order, the
      counter visits each entry's card(var) terms. */
  method FillSums(t1: Table, t2: Table, v: Variable, res: Factor, r: seq<Variable>, e: seq<Variable>)
    requires CompatibleWith(t1, t2, v) && r == MarginalScope(t1, t2, v) && e == [v] + r
    requires res.values == Filled(SizeOf(r), DefaultValue)
    modifies res
    ensures res.values == SumProductTable(t1, t2, v).values
  {
    var i := 0;
    var j: int, k: int := 0, 0;
    var c := Zeros(|e|);
    SumProductStart(t1, t2, v, r, e, c);
    while i < |res.values|
      invariant FillState(t1, t2, v, r, res.values, i, c, j, k)
    {
      c, j, k := FillEntry(t1, t2, v, res, r, e, i, c, j, k);
      i := i + 1;
    }
    SumProductValues(t1, t2, v, res.values);
  }

  /** `sum_product(f1, f2, var)`: the counter c walks var's digit c[0] innermost
      and the result's digits c[1..] outside it, so each result entry collects
      its card(var) terms in turn. */
  method SumProduct(f1: Factor, f2: Factor, v: Variable, ids: InstanceCounter) returns (res: Factor)
    requires CompatibleWith(f1.Val(), f2.Val(), v)
    modifies ids
    ensures fresh(res) && ids.count == old(ids.count) + 1
    ensures res.Val() == SumProductTable(f1.Val(), f2.Val(), v)
  {
    res := new Factor.UnionWithout(f1, f2, v, ids);
    SumProductShape(f1.Val(), f2.Val(), v);
    var r := res.domain.scope;
    FillSums(f1.Val(), f2.Val(), v, res, r, [v] + r);
  }
}

/** Domains: an ordered scope with mixed-radix offsets (include/domain.h, src/domain.cpp). */
module Domains {
  import opened Wrappers
  import opened Variables
  import opened Radix

  /** `_scope`, `_size`, `_offset` and `_var_to_index` (variable id to scope index). */
  datatype Domain = Domain(scope: seq<Variable>, size: nat, offsets: seq<nat>, index: map<nat, nat>)

  /** The id-to-index map the constructor fills: a later entry for the same id wins. */
  function IndexMap(s: seq<Variable>): (m: map<nat, nat>)
    ensures m.Keys == Ids(s)
    ensures forall x :: x in m ==> m[x] < |s| && s[m[x]].id == x
  {
    if s == [] then map[]
    else
      var m' := IndexMap(s[..|s| - 1]);
      assert Ids(s) == Ids(s[..|s| - 1]) + {s[|s| - 1].id} by {
        assert forall i :: 0 <= i < |s| - 1 ==> s[..|s| - 1][i] == s[i];
      }
      m'[s[|s| - 1].id := |s| - 1]
  }

  /** The domain that `Domain(scope)` constructs. */
  function Build(s: seq<Variable>): (d: Domain)
    ensures d.scope == s && |d.offsets| == |s|
  {
    Domain(s, SizeOf(s), Offsets(s), IndexMap(s))
  }

  /** A domain whose size, offsets and index agree with its scope. */
  predicate Valid(d: Domain)
  {
    d == Build(d.scope)
  }

  /** `Domain()`: the empty domain. */
  function Empty(): (d: Domain)
    ensures Valid(d) && Width(d) == 0 && d.size == 1
  {
    Domain([], 1, [], map[])
  }

  function Width(d: Domain): nat { |d.scope| }

  // ------------------------------------------------------------- accessors

  /** `size_of_var(i)`. */
  function SizeOfVar(d: Domain, i: nat): (r: Result<nat>)
    ensures r.Ok? <==> i < Width(d)
    ensures r.Ok? ==> r.value == d.scope[i].card
    ensures r.Err? ==> r.error == IndexOutOfRange
  {
    if i < |d.scope| then Ok(d.scope[i].card) else Err(IndexOutOfRange)
  }

  /** `in_scope(v)`: the lookup is by id in the index map. */
  function InScope(d: Domain, v: Variable): (r: bool)
    ensures Valid(d) ==> (r <==> v.id in Ids(d.scope))
  {
    v.id in d.index
  }

  /** `offset(i)`. */
  function OffsetAt(d: Domain, i: nat): (r: Result<nat>)
    ensures r.Ok? <==> i < Width(d)
    ensures Valid(d) && r.Ok? ==> r.value == SizeOf(d.scope[..i])
    ensures r.Err? ==> r.error == IndexOutOfRange
  {
    if i < |d.scope| && i < |d.offsets| then Ok(d.offsets[i])
    else if i < |d.scope| then Ok(0)
    else Err(IndexOutOfRange)
  }

  /** `offset(v)`: zero when v is not in scope. */
  function OffsetOf(d: Domain, v: Variable): (r: nat)
    ensures Valid(d) && v.id !in Ids(d.scope) ==> r == 0
  {
    if v.id in d.index && d.index[v.id] < |d.offsets| then d.offsets[d.index[v.id]] else 0
  }

  /** `var_at(i)`: the C++ code does no bounds check, so the caller must stay in range. */
  function VarAt(d: Domain, i: nat): (v: Variable)
    requires i < Width(d)
    ensures v == d.scope[i] && v in Elems(d.scope)
  {
    d.scope[i]
  }

  /** `operator[](i)`: the bounds-checked version of `var_at`. */
  function At(d: Domain, i: nat): (r: Result<Variable>)
    ensures r.Ok? <==> i < Width(d)
    ensures r.Ok? ==> r.value == VarAt(d, i)
    ensures r.Err? ==> r.error == IndexOutOfRange
  {
    if i < |d.scope| then Ok(d.scope[i]) else Err(IndexOutOfRange)
  }

  /** For a scope without repeated ids, the map sends the id at index i back to i. */
  lemma {:induction false} IndexMapDupFree(s: seq<Variable>, i: nat)
    requires DupFree(s) && i < |s|
    ensures IndexMap(s)[s[i].id] == i
  {
    var j := IndexMap(s)[s[i].id];
    assert s[j].id == s[i].id;
  }

  /** `offset(v)` on a built domain: the offset at v's scope index when v is in scope. */
  lemma OffsetOfInScope(s: seq<Variable>, v: Variable, i: nat)
    requires DupFree(s) && i < |s| && s[i].id == v.id
    ensures OffsetOf(Build(s), v) == Offsets(s)[i] == SizeOf(s[..i])
  {
    IndexMapDupFree(s, i);
  }

  // ---------------------------------------------------------- construction

  /** `Domain(scope)`: one pass fills the offsets, multiplies up the size and
      records each variable's index. */
  method NewDomain(scope: seq<Variable>) returns (d: Domain)
    ensures d == Build(scope)
    ensures d.size == SizeOf(scope) && d.offsets == Offsets(scope) && d.index == IndexMap(scope)
  {
    var offsets: seq<nat> := seq(|scope|, _ => 0);
    var size: nat := 1;
    var index: map<nat, nat> := map[];
    for i := 0 to |scope|
      invariant |offsets| == |scope|
      invariant size == SizeOf(scope[..i])
      invariant offsets[..i] == Offsets(scope[..i])
      invariant index == IndexMap(scope[..i])
    {
      DomainStep(scope, i, offsets, size, index);
      offsets := offsets[i := size];
      size := size * scope[i].card;
      index := index[scope[i].id := i];
    }
    assert scope[..|scope|] == scope;
    d := Domain(scope, size, offsets, index);
  }

  /** One round of the constructor's loop extends all three tables by scope[i]. */
  lemma DomainStep(scope: seq<Variable>, i: nat, offsets: seq<nat>, size: nat, index: map<nat, nat>)
    requires i < |scope| == |offsets| && size == SizeOf(scope[..i])
    requires offsets[..i] == Offsets(scope[..i]) && index == IndexMap(scope[..i])
    ensures size * scope[i].card == SizeOf(scope[..i + 1])
    ensures offsets[i := size][..i + 1] == Offsets(scope[..i + 1])
    ensures index[scope[i].id := i] == IndexMap(scope[..i + 1])
  {
    assert scope[..i + 1] == scope[..i] + [scope[i]];
    OffsetsSnoc(scope[..i], scope[i]);
    assert offsets[i := size][..i + 1] == offsets[..i] + [size];
    assert scope[..i + 1][..i] == scope[..i];
  }

  /** `position(configuration)`: sum of digit times offset. The C++ code reads a
      C array, so it must hold at least `width` digits; digits are not range-checked. */
  method Position(d: Domain, configuration: seq<nat>) returns (pos: nat)
    requires Valid(d) && |configuration| >= Width(d)
    ensures pos == Pos(configuration[..Width(d)], d.scope)
  {
    pos := 0;
    var n := |d.scope|;
    for i := 0 to n
      invariant pos == Dot(configuration[..i], d.offsets[..i])
    {
      assert configuration[..i + 1] == configuration[..i] + [configuration[i]];
      assert d.offsets[..i + 1] == d.offsets[..i] + [d.offsets[i]];
      DotSnoc(configuration[..i], d.offsets[..i], configuration[i], d.offsets[i]);
      pos := pos + configuration[i] * d.offsets[i];
    }
    assert d.offsets[..n] == Offsets(d.scope);
  }

  // ------------------------------------------------------------------ union

  /** Entries of s whose id is not in `ids`, in s's order. */
  function FilterOut(s: seq<Variable>, ids: set<nat>): (r: seq<Variable>)
    ensures |r| <= |s|
  {
    if s == [] then []
    else FilterOut(s[..|s| - 1], ids) + (if s[|s| - 1].id in ids then [] else [s[|s| - 1]])
  }

  /** Scope of `union_of(d1, d2)`: d1's scope, then d2's variables not in d1. */
  function UnionScope(s1: seq<Variable>, s2: seq<Variable>): seq<Variable>
  {
    s1 + FilterOut(s2, Ids(s1))
  }

  /** Scope of `union_of(d1, d2, v)`: the same union with v left out. */
  function UnionScopeWithout(s1: seq<Variable>, s2: seq<Variable>, v: Variable): seq<Variable>
  {
    FilterOut(s1, {v.id}) + FilterOut(s2, {v.id} + Ids(s1))
  }

  lemma {:induction false} FilterOutSnoc(s: seq<Variable>, ids: set<nat>)
    requires s != []
    ensures s == s[..|s| - 1] + [s[|s| - 1]]
    ensures Elems(s) == Elems(s[..|s| - 1]) + {s[|s| - 1]}
    ensures Ids(s) == Ids(s[..|s| - 1]) + {s[|s| - 1].id}
    ensures s[|s| - 1].id in ids ==> FilterOut(s, ids) == FilterOut(s[..|s| - 1], ids)
    ensures s[|s| - 1].id !in ids ==> FilterOut(s, ids) == FilterOut(s[..|s| - 1], ids) + [s[|s| - 1]]
  {
    var n := |s|;
    assert s == s[..n - 1] + [s[n - 1]];
    IdsAppend(s[..n - 1], [s[n - 1]]);
    assert Elems([s[n - 1]]) == {s[n - 1]} && Ids([s[n - 1]]) == {s[n - 1].id};
  }

  /** One more element of s considered by a filtering loop. */
  lemma FilterOutPrefix(s: seq<Variable>, t: nat, ids: set<nat>)
    requires t < |s|
    ensures FilterOut(s[..t + 1], ids) == FilterOut(s[..t], ids) + (if s[t].id in ids then [] else [s[t]])
  {
    assert s[..t + 1][..t] == s[..t];
  }

  lemma {:induction false} FilterOutElems(s: seq<Variable>, ids: set<nat>)
    ensures Elems(FilterOut(s, ids)) == set x | x in Elems(s) && x.id !in ids
    decreases |s|
  {
    if s != [] {
      var n := |s|;
      FilterOutSnoc(s, ids);
      FilterOutElems(s[..n - 1], ids);
      var r' := FilterOut(s[..n - 1], ids);
      IdsAppend(r', [s[n - 1]]);
      assert Elems([s[n - 1]]) == {s[n - 1]};
    }
  }

  lemma {:induction false} FilterOutIds(s: seq<Variable>, ids: set<nat>)
    ensures Ids(FilterOut(s, ids)) == Ids(s) - ids
    decreases |s|
  {
    if s != [] {
      var n := |s|;
      FilterOutSnoc(s, ids);
      FilterOutIds(s[..n - 1], ids);
      var r' := FilterOut(s[..n - 1], ids);
      IdsAppend(r', [s[n - 1]]);
      assert Ids([s[n - 1]]) == {s[n - 1].id};
    }
  }

  lemma DupFreeSnoc(s: seq<Variable>, v: Variable)
    ensures DupFree(s + [v]) <==> DupFree(s) && v.id !in Ids(s)
  {
    var sv := s + [v];
    if DupFree(sv) {
      forall i, j | 0 <= i < j < |s| ensures s[i].id != s[j].id {
        assert sv[i] == s[i] && sv[j] == s[j];
      }
      forall i | 0 <= i < |s| ensures s[i].id != v.id {
        assert sv[i] == s[i] && sv[|s|] == v;
      }
    }
    if DupFree(s) && v.id !in Ids(s) {
      forall i, j | 0 <= i < j < |sv| ensures sv[i].id != sv[j].id {
        assert sv[i] == s[i];
        if j < |s| { assert sv[j] == s[j]; }
      }
    }
  }

  lemma {:induction false} FilterOutDupFree(s: seq<Variable>, ids: set<nat>)
    requires DupFree(s)
    ensures DupFree(FilterOut(s, ids))
    decreases |s|
  {
    if s != [] {
      var n := |s|;
      FilterOutSnoc(s, ids);
      DupFreeSnoc(s[..n - 1], s[n - 1]);
      FilterOutDupFree(s[..n - 1], ids);
      FilterOutIds(s[..n - 1], ids);
      DupFreeSnoc(FilterOut(s[..n - 1], ids), s[n - 1]);
    }
  }

  /** Filtering out ids the scope does not use leaves it as it is. */
  lemma {:induction false} FilterOutDisjoint(s: seq<Variable>, ids: set<nat>)
    requires Ids(s) !! ids
    ensures FilterOut(s, ids) == s
    decreases |s|
  {
    if s != [] {
      var n := |s|;
      assert s == s[..n - 1] + [s[n - 1]];
      IdsAppend(s[..n - 1], [s[n - 1]]);
      assert s[n - 1].id in Ids(s);
      FilterOutDisjoint(s[..n - 1], ids);
    }
  }

  lemma FilterOutMembers(s: seq<Variable>, ids: set<nat>)
    ensures Elems(FilterOut(s, ids)) == set x | x in Elems(s) && x.id !in ids
    ensures Ids(FilterOut(s, ids)) == Ids(s) - ids
    ensures DupFree(s) ==> DupFree(FilterOut(s, ids))
  {
    FilterOutElems(s, ids);
    FilterOutIds(s, ids);
    if DupFree(s) {
      FilterOutDupFree(s, ids);
    }
  }

  lemma IdsAppend(a: seq<Variable>, b: seq<Variable>)
    ensures Ids(a + b) == Ids(a) + Ids(b)
    ensures Elems(a + b) == Elems(a) + Elems(b)
  {
    var ab := a + b;
    forall x | x in Ids(a + b) ensures x in Ids(a) + Ids(b) {
      var i :| 0 <= i < |ab| && ab[i].id == x;
      if i < |a| { assert ab[i] == a[i]; } else { assert ab[i] == b[i - |a|]; }
    }
    forall x | x in Ids(a) + Ids(b) ensures x in Ids(a + b) {
      if x in Ids(a) {
        var i :| 0 <= i < |a| && a[i].id == x;
        assert ab[i] == a[i];
      } else {
        var i :| 0 <= i < |b| && b[i].id == x;
        assert ab[|a| + i] == b[i];
      }
    }
    forall x | x in Elems(a + b) ensures x in Elems(a) + Elems(b) {
      var i :| 0 <= i < |ab| && ab[i] == x;
      if i < |a| { assert ab[i] == a[i]; } else { assert ab[i] == b[i - |a|]; }
    }
    forall x | x in Elems(a) + Elems(b) ensures x in Elems(a + b) {
      if x in Elems(a) {
        var i :| 0 <= i < |a| && a[i] == x;
        assert ab[i] == a[i];
      } else {
        var i :| 0 <= i < |b| && b[i] == x;
        assert ab[|a| + i] == b[i];
      }
    }
  }

  lemma DupFreeAppend(a: seq<Variable>, b: seq<Variable>)
    requires DupFree(a) && DupFree(b) && Ids(a) !! Ids(b)
    ensures DupFree(a + b)
  {
    var ab := a + b;
    forall i, j | 0 <= i < j < |ab| ensures ab[i].id != ab[j].id {
      if j < |a| {
        assert ab[i] == a[i] && ab[j] == a[j];
      } else if i >= |a| {
        assert ab[i] == b[i - |a|] && ab[j] == b[j - |a|];
      } else {
        assert ab[i] == a[i] && ab[j] == b[j - |a|];
        assert a[i].id in Ids(a) && b[j - |a|].id in Ids(b);
      }
    }
  }

  /** Every variable of either scope appears in the union exactly once, d1's
      part first and unchanged. */
  lemma UnionScopeProperties(s1: seq<Variable>, s2: seq<Variable>)
    requires DupFree(s1) && DupFree(s2)
    ensures UnionScope(s1, s2)[..|s1|] == s1
    ensures DupFree(UnionScope(s1, s2))
    ensures Ids(UnionScope(s1, s2)) == Ids(s1) + Ids(s2)
    ensures Elems(s1) <= Elems(UnionScope(s1, s2))
    ensures Elems(UnionScope(s1, s2)) <= Elems(s1) + Elems(s2)
    ensures Consistent(Elems(s1) + Elems(s2)) ==> Elems(s2) <= Elems(UnionScope(s1, s2))
  {
    var f := FilterOut(s2, Ids(s1));
    FilterOutMembers(s2, Ids(s1));
    IdsAppend(s1, f);
    DupFreeAppend(s1, f);
    assert (s1 + f)[..|s1|] == s1;
    if Consistent(Elems(s1) + Elems(s2)) {
      forall b | b in Elems(s2) ensures b in Elems(s1 + f) {
        if b.id in Ids(s1) {
          var i :| 0 <= i < |s1| && s1[i].id == b.id;
          assert s1[i] in Elems(s1);
        }
      }
    }
  }

  /** The union without v: v's id is gone and every other variable appears once. */
  lemma UnionScopeWithoutProperties(s1: seq<Variable>, s2: seq<Variable>, v: Variable)
    requires DupFree(s1) && DupFree(s2)
    ensures DupFree(UnionScopeWithout(s1, s2, v))
    ensures Ids(UnionScopeWithout(s1, s2, v)) == (Ids(s1) + Ids(s2)) - {v.id}
    ensures v.id !in Ids(UnionScopeWithout(s1, s2, v))
    ensures Elems(UnionScopeWithout(s1, s2, v)) <= Elems(s1) + Elems(s2)
    ensures Consistent(Elems(s1) + Elems(s2)) ==>
      forall x :: x in Elems(s1) + Elems(s2) && x.id != v.id ==> x in Elems(UnionScopeWithout(s1, s2, v))
  {
    var f1 := FilterOut(s1, {v.id});
    var f2 := FilterOut(s2, {v.id} + Ids(s1));
    FilterOutMembers(s1, {v.id});
    FilterOutMembers(s2, {v.id} + Ids(s1));
    IdsAppend(f1, f2);
    DupFreeAppend(f1, f2);
    if Consistent(Elems(s1) + Elems(s2)) {
      forall x | x in Elems(s1) + Elems(s2) && x.id != v.id
        ensures x in Elems(f1 + f2)
      {
      }
    }
  }

  /** `union_of(d1, d2)`. */
  method UnionOf(d1: Domain, d2: Domain) returns (d: Domain)
    requires Valid(d1)
    ensures d == Build(UnionScope(d1.scope, d2.scope))
  {
    var scope := d1.scope;
    var s2 := d2.scope;
    for t := 0 to |s2|
      invariant scope == d1.scope + FilterOut(s2[..t], Ids(d1.scope))
    {
      FilterOutPrefix(s2, t, Ids(d1.scope));
      if !InScope(d1, s2[t]) {
        scope := scope + [s2[t]];
      }
    }
    assert s2[..|s2|] == s2;
    d := NewDomain(scope);
  }

  /** The test of the second loop of `union_of(d1, d2, v)`: x is neither v nor in d1. */
  lemma KeepTest(d1: Domain, v: Variable, x: Variable)
    requires Valid(d1)
    ensures (Ne(x, v) && !InScope(d1, x)) <==> x.id !in {v.id} + Ids(d1.scope)
  {
  }

  /** `union_of(d1, d2, v)`. */
  method UnionOfWithout(d1: Domain, d2: Domain, v: Variable) returns (d: Domain)
    requires Valid(d1)
    ensures d == Build(UnionScopeWithout(d1.scope, d2.scope, v))
  {
    var s1, s2 := d1.scope, d2.scope;
    ghost var skip1, skip2 := {v.id}, {v.id} + Ids(s1);
    var scope := [];
    for t := 0 to |s1|
      invariant scope == FilterOut(s1[..t], skip1)
    {
      FilterOutPrefix(s1, t, skip1);
      if Ne(s1[t], v) {
        scope := scope + [s1[t]];
      }
    }
    assert s1[..|s1|] == s1;
    ghost var first := scope;
    for t := 0 to |s2|
      invariant scope == first + FilterOut(s2[..t], skip2)
    {
      FilterOutPrefix(s2, t, skip2);
      var keep := Ne(s2[t], v) && !InScope(d1, s2[t]);
      KeepTest(d1, v, s2[t]);
      if keep {
        scope := scope + [s2[t]];
      }
    }
    assert s2[..|s2|] == s2;
    d := NewDomain(scope);
  }
}

/** Categorical random variables (include/variable.h). */
module Variables {

  /** A variable is identified by its id; `card` is the number of states it takes. */
  datatype Variable = Variable(id: nat, card: nat)

  /** The static `_num_instances` counter that every constructor reads and increments.
      Variables and factors each have one. */
  class InstanceCounter {
    var count: nat

    constructor ()
      ensures count == 0
    {
      count := 0;
    }

    /** Hands out the current count and moves past it. */
    method Next() returns (id: nat)
      modifies this
      ensures id == old(count) && count == old(count) + 1
    {
      id := count;
      count := count + 1;
    }
  }

  /** `Variable(size)`: the new variable takes the counter's value as id. */
  method NewVariable(counter: InstanceCounter, size: nat) returns (v: Variable)
    modifies counter
    ensures v.id == old(counter.count) && v.card == size
    ensures counter.count == old(counter.count) + 1
  {
    var id := counter.Next();
    v := Variable(id, size);
  }

  /** `Variable()`: the dimensionless variable, with cardinality 0. */
  method NewDimensionless(counter: InstanceCounter) returns (v: Variable)
    modifies counter
    ensures v.id == old(counter.count) && v.card == 0
    ensures counter.count == old(counter.count) + 1
  {
    v := NewVariable(counter, 0);
  }

  // Comparison operators: all of them look at the id only.
  predicate Eq(a: Variable, b: Variable) { a.id == b.id }
  predicate Ne(a: Variable, b: Variable) { a.id != b.id }
  predicate Lt(a: Variable, b: Variable) { a.id < b.id }
  predicate Gt(a: Variable, b: Variable) { a.id > b.id }
  predicate Le(a: Variable, b: Variable) { a.id <= b.id }
  predicate Ge(a: Variable, b: Variable) { a.id >= b.id }

  /** `==` is an equivalence that ignores the cardinality, and `!=` is its negation. */
  lemma EqualityById(a: Variable, b: Variable, c: Variable)
    ensures Eq(a, a)
    ensures Eq(a, b) <==> Eq(b, a)
    ensures Eq(a, b) && Eq(b, c) ==> Eq(a, c)
    ensures Ne(a, b) <==> !Eq(a, b)
    ensures Eq(a, b) <==> a.id == b.id
  {
  }

  /** The four order operators form one total order on ids, consistent with `==`. */
  lemma TotalOrderById(a: Variable, b: Variable, c: Variable)
    ensures Lt(a, b) || Eq(a, b) || Gt(a, b)
    ensures !(Lt(a, b) && Eq(a, b)) && !(Lt(a, b) && Gt(a, b)) && !(Eq(a, b) && Gt(a, b))
    ensures Le(a, b) <==> Lt(a, b) || Eq(a, b)
    ensures Ge(a, b) <==> Le(b, a)
    ensures Gt(a, b) <==> Lt(b, a)
    ensures Lt(a, b) && Lt(b, c) ==> Lt(a, c)
    ensures Le(a, b) && Le(b, a) ==> Eq(a, b)
  {
  }

  /** Ids occurring in a scope. */
  function Ids(s: seq<Variable>): set<nat>
  {
    set i | 0 <= i < |s| :: s[i].id
  }

  /** No two scope entries share an id (the scope is a set of distinct variables). */
  predicate DupFree(s: seq<Variable>)
  {
    forall i, j :: 0 <= i < j < |s| ==> s[i].id != s[j].id
  }

  /** A collection of variables in which an id determines the variable: ids are
      unique per object, so two entries with the same id are the same variable. */
  predicate Consistent(vs: set<Variable>)
  {
    forall a, b :: a in vs && b in vs && a.id == b.id ==> a == b
  }

  function Elems(s: seq<Variable>): set<Variable>
  {
    set i | 0 <= i < |s| :: s[i]
  }
  /** Distinct ids in a scope make its set of variables consistent. */
  lemma DupFreeConsistent(s: seq<Variable>)
    requires DupFree(s)
    ensures Consistent(Elems(s))
  {
    forall a, b | a in Elems(s) && b in Elems(s) && a.id == b.id ensures a == b {
      var i :| 0 <= i < |s| && s[i] == a;
      var j :| 0 <= j < |s| && s[j] == b;
    }
  }
}

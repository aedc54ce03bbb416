/** The interaction graph of a factor list and its greedy min-fill elimination
    ordering (src/graph.cpp). A vertex is a variable id: the source keys its
    adjacency map by variable address, and a variable object is identified by
    its id. A factor is seen through its scope, a sequence of ids. */
module Graphs {

  type Adjacency = map<nat, set<nat>>

  // ------------------------------------------------------------ adjacency

  /** The neighbours of x; a vertex without an entry has none. */
  function Nbrs(adj: Adjacency, x: nat): set<nat>
  {
    if x in adj then adj[x] else {}
  }

  /** `_adj[a].insert(b)`: creates a's entry when there is none. */
  function Insert(adj: Adjacency, a: nat, b: nat): Adjacency
  {
    adj[a := Nbrs(adj, a) + {b}]
  }

  /** Both insertions the constructor makes for a pair of scope entries. */
  function Link(adj: Adjacency, a: nat, b: nat): Adjacency
  {
    Insert(Insert(adj, a, b), b, a)
  }

  /** Every edge is stored at both ends. */
  predicate Symmetric(adj: Adjacency)
  {
    forall x, y :: x in adj && y in adj[x] ==> y in adj && x in adj[y]
  }

  /** {x, y} is the pair {a, b}, in either order. */
  predicate Joined(a: nat, b: nat, x: nat, y: nat)
  {
    (a == x && b == y) || (a == y && b == x)
  }

  lemma NbrsLink(adj: Adjacency, a: nat, b: nat, x: nat, y: nat)
    ensures y in Nbrs(Link(adj, a, b), x) <==> y in Nbrs(adj, x) || Joined(a, b, x, y)
  {
  }

  // ------------------------------------------------------ the constructor

  /** The constructor's inner loop over scope s: pairs (i, j), (i, j+1), ...,
      (i, |s|-1). */
  function RowFrom(adj: Adjacency, s: seq<nat>, i: nat, j: nat): Adjacency
    requires i < |s|
    decreases |s| - j
  {
    if j >= |s| then adj else RowFrom(Link(adj, s[i], s[j]), s, i, j + 1)
  }

  /** The constructor's middle loop over scope s: rows i, i+1, ..., |s|-2. */
  function ScopeFrom(adj: Adjacency, s: seq<nat>, i: nat): Adjacency
    decreases |s| - i
  {
    if i + 1 >= |s| then adj else ScopeFrom(RowFrom(adj, s, i, i + 1), s, i + 1)
  }

  /** The constructor's outer loop from factor f on; a scope of width 0 is
      skipped. */
  function ScopesFrom(adj: Adjacency, ss: seq<seq<nat>>, f: nat): Adjacency
    decreases |ss| - f
  {
    if f >= |ss| then adj
    else ScopesFrom(if |ss[f]| == 0 then adj else ScopeFrom(adj, ss[f], 0), ss, f + 1)
  }

  lemma ScopesStep(adj: Adjacency, ss: seq<seq<nat>>, f: nat)
    requires f < |ss|
    ensures |ss[f]| == 0 ==> ScopesFrom(adj, ss, f) == ScopesFrom(adj, ss, f + 1)
    ensures |ss[f]| > 0 ==> ScopesFrom(adj, ss, f) == ScopesFrom(ScopeFrom(adj, ss[f], 0), ss, f + 1)
  {
  }

  lemma PairStep(adj: Adjacency, s: seq<nat>, i: nat, j: nat)
    requires i < j < |s|
    ensures RowFrom(adj, s, i, j) == RowFrom(Link(adj, s[i], s[j]), s, i, j + 1)
  {
  }

  lemma NextRow(adj: Adjacency, s: seq<nat>, i: nat)
    requires i + 1 < |s|
    ensures ScopeFrom(adj, s, i) == ScopeFrom(RowFrom(adj, s, i, i + 1), s, i + 1)
  {
  }

  lemma ScopeEnd(adj: Adjacency, s: seq<nat>, i: nat)
    requires |s| <= i + 1
    ensures ScopeFrom(adj, s, i) == adj
  {
  }

  /** The adjacency `Graph(factors)` builds. */
  function Interaction(ss: seq<seq<nat>>): Adjacency
  {
    ScopesFrom(map[], ss, 0)
  }

  /** x and y sit at two different positions of scope s. */
  predicate CoScoped(s: seq<nat>, x: nat, y: nat)
  {
    exists p, q :: 0 <= p < q < |s| && Joined(s[p], s[q], x, y)
  }

  /** x and y share the scope of some factor. */
  predicate Linked(ss: seq<seq<nat>>, x: nat, y: nat)
  {
    exists f :: 0 <= f < |ss| && CoScoped(ss[f], x, y)
  }

  /** Some pair (i, q) with j <= q is {x, y}. */
  predicate RowAhead(s: seq<nat>, i: nat, j: nat, x: nat, y: nat)
    requires i < |s|
  {
    exists q :: j <= q < |s| && Joined(s[i], s[q], x, y)
  }

  /** Some pair (p, q) with i <= p < q is {x, y}. */
  predicate PairsAhead(s: seq<nat>, i: nat, x: nat, y: nat)
  {
    exists p, q :: i <= p < q < |s| && Joined(s[p], s[q], x, y)
  }

  lemma {:induction false} RowFromEdges(adj: Adjacency, s: seq<nat>, i: nat, j: nat, x: nat, y: nat)
    requires i < |s|
    ensures y in Nbrs(RowFrom(adj, s, i, j), x) <==> y in Nbrs(adj, x) || RowAhead(s, i, j, x, y)
    decreases |s| - j
  {
    if j < |s| {
      RowFromEdges(Link(adj, s[i], s[j]), s, i, j + 1, x, y);
      NbrsLink(adj, s[i], s[j], x, y);
      if RowAhead(s, i, j, x, y) && !Joined(s[i], s[j], x, y) {
        var q :| j <= q < |s| && Joined(s[i], s[q], x, y);
        assert j + 1 <= q;
      }
    }
  }

  lemma {:induction false} ScopeFromEdges(adj: Adjacency, s: seq<nat>, i: nat, x: nat, y: nat)
    ensures y in Nbrs(ScopeFrom(adj, s, i), x) <==> y in Nbrs(adj, x) || PairsAhead(s, i, x, y)
    decreases |s| - i
  {
    if i + 1 < |s| {
      RowFromEdges(adj, s, i, i + 1, x, y);
      ScopeFromEdges(RowFrom(adj, s, i, i + 1), s, i + 1, x, y);
      if PairsAhead(s, i, x, y) {
        var p, q :| i <= p < q < |s| && Joined(s[p], s[q], x, y);
        if p == i {
          assert RowAhead(s, i, i + 1, x, y);
        } else {
          assert PairsAhead(s, i + 1, x, y);
        }
      }
      if RowAhead(s, i, i + 1, x, y) {
        var q :| i + 1 <= q < |s| && Joined(s[i], s[q], x, y);
        assert i <= i < q < |s|;
      }
    }
  }

  lemma {:induction false} ScopesFromEdges(adj: Adjacency, ss: seq<seq<nat>>, f: nat, x: nat, y: nat)
    ensures y in Nbrs(ScopesFrom(adj, ss, f), x) <==>
      y in Nbrs(adj, x) || exists g :: f <= g < |ss| && CoScoped(ss[g], x, y)
    decreases |ss| - f
  {
    if f < |ss| {
      var s := ss[f];
      var next := if |s| == 0 then adj else ScopeFrom(adj, s, 0);
      ScopesFromEdges(next, ss, f + 1, x, y);
      if |s| == 0 {
        assert !CoScoped(s, x, y);
      } else {
        ScopeFromEdges(adj, s, 0, x, y);
      }
      if exists g :: f <= g < |ss| && CoScoped(ss[g], x, y) {
        var g :| f <= g < |ss| && CoScoped(ss[g], x, y);
        assert g == f || f + 1 <= g;
      }
    }
  }

  /** y is a neighbour of x exactly when the two share some factor's scope:
      the constructor links every pair of positions of every scope, in both
      directions, and nothing else. */
  lemma InteractionEdges(ss: seq<seq<nat>>, x: nat, y: nat)
    ensures y in Nbrs(Interaction(ss), x) <==> Linked(ss, x, y)
  {
    ScopesFromEdges(map[], ss, 0, x, y);
  }

  /** The adjacency is symmetric. */
  lemma InteractionSymmetric(ss: seq<seq<nat>>)
    ensures Symmetric(Interaction(ss))
  {
    var adj := Interaction(ss);
    forall x, y | x in adj && y in adj[x] ensures y in adj && x in adj[y] {
      InteractionEdges(ss, x, y);
      InteractionEdges(ss, y, x);
      assert Joined(y, x, x, y) || !Joined(y, x, x, y);
      var f :| 0 <= f < |ss| && CoScoped(ss[f], x, y);
      var p, q :| 0 <= p < q < |ss[f]| && Joined(ss[f][p], ss[f][q], x, y);
      assert Joined(ss[f][p], ss[f][q], y, x);
    }
  }

  /** A factor of width 0 or 1 adds no edge: appending it leaves every
      neighbour set as it was. */
  lemma NarrowScopeAddsNothing(ss: seq<seq<nat>>, s: seq<nat>, x: nat)
    requires |s| <= 1
    ensures Nbrs(Interaction(ss + [s]), x) == Nbrs(Interaction(ss), x)
  {
    forall y ensures y in Nbrs(Interaction(ss + [s]), x) <==> y in Nbrs(Interaction(ss), x) {
      InteractionEdges(ss + [s], x, y);
      InteractionEdges(ss, x, y);
      assert !CoScoped(s, x, y);
      if Linked(ss + [s], x, y) {
        var f :| 0 <= f < |ss + [s]| && CoScoped((ss + [s])[f], x, y);
        assert f < |ss| && (ss + [s])[f] == ss[f];
      }
      if Linked(ss, x, y) {
        var f :| 0 <= f < |ss| && CoScoped(ss[f], x, y);
        assert (ss + [s])[f] == ss[f];
      }
    }
  }

  // ------------------------------------------------------------- fill-in

  /** (a, b) is a fill-in pair of x: both are unprocessed neighbours of x,
      a < b, and they are not adjacent. */
  predicate Missing(adj: Adjacency, processed: set<nat>, x: nat, a: nat, b: nat)
  {
    a in Nbrs(adj, x) && b in Nbrs(adj, x) && a !in processed && b !in processed
    && a < b && b !in Nbrs(adj, a)
  }

  function MissingPairs(adj: Adjacency, processed: set<nat>, x: nat, firsts: set<nat>, seconds: set<nat>): set<(nat, nat)>
  {
    set a, b | a in firsts && b in seconds && Missing(adj, processed, x, a, b) :: (a, b)
  }

  /** The number of edges eliminating x would add among its unprocessed
      neighbours. */
  function FillIn(adj: Adjacency, processed: set<nat>, x: nat): nat
  {
    |MissingPairs(adj, processed, x, Nbrs(adj, x), Nbrs(adj, x))|
  }

  /** The fill-in of each candidate, in candidate order. */
  function Fills(adj: Adjacency, processed: set<nat>, vars: seq<nat>): seq<nat>
    decreases |vars|
  {
    if vars == [] then [] else [FillIn(adj, processed, vars[0])] + Fills(adj, processed, vars[1..])
  }

  lemma {:induction false} FillsIndex(adj: Adjacency, processed: set<nat>, vars: seq<nat>)
    ensures |Fills(adj, processed, vars)| == |vars|
    ensures forall t :: 0 <= t < |vars| ==> Fills(adj, processed, vars)[t] == FillIn(adj, processed, vars[t])
    decreases |vars|
  {
    if vars != [] {
      FillsIndex(adj, processed, vars[1..]);
    }
  }

  lemma {:induction false} FillsLength(adj: Adjacency, processed: set<nat>, vars: seq<nat>)
    ensures |Fills(adj, processed, vars)| == |vars|
    decreases |vars|
  {
    if vars != [] {
      FillsLength(adj, processed, vars[1..]);
    }
  }

  lemma FillAt(adj: Adjacency, processed: set<nat>, vars: seq<nat>, t: nat)
    requires t < |vars|
    ensures |Fills(adj, processed, vars)| == |vars|
    ensures Fills(adj, processed, vars)[t] == FillIn(adj, processed, vars[t])
  {
    FillsIndex(adj, processed, vars);
  }

  /** `min_fill`'s scan over the candidates' fill-ins from i on, holding the
      best index so far and its fill-in (initially 0 and the bound). The
      comparison is strict, so a tie keeps the earlier candidate. */
  function Scan(fills: seq<nat>, i: nat, best: nat, bestFill: nat): nat
    decreases |fills| - i
  {
    if i >= |fills| then best
    else if fills[i] < bestFill then Scan(fills, i + 1, i, fills[i])
    else Scan(fills, i + 1, best, bestFill)
  }

  /** The candidate `min_fill` picks; the bound is the number of entries of the
      adjacency map when it starts. */
  function MinFillIndex(adj: Adjacency, processed: set<nat>, vars: seq<nat>): nat
  {
    Scan(Fills(adj, processed, vars), 0, 0, |adj|)
  }

  /** Some fill-in from position `from` on is below `bound`. */
  predicate SomeBelow(fills: seq<nat>, from: nat, bound: nat)
  {
    exists i :: from <= i < |fills| && fills[i] < bound
  }

  lemma {:induction false} ScanChoice(fills: seq<nat>, i: nat, best: nat, bestFill: nat)
    requires i <= |fills| && best <= i
    requires forall t :: 0 <= t < i ==> fills[t] >= bestFill
    requires forall t :: 0 <= t < best ==> fills[t] > bestFill
    ensures var r := Scan(fills, i, best, bestFill);
      if SomeBelow(fills, i, bestFill) then
        i <= r < |fills|
        && (forall t :: 0 <= t < |fills| ==> fills[r] <= fills[t])
        && (forall t :: 0 <= t < r ==> fills[r] < fills[t])
      else r == best
    decreases |fills| - i
  {
    if i < |fills| {
      if fills[i] < bestFill {
        ScanChoice(fills, i + 1, i, fills[i]);
        if !SomeBelow(fills, i + 1, fills[i]) {
          assert forall t :: i + 1 <= t < |fills| ==> fills[t] >= fills[i];
        }
      } else {
        ScanChoice(fills, i + 1, best, bestFill);
        if SomeBelow(fills, i, bestFill) {
          var t :| i <= t < |fills| && fills[t] < bestFill;
          assert t != i;
        }
      }
    }
  }

  /** `min_fill` returns the first candidate of least fill-in when that
      fill-in is below the bound (the map's number of entries), and 0
      otherwise; either way an index of vars when vars is not empty. */
  lemma MinFillChoice(adj: Adjacency, processed: set<nat>, vars: seq<nat>)
    ensures var r := MinFillIndex(adj, processed, vars);
      if exists t :: 0 <= t < |vars| && FillIn(adj, processed, vars[t]) < |adj| then
        r < |vars|
        && (forall t :: 0 <= t < |vars| ==> FillIn(adj, processed, vars[r]) <= FillIn(adj, processed, vars[t]))
        && (forall t :: 0 <= t < r ==> FillIn(adj, processed, vars[r]) < FillIn(adj, processed, vars[t]))
        && FillIn(adj, processed, vars[r]) < |adj|
      else r == 0
  {
    var fills := Fills(adj, processed, vars);
    FillsIndex(adj, processed, vars);
    ScanChoice(fills, 0, 0, |adj|);
    if exists t :: 0 <= t < |vars| && FillIn(adj, processed, vars[t]) < |adj| {
      var t :| 0 <= t < |vars| && FillIn(adj, processed, vars[t]) < |adj|;
      assert SomeBelow(fills, 0, |adj|);
    }
  }

  // ---------------------------------------------------- inserted entries

  /** `_adj[var]` for each candidate in turn: an empty entry for each one that
      has none. */
  function WithEntries(adj: Adjacency, xs: seq<nat>): (r: Adjacency)
    ensures r.Keys == adj.Keys + Members(xs)
  {
    if xs == [] then adj
    else
      MembersSnoc(xs);
      Entry(WithEntries(adj, xs[..|xs| - 1]), xs[|xs| - 1])
  }

  /** `_adj[var]`: an empty entry for x when it has none. */
  function Entry(adj: Adjacency, x: nat): Adjacency
  {
    if x in adj then adj else adj[x := {}]
  }

  lemma EntriesSnoc(adj: Adjacency, xs: seq<nat>, i: nat)
    requires i < |xs|
    ensures WithEntries(adj, xs[..i + 1]) == Entry(WithEntries(adj, xs[..i]), xs[i])
  {
    assert xs[..i + 1][..i] == xs[..i];
  }

  function Members(xs: seq<nat>): set<nat>
  {
    set x | x in xs
  }

  lemma MembersSnoc(xs: seq<nat>)
    requires xs != []
    ensures Members(xs) == Members(xs[..|xs| - 1]) + {xs[|xs| - 1]}
  {
    assert xs == xs[..|xs| - 1] + [xs[|xs| - 1]];
  }

  /** Inserting empty entries changes no neighbour set, so no fill-in, and keeps
      the adjacency symmetric. */
  lemma {:induction false} EntriesKeepNbrs(adj: Adjacency, xs: seq<nat>)
    ensures forall y :: Nbrs(WithEntries(adj, xs), y) == Nbrs(adj, y)
    ensures forall y :: y in adj ==> WithEntries(adj, xs)[y] == adj[y]
    ensures Symmetric(adj) ==> Symmetric(WithEntries(adj, xs))
  {
    if xs != [] {
      EntriesKeepNbrs(adj, xs[..|xs| - 1]);
    }
  }

  lemma EntryKeepsNbrs(adj: Adjacency, x: nat)
    ensures forall y :: Nbrs(Entry(adj, x), y) == Nbrs(adj, y)
    ensures Symmetric(adj) ==> Symmetric(Entry(adj, x))
  {
  }

  lemma EntriesSameFill(adj: Adjacency, xs: seq<nat>, processed: set<nat>, x: nat)
    ensures FillIn(WithEntries(adj, xs), processed, x) == FillIn(adj, processed, x)
  {
    EntriesKeepNbrs(adj, xs);
    SameNbrsSameFill(adj, WithEntries(adj, xs), processed, x);
  }

  lemma SameNbrsSameFill(adj: Adjacency, adj': Adjacency, processed: set<nat>, x: nat)
    requires forall y :: Nbrs(adj', y) == Nbrs(adj, y)
    ensures FillIn(adj', processed, x) == FillIn(adj, processed, x)
  {
    var n := Nbrs(adj, x);
    assert MissingPairs(adj', processed, x, n, n) == MissingPairs(adj, processed, x, n, n);
  }

  /** Once every candidate has an entry, inserting again changes nothing. */
  lemma {:induction false} EntriesAgain(adj: Adjacency, xs: seq<nat>, ys: seq<nat>)
    requires Members(ys) <= Members(xs)
    ensures WithEntries(WithEntries(adj, xs), ys) == WithEntries(adj, xs)
  {
    if ys != [] {
      MembersSnoc(ys);
      EntriesAgain(adj, xs, ys[..|ys| - 1]);
    }
  }

  // ------------------------------------------------------------ ordering

  /** The ordering `ordering(vars)` produces: the `min_fill` choice, then the
      rest with the choice marked processed and removed, on the adjacency
      with the candidates' entries inserted. */
  function Greedy(adj: Adjacency, vars: seq<nat>, processed: set<nat>): (order: seq<nat>)
    decreases |vars|
  {
    if |vars| == 0 then []
    else
      var m := MinFillIndex(adj, processed, vars);
      MinFillIndexInRange(adj, processed, vars);
      [vars[m]] + Greedy(WithEntries(adj, vars), vars[..m] + vars[m + 1..], processed + {vars[m]})
  }

  lemma GreedyStep(adj: Adjacency, vars: seq<nat>, processed: set<nat>)
    requires |vars| > 0
    ensures MinFillIndex(adj, processed, vars) < |vars|
    ensures var m := MinFillIndex(adj, processed, vars);
      Greedy(adj, vars, processed) ==
        [vars[m]] + Greedy(WithEntries(adj, vars), vars[..m] + vars[m + 1..], processed + {vars[m]})
  {
    MinFillIndexInRange(adj, processed, vars);
  }

  lemma MinFillIndexInRange(adj: Adjacency, processed: set<nat>, vars: seq<nat>)
    requires |vars| > 0
    ensures MinFillIndex(adj, processed, vars) < |vars|
  {
    MinFillChoice(adj, processed, vars);
  }

  /** The ordering is a permutation of its input: same length, and each input
      variable as often as it was given. */
  lemma {:induction false} GreedyPermutation(adj: Adjacency, vars: seq<nat>, processed: set<nat>)
    ensures multiset(Greedy(adj, vars, processed)) == multiset(vars)
    ensures |Greedy(adj, vars, processed)| == |vars|
    decreases |vars|
  {
    if |vars| > 0 {
      var m := MinFillIndex(adj, processed, vars);
      MinFillIndexInRange(adj, processed, vars);
      var rest := vars[..m] + vars[m + 1..];
      var tail := Greedy(WithEntries(adj, vars), rest, processed + {vars[m]});
      assert Greedy(adj, vars, processed) == [vars[m]] + tail;
      GreedyPermutation(WithEntries(adj, vars), rest, processed + {vars[m]});
      RemoveAt(vars, m);
    }
  }

  /** What `ordering` knows between rounds: the choices so far followed by
      the greedy choices from here make up the whole greedy ordering, and the
      adjacency holds an entry for every variable once a round has run. */
  predicate OrderState(target: seq<nat>, adj0: Adjacency, variables: seq<nat>, adj: Adjacency, vars: seq<nat>,
                       processed: set<nat>, order: seq<nat>)
  {
    && order + Greedy(adj, vars, processed) == target
    && Members(vars) <= Members(variables)
    && (order == [] ==> adj == adj0 && vars == variables)
    && (order != [] ==> adj == WithEntries(adj0, variables))
  }

  /** One round of `ordering` keeps OrderState. */
  lemma OrderNext(target: seq<nat>, adj0: Adjacency, variables: seq<nat>, adj: Adjacency, vars: seq<nat>,
                  processed: set<nat>, order: seq<nat>, m: nat)
    requires OrderState(target, adj0, variables, adj, vars, processed, order) && |vars| > 0
    requires m == MinFillIndex(adj, processed, vars)
    ensures m < |vars|
    ensures OrderState(target, adj0, variables, WithEntries(adj, vars), vars[..m] + vars[m + 1..],
                       processed + {vars[m]}, order + [vars[m]])
  {
    MinFillIndexInRange(adj, processed, vars);
    EntriesAgain(adj0, variables, vars);
    RemoveAt(vars, m);
    GreedyStep(adj, vars, processed);
    Assoc(order, vars[m], Greedy(WithEntries(adj, vars), vars[..m] + vars[m + 1..], processed + {vars[m]}));
  }

  lemma Assoc(a: seq<nat>, x: nat, b: seq<nat>)
    ensures a + ([x] + b) == (a + [x]) + b
  {
  }

  lemma RemoveAt(xs: seq<nat>, m: nat)
    requires m < |xs|
    ensures multiset(xs) == multiset{xs[m]} + multiset(xs[..m] + xs[m + 1..])
    ensures |xs[..m] + xs[m + 1..]| == |xs| - 1
    ensures Members(xs[..m] + xs[m + 1..]) <= Members(xs)
  {
    assert xs == xs[..m] + [xs[m]] + xs[m + 1..];
  }

  // --------------------------------------------------------------- Graph

  class Graph {
    var adj: Adjacency

    predicate Valid()
      reads this
    {
      Symmetric(adj)
    }

    /** `Graph(factors)`: for every scope and every pair of its positions
        i < j, insert each entry in the other's neighbour set. */
    constructor (scopes: seq<seq<nat>>)
      ensures adj == Interaction(scopes) && Valid()
    {
      var g: Adjacency := map[];
      var f := 0;
      while f < |scopes|
        invariant f <= |scopes| && ScopesFrom(g, scopes, f) == Interaction(scopes)
      {
        var s := scopes[f];
        ScopesStep(g, scopes, f);
        if |s| != 0 {
          g := LinkScope(g, s);
        }
        f := f + 1;
      }
      adj := g;
      InteractionSymmetric(scopes);
    }

    /** The fill-in of x, counted by the two loops over its neighbour set
        `neighboors`. The loops visit the set in some order; the count does
        not depend on it. */
    method CountFill(x: nat, processed: set<nat>) returns (fill: nat)
      requires Valid()
      ensures fill == FillIn(adj, processed, x)
    {
      var nb := Nbrs(adj, x);
      fill := 0;
      var todo1 := nb;
      while todo1 != {}
        invariant todo1 <= nb
        invariant fill == |MissingPairs(adj, processed, x, nb - todo1, nb)|
        decreases |todo1|
      {
        var v1 :| v1 in todo1;
        RowsStep(adj, processed, x, nb, todo1, v1);
        if v1 !in processed {
          var row := CountRow(x, processed, v1);
          fill := fill + row;
        }
        todo1 := todo1 - {v1};
      }
      assert nb - {} == nb;
    }

    /** The inner loop for neighbour v1: the unprocessed neighbours v2 above
        v1 that are not adjacent to it. v1 has an entry (the adjacency is
        symmetric), so `_adj[v1]` inserts nothing. */
    method CountRow(x: nat, processed: set<nat>, v1: nat) returns (row: nat)
      requires Valid() && v1 in Nbrs(adj, x) && v1 !in processed
      ensures row == |MissingPairs(adj, processed, x, {v1}, Nbrs(adj, x))|
    {
      var nb := Nbrs(adj, x);
      assert v1 in adj;
      row := 0;
      var todo2 := nb;
      while todo2 != {}
        invariant todo2 <= nb
        invariant row == |MissingPairs(adj, processed, x, {v1}, nb - todo2)|
        decreases |todo2|
      {
        var v2 :| v2 in todo2;
        RowStep(adj, processed, x, v1, nb, todo2, v2);
        if !(v2 in processed || v1 >= v2) {
          if v2 !in adj[v1] {
            row := row + 1;
          }
        }
        todo2 := todo2 - {v2};
      }
      assert nb - {} == nb;
    }

    /** `min_fill(vars, processed)`: the scan over the candidates, inserting an
        empty entry for each candidate that has none. */
    method MinFill(vars: seq<nat>, processed: set<nat>) returns (minIndex: nat)
      requires Valid()
      modifies this
      ensures Valid() && adj == WithEntries(old(adj), vars)
      ensures minIndex == MinFillIndex(old(adj), processed, vars)
    {
      ghost var adj0 := adj;
      ghost var fills := Fills(adj0, processed, vars);
      FillsLength(adj0, processed, vars);
      ghost var target := MinFillIndex(adj0, processed, vars);
      minIndex := 0;
      var minFill: nat := |adj|;
      var nvars := |vars|;
      var i := 0;
      while i < nvars
        invariant i <= nvars && adj == WithEntries(adj0, vars[..i]) && Valid()
        invariant Scan(fills, i, minIndex, minFill) == target
      {
        var x := vars[i];
        EntriesSameFill(adj0, vars[..i], processed, x);
        var fill := Probe(x, processed);
        EntriesSnoc(adj0, vars, i);
        FillAt(adj0, processed, vars, i);
        if fill < minFill {
          minIndex := i;
          minFill := fill;
        }
        i := i + 1;
      }
      assert vars[..nvars] == vars;
    }

    /** One candidate of `min_fill`: give it an entry, then count its fill-in. */
    method Probe(x: nat, processed: set<nat>) returns (fill: nat)
      requires Valid()
      modifies this
      ensures Valid() && adj == Entry(old(adj), x)
      ensures fill == FillIn(old(adj), processed, x)
    {
      ghost var a := adj;
      adj := Entry(adj, x);
      EntryKeepsNbrs(a, x);
      fill := CountFill(x, processed);
      SameNbrsSameFill(a, adj, processed, x);
    }

    /** `ordering(variables)`: repeatedly take the `min_fill` choice, append
        it, mark it processed and remove it from the candidates. */
    method Ordering(variables: seq<nat>) returns (order: seq<nat>)
      requires Valid()
      modifies this
      ensures Valid() && adj == WithEntries(old(adj), variables)
      ensures order == Greedy(old(adj), variables, {})
    {
      ghost var adj0 := adj;
      ghost var target := Greedy(adj0, variables, {});
      var vars := variables;
      order := [];
      var processed: set<nat> := {};
      while |vars| > 0
        invariant Valid() && OrderState(target, adj0, variables, adj, vars, processed, order)
        decreases |vars|
      {
        vars, processed, order := OrderRound(target, adj0, variables, vars, processed, order);
      }
    }

    /** One round of `ordering`: take the `min_fill` choice, append it, mark
        it processed and drop it from the candidates. */
    method OrderRound(ghost target: seq<nat>, ghost adj0: Adjacency, ghost variables: seq<nat>,
                      vars: seq<nat>, processed: set<nat>, order: seq<nat>)
      returns (vars': seq<nat>, processed': set<nat>, order': seq<nat>)
      requires Valid() && OrderState(target, adj0, variables, adj, vars, processed, order) && |vars| > 0
      modifies this
      ensures Valid() && OrderState(target, adj0, variables, adj, vars', processed', order')
      ensures |vars'| < |vars|
    {
      ghost var adjBefore := adj;
      var m := MinFill(vars, processed);
      OrderNext(target, adj0, variables, adjBefore, vars, processed, order, m);
      var next := vars[m];
      order' := order + [next];
      processed' := processed + {next};
      vars' := vars[..m] + vars[m + 1..];
    }
  }

  /** The constructor's loop over i for one non-empty scope. */
  method LinkScope(g0: Adjacency, s: seq<nat>) returns (g: Adjacency)
    requires |s| > 0
    ensures g == ScopeFrom(g0, s, 0)
  {
    g := g0;
    var width := |s|;
    var i := 0;
    while i < width - 1
      invariant i <= width - 1
      invariant ScopeFrom(g, s, i) == ScopeFrom(g0, s, 0)
    {
      NextRow(g, s, i);
      g := LinkRow(g, s, i);
      i := i + 1;
    }
    ScopeEnd(g, s, i);
  }

  /** The constructor's loop over j for row i: `_adj[v1].insert(v2)` and
      `_adj[v2].insert(v1)` for v1 = s[i], v2 = s[j]. */
  method LinkRow(g0: Adjacency, s: seq<nat>, i: nat) returns (g: Adjacency)
    requires i < |s|
    ensures g == RowFrom(g0, s, i, i + 1)
  {
    g := g0;
    var j := i + 1;
    while j < |s|
      invariant i < j <= |s| || j == i + 1
      invariant RowFrom(g, s, i, j) == RowFrom(g0, s, i, i + 1)
    {
      var v1, v2 := s[i], s[j];
      PairStep(g, s, i, j);
      g := Insert(g, v1, v2);
      g := Insert(g, v2, v1);
      j := j + 1;
    }
  }

  /** The inner loop's step: v2 joins the row of v1 when (v1, v2) is missing. */
  lemma RowStep(adj: Adjacency, processed: set<nat>, x: nat, v1: nat, nb: set<nat>, todo: set<nat>, v2: nat)
    requires v1 in Nbrs(adj, x) && v2 in todo && v1 !in processed
    ensures |MissingPairs(adj, processed, x, {v1}, nb - (todo - {v2}))| ==
      |MissingPairs(adj, processed, x, {v1}, nb - todo)|
      + (if v2 in nb && !(v2 in processed || v1 >= v2) && v2 !in Nbrs(adj, v1) && v2 in Nbrs(adj, x) then 1 else 0)
  {
    var row := MissingPairs(adj, processed, x, {v1}, nb - todo);
    assert nb - (todo - {v2}) == (nb - todo) + (if v2 in nb then {v2} else {});
    if v2 in nb && Missing(adj, processed, x, v1, v2) {
      assert MissingPairs(adj, processed, x, {v1}, nb - (todo - {v2})) == row + {(v1, v2)};
    } else {
      assert MissingPairs(adj, processed, x, {v1}, nb - (todo - {v2})) == row;
    }
  }

  /** The outer loop's step: v1's row joins the pairs counted so far. */
  lemma RowsStep(adj: Adjacency, processed: set<nat>, x: nat, nb: set<nat>, todo: set<nat>, v1: nat)
    requires v1 in todo && todo <= nb
    ensures |MissingPairs(adj, processed, x, nb - (todo - {v1}), nb)| ==
      |MissingPairs(adj, processed, x, nb - todo, nb)|
      + (if v1 in processed then 0 else |MissingPairs(adj, processed, x, {v1}, nb)|)
  {
    var a := MissingPairs(adj, processed, x, nb - todo, nb);
    var b := MissingPairs(adj, processed, x, {v1}, nb);
    assert nb - (todo - {v1}) == (nb - todo) + {v1};
    assert MissingPairs(adj, processed, x, nb - (todo - {v1}), nb) == a + b;
    assert a * b == {};
    if v1 in processed {
      assert b == {};
    }
  }
}

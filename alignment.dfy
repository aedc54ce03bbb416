/** Aligned positions: where a configuration of a wider scope lands in a domain
    that covers part of it. `offset(v)` is zero for a variable outside the
    domain, so that variable's digit does not move the position. */
module Alignment {
  import opened Variables
  import opened Radix
  import opened Domains

  /** Offset of the variable with id x in a built domain over s (0 when absent). */
  function StrideOf(s: seq<Variable>, x: nat): nat
  {
    if s == [] then 0
    else if s[|s| - 1].id == x then SizeOf(s[..|s| - 1])
    else StrideOf(s[..|s| - 1], x)
  }

  /** `d.offset(E[l])` for every position l of a scope E. */
  function Weights(d: Domain, e: seq<Variable>): (w: seq<nat>)
    ensures |w| == |e|
  {
    seq(|e|, l requires 0 <= l < |e| => OffsetOf(d, e[l]))
  }

  /** Position in d of the configuration c over scope e: the running index that
      the product loops keep for an operand. */
  function Aligned(d: Domain, e: seq<Variable>, c: seq<nat>): nat
    requires |c| == |e|
  {
    Dot(c, Weights(d, e))
  }

  /** First position of id x in e. */
  function IndexOf(e: seq<Variable>, x: nat): (l: nat)
    requires x in Ids(e)
    ensures l < |e| && e[l].id == x
    ensures forall m :: 0 <= m < l ==> e[m].id != x
  {
    if e[0].id == x then 0
    else
      assert x in Ids(e[1..]) by {
        var i :| 0 <= i < |e| && e[i].id == x;
        assert e[1..][i - 1] == e[i];
      }
      1 + IndexOf(e[1..], x)
  }

  /** The configuration c over e restricted to the variables of s, in s's order. */
  function Restrict(c: seq<nat>, e: seq<Variable>, s: seq<Variable>): (r: seq<nat>)
    requires |c| == |e| && Ids(s) <= Ids(e)
    ensures |r| == |s|
  {
    seq(|s|, t requires 0 <= t < |s| => (assert s[t].id in Ids(s); c[IndexOf(e, s[t].id)]))
  }

  /** s's variables all occur in e, which repeats no id. */
  predicate Covers(e: seq<Variable>, s: seq<Variable>)
  {
    DupFree(e) && DupFree(s) && Elems(s) <= Elems(e)
  }

  lemma {:induction false} OffsetOfBuild(s: seq<Variable>, v: Variable)
    ensures OffsetOf(Build(s), v) == StrideOf(s, v.id)
    decreases |s|
  {
    if s != [] {
      var n := |s|;
      var s' := s[..n - 1];
      OffsetOfBuild(s', v);
      assert s == s' + [s[n - 1]];
      OffsetsSnoc(s', s[n - 1]);
    }
  }

  lemma {:induction false} StrideOfAbsent(s: seq<Variable>, x: nat)
    requires x !in Ids(s)
    ensures StrideOf(s, x) == 0
    decreases |s|
  {
    if s != [] {
      var s' := s[..|s| - 1];
      assert Ids(s') <= Ids(s) by {
        forall y | y in Ids(s') ensures y in Ids(s) {
          var i :| 0 <= i < |s'| && s'[i].id == y;
          assert s[i] == s'[i];
        }
      }
      assert s[|s| - 1].id in Ids(s);
      StrideOfAbsent(s', x);
    }
  }

  lemma IdsOfElems(e: seq<Variable>, s: seq<Variable>)
    requires Elems(s) <= Elems(e)
    ensures Ids(s) <= Ids(e)
  {
    forall x | x in Ids(s) ensures x in Ids(e) {
      var t :| 0 <= t < |s| && s[t].id == x;
      assert s[t] in Elems(s);
      var l :| 0 <= l < |e| && e[l] == s[t];
    }
  }

  /** In a scope without repeated ids, the entry found by id is the variable itself. */
  lemma IndexOfElem(e: seq<Variable>, v: Variable)
    requires DupFree(e) && v in Elems(e)
    ensures v.id in Ids(e) && e[IndexOf(e, v.id)] == v
  {
    var l :| 0 <= l < |e| && e[l] == v;
    assert v.id in Ids(e);
    var k := IndexOf(e, v.id);
    assert !(k < l) && !(l < k);
  }

  lemma RestrictValid(s: seq<Variable>, e: seq<Variable>, c: seq<nat>)
    requires Covers(e, s) && ValidConfig(c, e)
    ensures Ids(s) <= Ids(e)
    ensures ValidConfig(Restrict(c, e, s), s)
  {
    IdsOfElems(e, s);
    var r := Restrict(c, e, s);
    forall t | 0 <= t < |s| ensures r[t] < s[t].card {
      assert s[t] in Elems(s);
      IndexOfElem(e, s[t]);
    }
  }

  /** Adding u at the end of s sets u's slot of the weights to u's offset. */
  lemma WeightsSnoc(s': seq<Variable>, u: Variable, e: seq<Variable>)
    requires DupFree(e) && DupFree(s' + [u]) && u in Elems(e)
    ensures u.id in Ids(e)
    ensures Weights(Build(s' + [u]), e) == Weights(Build(s'), e)[IndexOf(e, u.id) := SizeOf(s')]
    ensures Weights(Build(s'), e)[IndexOf(e, u.id)] == 0
  {
    var s := s' + [u];
    IndexOfElem(e, u);
    var lu := IndexOf(e, u.id);
    var w', w := Weights(Build(s'), e), Weights(Build(s), e);
    assert s[..|s'|] == s' && s[|s'|] == u;
    forall l | 0 <= l < |e| ensures w[l] == w'[lu := SizeOf(s')][l] {
      OffsetOfBuild(s, e[l]);
      OffsetOfBuild(s', e[l]);
      if l != lu {
        assert e[l].id != u.id by {
          if l < lu { assert e[l].id != e[lu].id; } else { assert e[lu].id != e[l].id; }
        }
      }
    }
    DupFreeSnoc(s', u);
    OffsetOfBuild(s', u);
    StrideOfAbsent(s', u.id);
  }

  lemma RestrictSnoc(c: seq<nat>, e: seq<Variable>, s': seq<Variable>, u: Variable)
    requires |c| == |e| && Ids(s' + [u]) <= Ids(e)
    ensures Ids(s') <= Ids(e) && u.id in Ids(e)
    ensures Restrict(c, e, s' + [u]) == Restrict(c, e, s') + [c[IndexOf(e, u.id)]]
  {
    IdsAppend(s', [u]);
    assert [u][0] == u;
    assert Ids([u]) == {u.id};
    var r := Restrict(c, e, s' + [u]);
    assert forall t :: 0 <= t < |s'| ==> (s' + [u])[t] == s'[t];
  }

  /** The running index of an operand equals the position, in the operand's own
      domain, of the configuration restricted to the operand's scope; that
      restriction is a valid configuration there, so the index is in range. */
  lemma {:induction false} AlignedIsPosition(s: seq<Variable>, e: seq<Variable>, c: seq<nat>)
    requires Covers(e, s) && ValidConfig(c, e)
    ensures Ids(s) <= Ids(e)
    ensures ValidConfig(Restrict(c, e, s), s)
    ensures Aligned(Build(s), e, c) == Pos(Restrict(c, e, s), s)
    ensures Aligned(Build(s), e, c) < SizeOf(s)
    decreases |s|
  {
    RestrictValid(s, e, c);
    if s == [] {
      DotZeroWeights(c, Weights(Build(s), e));
    } else {
      var n := |s|;
      var s', u := s[..n - 1], s[n - 1];
      assert s == s' + [u];
      IdsAppend(s', [u]);
      DupFreeSnoc(s', u);
      assert Covers(e, s');
      AlignedIsPosition(s', e, c);
      assert u in Elems(s);
      WeightsSnoc(s', u, e);
      var lu := IndexOf(e, u.id);
      var w', r' := Weights(Build(s'), e), Restrict(c, e, s');
      DotUpdateWeight(c, w', lu, SizeOf(s'));
      RestrictSnoc(c, e, s', u);
      PosSnoc(r', s', c[lu], u);
      SnocStep(Dot(c, w'[lu := SizeOf(s')]), Dot(c, w'), Pos(r' + [c[lu]], s' + [u]), Pos(r', s'),
               c[lu], w'[lu], SizeOf(s'));
    }
    PosBound(Restrict(c, e, s), s);
  }

  /** The arithmetic of one AlignedIsPosition step: the new digit enters both
      sides with the same weight. */
  lemma SnocStep(a: int, a': int, p: int, p': int, x: int, w0: int, z: int)
    requires a == a' - x * w0 + x * z && w0 == 0 && a' == p' && p == p' + x * z
    ensures a == p
  {
  }

  /** Every scope digit is weighted by its own offset when a domain is aligned
      with its own scope, so the aligned index is the plain position. */
  lemma AlignedSelf(s: seq<Variable>, c: seq<nat>)
    requires DupFree(s) && |c| == |s|
    ensures Aligned(Build(s), s, c) == Pos(c, s)
  {
    forall l | 0 <= l < |s| ensures Weights(Build(s), s)[l] == Offsets(s)[l] {
      OffsetOfInScope(s, s[l], l);
    }
    assert Weights(Build(s), s) == Offsets(s);
  }

  /** A domain that shares no variable with e stays at position 0. */
  lemma AlignedDisjoint(s: seq<Variable>, e: seq<Variable>, c: seq<nat>)
    requires |c| == |e| && Ids(s) !! Ids(e)
    ensures Aligned(Build(s), e, c) == 0
  {
    forall l | 0 <= l < |e| ensures Weights(Build(s), e)[l] == 0 {
      assert e[l].id in Ids(e);
    }
    DotZeroWeights(c, Weights(Build(s), e));
  }
  /** Changing digit l of the configuration moves the aligned index by the
      digit difference times the offset, in d, of e's l-th variable. */
  lemma AlignedStep(d: Domain, e: seq<Variable>, c: seq<nat>, l: nat, x: nat)
    requires |c| == |e| && l < |e|
    ensures Aligned(d, e, c[l := x]) == Aligned(d, e, c) - c[l] * OffsetOf(d, e[l]) + x * OffsetOf(d, e[l])
  {
    DotUpdate(c, Weights(d, e), l, x);
  }
  /** A digit that wraps from card-1 back to 0 takes (card-1) offsets off the index. */
  lemma AlignedReset(d: Domain, e: seq<Variable>, c: seq<nat>, l: nat)
    requires |c| == |e| && l < |e| && c[l] + 1 == e[l].card
    ensures Aligned(d, e, c[l := 0]) == Aligned(d, e, c) - (e[l].card - 1) * OffsetOf(d, e[l])
  {
    AlignedStep(d, e, c, l, 0);
  }

  /** A digit that steps up by one adds one offset to the index. */
  lemma AlignedBump(d: Domain, e: seq<Variable>, c: seq<nat>, l: nat)
    requires |c| == |e| && l < |e|
    ensures Aligned(d, e, c[l := c[l] + 1]) == Aligned(d, e, c) + OffsetOf(d, e[l])
  {
    AlignedStep(d, e, c, l, c[l] + 1);
    assert (c[l] + 1) * OffsetOf(d, e[l]) == c[l] * OffsetOf(d, e[l]) + OffsetOf(d, e[l]);
  }
}

/** Mixed-radix addressing over a scope: the first scope variable varies fastest.
    These are the arithmetic facts behind src/domain.cpp and src/operations.cpp. */
module Radix {
  import opened Variables

  /** Number of configurations of a scope: the product of its cardinalities. */
  function SizeOf(s: seq<Variable>): nat
  {
    if s == [] then 1 else SizeOf(s[..|s| - 1]) * s[|s| - 1].card
  }

  /** Offset (stride) of each scope position: the size of the prefix before it. */
  function Offsets(s: seq<Variable>): (o: seq<nat>)
    ensures |o| == |s|
  {
    seq(|s|, i requires 0 <= i < |s| => SizeOf(s[..i]))
  }

  /** Sum of c[i] * w[i], accumulated from the left as the position loop does. */
  function Dot(c: seq<nat>, w: seq<nat>): nat
    requires |c| == |w|
  {
    if c == [] then 0 else Dot(c[..|c| - 1], w[..|w| - 1]) + c[|c| - 1] * w[|w| - 1]
  }

  /** A configuration assigns each scope variable one of its states. */
  predicate ValidConfig(c: seq<nat>, s: seq<Variable>)
  {
    |c| == |s| && forall i :: 0 <= i < |c| ==> c[i] < s[i].card
  }

  /** Linear position of a configuration. */
  function Pos(c: seq<nat>, s: seq<Variable>): nat
    requires |c| == |s|
  {
    Dot(c, Offsets(s))
  }

  /** The configuration stored at position p (the inverse of Pos). */
  function Config(p: nat, s: seq<Variable>): (c: seq<nat>)
    ensures |c| == |s|
    decreases |s|
  {
    if s == [] then []
    else if s[0].card == 0 then [0] + Config(0, s[1..])
    else [p % s[0].card] + Config(p / s[0].card, s[1..])
  }

  /** One odometer step: increment the first digit, carrying into the next
      digit each time a digit reaches its variable's cardinality. */
  function Incr(c: seq<nat>, s: seq<Variable>): (r: seq<nat>)
    requires |c| == |s|
    ensures |r| == |c|
  {
    if c == [] then []
    else if c[0] + 1 == s[0].card then [0] + Incr(c[1..], s[1..])
    else [c[0] + 1] + c[1..]
  }

  /** The odometer step continued from digit l, as the carry loop runs it:
      digits before l are already final. */
  function IncrFrom(c: seq<nat>, s: seq<Variable>, l: nat): (r: seq<nat>)
    requires |c| == |s| && l <= |s|
    ensures |r| == |c|
    decreases |s| - l
  {
    if l == |s| then c
    else if c[l] + 1 == s[l].card then IncrFrom(c[l := 0], s, l + 1)
    else c[l := c[l] + 1]
  }

  function Zeros(n: nat): (z: seq<nat>)
    ensures |z| == n && forall i :: 0 <= i < n ==> z[i] == 0
  {
    seq(n, i => 0)
  }

  // ---------------------------------------------------------------- arithmetic

  lemma DivModUnique(p: int, a: int, q: int, r: int)
    requires 0 < a && 0 <= r < a && p == q * a + r
    ensures p / a == q && p % a == r
  {
    var q', r' := p / a, p % a;
    assert (q - q') * a == r' - r;
    MulAway(q - q', a);
  }

  lemma MulAway(x: int, a: int)
    requires 0 < a
    ensures x > 0 ==> x * a >= a
    ensures x < 0 ==> x * a <= -a
  {
  }

  lemma MulMonotone(a: nat, x: nat, y: nat)
    requires x <= y
    ensures a * x <= a * y
  {
  }

  /** Cancelling a positive factor from a strict inequality. */
  lemma MulCancelLt(q: nat, n: nat, a: nat)
    ensures 0 < a && q * a < n * a ==> q < n
  {
    if q >= n {
      MulMonotone(a, n, q);
    }
  }

  // ------------------------------------------------------------------- sizes

  lemma {:induction false} SizeOfCons(s: seq<Variable>)
    requires |s| > 0
    ensures SizeOf(s) == s[0].card * SizeOf(s[1..])
    decreases |s|
  {
    if |s| == 1 {
      assert s[..0] == [] && s[1..] == [];
    } else {
      var n := |s|;
      SizeOfCons(s[..n - 1]);
      assert s[..n - 1][1..] == s[1..][..n - 2];
      assert s[..n - 1][0] == s[0];
      assert s[1..][n - 2] == s[n - 1];
      calc {
        SizeOf(s);
        SizeOf(s[..n - 1]) * s[n - 1].card;
        s[0].card * SizeOf(s[1..][..n - 2]) * s[n - 1].card;
        s[0].card * SizeOf(s[1..]);
      }
    }
  }

  lemma SizeOfSnoc(s: seq<Variable>, v: Variable)
    ensures SizeOf(s + [v]) == SizeOf(s) * v.card
  {
    assert (s + [v])[..|s|] == s;
  }

  /** A scope has a configuration exactly when every cardinality is positive. */
  lemma {:induction false} SizeOfPositive(s: seq<Variable>)
    ensures SizeOf(s) > 0 <==> forall i :: 0 <= i < |s| ==> s[i].card > 0
    decreases |s|
  {
    if |s| > 0 {
      SizeOfCons(s);
      SizeOfPositive(s[1..]);
      assert forall i :: 1 <= i < |s| ==> s[i] == s[1..][i - 1];
      if SizeOf(s) > 0 {
        assert s[0].card > 0 && SizeOf(s[1..]) > 0;
      }
    }
  }

  lemma OffsetsSnoc(s: seq<Variable>, v: Variable)
    ensures Offsets(s + [v]) == Offsets(s) + [SizeOf(s)]
  {
    var o := Offsets(s + [v]);
    assert (s + [v])[..|s|] == s;
    forall i | 0 <= i < |s|
      ensures o[i] == Offsets(s)[i]
    {
      assert (s + [v])[..i] == s[..i];
    }
  }

  lemma OffsetsPrefix(s: seq<Variable>, n: nat)
    requires n <= |s|
    ensures Offsets(s)[..n] == Offsets(s[..n])
  {
    forall i | 0 <= i < n
      ensures Offsets(s)[i] == Offsets(s[..n])[i]
    {
      assert s[..n][..i] == s[..i];
    }
  }

  /** The constructor's recurrence: offset 0 is 1 and each offset is the previous
      one times the previous variable's cardinality. */
  lemma OffsetsRecurrence(s: seq<Variable>)
    ensures |s| > 0 ==> Offsets(s)[0] == 1
    ensures forall i :: 0 <= i < |s| - 1 ==> Offsets(s)[i + 1] == Offsets(s)[i] * s[i].card
  {
    if |s| > 0 {
      assert s[..0] == [];
    }
    forall i | 0 <= i < |s| - 1
      ensures Offsets(s)[i + 1] == Offsets(s)[i] * s[i].card
    {
      assert s[..i + 1][..i] == s[..i];
    }
  }

  // --------------------------------------------------------------------- dot

  lemma DotSnoc(c: seq<nat>, w: seq<nat>, x: nat, y: nat)
    requires |c| == |w|
    ensures Dot(c + [x], w + [y]) == Dot(c, w) + x * y
  {
    assert (c + [x])[..|c|] == c;
    assert (w + [y])[..|w|] == w;
  }

  /** Changing one digit changes the sum by that digit's weighted difference. */
  lemma {:induction false} DotUpdate(c: seq<nat>, w: seq<nat>, l: nat, x: nat)
    requires |c| == |w| && l < |c|
    ensures Dot(c[l := x], w) == Dot(c, w) - c[l] * w[l] + x * w[l]
    decreases |c|
  {
    var n := |c|;
    if l == n - 1 {
      assert c[l := x][..n - 1] == c[..n - 1];
    } else {
      DotUpdate(c[..n - 1], w[..n - 1], l, x);
      assert c[l := x][..n - 1] == c[..n - 1][l := x];
    }
  }

  lemma {:induction false} DotUpdateWeight(c: seq<nat>, w: seq<nat>, l: nat, y: nat)
    requires |c| == |w| && l < |c|
    ensures Dot(c, w[l := y]) == Dot(c, w) - c[l] * w[l] + c[l] * y
    decreases |c|
  {
    var n := |c|;
    if l == n - 1 {
      assert w[l := y][..n - 1] == w[..n - 1];
    } else {
      DotUpdateWeight(c[..n - 1], w[..n - 1], l, y);
      assert w[l := y][..n - 1] == w[..n - 1][l := y];
    }
  }

  lemma {:induction false} DotZeroWeights(c: seq<nat>, w: seq<nat>)
    requires |c| == |w| && forall i :: 0 <= i < |w| ==> w[i] == 0
    ensures Dot(c, w) == 0
    decreases |c|
  {
    if c != [] {
      DotZeroWeights(c[..|c| - 1], w[..|w| - 1]);
    }
  }

  lemma PosSnoc(c: seq<nat>, s: seq<Variable>, x: nat, v: Variable)
    requires |c| == |s|
    ensures Pos(c + [x], s + [v]) == Pos(c, s) + x * SizeOf(s)
  {
    OffsetsSnoc(s, v);
    DotSnoc(c, Offsets(s), x, SizeOf(s));
  }

  /** Horner form of the position: the first digit plus its cardinality times
      the position of the remaining digits. */
  lemma {:induction false} PosCons(c: seq<nat>, s: seq<Variable>)
    requires |c| == |s| > 0
    ensures Pos(c, s) == c[0] + s[0].card * Pos(c[1..], s[1..])
    decreases |s|
  {
    var n := |s|;
    if n == 1 {
      PosSingle(c, s);
    } else {
      PosCons(c[..n - 1], s[..n - 1]);
      PosConsSnoc(c, s);
    }
  }

  /** A single digit is its own position. */
  lemma PosSingle(c: seq<nat>, s: seq<Variable>)
    requires |c| == |s| == 1
    ensures Pos(c, s) == c[0] && Pos(c[1..], s[1..]) == 0
  {
    assert Offsets(s) == [] + [1] by { assert s[..0] == []; }
    assert c == [] + [c[0]];
    DotSnoc([], [], c[0], 1);
  }

  /** The inductive step of PosCons: the split of all but the last digit
      extends to the last digit. */
  lemma PosConsSnoc(c: seq<nat>, s: seq<Variable>)
    requires |c| == |s| > 1
    requires Pos(c[..|s| - 1], s[..|s| - 1]) ==
      c[0] + s[0].card * Pos(c[..|s| - 1][1..], s[..|s| - 1][1..])
    ensures Pos(c, s) == c[0] + s[0].card * Pos(c[1..], s[1..])
  {
    var n := |s|;
    var c', s' := c[..n - 1], s[..n - 1];
    PosDropLast(c, s);
    PosDropLast(c[1..], s[1..]);
    assert c[1..][..n - 2] == c'[1..] && s[1..][..n - 2] == s'[1..];
    assert c[1..][n - 2] == c[n - 1];
    SizeOfCons(s');
    assert c'[0] == c[0] && s'[0] == s[0];
    Horner(Pos(c, s), Pos(c', s'), Pos(c[1..], s[1..]), Pos(c'[1..], s'[1..]),
           c[0], s[0].card, c[n - 1], SizeOf(s'), SizeOf(s'[1..]));
  }

  /** The last digit enters the position with the size of the scope before it. */
  lemma PosDropLast(c: seq<nat>, s: seq<Variable>)
    requires |c| == |s| > 0
    ensures Pos(c, s) == Pos(c[..|s| - 1], s[..|s| - 1]) + c[|s| - 1] * SizeOf(s[..|s| - 1])
  {
    var n := |s|;
    assert c == c[..n - 1] + [c[n - 1]] && s == s[..n - 1] + [s[n - 1]];
    PosSnoc(c[..n - 1], s[..n - 1], c[n - 1], s[n - 1]);
  }

  /** The distributive step behind PosCons: appending a last digit x of
      weight a * z commutes with the Horner split of the first digit. */
  lemma Horner(p: int, p': int, q: int, q': int, c0: int, a: int, x: int, w: int, z: int)
    requires p == p' + x * w && p' == c0 + a * q' && q == q' + x * z && w == a * z
    ensures p == c0 + a * q
  {
    assert a * (q' + x * z) == a * q' + a * (x * z);
    assert a * (x * z) == x * (a * z);
  }

  // --------------------------------------------------------- the bijection

  /** Every valid configuration lands inside [0, size). */
  lemma {:induction false} PosBound(c: seq<nat>, s: seq<Variable>)
    requires ValidConfig(c, s)
    ensures Pos(c, s) < SizeOf(s)
    decreases |s|
  {
    if s == [] {
    } else {
      PosCons(c, s);
      SizeOfCons(s);
      assert ValidConfig(c[1..], s[1..]) by {
        forall i | 0 <= i < |c| - 1 ensures c[1..][i] < s[1..][i].card {
          assert c[1..][i] == c[i + 1] && s[1..][i] == s[i + 1];
        }
      }
      PosBound(c[1..], s[1..]);
      var a, p' := s[0].card, Pos(c[1..], s[1..]);
      MulMonotone(a, p', SizeOf(s[1..]) - 1);
      assert a * (SizeOf(s[1..]) - 1) == a * SizeOf(s[1..]) - a;
    }
  }

  /** Decoding a position in range gives a valid configuration at that position. */
  lemma {:induction false} ConfigPos(p: nat, s: seq<Variable>)
    requires p < SizeOf(s)
    ensures ValidConfig(Config(p, s), s)
    ensures Pos(Config(p, s), s) == p
    decreases |s|
  {
    if s == [] {
    } else {
      SizeOfCons(s);
      var a := s[0].card;
      DivBound(p, a, SizeOf(s[1..]));
      var q, r := p / a, p % a;
      ConfigPos(q, s[1..]);
      var c := Config(p, s);
      assert c == [r] + Config(q, s[1..]);
      assert c[1..] == Config(q, s[1..]);
      PosCons(c, s);
      ValidConfigCons(r, Config(q, s[1..]), s[0], s[1..]);
      assert [s[0]] + s[1..] == s;
    }
  }

  /** Splitting a position below a * n into its quotient and remainder by a. */
  lemma DivBound(p: nat, a: nat, n: nat)
    requires p < a * n
    ensures 0 < a && p / a < n && p % a < a && p == p % a + a * (p / a)
  {
    MulCancelLt(p / a, n, a);
  }

  /** Encoding a valid configuration and decoding it again gives it back, so
      distinct configurations have distinct positions. */
  lemma {:induction false} PosConfig(c: seq<nat>, s: seq<Variable>)
    requires ValidConfig(c, s)
    ensures Config(Pos(c, s), s) == c
    decreases |s|
  {
    if s == [] {
    } else {
      PosCons(c, s);
      var a := s[0].card;
      var p' := Pos(c[1..], s[1..]);
      DivModUnique(Pos(c, s), a, p', c[0]);
      assert ValidConfig(c[1..], s[1..]) by {
        forall i | 0 <= i < |c| - 1 ensures c[1..][i] < s[1..][i].card {
          assert c[1..][i] == c[i + 1] && s[1..][i] == s[i + 1];
        }
      }
      PosConfig(c[1..], s[1..]);
      assert c == [c[0]] + c[1..];
    }
  }

  lemma PosInjective(c: seq<nat>, d: seq<nat>, s: seq<Variable>)
    requires ValidConfig(c, s) && ValidConfig(d, s)
    requires Pos(c, s) == Pos(d, s)
    ensures c == d
  {
    PosConfig(c, s);
    PosConfig(d, s);
  }

  /** The decoded configuration of p+1 is one odometer step from that of p. */
  lemma {:induction false} IncrConfig(p: nat, s: seq<Variable>)
    requires p + 1 < SizeOf(s)
    ensures Incr(Config(p, s), s) == Config(p + 1, s)
    decreases |s|
  {
    SizeOfCons(s);
    var a, s' := s[0].card, s[1..];
    var q, r := p / a, p % a;
    if r + 1 == a {
      IncrCarry(p, a, s');
      MulCancelLt(q + 1, SizeOf(s'), a);
      IncrConfig(q, s');
      IncrCarryUnfold(p, s);
    } else {
      IncrNoCarry(p, s);
    }
  }

  lemma IncrCarry(p: nat, a: nat, s': seq<Variable>)
    requires 0 < a && p % a + 1 == a
    ensures (p + 1) / a == p / a + 1 && (p + 1) % a == 0
    ensures (p / a + 1) * a == p + 1
  {
    DivModUnique(p + 1, a, p / a + 1, 0);
  }

  lemma IncrCarryUnfold(p: nat, s: seq<Variable>)
    requires |s| > 0 && s[0].card > 0 && p % s[0].card + 1 == s[0].card
    requires (p + 1) / s[0].card == p / s[0].card + 1 && (p + 1) % s[0].card == 0
    requires Incr(Config(p / s[0].card, s[1..]), s[1..]) == Config(p / s[0].card + 1, s[1..])
    ensures Incr(Config(p, s), s) == Config(p + 1, s)
  {
    var c := Config(p, s);
    assert c[0] == p % s[0].card && c[1..] == Config(p / s[0].card, s[1..]);
  }

  lemma IncrNoCarry(p: nat, s: seq<Variable>)
    requires |s| > 0 && s[0].card > 0 && p % s[0].card + 1 != s[0].card
    ensures Incr(Config(p, s), s) == Config(p + 1, s)
  {
    var a := s[0].card;
    DivModUnique(p + 1, a, p / a, p % a + 1);
    var c := Config(p, s);
    assert c[0] == p % a && c[1..] == Config(p / a, s[1..]);
  }

  /** Position of a configuration whose first digit is prepended. */
  lemma ConfigCons(i: nat, m: nat, v: Variable, s: seq<Variable>)
    requires m < v.card
    ensures Config(i * v.card + m, [v] + s) == [m] + Config(i, s)
  {
    DivModUnique(i * v.card + m, v.card, i, m);
    assert ([v] + s)[1..] == s;
  }
  /** The all-zero configuration is stored first. */
  lemma {:induction false} ConfigZero(s: seq<Variable>)
    ensures Config(0, s) == Zeros(|s|)
    decreases |s|
  {
    if s != [] {
      ConfigZero(s[1..]);
    }
  }

  lemma ZerosCons(n: nat)
    ensures Zeros(n + 1) == [0] + Zeros(n)
  {
    assert Zeros(n + 1) == [0] + Zeros(n);
  }

  lemma {:induction false} DotZeros(c: seq<nat>, w: seq<nat>)
    requires |c| == |w| && forall i :: 0 <= i < |c| ==> c[i] == 0
    ensures Dot(c, w) == 0
    decreases |c|
  {
    if c != [] {
      DotZeros(c[..|c| - 1], w[..|w| - 1]);
    }
  }

  /** One pass of the carry loop at digit l: a digit that reaches its cardinality
      is reset and the step moves on to digit l+1; otherwise the step ends there. */
  lemma IncrStep(c: seq<nat>, s: seq<Variable>, l: nat)
    requires |c| == |s| && l < |c|
    ensures c[l] + 1 == s[l].card ==>
      c[..l] + Incr(c[l..], s[l..]) == c[l := 0][..l + 1] + Incr(c[l + 1..], s[l + 1..])
    ensures c[l] + 1 != s[l].card ==>
      c[..l] + Incr(c[l..], s[l..]) == c[l := c[l] + 1]
  {
    assert c[l..][1..] == c[l + 1..] && s[l..][1..] == s[l + 1..];
    assert c[l := 0][..l + 1] == c[..l] + [0];
    assert c[l := c[l] + 1] == c[..l] + [c[l] + 1] + c[l + 1..];
  }
  lemma ValidConfigCons(m: nat, c: seq<nat>, v: Variable, s: seq<Variable>)
    requires m < v.card && ValidConfig(c, s)
    ensures ValidConfig([m] + c, [v] + s)
  {
    forall t | 0 <= t < |c| + 1 ensures ([m] + c)[t] < ([v] + s)[t].card {
      if t > 0 {
        assert ([m] + c)[t] == c[t - 1] && ([v] + s)[t] == s[t - 1];
      }
    }
  }

  /** Continuing from digit l leaves the first l digits and steps the rest. */
  lemma {:induction false} IncrFromSplit(c: seq<nat>, s: seq<Variable>, l: nat)
    requires |c| == |s| && l <= |s|
    ensures IncrFrom(c, s, l) == c[..l] + Incr(c[l..], s[l..])
    decreases |s| - l
  {
    if l == |s| {
      assert c[..l] == c && c[l..] == [];
    } else {
      IncrStep(c, s, l);
      if c[l] + 1 == s[l].card {
        IncrFromSplit(c[l := 0], s, l + 1);
        assert c[l := 0][l + 1..] == c[l + 1..];
      }
    }
  }

  /** The carry loop started at digit 0 performs exactly one odometer step. */
  lemma IncrFromStart(c: seq<nat>, s: seq<Variable>)
    requires |c| == |s|
    ensures IncrFrom(c, s, 0) == Incr(c, s)
  {
    IncrFromSplit(c, s, 0);
    assert c[..0] == [] && c[0..] == c && s[0..] == s;
  }
}

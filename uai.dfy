/** Reading a model in the UAI inference-competition format (src/io.cpp). */
module Uai {
  import opened Wrappers
  import opened Variables
  import opened Radix
  import opened Domains
  import opened Factors
  import Inference

  /** A whitespace-separated word of the input as the stream extraction that
      reads it sees it: a word, an integer, a decimal number, or the end of a
      line (which only the comment skipping looks at). */
  datatype Token = Word(text: string) | Int(n: int) | Num(x: real) | Eol

  /** What a successful read produces: the variables in file order, each
      factor's scope in stored order, and each factor's values. */
  datatype Model = Model(variables: seq<Variable>, scopes: seq<seq<Variable>>, tables: seq<seq<real>>)

  /** A model as the reader leaves it: variable k has id next + k, every scope
      is over the model's variables, and every table has one value per
      configuration of its scope. */
  predicate Shaped(m: Model, next: nat)
  {
    && (forall k :: 0 <= k < |m.variables| ==> m.variables[k].id == next + k)
    && |m.tables| == |m.scopes|
    && (forall i :: 0 <= i < |m.scopes| ==> Elems(m.scopes[i]) <= Elems(m.variables))
    && (forall i :: 0 <= i < |m.tables| ==> |m.tables[i]| == SizeOf(m.scopes[i]))
  }

  function Reverse<X>(s: seq<X>): (r: seq<X>)
    ensures |r| == |s| && forall k :: 0 <= k < |s| ==> r[k] == s[|s| - 1 - k]
  {
    seq(|s|, k requires 0 <= k < |s| => s[|s| - 1 - k])
  }

  // ------------------------------------------------------------ the stream

  /** The whitespace `>>` skips before a word. */
  function Blank(ts: seq<Token>): (r: seq<Token>)
    ensures |r| <= |ts| && (r == [] || r[0] != Eol)
  {
    if ts != [] && ts[0] == Eol then Blank(ts[1..]) else ts
  }

  /** `getline`: the rest of the current line, its end included, is dropped. */
  function RestOfLine(ts: seq<Token>): (r: seq<Token>)
    ensures |r| <= |ts|
  {
    if ts == [] then [] else if ts[0] == Eol then ts[1..] else RestOfLine(ts[1..])
  }

  predicate IsComment(t: Token)
  {
    t.Word? && |t.text| > 0 && t.text[0] == '#'
  }

  /** The first word, after any number of comment lines, must be `BAYES` or
      `MARKOV`. At the end of the input this is BadHeader. The C++ loop fails
      there too, except when the input ends right after a one-word comment
      with no line end: then the failed reads leave that word in place and
      the loop does not terminate. */
  function Header(ts: seq<Token>): (r: Result<seq<Token>>)
    ensures r.Ok? ==> |r.value| < |ts|
    decreases |ts|
  {
    var b := Blank(ts);
    if b == [] then Err(BadHeader)
    else if IsComment(b[0]) then Header(RestOfLine(b[1..]))
    else if b[0] == Word("BAYES") || b[0] == Word("MARKOV") then Ok(b[1..])
    else Err(BadHeader)
  }

  /** `cin >> n` into an `int`. */
  function ReadInt(ts: seq<Token>): (r: Result<(int, seq<Token>)>)
    ensures r.Ok? ==> |r.value.1| < |ts|
  {
    var b := Blank(ts);
    if b != [] && b[0].Int? then Ok((b[0].n, b[1..])) else Err(ReadFailure)
  }

  /** `cin >> num` into a `double`. */
  function ReadReal(ts: seq<Token>): (r: Result<(real, seq<Token>)>)
    ensures r.Ok? ==> |r.value.1| < |ts|
  {
    var b := Blank(ts);
    if b != [] && b[0].Int? then Ok((b[0].n as real, b[1..]))
    else if b != [] && b[0].Num? then Ok((b[0].x, b[1..]))
    else Err(ReadFailure)
  }

  // ---------------------------------------------------------- the sections

  /** The n cardinalities; the variable of the k-th gets id next + k. */
  function ReadVariables(ts: seq<Token>, n: nat, next: nat): (r: Result<(seq<Variable>, seq<Token>)>)
    ensures r.Ok? ==> |r.value.0| == n && forall k :: 0 <= k < n ==> r.value.0[k].id == next + k
    decreases n
  {
    if n == 0 then Ok(([], ts))
    else
      var (c, rest) :- ReadInt(ts);
      if c < 0 then Err(BadCount)
      else
        var (vs, rest') :- ReadVariables(rest, n - 1, next + 1);
        Ok(([Variable(next, c)] + vs, rest'))
  }

  /** The j variable indices of one scope line, in file order; each must lie
      in [0, |vars|). */
  function ScopeLine(ts: seq<Token>, j: nat, vars: seq<Variable>): (r: Result<(seq<Variable>, seq<Token>)>)
    ensures r.Ok? ==> |r.value.0| == j
    decreases j
  {
    if j == 0 then Ok(([], ts))
    else
      var (l, rest) :- ReadInt(ts);
      if l < 0 || l >= |vars| then Err(BadVariableIndex)
      else
        var (line, rest') :- ScopeLine(rest, j - 1, vars);
        Ok(([vars[l]] + line, rest'))
  }

  /** One factor's scope: its size, then the line, stored in reverse so
      that the variable listed last varies fastest. */
  function ScopeEntry(ts: seq<Token>, vars: seq<Variable>): (r: Result<(seq<Variable>, seq<Token>)>)
  {
    var (j, rest) :- ReadInt(ts);
    if j < 0 then Err(BadCount)
    else
      var (line, rest') :- ScopeLine(rest, j, vars);
      Ok((Reverse(line), rest'))
  }

  /** The nf scopes of the preamble. */
  function Scopes(ts: seq<Token>, nf: nat, vars: seq<Variable>): (r: Result<(seq<seq<Variable>>, seq<Token>)>)
    ensures r.Ok? ==> |r.value.0| == nf
    decreases nf
  {
    if nf == 0 then Ok(([], ts))
    else
      var (scope, rest) :- ScopeEntry(ts, vars);
      var (ss, rest') :- Scopes(rest, nf - 1, vars);
      Ok(([scope] + ss, rest'))
  }

  /** j table values. */
  function Values(ts: seq<Token>, j: nat): (r: Result<(seq<real>, seq<Token>)>)
    ensures r.Ok? ==> |r.value.0| == j
    decreases j
  {
    if j == 0 then Ok(([], ts))
    else
      var (x, rest) :- ReadReal(ts);
      var (xs, rest') :- Values(rest, j - 1);
      Ok(([x] + xs, rest'))
  }

  /** One table: a count that must equal n, the size of the factor's
      domain, then that many values. */
  function TableEntry(ts: seq<Token>, n: nat): (r: Result<(seq<real>, seq<Token>)>)
    ensures r.Ok? ==> |r.value.0| == n
  {
    var (j, rest) :- ReadInt(ts);
    if j != n then Err(BadTableSize)
    else Values(rest, j)
  }

  /** One table per factor, the factors' domain sizes given in order. */
  function Tables(ts: seq<Token>, sizes: seq<nat>): (r: Result<(seq<seq<real>>, seq<Token>)>)
    ensures r.Ok? ==> |r.value.0| == |sizes| && forall i :: 0 <= i < |sizes| ==> |r.value.0[i]| == sizes[i]
    decreases |sizes|
  {
    if sizes == [] then Ok(([], ts))
    else
      var (xs, rest) :- TableEntry(ts, sizes[0]);
      var (tabs, rest') :- Tables(rest, sizes[1..]);
      Ok(([xs] + tabs, rest'))
  }

  /** The domain size of each scope. */
  function Sizes(scopes: seq<seq<Variable>>): (r: seq<nat>)
    ensures |r| == |scopes| && forall i :: 0 <= i < |scopes| ==> r[i] == SizeOf(scopes[i])
  {
    seq(|scopes|, i requires 0 <= i < |scopes| => SizeOf(scopes[i]))
  }

  /** The preamble: header, variable count and cardinalities, factor count
      and scopes; next is the value of the variables' instance counter. */
  function Preamble(ts: seq<Token>, next: nat): (r: Result<(seq<Variable>, seq<seq<Variable>>, seq<Token>)>)
    ensures r.Ok? ==> forall k :: 0 <= k < |r.value.0| ==> r.value.0[k].id == next + k
    ensures r.Ok? ==> forall i :: 0 <= i < |r.value.1| ==> Elems(r.value.1[i]) <= Elems(r.value.0)
  {
    var rest :- Header(ts);
    var (nv, rest) :- ReadInt(rest);
    if nv < 0 then Err(BadCount)
    else
      var (vars, rest) :- ReadVariables(rest, nv, next);
      var (nf, rest) :- ReadInt(rest);
      if nf < 0 then Err(BadCount)
      else
        ScopesWithin(rest, nf, vars);
        var (scopes, rest) :- Scopes(rest, nf, vars);
        Ok((vars, scopes, rest))
  }

  /** `load_uai_model`: the preamble, then the tables. Whatever follows the
      last table is not read. */
  function ParseUai(ts: seq<Token>, next: nat): (r: Result<Model>)
    ensures r.Ok? ==> Shaped(r.value, next)
  {
    var (vars, scopes, rest) :- Preamble(ts, next);
    var (tables, _) :- Tables(rest, Sizes(scopes));
    Ok(Model(vars, scopes, tables))
  }

  lemma ReverseElems(s: seq<Variable>)
    ensures Elems(Reverse(s)) == Elems(s)
  {
    var r := Reverse(s);
    forall x | x in Elems(s) ensures x in Elems(r) {
      var k :| 0 <= k < |s| && s[k] == x;
      assert r[|s| - 1 - k] == x;
    }
    forall x | x in Elems(r) ensures x in Elems(s) {
      var k :| 0 <= k < |r| && r[k] == x;
      assert s[|s| - 1 - k] == x;
    }
  }

  /** Every variable of a scope line is one of the model's variables. */
  lemma {:induction false} ScopeLineWithin(ts: seq<Token>, j: nat, vars: seq<Variable>)
    ensures ScopeLine(ts, j, vars).Ok? ==> Elems(ScopeLine(ts, j, vars).value.0) <= Elems(vars)
    decreases j
  {
    if j > 0 && ReadInt(ts).Ok? {
      var (l, rest) := ReadInt(ts).value;
      if 0 <= l < |vars| && ScopeLine(rest, j - 1, vars).Ok? {
        ScopeLineWithin(rest, j - 1, vars);
        var line := ScopeLine(rest, j - 1, vars).value.0;
        var s := [vars[l]] + line;
        forall x | x in Elems(s) ensures x in Elems(vars) {
          var k :| 0 <= k < |s| && s[k] == x;
          if k > 0 {
            assert line[k - 1] == x;
          }
        }
      }
    }
  }

  lemma {:induction false} ScopesWithin(ts: seq<Token>, nf: nat, vars: seq<Variable>)
    ensures Scopes(ts, nf, vars).Ok? ==>
      forall i :: 0 <= i < nf ==> Elems(Scopes(ts, nf, vars).value.0[i]) <= Elems(vars)
    decreases nf
  {
    if nf > 0 && ScopeEntry(ts, vars).Ok? {
      var (j, rest) := ReadInt(ts).value;
      ScopeLineWithin(rest, j, vars);
      ReverseElems(ScopeLine(rest, j, vars).value.0);
      var (scope, after) := ScopeEntry(ts, vars).value;
      ScopesWithin(after, nf - 1, vars);
    }
  }

  // ------------------------------------------------------------ the reader

  /** A read that has already produced acc, followed by the read r. */
  function Glue<X>(acc: seq<X>, r: Result<(seq<X>, seq<Token>)>): Result<(seq<X>, seq<Token>)>
  {
    match r
    case Ok((xs, rest)) => Ok((acc + xs, rest))
    case Err(e) => Err(e)
  }

  lemma GlueAssoc<X>(a: seq<X>, b: seq<X>, r: Result<(seq<X>, seq<Token>)>)
    ensures Glue(a, Glue(b, r)) == Glue(a + b, r)
  {
    if r.Ok? {
      assert a + (b + r.value.0) == (a + b) + r.value.0;
    }
  }

  lemma GlueNil<X>(r: Result<(seq<X>, seq<Token>)>)
    ensures Glue([], r) == r
  {
    if r.Ok? {
      assert [] + r.value.0 == r.value.0;
    }
  }

  lemma BlankHeader(ts: seq<Token>)
    ensures Header(Blank(ts)) == Header(ts)
  {
  }

  /** `cin >> str`, then, while the word starts with '#', `getline` and
      `cin >> str` again; then the header test. */
  method ReadHeader(ts: seq<Token>) returns (r: Result<seq<Token>>)
    ensures r == Header(ts)
  {
    BlankHeader(ts);
    var rest := Blank(ts);
    while rest != [] && IsComment(rest[0])
      invariant (rest == [] || rest[0] != Eol) && Header(rest) == Header(ts)
      decreases |rest|
    {
      BlankHeader(RestOfLine(rest[1..]));
      rest := Blank(RestOfLine(rest[1..]));
    }
    if rest == [] {
      r := Err(BadHeader);
    } else if rest[0] == Word("BAYES") || rest[0] == Word("MARKOV") {
      r := Ok(rest[1..]);
    } else {
      r := Err(BadHeader);
    }
  }

  /** The loop `cin >> j; variables.emplace_back(j)`, n times. */
  method LoadVariables(ts: seq<Token>, n: nat, counter: InstanceCounter) returns (r: Result<(seq<Variable>, seq<Token>)>)
    modifies counter
    ensures r == ReadVariables(ts, n, old(counter.count))
    ensures r.Ok? ==> counter.count == old(counter.count) + n
  {
    ghost var next := old(counter.count);
    GlueNil(ReadVariables(ts, n, next));
    var vs: seq<Variable> := [];
    var rest := ts;
    var i := 0;
    while i < n
      invariant i <= n && counter.count == next + i
      invariant ReadVariables(ts, n, next) == Glue(vs, ReadVariables(rest, n - i, next + i))
    {
      var read := ReadInt(rest);
      if read.Err? {
        return Err(read.error);
      }
      var (c, after) := read.value;
      if c < 0 {
        return Err(BadCount);
      }
      var v := NewVariable(counter, c);
      GlueAssoc(vs, [v], ReadVariables(after, n - i - 1, next + i + 1));
      vs, rest, i := vs + [v], after, i + 1;
    }
    assert vs + [] == vs;
    r := Ok((vs, rest));
  }

  /** One scope line: `scope.resize(j)`, then for each index read
      `scope[j-k-1] = &variables[l]` after the range check. */
  method LoadScope(ts: seq<Token>, j: nat, variables: seq<Variable>) returns (r: Result<(seq<Variable>, seq<Token>)>)
    ensures ScopeLine(ts, j, variables).Err? ==> r == Err(ScopeLine(ts, j, variables).error)
    ensures ScopeLine(ts, j, variables).Ok? ==>
      r == Ok((Reverse(ScopeLine(ts, j, variables).value.0), ScopeLine(ts, j, variables).value.1))
  {
    GlueNil(ScopeLine(ts, j, variables));
    var scope := seq(j, _ => Variable(0, 0));
    ghost var line: seq<Variable> := [];
    var rest := ts;
    var k := 0;
    while k < j
      invariant k <= j && |scope| == j && |line| == k
      invariant forall t :: 0 <= t < k ==> scope[j - t - 1] == line[t]
      invariant ScopeLine(ts, j, variables) == Glue(line, ScopeLine(rest, j - k, variables))
    {
      var read := ReadInt(rest);
      if read.Err? {
        return Err(read.error);
      }
      var (l, after) := read.value;
      if l < 0 || l >= |variables| {
        return Err(BadVariableIndex);
      }
      GlueAssoc(line, [variables[l]], ScopeLine(after, j - k - 1, variables));
      scope := scope[j - k - 1 := variables[l]];
      line := line + [variables[l]];
      rest, k := after, k + 1;
    }
    assert scope == Reverse(line) && line + [] == line;
    r := Ok((scope, rest));
  }

  /** The value `Factor(scope)` starts with: the default in every entry. */
  function BlankTable(scope: seq<Variable>): Table
  {
    Table(Build(scope), Filled(SizeOf(scope), DefaultValue))
  }

  predicate Distinct(fs: seq<Factor>)
  {
    forall i, k :: 0 <= i < k < |fs| ==> fs[i] != fs[k]
  }

  /** `cin >> j`, the scope line, then `factors.emplace_back(scope)`. */
  method LoadFactor(ts: seq<Token>, variables: seq<Variable>, counter: InstanceCounter)
      returns (r: Result<(Factor, seq<Token>)>)
    modifies counter
    ensures ScopeEntry(ts, variables).Err? ==> r == Err(ScopeEntry(ts, variables).error)
    ensures ScopeEntry(ts, variables).Ok? ==> r.Ok? && r.value.1 == ScopeEntry(ts, variables).value.1
    ensures ScopeEntry(ts, variables).Ok? ==> r.value.0.Val() == BlankTable(ScopeEntry(ts, variables).value.0)
    ensures r.Ok? ==> fresh(r.value.0)
  {
    var read := ReadInt(ts);
    if read.Err? {
      return Err(read.error);
    }
    var (j, after) := read.value;
    if j < 0 {
      return Err(BadCount);
    }
    var line := LoadScope(after, j, variables);
    if line.Err? {
      return Err(line.error);
    }
    var (scope, after') := line.value;
    var f := new Factor.FromScope(scope, counter);
    r := Ok((f, after'));
  }

  /** The scope loop's view of Scopes: acc already read, nf lines to go. */
  function ScopesAfter(ts: seq<Token>, nf: nat, vars: seq<Variable>, acc: seq<seq<Variable>>): Result<(seq<seq<Variable>>, seq<Token>)>
    decreases nf
  {
    if nf == 0 then Ok((acc, ts))
    else
      var (scope, rest) :- ScopeEntry(ts, vars);
      ScopesAfter(rest, nf - 1, vars, acc + [scope])
  }

  lemma {:induction false} ScopesAfterGlue(ts: seq<Token>, nf: nat, vars: seq<Variable>, acc: seq<seq<Variable>>)
    ensures ScopesAfter(ts, nf, vars, acc) == Glue(acc, Scopes(ts, nf, vars))
    decreases nf
  {
    if nf == 0 {
      assert acc + [] == acc;
    } else if ScopeEntry(ts, vars).Ok? {
      var (scope, rest) := ScopeEntry(ts, vars).value;
      ScopesAfterGlue(rest, nf - 1, vars, acc + [scope]);
      GlueAssoc(acc, [scope], Scopes(rest, nf - 1, vars));
    }
  }

  /** The loop over the factors' scopes in the preamble. */
  method LoadScopes(ts: seq<Token>, nf: nat, variables: seq<Variable>, counter: InstanceCounter)
      returns (r: Result<(seq<Factor>, seq<Token>)>)
    modifies counter
    ensures Scopes(ts, nf, variables).Err? ==> r == Err(Scopes(ts, nf, variables).error)
    ensures Scopes(ts, nf, variables).Ok? ==> r.Ok? && r.value.1 == Scopes(ts, nf, variables).value.1
    ensures Scopes(ts, nf, variables).Ok? ==> (|r.value.0| == nf &&
      forall t :: 0 <= t < nf ==> r.value.0[t].Val() == BlankTable(Scopes(ts, nf, variables).value.0[t]))
    ensures r.Ok? ==> Distinct(r.value.0) && forall f :: f in r.value.0 ==> fresh(f)
  {
    ScopesAfterGlue(ts, nf, variables, []);
    GlueNil(Scopes(ts, nf, variables));
    ghost var target := ScopesAfter(ts, nf, variables, []);
    var fs: seq<Factor> := [];
    ghost var ss: seq<seq<Variable>> := [];
    var rest := ts;
    var i := 0;
    while i < nf
      invariant i <= nf && |fs| == i && |ss| == i
      invariant target == ScopesAfter(rest, nf - i, variables, ss)
      invariant forall t :: 0 <= t < i ==> fs[t].Val() == BlankTable(ss[t])
      invariant Distinct(fs) && forall f :: f in fs ==> fresh(f)
    {
      var entry := LoadFactor(rest, variables, counter);
      if entry.Err? {
        return Err(entry.error);
      }
      var (f, after) := entry.value;
      fs, ss := fs + [f], ss + [ScopeEntry(rest, variables).value.0];
      rest, i := after, i + 1;
    }
    r := Ok((fs, rest));
  }

  /** `factors[i].set(k, num)` for the j values of one table. */
  method LoadValues(ts: seq<Token>, f: Factor, j: nat) returns (r: Result<seq<Token>>)
    requires |f.values| == j
    modifies f
    ensures Values(ts, j).Err? ==> r == Err(Values(ts, j).error)
    ensures Values(ts, j).Ok? ==> r == Ok(Values(ts, j).value.1) && f.values == Values(ts, j).value.0
  {
    GlueNil(Values(ts, j));
    ghost var xs: seq<real> := [];
    var rest := ts;
    var k := 0;
    while k < j
      invariant k <= j && |f.values| == j && |xs| == k && f.values[..k] == xs
      invariant Values(ts, j) == Glue(xs, Values(rest, j - k))
    {
      var read := ReadReal(rest);
      if read.Err? {
        return Err(read.error);
      }
      var (x, after) := read.value;
      GlueAssoc(xs, [x], Values(after, j - k - 1));
      var ok := f.Set(k, x);
      assert f.values[..k + 1] == f.values[..k] + [x];
      xs, rest, k := xs + [x], after, k + 1;
    }
    assert xs + [] == xs && f.values[..k] == f.values;
    r := Ok(rest);
  }

  /** `cin >> j`, the size check against `factors[i].size()`, then the values. */
  method LoadTable(ts: seq<Token>, f: Factor, ghost n: nat) returns (r: Result<seq<Token>>)
    requires |f.values| == n
    modifies f
    ensures TableEntry(ts, n).Err? ==> r == Err(TableEntry(ts, n).error)
    ensures TableEntry(ts, n).Ok? ==> r == Ok(TableEntry(ts, n).value.1) && f.values == TableEntry(ts, n).value.0
  {
    var read := ReadInt(ts);
    if read.Err? {
      return Err(read.error);
    }
    var (j, after) := read.value;
    if j != |f.values| {
      return Err(BadTableSize);
    }
    r := LoadValues(after, f, j);
  }

  /** The table loop's view of Tables: acc already read, sizes to go. */
  function TablesAfter(ts: seq<Token>, sizes: seq<nat>, acc: seq<seq<real>>): Result<(seq<seq<real>>, seq<Token>)>
    decreases |sizes|
  {
    if sizes == [] then Ok((acc, ts))
    else
      var (xs, rest) :- TableEntry(ts, sizes[0]);
      TablesAfter(rest, sizes[1..], acc + [xs])
  }

  lemma {:induction false} TablesAfterGlue(ts: seq<Token>, sizes: seq<nat>, acc: seq<seq<real>>)
    ensures TablesAfter(ts, sizes, acc) == Glue(acc, Tables(ts, sizes))
    decreases |sizes|
  {
    if sizes == [] {
      assert acc + [] == acc;
    } else if TableEntry(ts, sizes[0]).Ok? {
      var (xs, rest) := TableEntry(ts, sizes[0]).value;
      TablesAfterGlue(rest, sizes[1..], acc + [xs]);
      GlueAssoc(acc, [xs], Tables(rest, sizes[1..]));
    }
  }

  /** One round of the loop over the tables: the table of factors[i]. */
  method LoadNextTable(ts: seq<Token>, factors: seq<Factor>, i: nat, ghost sizes: seq<nat>, ghost tabs: seq<seq<real>>)
      returns (r: Result<seq<Token>>, ghost tabs': seq<seq<real>>)
    requires i < |factors| == |sizes| && |tabs| == i && Distinct(factors)
    requires forall t :: 0 <= t < i ==> factors[t].values == tabs[t]
    requires forall t :: i <= t < |factors| ==> |factors[t].values| == sizes[t]
    modifies factors[i]
    ensures TableEntry(ts, sizes[i]).Err? ==> r == Err(TableEntry(ts, sizes[i]).error)
    ensures TableEntry(ts, sizes[i]).Ok? ==> (r == Ok(TableEntry(ts, sizes[i]).value.1) &&
      tabs' == tabs + [TableEntry(ts, sizes[i]).value.0] &&
      (forall t :: 0 <= t <= i ==> factors[t].values == tabs'[t]) &&
      forall t :: i < t < |factors| ==> |factors[t].values| == sizes[t])
  {
    r := LoadTable(ts, factors[i], sizes[i]);
    tabs' := tabs + [factors[i].values];
  }

  /** The loop over the factors' tables. */
  method LoadTables(ts: seq<Token>, factors: seq<Factor>, ghost sizes: seq<nat>) returns (r: Result<seq<Token>>)
    requires |factors| == |sizes| && Distinct(factors)
    requires forall t :: 0 <= t < |factors| ==> |factors[t].values| == sizes[t]
    modifies factors
    ensures Tables(ts, sizes).Err? ==> r == Err(Tables(ts, sizes).error)
    ensures Tables(ts, sizes).Ok? ==> (r == Ok(Tables(ts, sizes).value.1) &&
      forall t :: 0 <= t < |factors| ==> factors[t].values == Tables(ts, sizes).value.0[t])
  {
    TablesAfterGlue(ts, sizes, []);
    GlueNil(Tables(ts, sizes));
    ghost var target := TablesAfter(ts, sizes, []);
    ghost var tabs: seq<seq<real>> := [];
    var rest := ts;
    var i := 0;
    while i < |factors|
      invariant i <= |factors| && |tabs| == i
      invariant target == TablesAfter(rest, sizes[i..], tabs)
      invariant forall t :: 0 <= t < i ==> factors[t].values == tabs[t]
      invariant forall t :: i <= t < |factors| ==> |factors[t].values| == sizes[t]
    {
      assert sizes[i..][0] == sizes[i] && sizes[i..][1..] == sizes[i + 1..];
      var table, tabs' := LoadNextTable(rest, factors, i, sizes, tabs);
      if table.Err? {
        return Err(table.error);
      }
      tabs, rest, i := tabs', table.value, i + 1;
    }
    assert sizes[i..] == [];
    r := Ok(rest);
  }

  /** The factors hold the model's tables over its stored scopes. */
  predicate Holds(factors: seq<Factor>, m: Model)
    reads factors
  {
    |factors| == |m.scopes| == |m.tables| &&
    forall t :: 0 <= t < |factors| ==> factors[t].Val() == Table(Build(m.scopes[t]), m.tables[t])
  }

  /** The preamble of `load_uai_model`: the header, `cin >> nvars`, the
      variables, `cin >> nfactors` and one factor per scope line. */
  method LoadPreamble(ts: seq<Token>, variableIds: InstanceCounter, factorIds: InstanceCounter)
      returns (r: Result<(seq<Variable>, seq<Factor>, seq<Token>)>)
    requires variableIds != factorIds
    modifies variableIds, factorIds
    ensures Preamble(ts, old(variableIds.count)).Err? ==> r == Err(Preamble(ts, old(variableIds.count)).error)
    ensures Preamble(ts, old(variableIds.count)).Ok? ==> (r.Ok? &&
      var (vars, scopes, rest) := Preamble(ts, old(variableIds.count)).value;
      r.value.0 == vars && r.value.2 == rest && |r.value.1| == |scopes| &&
      forall t :: 0 <= t < |scopes| ==> r.value.1[t].Val() == BlankTable(scopes[t]))
    ensures r.Ok? ==> Distinct(r.value.1) && forall f :: f in r.value.1 ==> fresh(f)
  {
    var header := ReadHeader(ts);
    if header.Err? {
      return Err(header.error);
    }
    var count := ReadInt(header.value);
    if count.Err? {
      return Err(count.error);
    }
    var (nvars, rest) := count.value;
    if nvars < 0 {
      return Err(BadCount);
    }
    var vars := LoadVariables(rest, nvars, variableIds);
    if vars.Err? {
      return Err(vars.error);
    }
    var (variables, rest') := vars.value;
    count := ReadInt(rest');
    if count.Err? {
      return Err(count.error);
    }
    var (nfactors, rest'') := count.value;
    if nfactors < 0 {
      return Err(BadCount);
    }
    var scoped := LoadScopes(rest'', nfactors, variables, factorIds);
    if scoped.Err? {
      return Err(scoped.error);
    }
    r := Ok((variables, scoped.value.0, scoped.value.1));
  }

  /** `load_uai_model(variables, factors)` over the token stream ts, with
      two counters for the ids of new variables and new factors; a `throw`
      becomes an error result. */
  method LoadUai(ts: seq<Token>, variableIds: InstanceCounter, factorIds: InstanceCounter)
      returns (r: Result<(seq<Variable>, seq<Factor>)>)
    requires variableIds != factorIds
    modifies variableIds, factorIds
    ensures ParseUai(ts, old(variableIds.count)).Err? ==> r == Err(ParseUai(ts, old(variableIds.count)).error)
    ensures ParseUai(ts, old(variableIds.count)).Ok? ==>
      (r.Ok? && r.value.0 == ParseUai(ts, old(variableIds.count)).value.variables &&
       Holds(r.value.1, ParseUai(ts, old(variableIds.count)).value))
    ensures r.Ok? ==> forall f :: f in r.value.1 ==> fresh(f)
  {
    ghost var next := variableIds.count;
    var preamble := LoadPreamble(ts, variableIds, factorIds);
    if preamble.Err? {
      return Err(preamble.error);
    }
    var (variables, factors, rest) := preamble.value;
    ghost var scopes := Preamble(ts, next).value.1;
    assert forall t :: 0 <= t < |factors| ==> factors[t] in factors;
    assert forall t :: 0 <= t < |factors| ==> fresh(factors[t]);
    var tables := LoadTables(rest, factors, Sizes(scopes));
    if tables.Err? {
      return Err(tables.error);
    }
    r := Ok((variables, factors));
  }

  // -------------------------------------------------------------- properties

  /** Blank lines before the header change nothing. */
  lemma BlankLineIgnored(ts: seq<Token>, next: nat)
    ensures ParseUai([Eol] + ts, next) == ParseUai(ts, next)
  {
    assert ([Eol] + ts)[1..] == ts;
    assert Header([Eol] + ts) == Header(ts);
  }

  /** A comment line before the header changes nothing. */
  lemma CommentLineIgnored(c: Token, line: seq<Token>, ts: seq<Token>, next: nat)
    requires IsComment(c) && Eol !in line
    ensures ParseUai([c] + line + [Eol] + ts, next) == ParseUai(ts, next)
  {
    var s := [c] + line + [Eol] + ts;
    assert s[1..] == line + [Eol] + ts;
    RestOfCommentLine(line, ts);
    assert Header(s) == Header(ts);
  }

  lemma {:induction false} RestOfCommentLine(line: seq<Token>, ts: seq<Token>)
    requires Eol !in line
    ensures RestOfLine(line + [Eol] + ts) == ts
  {
    if line == [] {
      assert line + [Eol] + ts == [Eol] + ts;
      assert ([Eol] + ts)[1..] == ts;
    } else {
      assert (line + [Eol] + ts)[1..] == line[1..] + [Eol] + ts;
      RestOfCommentLine(line[1..], ts);
    }
  }

  /** A first word that is neither a comment nor `BAYES` nor `MARKOV` is
      refused. */
  lemma HeaderRequired(t: Token, ts: seq<Token>, next: nat)
    requires t != Eol && !IsComment(t) && t != Word("BAYES") && t != Word("MARKOV")
    ensures ParseUai([t] + ts, next) == Err(BadHeader)
  {
    assert Header([t] + ts) == Err(BadHeader);
  }

  /** Reversing the file's scope line makes the variable listed last vary
      fastest: the stride of the variable listed at k is the number of
      configurations of the variables listed after it. */
  lemma StoredStrides(line: seq<Variable>, k: nat)
    requires k < |line|
    ensures Reverse(line)[|line| - 1 - k] == line[k]
    ensures Build(Reverse(line)).offsets[|line| - 1 - k] == SizeOf(Reverse(line[k + 1..]))
  {
    assert Reverse(line)[..|line| - 1 - k] == Reverse(line[k + 1..]);
  }

  /** The tables a read model holds. */
  function ModelTables(m: Model): (r: seq<Table>)
    requires |m.tables| == |m.scopes|
    ensures |r| == |m.scopes|
  {
    seq(|m.scopes|, i requires 0 <= i < |m.scopes| => Table(Build(m.scopes[i]), m.tables[i]))
  }

  /** Variables with consecutive ids agree on every shared id. */
  lemma NumberedConsistent(vs: seq<Variable>, next: nat)
    requires forall k :: 0 <= k < |vs| ==> vs[k].id == next + k
    ensures Consistent(Elems(vs))
  {
    forall a, b | a in Elems(vs) && b in Elems(vs) && a.id == b.id
      ensures a == b
    {
      var i :| 0 <= i < |vs| && vs[i] == a;
      var k :| 0 <= k < |vs| && vs[k] == b;
    }
  }

  /** The tables of a read model are well formed when no scope repeats a
      variable. */
  lemma ShapedWithin(m: Model, next: nat)
    requires Shaped(m, next)
    requires forall i :: 0 <= i < |m.scopes| ==> DupFree(m.scopes[i])
    ensures Inference.Within(ModelTables(m), Elems(m.variables))
  {
    var P := ModelTables(m);
    forall t | t in P
      ensures WellFormed(t) && Elems(t.domain.scope) <= Elems(m.variables)
    {
      var i :| 0 <= i < |P| && P[i] == t;
    }
  }

  /** A model read without error, whose scopes never repeat a variable, can
      be handed to variable elimination with any order drawn from its
      variables. */
  lemma LoadedRunnable(ts: seq<Token>, next: nat, order: seq<Variable>)
    requires ParseUai(ts, next).Ok?
    requires forall i :: 0 <= i < |ParseUai(ts, next).value.scopes| ==> DupFree(ParseUai(ts, next).value.scopes[i])
    requires Elems(order) <= Elems(ParseUai(ts, next).value.variables)
    ensures Inference.Runnable(ModelTables(ParseUai(ts, next).value), order, Elems(ParseUai(ts, next).value.variables))
  {
    var m := ParseUai(ts, next).value;
    NumberedConsistent(m.variables, next);
    ShapedWithin(m, next);
  }

  // ------------------------------------------------- writing and reading back

  /** A model file's contents: the cardinalities, each scope line as the
      variable indices listed, and each table as listed. */
  datatype UaiFile = UaiFile(cards: seq<nat>, lines: seq<seq<nat>>, tables: seq<seq<real>>)

  function IntLine(xs: seq<int>): seq<Token>
  {
    if xs == [] then [] else [Int(xs[0])] + IntLine(xs[1..])
  }

  function NumLine(xs: seq<real>): seq<Token>
  {
    if xs == [] then [] else [Num(xs[0])] + NumLine(xs[1..])
  }

  function ScopeLines(lines: seq<seq<nat>>): seq<Token>
  {
    if lines == [] then [] else [Eol, Int(|lines[0]|)] + IntLine(lines[0]) + ScopeLines(lines[1..])
  }

  function TableLines(tables: seq<seq<real>>): seq<Token>
  {
    if tables == [] then [] else [Eol, Int(|tables[0]|)] + NumLine(tables[0]) + TableLines(tables[1..])
  }

  /** The file as tokens, one record per line. */
  function Write(f: UaiFile): seq<Token>
  {
    [Word("MARKOV"), Eol, Int(|f.cards|)] + IntLine(f.cards) + [Eol, Int(|f.lines|)]
      + ScopeLines(f.lines) + TableLines(f.tables)
  }

  function Numbered(cards: seq<nat>, next: nat): (vs: seq<Variable>)
    ensures |vs| == |cards|
  {
    seq(|cards|, k requires 0 <= k < |cards| => Variable(next + k, cards[k]))
  }

  predicate InRange(f: UaiFile)
  {
    forall i, k :: 0 <= i < |f.lines| && 0 <= k < |f.lines[i]| ==> f.lines[i][k] < |f.cards|
  }

  function Pick(vars: seq<Variable>, line: seq<nat>): (r: seq<Variable>)
    requires forall k :: 0 <= k < |line| ==> line[k] < |vars|
    ensures |r| == |line|
  {
    seq(|line|, k requires 0 <= k < |line| => vars[line[k]])
  }

  /** The scopes the file describes, in stored order. */
  function StoredScopes(f: UaiFile, next: nat): (r: seq<seq<Variable>>)
    requires InRange(f)
    ensures |r| == |f.lines|
  {
    seq(|f.lines|, i requires 0 <= i < |f.lines| => Reverse(Pick(Numbered(f.cards, next), f.lines[i])))
  }

  predicate Sized(f: UaiFile, next: nat)
    requires InRange(f)
  {
    |f.tables| == |f.lines| &&
    forall i :: 0 <= i < |f.tables| ==> |f.tables[i]| == SizeOf(StoredScopes(f, next)[i])
  }

  lemma ReadsInt(x: int, rest: seq<Token>)
    ensures ReadInt([Int(x)] + rest) == Ok((x, rest))
    ensures ReadInt([Eol, Int(x)] + rest) == Ok((x, rest))
  {
    assert ([Int(x)] + rest)[1..] == rest;
    assert ([Eol, Int(x)] + rest)[1..] == [Int(x)] + rest;
  }

  lemma ReadsNum(x: real, rest: seq<Token>)
    ensures ReadReal([Num(x)] + rest) == Ok((x, rest))
  {
    assert ([Num(x)] + rest)[1..] == rest;
  }

  lemma {:induction false} ReadsVariables(cards: seq<nat>, next: nat, rest: seq<Token>)
    ensures ReadVariables(IntLine(cards) + rest, |cards|, next) == Ok((Numbered(cards, next), rest))
    decreases |cards|
  {
    if cards != [] {
      assert IntLine(cards) + rest == [Int(cards[0])] + (IntLine(cards[1..]) + rest);
      ReadsInt(cards[0], IntLine(cards[1..]) + rest);
      ReadsVariables(cards[1..], next + 1, rest);
      assert Numbered(cards, next) == [Variable(next, cards[0])] + Numbered(cards[1..], next + 1);
    } else {
      assert IntLine(cards) + rest == rest && Numbered(cards, next) == [];
    }
  }

  lemma {:induction false} ReadsScopeLine(line: seq<nat>, vars: seq<Variable>, rest: seq<Token>)
    requires forall k :: 0 <= k < |line| ==> line[k] < |vars|
    ensures ScopeLine(IntLine(line) + rest, |line|, vars) == Ok((Pick(vars, line), rest))
    decreases |line|
  {
    if line != [] {
      assert IntLine(line) + rest == [Int(line[0])] + (IntLine(line[1..]) + rest);
      ReadsInt(line[0], IntLine(line[1..]) + rest);
      ReadsScopeLine(line[1..], vars, rest);
      assert Pick(vars, line) == [vars[line[0]]] + Pick(vars, line[1..]);
    } else {
      assert IntLine(line) + rest == rest && Pick(vars, line) == [];
    }
  }

  /** A written scope line in range reads as its scope, stored reversed. */
  lemma ReadsScopeEntry(l: seq<nat>, vars: seq<Variable>, after: seq<Token>)
    requires forall k :: 0 <= k < |l| ==> l[k] < |vars|
    ensures ScopeEntry([Eol, Int(|l|)] + (IntLine(l) + after), vars) == Ok((Reverse(Pick(vars, l)), after))
  {
    ReadsInt(|l|, IntLine(l) + after);
    ReadsScopeLine(l, vars, after);
  }

  lemma RefusesScopeEntry(l: seq<nat>, vars: seq<Variable>, after: seq<Token>)
    requires exists k :: 0 <= k < |l| && l[k] >= |vars|
    ensures ScopeEntry([Eol, Int(|l|)] + (IntLine(l) + after), vars) == Err(BadVariableIndex)
  {
    ReadsInt(|l|, IntLine(l) + after);
    RefusesScopeLine(l, vars, after);
  }

  lemma {:induction false} ReadsScopes(f: UaiFile, next: nat, rest: seq<Token>)
    requires InRange(f)
    ensures Scopes(ScopeLines(f.lines) + rest, |f.lines|, Numbered(f.cards, next)) == Ok((StoredScopes(f, next), rest))
    decreases |f.lines|
  {
    if f.lines != [] {
      var l, g := f.lines[0], UaiFile(f.cards, f.lines[1..], f.tables);
      var vars := Numbered(f.cards, next);
      var after := ScopeLines(g.lines) + rest;
      assert ScopeLines(f.lines) + rest == [Eol, Int(|l|)] + (IntLine(l) + after);
      assert InRange(g) && forall k :: 0 <= k < |l| ==> l[k] < |vars| by {
        assert forall i :: 0 <= i < |g.lines| ==> g.lines[i] == f.lines[i + 1];
      }
      ReadsScopeEntry(l, vars, after);
      ReadsScopes(g, next, rest);
      assert StoredScopes(f, next) == [Reverse(Pick(vars, l))] + StoredScopes(g, next);
    } else {
      assert ScopeLines(f.lines) + rest == rest && StoredScopes(f, next) == [];
    }
  }

  lemma {:induction false} ReadsValues(xs: seq<real>, rest: seq<Token>)
    ensures Values(NumLine(xs) + rest, |xs|) == Ok((xs, rest))
    decreases |xs|
  {
    if xs != [] {
      assert NumLine(xs) + rest == [Num(xs[0])] + (NumLine(xs[1..]) + rest);
      ReadsNum(xs[0], NumLine(xs[1..]) + rest);
      ReadsValues(xs[1..], rest);
      assert xs == [xs[0]] + xs[1..];
    } else {
      assert NumLine(xs) + rest == rest;
    }
  }

  lemma ReadsTable(t: seq<real>, n: nat, after: seq<Token>)
    requires |t| == n
    ensures TableEntry([Eol, Int(|t|)] + (NumLine(t) + after), n) == Ok((t, after))
  {
    ReadsInt(|t|, NumLine(t) + after);
    ReadsValues(t, after);
  }

  /** Tables written with the sizes they are read with read back. */
  lemma {:induction false} ReadsTables(tables: seq<seq<real>>, sizes: seq<nat>, rest: seq<Token>)
    requires |tables| == |sizes| && forall i :: 0 <= i < |tables| ==> |tables[i]| == sizes[i]
    ensures Tables(TableLines(tables) + rest, sizes) == Ok((tables, rest))
    decreases |tables|
  {
    if tables != [] {
      var after := TableLines(tables[1..]) + rest;
      assert TableLines(tables) + rest == [Eol, Int(|tables[0]|)] + (NumLine(tables[0]) + after);
      ReadsTable(tables[0], sizes[0], after);
      ReadsTables(tables[1..], sizes[1..], rest);
      assert tables == [tables[0]] + tables[1..];
    } else {
      assert TableLines(tables) + rest == rest;
    }
  }

  /** A table whose length is not the size of its factor's domain is refused. */
  lemma {:induction false} RefusesTables(tables: seq<seq<real>>, sizes: seq<nat>, rest: seq<Token>)
    requires |tables| == |sizes| && exists i :: 0 <= i < |tables| && |tables[i]| != sizes[i]
    ensures Tables(TableLines(tables) + rest, sizes) == Err(BadTableSize)
    decreases |tables|
  {
    var after := TableLines(tables[1..]) + rest;
    assert TableLines(tables) + rest == [Eol, Int(|tables[0]|)] + (NumLine(tables[0]) + after);
    ReadsInt(|tables[0]|, NumLine(tables[0]) + after);
    if |tables[0]| == sizes[0] {
      ReadsTable(tables[0], sizes[0], after);
      var i :| 0 <= i < |tables| && |tables[i]| != sizes[i];
      assert 0 <= i - 1 < |tables[1..]| && |tables[1..][i - 1]| != sizes[1..][i - 1];
      RefusesTables(tables[1..], sizes[1..], rest);
    }
  }

  /** The written header reads as the header of a Markov network. */
  lemma ReadsHeader(f: UaiFile, next: nat)
    ensures Header(Write(f)) == Ok([Eol, Int(|f.cards|)] + (IntLine(f.cards) + ([Eol, Int(|f.lines|)] + (ScopeLines(f.lines) + TableLines(f.tables)))))
  {
    var afterVars := [Eol, Int(|f.lines|)] + (ScopeLines(f.lines) + TableLines(f.tables));
    assert Write(f) == [Word("MARKOV")] + ([Eol, Int(|f.cards|)] + (IntLine(f.cards) + afterVars));
  }

  /** The preamble written for f reads back as f's variables and stored scopes. */
  lemma ReadsPreamble(f: UaiFile, next: nat)
    requires InRange(f)
    ensures Preamble(Write(f), next) == Ok((Numbered(f.cards, next), StoredScopes(f, next), TableLines(f.tables)))
  {
    var tail := TableLines(f.tables);
    var afterVars := [Eol, Int(|f.lines|)] + (ScopeLines(f.lines) + tail);
    ReadsHeader(f, next);
    ReadsVariables(f.cards, next, afterVars);
    ReadsInt(|f.cards|, IntLine(f.cards) + afterVars);
    ReadsInt(|f.lines|, ScopeLines(f.lines) + tail);
    ReadsScopes(f, next, tail);
  }

  lemma RefusesPreamble(f: UaiFile, next: nat)
    requires !InRange(f)
    ensures ParseUai(Write(f), next) == Err(BadVariableIndex)
  {
    var tail := TableLines(f.tables);
    var afterVars := [Eol, Int(|f.lines|)] + (ScopeLines(f.lines) + tail);
    ReadsHeader(f, next);
    ReadsVariables(f.cards, next, afterVars);
    ReadsInt(|f.cards|, IntLine(f.cards) + afterVars);
    ReadsInt(|f.lines|, ScopeLines(f.lines) + tail);
    RefusesScopes(f, next, tail);
  }

  lemma {:induction false} RefusesScopeLine(line: seq<nat>, vars: seq<Variable>, rest: seq<Token>)
    requires exists k :: 0 <= k < |line| && line[k] >= |vars|
    ensures ScopeLine(IntLine(line) + rest, |line|, vars) == Err(BadVariableIndex)
    decreases |line|
  {
    assert IntLine(line) + rest == [Int(line[0])] + (IntLine(line[1..]) + rest);
    ReadsInt(line[0], IntLine(line[1..]) + rest);
    if line[0] < |vars| {
      var k :| 0 <= k < |line| && line[k] >= |vars|;
      assert line[1..][k - 1] >= |vars|;
      RefusesScopeLine(line[1..], vars, rest);
    }
  }

  /** An index outside [0, nvars) in any scope line is refused. */
  lemma {:induction false} RefusesScopes(f: UaiFile, next: nat, rest: seq<Token>)
    requires !InRange(f)
    ensures Scopes(ScopeLines(f.lines) + rest, |f.lines|, Numbered(f.cards, next)) == Err(BadVariableIndex)
    decreases |f.lines|
  {
    var l, g := f.lines[0], UaiFile(f.cards, f.lines[1..], f.tables);
    var vars := Numbered(f.cards, next);
    var after := ScopeLines(g.lines) + rest;
    assert ScopeLines(f.lines) + rest == [Eol, Int(|l|)] + (IntLine(l) + after);
    if forall k :: 0 <= k < |l| ==> l[k] < |vars| {
      ReadsScopeEntry(l, vars, after);
      assert !InRange(g) by {
        var i, k :| 0 <= i < |f.lines| && 0 <= k < |f.lines[i]| && f.lines[i][k] >= |f.cards|;
        assert i != 0 && g.lines[i - 1] == f.lines[i];
      }
      RefusesScopes(g, next, rest);
    } else {
      RefusesScopeEntry(l, vars, after);
    }
  }

  /** What a written file reads back as: a variable-index failure when a
      scope line lists an index outside [0, nvars); otherwise its model when
      every table has the size of its scope's domain, and a table-size
      failure when one does not. */
  lemma ReadsBack(f: UaiFile, next: nat)
    requires |f.tables| == |f.lines|
    ensures !InRange(f) ==> ParseUai(Write(f), next) == Err(BadVariableIndex)
    ensures InRange(f) && Sized(f, next) ==>
      ParseUai(Write(f), next) == Ok(Model(Numbered(f.cards, next), StoredScopes(f, next), f.tables))
    ensures InRange(f) && !Sized(f, next) ==> ParseUai(Write(f), next) == Err(BadTableSize)
  {
    var tail := TableLines(f.tables);
    if !InRange(f) {
      RefusesPreamble(f, next);
    } else {
      ReadsPreamble(f, next);
      assert tail + [] == tail;
      if Sized(f, next) {
        ReadsTables(f.tables, Sizes(StoredScopes(f, next)), []);
      } else {
        RefusesTables(f.tables, Sizes(StoredScopes(f, next)), []);
      }
    }
  }
}

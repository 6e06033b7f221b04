/** Pulling aggregates out of compound expressions.

    Every extracted aggregate becomes an output of the grouping, under a
    generated alias, and its place is taken by that alias.
 */
module Aggregates {
  import opened Prelude
  import opened Lqa

  datatype AggItem = AggItem(expr: Expr, alias: string)

  function AggAlias(n: nat): string {
    "_agg_ex_" + Decimal(n)
  }

  lemma AggAliasInjective(a: nat, b: nat)
    ensures AggAlias(a) == AggAlias(b) ==> a == b
  {
    assert AggAlias(a)[8..] == Decimal(a) && AggAlias(b)[8..] == Decimal(b);
    DecimalInjective(a, b);
  }

  // The search the compiler makes before it extracts anything.
  predicate ContainsAggregate(e: Expr) {
    match e
    case Aggregate(_, _, _) => true
    case Arith(_, a, b) => ContainsAggregate(a) || ContainsAggregate(b)
    case And(a, b) => ContainsAggregate(a) || ContainsAggregate(b)
    case Or(a, b) => ContainsAggregate(a) || ContainsAggregate(b)
    case Xor(a, b) => ContainsAggregate(a) || ContainsAggregate(b)
    case Comparison(_, a, b) => ContainsAggregate(a) || ContainsAggregate(b)
    case Unary(_, a) => ContainsAggregate(a)
    case Not(a) => ContainsAggregate(a)
    case IsNull(a) => ContainsAggregate(a)
    case IsNotNull(a) => ContainsAggregate(a)
    case Property(a, _) => ContainsAggregate(a)
    case FunctionCall(_, _, es) => ContainsAny(es)
    case List(es) => ContainsAny(es)
    case CaseSearched(bs, o) => ContainsBranch(bs) || ContainsOpt(o)
    case ListComprehension(_, l, f, p) => ContainsAggregate(l) || ContainsOpt(f) || ContainsOpt(p)
    case _ => false
  }

  predicate ContainsOpt(e: Option<Expr>) {
    e.Some? && ContainsAggregate(e.value)
  }

  predicate ContainsAny(es: seq<Expr>) {
    es != [] && (ContainsAggregate(es[0]) || ContainsAny(es[1..]))
  }

  predicate ContainsBranch(bs: seq<Branch>) {
    && bs != []
    && (assert bs decreases to bs[0]; ContainsAggregate(bs[0].cond) || ContainsAggregate(bs[0].result) || ContainsBranch(bs[1..]))
  }

  // ---------- Extraction ----------

  datatype Extraction<T> = Extraction(result: T, aggs: seq<AggItem>, next: nat)

  // Extraction goes through arithmetic, negation, calls and comprehensions,
  // and leaves every other expression as it is.
  function Extract(e: Expr, c: nat): Extraction<Expr> {
    match e
    case Aggregate(_, _, _) => Extraction(Variable(AggAlias(c)), [AggItem(e, AggAlias(c))], c + 1)
    case Arith(op, a, b) =>
      var x := Extract(a, c);
      var y := Extract(b, x.next);
      Extraction(Arith(op, x.result, y.result), x.aggs + y.aggs, y.next)
    case Unary(op, a) =>
      var x := Extract(a, c);
      Extraction(Unary(op, x.result), x.aggs, x.next)
    case Not(a) =>
      var x := Extract(a, c);
      Extraction(Not(x.result), x.aggs, x.next)
    case FunctionCall(f, d, es) =>
      var x := ExtractAll(es, c);
      Extraction(FunctionCall(f, d, x.result), x.aggs, x.next)
    case ListComprehension(v, l, f, p) =>
      var x := Extract(l, c);
      var y := ExtractOpt(f, x.next);
      var z := ExtractOpt(p, y.next);
      Extraction(ListComprehension(v, x.result, y.result, z.result), x.aggs + y.aggs + z.aggs, z.next)
    case _ => Extraction(e, [], c)
  }

  function ExtractOpt(e: Option<Expr>, c: nat): (r: Extraction<Option<Expr>>)
    ensures r.result.Some? <==> e.Some?
  {
    if e.None? then Extraction(None, [], c)
    else
      var x := Extract(e.value, c);
      Extraction(Some(x.result), x.aggs, x.next)
  }

  function ExtractAll(es: seq<Expr>, c: nat): (r: Extraction<seq<Expr>>)
    ensures |r.result| == |es|
  {
    if es == [] then Extraction([], [], c)
    else
      var x := Extract(es[0], c);
      var y := ExtractAll(es[1..], x.next);
      Extraction([x.result] + y.result, x.aggs + y.aggs, y.next)
  }

  // ---------- One constructor at a time ----------

  lemma ExtractAggregate(e: Expr, c: nat)
    requires e.Aggregate?
    ensures Extract(e, c) == Extraction(Variable(AggAlias(c)), [AggItem(e, AggAlias(c))], c + 1)
  {
  }

  lemma ExtractArith(op: ArithOp, a: Expr, b: Expr, c: nat)
    ensures var x := Extract(a, c); var y := Extract(b, x.next);
            Extract(Arith(op, a, b), c) == Extraction(Arith(op, x.result, y.result), x.aggs + y.aggs, y.next)
  {
  }

  lemma ExtractOperand(e: Expr, c: nat)
    requires e.Unary? || e.Not?
    ensures var x := Extract(e.e, c);
            Extract(e, c) == Extraction(if e.Not? then Not(x.result) else Unary(e.uop, x.result), x.aggs, x.next)
  {
  }

  lemma ExtractCall(f: string, d: bool, es: seq<Expr>, c: nat)
    ensures var x := ExtractAll(es, c); Extract(FunctionCall(f, d, es), c) == Extraction(FunctionCall(f, d, x.result), x.aggs, x.next)
  {
    hide ExtractAll;
  }

  lemma ExtractComprehension(e: Expr, c: nat)
    requires e.ListComprehension?
    ensures var x := Extract(e.list, c); var y := ExtractOpt(e.filter, x.next); var z := ExtractOpt(e.projection, y.next);
            Extract(e, c) == Extraction(ListComprehension(e.variable, x.result, y.result, z.result), x.aggs + y.aggs + z.aggs, z.next)
  {
    hide ExtractOpt;
  }

  lemma ExtractOther(e: Expr, c: nat)
    requires !e.Aggregate? && !e.Arith? && !e.Unary? && !e.Not? && !e.FunctionCall? && !e.ListComprehension?
    ensures Extract(e, c) == Extraction(e, [], c)
  {
  }

  method ExtractNestedAggregates(e: Expr, aggs: seq<AggItem>, counter: nat)
    returns (r: Expr, aggs': seq<AggItem>, counter': nat)
    ensures var x := Extract(e, counter); r == x.result && aggs' == aggs + x.aggs && counter' == x.next
    decreases e
  {
    hide Extract, AggAlias, ExtractAll, ExtractOpt;
    match e {
      case Aggregate(_, _, _) =>
        var alias := AggAlias(counter);
        ExtractAggregate(e, counter);
        return Variable(alias), aggs + [AggItem(e, alias)], counter + 1;
      case Arith(op, a, b) =>
        ghost var x := Extract(a, counter);
        ExtractArith(op, a, b, counter);
        Regroup(aggs, x.aggs, Extract(b, x.next).aggs);
        var la, lb;
        la, aggs', counter' := ExtractNestedAggregates(a, aggs, counter);
        lb, aggs', counter' := ExtractNestedAggregates(b, aggs', counter');
        r := Arith(op, la, lb);
      case Unary(op, a) =>
        ExtractOperand(e, counter);
        var la;
        la, aggs', counter' := ExtractNestedAggregates(a, aggs, counter);
        r := Unary(op, la);
      case Not(a) =>
        ExtractOperand(e, counter);
        var la;
        la, aggs', counter' := ExtractNestedAggregates(a, aggs, counter);
        r := Not(la);
      case FunctionCall(f, d, es) =>
        ExtractCall(f, d, es, counter);
        var les;
        les, aggs', counter' := ExtractArguments(es, aggs, counter);
        r := FunctionCall(f, d, les);
      case ListComprehension(v, l, f, p) =>
        ghost var x := Extract(l, counter);
        ghost var y := ExtractOpt(f, x.next);
        ExtractComprehension(e, counter);
        Regroup(aggs, x.aggs, y.aggs);
        Regroup(aggs, x.aggs + y.aggs, ExtractOpt(p, y.next).aggs);
        var ll, lf, lp;
        ll, aggs', counter' := ExtractNestedAggregates(l, aggs, counter);
        lf, aggs', counter' := ExtractOptional(f, aggs', counter');
        lp, aggs', counter' := ExtractOptional(p, aggs', counter');
        r := ListComprehension(v, ll, lf, lp);
      case _ =>
        ExtractOther(e, counter);
        Regroup(aggs, [], []);
        return e, aggs, counter;
    }
  }

  lemma Regroup(a: seq<AggItem>, b: seq<AggItem>, c: seq<AggItem>)
    ensures a + (b + c) == (a + b) + c && a + [] == a
  {
  }

  method ExtractOptional(e: Option<Expr>, aggs: seq<AggItem>, counter: nat)
    returns (r: Option<Expr>, aggs': seq<AggItem>, counter': nat)
    ensures var x := ExtractOpt(e, counter); r == x.result && aggs' == aggs + x.aggs && counter' == x.next
    decreases e
  {
    if e.None? {
      Regroup(aggs, [], []);
      return None, aggs, counter;
    }
    var la;
    la, aggs', counter' := ExtractNestedAggregates(e.value, aggs, counter);
    r := Some(la);
  }

  method ExtractArguments(es: seq<Expr>, aggs: seq<AggItem>, counter: nat)
    returns (r: seq<Expr>, aggs': seq<AggItem>, counter': nat)
    ensures var x := ExtractAll(es, counter); r == x.result && aggs' == aggs + x.aggs && counter' == x.next
    decreases es
  {
    r, aggs', counter' := [], aggs, counter;
    var i := 0;
    while i < |es|
      invariant 0 <= i <= |es|
      invariant ExtractAll(es, counter).result == r + ExtractAll(es[i..], counter').result
      invariant aggs + ExtractAll(es, counter).aggs == aggs' + ExtractAll(es[i..], counter').aggs
      invariant ExtractAll(es, counter).next == ExtractAll(es[i..], counter').next
    {
      assert es[i..][0] == es[i] && es[i..][1..] == es[i + 1..];
      ghost var x := Extract(es[i], counter');
      ghost var rest := ExtractAll(es[i + 1..], x.next);
      assert r + ([x.result] + rest.result) == (r + [x.result]) + rest.result;
      assert aggs' + (x.aggs + rest.aggs) == (aggs' + x.aggs) + rest.aggs;
      var la;
      la, aggs', counter' := ExtractNestedAggregates(es[i], aggs', counter');
      r := r + [la];
      i := i + 1;
    }
    assert es[|es|..] == [];
  }

  // ---------- The aliases ----------

  ghost predicate AliasesFrom(aggs: seq<AggItem>, c: nat, next: nat) {
    && next == c + |aggs|
    && forall i :: 0 <= i < |aggs| ==> aggs[i].alias == AggAlias(c + i) && aggs[i].expr.Aggregate?
  }

  // Extraction uses up the counter one alias at a time.
  lemma {:induction false} ExtractAliases(e: Expr, c: nat)
    ensures AliasesFrom(Extract(e, c).aggs, c, Extract(e, c).next)
  {
    hide Extract, AggAlias;
    match e {
      case Aggregate(_, _, _) => ExtractAggregate(e, c);
      case Arith(op, a, b) =>
        ExtractAliases(a, c);
        ExtractAliases(b, Extract(a, c).next);
        ExtractArith(op, a, b, c);
      case Unary(_, a) =>
        ExtractAliases(a, c);
        ExtractOperand(e, c);
      case Not(a) =>
        ExtractAliases(a, c);
        ExtractOperand(e, c);
      case FunctionCall(f, d, es) =>
        ExtractAllAliases(es, c);
        ExtractCall(f, d, es, c);
      case ListComprehension(_, l, f, p) =>
        var x := Extract(l, c);
        var y := ExtractOpt(f, x.next);
        ExtractAliases(l, c);
        if f.Some? { ExtractAliases(f.value, x.next); }
        if p.Some? { ExtractAliases(p.value, y.next); }
        ExtractComprehension(e, c);
      case _ => ExtractOther(e, c);
    }
  }

  lemma {:induction false} ExtractAllAliases(es: seq<Expr>, c: nat)
    ensures AliasesFrom(ExtractAll(es, c).aggs, c, ExtractAll(es, c).next)
  {
    if es != [] {
      ExtractAliases(es[0], c);
      ExtractAllAliases(es[1..], Extract(es[0], c).next);
    }
  }

  // ---------- Extraction preserves values ----------

  // The variables under the aggregates that extraction reaches.
  function AggVars(e: Expr): set<string> {
    match e
    case Aggregate(_, _, _) => Free(e)
    case Arith(_, a, b) => AggVars(a) + AggVars(b)
    case Unary(_, a) => AggVars(a)
    case Not(a) => AggVars(a)
    case FunctionCall(_, _, es) => AggVarsAll(es)
    case ListComprehension(_, l, f, p) => AggVars(l) + AggVarsOpt(f) + AggVarsOpt(p)
    case _ => {}
  }

  function AggVarsOpt(e: Option<Expr>): set<string> {
    if e.None? then {} else AggVars(e.value)
  }

  function AggVarsAll(es: seq<Expr>): set<string> {
    if es == [] then {} else AggVars(es[0]) + AggVarsAll(es[1..])
  }

  // No comprehension variable is mentioned by an aggregate inside the
  // comprehension, and none looks like a generated alias.
  ghost predicate NoCapture(e: Expr) {
    match e
    case Arith(_, a, b) => NoCapture(a) && NoCapture(b)
    case Unary(_, a) => NoCapture(a)
    case Not(a) => NoCapture(a)
    case FunctionCall(_, _, es) => forall i :: 0 <= i < |es| ==> NoCapture(es[i])
    case ListComprehension(v, l, f, p) =>
      && v !in AggVarsOpt(f) + AggVarsOpt(p)
      && (forall n: nat :: v != AggAlias(n))
      && NoCapture(l)
      && (f.Some? ==> NoCapture(f.value))
      && (p.Some? ==> NoCapture(p.value))
    case _ => true
  }

  // env gives every alias the value of its aggregate over the group.
  ghost predicate Bound(m: Meaning, aggs: seq<AggItem>, env: Env, group: seq<Env>) {
    forall i :: 0 <= i < |aggs| ==> Eval(m, aggs[i].expr, map[], group) == Some(Lookup(env, aggs[i].alias))
  }

  lemma {:induction false} AggVarsCover(e: Expr, c: nat, i: nat)
    requires i < |Extract(e, c).aggs|
    ensures Free(Extract(e, c).aggs[i].expr) <= AggVars(e)
  {
    match e {
      case Aggregate(_, _, _) =>
      case Arith(_, a, b) =>
        var x := Extract(a, c);
        if i < |x.aggs| { AggVarsCover(a, c, i); } else { AggVarsCover(b, x.next, i - |x.aggs|); }
      case Unary(_, a) => AggVarsCover(a, c, i);
      case Not(a) => AggVarsCover(a, c, i);
      case FunctionCall(_, _, es) => AggVarsCoverAll(es, c, i);
      case ListComprehension(_, l, f, p) =>
        var x := Extract(l, c);
        var y := ExtractOpt(f, x.next);
        if i < |x.aggs| {
          AggVarsCover(l, c, i);
        } else if i < |x.aggs| + |y.aggs| {
          AggVarsCover(f.value, x.next, i - |x.aggs|);
        } else {
          AggVarsCover(p.value, y.next, i - |x.aggs| - |y.aggs|);
        }
    }
  }

  lemma {:induction false} AggVarsCoverAll(es: seq<Expr>, c: nat, i: nat)
    requires i < |ExtractAll(es, c).aggs|
    ensures Free(ExtractAll(es, c).aggs[i].expr) <= AggVarsAll(es)
  {
    var x := Extract(es[0], c);
    if i < |x.aggs| { AggVarsCover(es[0], c, i); } else { AggVarsCoverAll(es[1..], x.next, i - |x.aggs|); }
  }

  // The rewritten expression, where the aliases are bound, has the value of
  // the original, where they are not.
  lemma {:induction false} ExtractPreserves(m: Meaning, e: Expr, c: nat, env: Env, env': Env, group: seq<Env>)
    requires NoCapture(e)
    requires Agree(Outer(e), env, env') && Bound(m, Extract(e, c).aggs, env', group)
    ensures Eval(m, Extract(e, c).result, env', group) == Eval(m, e, env, group)
    decreases e, 2, 1
  {
    hide Eval, NoCapture, Free, Outer, Agree, Bound;
    match e {
      case Aggregate(_, _, _) => ExtractAggregatePreserves(m, e, c, env, env', group);
      case Arith(_, _, _) => ExtractOperatorPreserves(m, e, c, env, env', group);
      case Unary(_, _) => ExtractOperatorPreserves(m, e, c, env, env', group);
      case Not(_) => ExtractOperatorPreserves(m, e, c, env, env', group);
      case FunctionCall(_, _, _) => ExtractCallPreserves(m, e, c, env, env', group);
      case ListComprehension(_, _, _, _) => ExtractComprehensionPreserves(m, e, c, env, env', group);
      case _ =>
        assert AgreeAll(Free(e), group, group) by { SameRowsAgree(Free(e), group); }
        OuterCoincidence(m, e, env, env', group, group);
    }
  }

  lemma SameRowsAgree(xs: set<string>, rows: seq<Env>)
    ensures AgreeAll(xs, rows, rows)
  {
  }

  lemma ExtractAggregatePreserves(m: Meaning, e: Expr, c: nat, env: Env, env': Env, group: seq<Env>)
    requires e.Aggregate? && Bound(m, Extract(e, c).aggs, env', group)
    ensures Eval(m, Extract(e, c).result, env', group) == Eval(m, e, env, group)
  {
    hide EvalAll, EvalPairs, EvalBranches, EvalRows, Comprehend;
    assert Extract(e, c).aggs[0].expr == e;
    assert Eval(m, e, env, group) == Eval(m, e, map[], group);
  }

  lemma {:induction false} ExtractOperatorPreserves(m: Meaning, e: Expr, c: nat, env: Env, env': Env, group: seq<Env>)
    requires (e.Arith? || e.Unary? || e.Not?) && NoCapture(e)
    requires Agree(Outer(e), env, env') && Bound(m, Extract(e, c).aggs, env', group)
    ensures Eval(m, Extract(e, c).result, env', group) == Eval(m, e, env, group)
    decreases e, 2, 0
  {
    hide EvalAll, EvalPairs, EvalBranches, EvalRows, Comprehend, Bound;
    match e {
      case Arith(_, a, b) =>
        var x := Extract(a, c);
        var y := Extract(b, x.next);
        BoundSplit(m, x.aggs, y.aggs, env', group);
        ExtractPreserves(m, a, c, env, env', group);
        ExtractPreserves(m, b, x.next, env, env', group);
      case Unary(_, a) => ExtractPreserves(m, a, c, env, env', group);
      case Not(a) => ExtractPreserves(m, a, c, env, env', group);
    }
  }

  lemma {:induction false} ExtractCallPreserves(m: Meaning, e: Expr, c: nat, env: Env, env': Env, group: seq<Env>)
    requires e.FunctionCall? && NoCapture(e)
    requires Agree(Outer(e), env, env') && Bound(m, Extract(e, c).aggs, env', group)
    ensures Eval(m, Extract(e, c).result, env', group) == Eval(m, e, env, group)
    decreases e, 2, 0
  {
    hide EvalAll, EvalPairs, EvalBranches, EvalRows, Comprehend, Bound, ExtractAll;
    ExtractAllPreserves(m, e.args, c, env, env', group);
  }

  lemma BoundSplit(m: Meaning, a: seq<AggItem>, b: seq<AggItem>, env: Env, group: seq<Env>)
    requires Bound(m, a + b, env, group)
    ensures Bound(m, a, env, group) && Bound(m, b, env, group)
  {
    forall i | 0 <= i < |a|
      ensures Eval(m, a[i].expr, map[], group) == Some(Lookup(env, a[i].alias))
    {
      assert (a + b)[i] == a[i];
    }
    forall i | 0 <= i < |b|
      ensures Eval(m, b[i].expr, map[], group) == Some(Lookup(env, b[i].alias))
    {
      assert (a + b)[|a| + i] == b[i];
    }
  }

  lemma {:induction false} ExtractAllPreserves(m: Meaning, es: seq<Expr>, c: nat, env: Env, env': Env, group: seq<Env>)
    requires forall i :: 0 <= i < |es| ==> NoCapture(es[i])
    requires Agree(OuterAll(es), env, env') && Bound(m, ExtractAll(es, c).aggs, env', group)
    ensures EvalAll(m, ExtractAll(es, c).result, env', group) == EvalAll(m, es, env, group)
    decreases es, 0, 0
  {
    if es != [] {
      var x := Extract(es[0], c);
      var y := ExtractAll(es[1..], x.next);
      BoundSplit(m, x.aggs, y.aggs, env', group);
      ExtractPreserves(m, es[0], c, env, env', group);
      ExtractAllPreserves(m, es[1..], x.next, env, env', group);
      assert ExtractAll(es, c).result[1..] == y.result;
    }
  }

  lemma {:induction false} ExtractComprehensionPreserves(m: Meaning, e: Expr, c: nat, env: Env, env': Env, group: seq<Env>)
    requires e.ListComprehension? && NoCapture(e)
    requires Agree(Outer(e), env, env') && Bound(m, Extract(e, c).aggs, env', group)
    ensures Eval(m, Extract(e, c).result, env', group) == Eval(m, e, env, group)
    decreases e, 1, 0
  {
    var x := Extract(e.list, c);
    var y := ExtractOpt(e.filter, x.next);
    var z := ExtractOpt(e.projection, y.next);
    BoundSplit(m, x.aggs + y.aggs, z.aggs, env', group);
    BoundSplit(m, x.aggs, y.aggs, env', group);
    ExtractPreserves(m, e.list, c, env, env', group);
    var vl := Eval(m, e.list, env, group);
    if vl.Some? && vl.value.VList? {
      ComprehendPreserves(m, e, c, vl.value.items, env, env', group);
    }
  }

  // Binding a comprehension variable disturbs neither the aliases nor the aggregates they stand for.
  lemma BoundUnderBinder(m: Meaning, e: Expr, c: nat, v: string, w: Value, env: Env, group: seq<Env>)
    requires Bound(m, Extract(e, c).aggs, env, group)
    requires v !in AggVars(e) && forall n: nat :: v != AggAlias(n)
    ensures Bound(m, Extract(e, c).aggs, Bind(env, v, w), BindAll(group, v, w))
  {
    var aggs := Extract(e, c).aggs;
    ExtractAliases(e, c);
    forall i | 0 <= i < |aggs|
      ensures Eval(m, aggs[i].expr, map[], BindAll(group, v, w)) == Some(Lookup(Bind(env, v, w), aggs[i].alias))
    {
      AggVarsCover(e, c, i);
      forall k | 0 <= k < |group|
        ensures Agree(Free(aggs[i].expr), BindAll(group, v, w)[k], group[k])
      {
      }
      Coincidence(m, aggs[i].expr, map[], map[], BindAll(group, v, w), group);
      assert aggs[i].alias == AggAlias(c + i);
    }
  }

  lemma {:induction false} ComprehendPreserves(m: Meaning, e: Expr, c: nat, vs: seq<Value>, env: Env, env': Env, group: seq<Env>)
    requires e.ListComprehension? && NoCapture(e)
    requires Agree(Outer(e), env, env')
    requires var y := ExtractOpt(e.filter, Extract(e.list, c).next);
             Bound(m, y.aggs, env', group) && Bound(m, ExtractOpt(e.projection, y.next).aggs, env', group)
    ensures Comprehend(m, Extract(e, c).result, vs, env', group) == Comprehend(m, e, vs, env, group)
    decreases e, 0, |vs|
  {
    if vs != [] {
      var x, w := e.variable, vs[0];
      var c1 := Extract(e.list, c).next;
      var c2 := ExtractOpt(e.filter, c1).next;
      AgreeBind(Outer(e), OuterOpt(e.filter) + OuterOpt(e.projection), x, w, env, env');
      if e.filter.Some? {
        BoundUnderBinder(m, e.filter.value, c1, x, w, env', group);
        ExtractPreserves(m, e.filter.value, c1, Bind(env, x, w), Bind(env', x, w), BindAll(group, x, w));
      }
      if e.projection.Some? {
        BoundUnderBinder(m, e.projection.value, c2, x, w, env', group);
        ExtractPreserves(m, e.projection.value, c2, Bind(env, x, w), Bind(env', x, w), BindAll(group, x, w));
      }
      ComprehendPreserves(m, e, c, vs[1..], env, env', group);
    }
  }

  // ---------- What extraction leaves behind ----------

  // An aggregate sits under a constructor that extraction does not enter.
  predicate Hidden(e: Expr) {
    match e
    case Aggregate(_, _, _) => false
    case Arith(_, a, b) => Hidden(a) || Hidden(b)
    case Unary(_, a) => Hidden(a)
    case Not(a) => Hidden(a)
    case FunctionCall(_, _, es) => HiddenAny(es)
    case ListComprehension(_, l, f, p) => Hidden(l) || HiddenOpt(f) || HiddenOpt(p)
    case _ => ContainsAggregate(e)
  }

  predicate HiddenOpt(e: Option<Expr>) {
    e.Some? && Hidden(e.value)
  }

  predicate HiddenAny(es: seq<Expr>) {
    es != [] && (Hidden(es[0]) || HiddenAny(es[1..]))
  }

  // Extraction gets rid of all aggregates exactly when none is hidden.
  lemma {:induction false} ExtractComplete(e: Expr, c: nat)
    ensures ContainsAggregate(Extract(e, c).result) <==> Hidden(e)
  {
    hide Extract, ContainsAggregate, Hidden;
    match e {
      case Arith(_, a, b) =>
        ExtractComplete(a, c);
        ExtractComplete(b, Extract(a, c).next);
        OperatorComplete(e, c);
      case Unary(_, a) =>
        ExtractComplete(a, c);
        OperatorComplete(e, c);
      case Not(a) =>
        ExtractComplete(a, c);
        OperatorComplete(e, c);
      case FunctionCall(_, _, es) =>
        ExtractAllComplete(es, c);
        CallComplete(e, c);
      case ListComprehension(_, l, f, p) =>
        var x := Extract(l, c);
        var y := ExtractOpt(f, x.next);
        ExtractComplete(l, c);
        if f.Some? { ExtractComplete(f.value, x.next); }
        if p.Some? { ExtractComplete(p.value, y.next); }
        ComprehensionComplete(e, c);
      case _ => OtherComplete(e, c);
    }
  }

  lemma OperatorComplete(e: Expr, c: nat)
    requires e.Arith? || e.Unary? || e.Not?
    requires e.Arith? ==> (ContainsAggregate(Extract(e.l, c).result) <==> Hidden(e.l))
                          && (ContainsAggregate(Extract(e.r, Extract(e.l, c).next).result) <==> Hidden(e.r))
    requires e.Unary? || e.Not? ==> (ContainsAggregate(Extract(e.e, c).result) <==> Hidden(e.e))
    ensures ContainsAggregate(Extract(e, c).result) <==> Hidden(e)
  {
    hide AggAlias, ContainsAny, ContainsBranch, ContainsOpt, HiddenAny, HiddenOpt, ExtractAll, ExtractOpt;
  }

  lemma CallComplete(e: Expr, c: nat)
    requires e.FunctionCall? && (ContainsAny(ExtractAll(e.args, c).result) <==> HiddenAny(e.args))
    ensures ContainsAggregate(Extract(e, c).result) <==> Hidden(e)
  {
    hide AggAlias, ContainsAny, ContainsBranch, ContainsOpt, HiddenAny, HiddenOpt, ExtractAll, ExtractOpt;
  }

  lemma ComprehensionComplete(e: Expr, c: nat)
    requires e.ListComprehension?
    requires var x := Extract(e.list, c); var y := ExtractOpt(e.filter, x.next); var z := ExtractOpt(e.projection, y.next);
             && (ContainsAggregate(x.result) <==> Hidden(e.list))
             && (ContainsOpt(y.result) <==> HiddenOpt(e.filter))
             && (ContainsOpt(z.result) <==> HiddenOpt(e.projection))
    ensures ContainsAggregate(Extract(e, c).result) <==> Hidden(e)
  {
    hide AggAlias, ContainsAny, ContainsBranch, ContainsOpt, HiddenAny, HiddenOpt, ExtractAll, ExtractOpt;
  }

  lemma OtherComplete(e: Expr, c: nat)
    requires !e.Arith? && !e.Unary? && !e.Not? && !e.FunctionCall? && !e.ListComprehension?
    ensures ContainsAggregate(Extract(e, c).result) <==> Hidden(e)
  {
    hide AggAlias, ContainsAny, ContainsBranch, ContainsOpt, HiddenAny, HiddenOpt, ExtractAll, ExtractOpt;
  }

  lemma {:induction false} ExtractAllComplete(es: seq<Expr>, c: nat)
    ensures ContainsAny(ExtractAll(es, c).result) <==> HiddenAny(es)
  {
    if es != [] {
      var x := Extract(es[0], c);
      ExtractComplete(es[0], c);
      ExtractAllComplete(es[1..], x.next);
      assert ExtractAll(es, c).result[1..] == ExtractAll(es[1..], x.next).result;
    }
  }

  // count(n) > 1 contains an aggregate, and extraction returns it unchanged.
  lemma ComparisonHidesAggregate()
    ensures
      var e := Comparison(Gt, Aggregate(Count, false, Some(Variable("n"))), Lit(Integer(1)));
      ContainsAggregate(e) && Extract(e, 0) == Extraction(e, [], 0)
  {
  }

  // ---------- ORDER BY ----------

  // The alias of the first item for the aggregate e.
  function FindAlias(e: Expr, aggs: seq<AggItem>): Option<string> {
    if aggs == [] then None
    else if aggs[0].expr == e then Some(aggs[0].alias)
    else FindAlias(e, aggs[1..])
  }

  // Sort keys refer to the aliases of the aggregates already computed.
  function RewriteAggsToVars(e: Expr, aggs: seq<AggItem>): Expr {
    match e
    case Aggregate(_, _, _) => (match FindAlias(e, aggs) case Some(a) => Variable(a) case None => e)
    case Arith(op, a, b) => if op == Pow then e else Arith(op, RewriteAggsToVars(a, aggs), RewriteAggsToVars(b, aggs))
    case _ => e
  }

  lemma {:induction false} FindAliasFinds(e: Expr, aggs: seq<AggItem>)
    ensures FindAlias(e, aggs).Some? ==> exists i :: 0 <= i < |aggs| && aggs[i] == AggItem(e, FindAlias(e, aggs).value)
  {
    if aggs != [] && aggs[0].expr == e {
      assert aggs[0] == AggItem(e, FindAlias(e, aggs).value);
    } else if aggs != [] {
      FindAliasFinds(e, aggs[1..]);
      if FindAlias(e, aggs).Some? {
        var i :| 0 <= i < |aggs[1..]| && aggs[1..][i] == AggItem(e, FindAlias(e, aggs).value);
        assert aggs[i + 1] == AggItem(e, FindAlias(e, aggs).value);
      }
    }
  }

  // A rewritten sort key orders rows as the key did.
  lemma {:induction false} RewritePreserves(m: Meaning, e: Expr, aggs: seq<AggItem>, env: Env, group: seq<Env>)
    requires Bound(m, aggs, env, group)
    ensures Eval(m, RewriteAggsToVars(e, aggs), env, group) == Eval(m, e, env, group)
  {
    hide Eval;
    match e {
      case Aggregate(_, _, _) =>
        FindAliasFinds(e, aggs);
        EvalAggregate(m, e, env, map[], group);
        if FindAlias(e, aggs).Some? {
          EvalVariable(m, FindAlias(e, aggs).value, env, group);
        }
      case Arith(op, a, b) =>
        RewritePreserves(m, a, aggs, env, group);
        RewritePreserves(m, b, aggs, env, group);
        EvalArith(m, op, a, b, env, group);
        EvalArith(m, op, RewriteAggsToVars(a, aggs), RewriteAggsToVars(b, aggs), env, group);
      case _ =>
    }
  }
}

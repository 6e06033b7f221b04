/** Where aggregates are looked for, and which of them sort keys refer to by alias. */
module AggregateParts {
  import opened Prelude
  import opened Lqa
  import opened Aggregates
  import R = ReturnItems

  // ---------- Looking for aggregates ----------

  // The parts of an expression in which an aggregate is looked for: not the entries of a map,
  // nor a subscript, a label check or an aggregate itself.
  function Parts(e: Expr): (parts: set<Expr>)
    ensures forall x :: x in parts ==> (e decreases to x)
  {
    match e
    case Unary(_, a) => {a}
    case Not(a) => {a}
    case IsNull(a) => {a}
    case IsNotNull(a) => {a}
    case Property(a, _) => {a}
    case Arith(_, a, b) => {a, b}
    case And(a, b) => {a, b}
    case Or(a, b) => {a, b}
    case Xor(a, b) => {a, b}
    case Comparison(_, a, b) => {a, b}
    case FunctionCall(_, _, es) => set x | x in es
    case List(es) => set x | x in es
    case CaseSearched(bs, o) => WhenParts(bs) + OptPart(o)
    case ListComprehension(_, l, f, p) => {l} + OptPart(f) + OptPart(p)
    case _ => {}
  }

  function OptPart(e: Option<Expr>): set<Expr> {
    if e.Some? then {e.value} else {}
  }

  function WhenParts(bs: seq<Branch>): (parts: set<Expr>)
    ensures forall x :: x in parts <==> exists i :: 0 <= i < |bs| && (x == bs[i].cond || x == bs[i].result)
    ensures forall x :: x in parts ==> (bs decreases to x)
  {
    if bs == [] then {}
    else
      assert bs decreases to bs[0];
      assert forall i :: 0 < i < |bs| ==> bs[i] == bs[1..][i - 1];
      {bs[0].cond, bs[0].result} + WhenParts(bs[1..])
  }

  ghost predicate IsWithin(a: Expr, e: Expr) {
    a == e || exists x :: x in Parts(e) && IsWithin(a, x)
  }

  ghost predicate HasAggregate(e: Expr) {
    exists a: Expr :: a.Aggregate? && IsWithin(a, e)
  }

  lemma HasAggregateStep(e: Expr)
    ensures HasAggregate(e) <==> e.Aggregate? || exists x :: x in Parts(e) && HasAggregate(x)
  {
    forall a: Expr | a.Aggregate? && IsWithin(a, e) && a != e
      ensures exists x :: x in Parts(e) && HasAggregate(x)
    {
      var x :| x in Parts(e) && IsWithin(a, x);
    }
    if x :| x in Parts(e) && HasAggregate(x) {
      var a: Expr :| a.Aggregate? && IsWithin(a, x);
      assert IsWithin(a, e);
    }
    if e.Aggregate? {
      assert IsWithin(e, e);
    }
  }

  // The search finds an aggregate exactly where there is one.
  lemma {:induction false} ContainsAggregateIff(e: Expr)
    ensures ContainsAggregate(e) <==> HasAggregate(e)
  {
    hide HasAggregate, ContainsAggregate;
    HasAggregateStep(e);
    LookedFor(e);
    forall x | x in Parts(e)
      ensures ContainsAggregate(x) <==> HasAggregate(x)
    {
      ContainsAggregateIff(x);
    }
  }

  lemma {:induction false} AnyIs(es: seq<Expr>)
    ensures ContainsAny(es) <==> exists x :: x in es && ContainsAggregate(x)
  {
    hide ContainsAggregate;
    if es != [] {
      AnyIs(es[1..]);
      assert es[0] in es;
      if x :| x in es[1..] && ContainsAggregate(x) {
        assert x in es;
      }
      if x :| x in es && ContainsAggregate(x) {
        assert x == es[0] || x in es[1..];
      }
    }
  }

  lemma {:induction false} BranchIs(bs: seq<Branch>)
    ensures ContainsBranch(bs) <==> exists x :: x in WhenParts(bs) && ContainsAggregate(x)
  {
    hide ContainsAggregate;
    if bs != [] {
      BranchIs(bs[1..]);
      assert forall x :: x in WhenParts(bs) <==> x in {bs[0].cond, bs[0].result} || x in WhenParts(bs[1..]);
      assert bs[0].cond in WhenParts(bs) && bs[0].result in WhenParts(bs);
    }
  }

  lemma LookedFor(e: Expr)
    ensures ContainsAggregate(e) <==> e.Aggregate? || exists x :: x in Parts(e) && ContainsAggregate(x)
  {
    hide ContainsAny, ContainsBranch, WhenParts;
    match e {
      case FunctionCall(_, _, es) => AnyIs(es);
      case List(es) => AnyIs(es);
      case CaseSearched(bs, o) =>
        BranchIs(bs);
        assert forall x :: x in Parts(e) <==> x in WhenParts(bs) || o == Some(x);
      case ListComprehension(_, l, f, p) => assert forall x :: x in Parts(e) <==> x == l || f == Some(x) || p == Some(x);
      case _ => OperandsLookedFor(e);
    }
  }

  lemma OperandsLookedFor(e: Expr)
    requires !e.FunctionCall? && !e.List? && !e.CaseSearched? && !e.ListComprehension?
    ensures ContainsAggregate(e) <==> e.Aggregate? || exists x :: x in Parts(e) && ContainsAggregate(x)
  {
    match e {
      case Unary(_, a) => assert a in Parts(e);
      case Not(a) => assert a in Parts(e);
      case IsNull(a) => assert a in Parts(e);
      case IsNotNull(a) => assert a in Parts(e);
      case Property(a, _) => assert a in Parts(e);
      case Arith(_, a, b) => assert a in Parts(e) && b in Parts(e);
      case And(a, b) => assert a in Parts(e) && b in Parts(e);
      case Or(a, b) => assert a in Parts(e) && b in Parts(e);
      case Xor(a, b) => assert a in Parts(e) && b in Parts(e);
      case Comparison(_, a, b) => assert a in Parts(e) && b in Parts(e);
      case _ =>
    }
  }

  // So an item is a group key exactly when no aggregate stands in it where one is looked
  // for, and it is not the folded size.
  lemma GroupKeyIff(e: Expr)
    ensures R.KindOf(e) == R.GroupKey <==> !HasAggregate(e) && !R.IsSizeOfNonNulls(e)
    ensures R.KindOf(e) == R.AggregateOutput <==> e.Aggregate?
  {
    hide HasAggregate;
    ContainsAggregateIff(e);
  }

  // The map {total: count(*)} is taken for a group key.
  lemma MapHidesAggregate()
    ensures R.KindOf(Map([Entry("total", Aggregate(CountStar, false, None))])) == R.GroupKey
  {
  }

  // ---------- Sort keys ----------

  // a stands in a sort key below sums, differences, products, quotients and remainders only.
  predicate IsReached(a: Expr, e: Expr) {
    a == e || (e.Arith? && e.op in {Add, Sub, Mul, Div, Mod} && (IsReached(a, e.l) || IsReached(a, e.r)))
  }

  predicate IsListed(a: Expr, aggs: seq<AggItem>) {
    exists i :: 0 <= i < |aggs| && aggs[i].expr == a
  }

  lemma {:induction false} FindAliasIff(e: Expr, aggs: seq<AggItem>)
    ensures FindAlias(e, aggs).Some? <==> IsListed(e, aggs)
    ensures FindAlias(e, aggs).Some? ==>
              exists i :: 0 <= i < |aggs| && aggs[i] == AggItem(e, FindAlias(e, aggs).value) && forall j :: 0 <= j < i ==> aggs[j].expr != e
  {
    if aggs != [] {
      var rest := aggs[1..];
      FindAliasIff(e, rest);
      assert forall i :: 0 < i < |aggs| ==> aggs[i] == rest[i - 1];
      if aggs[0].expr != e && FindAlias(e, aggs).Some? {
        var i :| 0 <= i < |rest| && rest[i] == AggItem(e, FindAlias(e, aggs).value) && forall j :: 0 <= j < i ==> rest[j].expr != e;
        assert aggs[i + 1] == AggItem(e, FindAlias(e, aggs).value);
      } else if aggs[0].expr == e {
        assert aggs[0] == AggItem(e, FindAlias(e, aggs).value);
      }
    }
  }

  // The listed aggregates that a sort key reaches are replaced, all of them, and it reaches no
  // aggregate that it did not reach before.
  lemma {:induction false} RewriteReplaces(e: Expr, aggs: seq<AggItem>, a: Expr)
    requires a.Aggregate?
    ensures IsReached(a, RewriteAggsToVars(e, aggs)) <==> IsReached(a, e) && !IsListed(a, aggs)
  {
    match e {
      case Aggregate(_, _, _) => FindAliasIff(e, aggs);
      case Arith(op, l, r) =>
        RewriteReplaces(l, aggs, a);
        RewriteReplaces(r, aggs, a);
      case _ =>
    }
  }
}

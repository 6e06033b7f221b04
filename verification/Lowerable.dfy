/** Which expressions are lowered.

    Lowering refuses operands of logical operators and right sides of IN that
    cannot be of the right type, and ranges whose folding leaves i64; nothing
    else.
 */
module Lowerable {
  import opened Prelude
  import opened LowerExpr
  import L = Lqa
  import C = Cypher
  import Range

  // A number, a string, a list, a map and a negation are no truth values.
  predicate MayBeTruth(e: C.Expression) {
    match e
    case Literal(l) =>
      (match l
       case Integer(_) => false
       case Float(_) => false
       case String(_) => false
       case _ => true)
    case List(_) => false
    case Map(_) => false
    case Negate(_) => false
    case _ => true
  }

  // A scalar literal other than null and a map are no lists.
  predicate MayBeList(e: C.Expression) {
    match e
    case Literal(l) =>
      (match l
       case Integer(_) => false
       case Float(_) => false
       case String(_) => false
       case Boolean(_) => false
       case _ => true)
    case Map(_) => false
    case _ => true
  }

  datatype Bounds = Bounds(start: int, end: int, step: int)

  function IntOf(e: C.Expression): Option<int> {
    match e
    case Literal(l) => (match l case Integer(n) => Some(n) case _ => None)
    case _ => None
  }

  // range(start, end) or range(start, end, step) of integer literals, the step not 0.
  function RangeOf(name: string, args: seq<C.Expression>): Option<Bounds> {
    if L.EqIgnoreAsciiCase(name, "range") && 2 <= |args| <= 3 then
      var start :- IntOf(args[0]);
      var end :- IntOf(args[1]);
      var step :- if |args| == 2 then Some(1) else IntOf(args[2]);
      if step == 0 then None else Some(Bounds(start, end, step))
    else None
  }

  // The increment after the last element is an i64.
  predicate Ends(b: Bounds) {
    b.step != 0 && FitsI64(b.start + Range.Count(b.start, b.end, b.step) * b.step)
  }

  // What lowering accepts; of a literal list with a literal index it looks at the element
  // picked alone, and of a folded range at no argument.
  predicate IsLowerable(e: C.Expression) {
    match e
    case Variable(_) => true
    case Literal(_) => true
    case Property(a, _) => IsLowerable(a)
    case Arith(_, a, b) => IsLowerable(a) && IsLowerable(b)
    case Negate(a) => IsLowerable(a)
    case Not(a) => MayBeTruth(a) && IsLowerable(a)
    case IsNull(a) => IsLowerable(a)
    case IsNotNull(a) => IsLowerable(a)
    case Or(a, b) => MayBeTruth(a) && MayBeTruth(b) && IsLowerable(a) && IsLowerable(b)
    case Xor(a, b) => MayBeTruth(a) && MayBeTruth(b) && IsLowerable(a) && IsLowerable(b)
    case And(a, b) => MayBeTruth(a) && MayBeTruth(b) && IsLowerable(a) && IsLowerable(b)
    case Comparison(a, op, b) => (op == L.In ==> MayBeList(b)) && IsLowerable(a) && IsLowerable(b)
    case FunctionCall(f, _, es) =>
      if RangeOf(f, es).Some? then Ends(RangeOf(f, es).value) else forall i :: 0 <= i < |es| ==> IsLowerable(es[i])
    case Aggregate(_, _, arg) => arg.Some? ==> IsLowerable(arg.value)
    case LabelCheck(_, _) => true
    case List(es) => forall i :: 0 <= i < |es| ==> IsLowerable(es[i])
    case Map(ps) => forall i :: 0 <= i < |ps| ==> IsLowerable(ps[i].value)
    case Subscript(a, b) =>
      if a.List? && IntOf(b).Some? then
        var i := IndexOf(a.items, IntOf(b).value);
        0 <= i < |a.items| ==> IsLowerable(a.items[i])
      else IsLowerable(a) && IsLowerable(b)
    case CaseExpression(o, ws, d) =>
      && (o.Some? ==> IsLowerable(o.value))
      && (forall i :: 0 <= i < |ws| ==> assert ws decreases to ws[i]; IsLowerable(ws[i].cond) && IsLowerable(ws[i].result))
      && (d.Some? ==> IsLowerable(d.value))
    case ListComprehension(_, l, p, j) =>
      && IsLowerable(l)
      && (p.Some? ==> IsLowerable(p.value))
      && (j.Some? ==> IsLowerable(j.value))
  }

  lemma RangeIsFolded(e: C.Expression)
    requires e.FunctionCall? && C.WellFormed(e)
    ensures FoldsRange(e) <==> RangeOf(e.fname, e.args).Some?
    ensures RangeOf(e.fname, e.args).Some? ==>
              var b := RangeOf(e.fname, e.args).value;
              && FitsI64(b.start) && FitsI64(b.end) && b.step != 0
              && e.args[0].lit.n == b.start && e.args[1].lit.n == b.end && b.step == (if |e.args| == 3 then e.args[2].lit.n else 1)
  {
    if RangeOf(e.fname, e.args).Some? {
      assert C.WellFormed(e.args[0]) && C.WellFormed(e.args[1]);
    }
  }

  // A folded range is the list of the progression.
  lemma FoldedRange(name: string, distinct: bool, args: seq<C.Expression>)
    requires RangeOf(name, args).Some? && C.WellFormed(C.FunctionCall(name, distinct, args))
    ensures var e, b := C.FunctionCall(name, distinct, args), RangeOf(name, args).value;
            && (Lower(e).Ok? <==> Ends(b))
            && (Ends(b) ==>
                 var r := Lower(e).value;
                 && r.List? && |r.items| == Range.Count(b.start, b.end, b.step)
                 && forall k :: 0 <= k < |r.items| ==> r.items[k] == L.Lit(L.Integer(b.start + k * b.step)))
  {
    hide Range.Loop, Range.Count, L.Progression, L.EqIgnoreAsciiCase;
    var e, b := C.FunctionCall(name, distinct, args), RangeOf(name, args).value;
    RangeIsFolded(e);
    Range.LoopIsProgression(b.start, b.end, b.step);
    Range.ProgressionIsArithmetic(b.start, b.end, b.step);
  }

  // Lowering succeeds exactly on what it accepts.
  lemma {:induction false} LoweredIff(e: C.Expression)
    requires C.WellFormed(e)
    ensures Lower(e).Ok? <==> IsLowerable(e)
    decreases e, 1
  {
    hide FoldsRange, RangeOf, Ends, LowerWhens, LowerOpt;
    match e {
      case Variable(_) =>
      case Literal(_) =>
      case LabelCheck(_, _) =>
      case Property(_, _) => UnaryLoweredIff(e);
      case Arith(_, a, b) => LoweredIff(a); LoweredIff(b);
      case Negate(_) => UnaryLoweredIff(e);
      case IsNull(_) => UnaryLoweredIff(e);
      case IsNotNull(_) => UnaryLoweredIff(e);
      case Not(_) => LogicLoweredIff(e);
      case Or(_, _) => LogicLoweredIff(e);
      case Xor(_, _) => LogicLoweredIff(e);
      case And(_, _) => LogicLoweredIff(e);
      case Comparison(_, _, _) => LogicLoweredIff(e);
      case FunctionCall(f, d, es) => CallLoweredIff(f, d, es);
      case Aggregate(_, _, arg) => if arg.Some? { LoweredIff(arg.value); }
      case List(es) => AllLoweredIff(es);
      case Map(ps) => PairsLoweredIff(ps);
      case Subscript(a, b) => SubscriptLoweredIff(e, a, b);
      case CaseExpression(o, ws, d) => CaseLoweredIff(e, o, ws, d);
      case ListComprehension(_, l, p, j) => ComprehensionLoweredIff(e, l, p, j);
    }
  }

  lemma {:induction false} UnaryLoweredIff(e: C.Expression)
    requires C.WellFormed(e) && (e.Property? || e.Negate? || e.IsNull? || e.IsNotNull?)
    ensures Lower(e).Ok? <==> IsLowerable(e)
    decreases e, 0
  {
    LoweredIff(e.e);
  }

  lemma {:induction false} LogicLoweredIff(e: C.Expression)
    requires C.WellFormed(e) && (e.Not? || e.Or? || e.Xor? || e.And? || e.Comparison?)
    ensures Lower(e).Ok? <==> IsLowerable(e)
    decreases e, 0
  {
    hide IsLowerable, Lower, MayBeTruth, MayBeList, C.WellFormed;
    LogicParts(e);
    LogicAccepted(e);
    LogicLowered(e);
    if e.Comparison? {
      ComparisonLowered(e.l, e.cmp, e.r);
    }
    if !e.Not? {
      LoweredIff(e.l);
      LoweredIff(e.r);
    } else {
      LoweredIff(e.e);
    }
  }

  lemma LogicParts(e: C.Expression)
    requires C.WellFormed(e)
    ensures e.Not? ==> C.WellFormed(e.e)
    ensures e.Or? || e.Xor? || e.And? || e.Comparison? ==> C.WellFormed(e.l) && C.WellFormed(e.r)
  {
  }

  lemma LogicAccepted(e: C.Expression)
    ensures e.Not? ==> (IsLowerable(e) <==> MayBeTruth(e.e) && IsLowerable(e.e))
    ensures e.Or? || e.Xor? || e.And? ==> (IsLowerable(e) <==> MayBeTruth(e.l) && MayBeTruth(e.r) && IsLowerable(e.l) && IsLowerable(e.r))
    ensures e.Comparison? ==> (IsLowerable(e) <==> (e.cmp == L.In ==> MayBeList(e.r)) && IsLowerable(e.l) && IsLowerable(e.r))
  {
  }

  lemma LogicLowered(e: C.Expression)
    ensures e.Not? ==> (Lower(e).Ok? <==> MayBeTruth(e.e) && Lower(e.e).Ok?)
    ensures e.Or? || e.Xor? || e.And? ==> (Lower(e).Ok? <==> MayBeTruth(e.l) && MayBeTruth(e.r) && Lower(e.l).Ok? && Lower(e.r).Ok?)
  {
    hide LowerWhens, LowerOpt, LowerAll, LowerPairs, Range.Loop, FoldsRange;
  }

  lemma ComparisonLowered(a: C.Expression, op: L.CmpOp, b: C.Expression)
    ensures Lower(C.Comparison(a, op, b)).Ok? <==> (op == L.In ==> MayBeList(b)) && Lower(a).Ok? && Lower(b).Ok?
  {
    hide LowerWhens, LowerOpt, LowerAll, LowerPairs, Range.Loop, FoldsRange;
  }

  lemma {:induction false} CallLoweredIff(f: string, d: bool, es: seq<C.Expression>)
    requires C.WellFormed(C.FunctionCall(f, d, es))
    ensures Lower(C.FunctionCall(f, d, es)).Ok? <==> IsLowerable(C.FunctionCall(f, d, es))
    decreases C.FunctionCall(f, d, es), 0
  {
    hide FoldsRange, RangeOf, Ends, LowerAll;
    RangeIsFolded(C.FunctionCall(f, d, es));
    if RangeOf(f, es).Some? {
      FoldedRange(f, d, es);
    } else {
      AllLoweredIff(es);
    }
  }

  lemma {:induction false} ComprehensionLoweredIff(e: C.Expression, l: C.Expression, p: Option<C.Expression>, j: Option<C.Expression>)
    requires C.WellFormed(e) && e.ListComprehension? && l == e.list && p == e.filter && j == e.projection
    ensures Lower(e).Ok? <==> IsLowerable(e)
    decreases e, 0
  {
    LoweredIff(l);
    if p.Some? { LoweredIff(p.value); }
    if j.Some? { LoweredIff(j.value); }
  }

  lemma {:induction false} SubscriptLoweredIff(e: C.Expression, a: C.Expression, b: C.Expression)
    requires e == C.Subscript(a, b) && C.WellFormed(e)
    ensures Lower(e).Ok? <==> IsLowerable(e)
    decreases e, 0
  {
    if a.List? && IntOf(b).Some? {
      var i := IndexOf(a.items, b.lit.n);
      if 0 <= i < |a.items| {
        assert C.WellFormed(a) && C.WellFormed(a.items[i]);
        LoweredIff(a.items[i]);
      }
    } else {
      LoweredIff(a);
      LoweredIff(b);
    }
  }

  lemma {:induction false} CaseLoweredIff(e: C.Expression, o: Option<C.Expression>, ws: seq<C.Branch>, d: Option<C.Expression>)
    requires e == C.CaseExpression(o, ws, d) && C.WellFormed(e)
    ensures Lower(e).Ok? <==> IsLowerable(e)
    decreases e, 0
  {
    if o.Some? { LoweredIff(o.value); }
    if d.Some? { LoweredIff(d.value); }
    if LowerOpt(o).Ok? {
      WhensLoweredIff(LowerOpt(o).value, ws);
    }
  }

  lemma {:induction false} AllLoweredIff(es: seq<C.Expression>)
    requires forall i :: 0 <= i < |es| ==> C.WellFormed(es[i])
    ensures LowerAll(es).Ok? <==> forall i :: 0 <= i < |es| ==> IsLowerable(es[i])
    decreases es, 0
  {
    hide Lower, IsLowerable, C.WellFormed;
    if es != [] {
      LoweredIff(es[0]);
      AllLoweredIff(es[1..]);
      assert forall i :: 0 < i < |es| ==> es[i] == es[1..][i - 1];
    }
  }

  lemma {:induction false} PairsLoweredIff(ps: seq<C.Entry>)
    requires forall i :: 0 <= i < |ps| ==> C.WellFormed(ps[i].value)
    ensures LowerPairs(ps).Ok? <==> forall i :: 0 <= i < |ps| ==> IsLowerable(ps[i].value)
    decreases ps, 0
  {
    hide Lower, IsLowerable, C.WellFormed;
    if ps != [] {
      LoweredIff(ps[0].value);
      PairsLoweredIff(ps[1..]);
      assert forall i :: 0 < i < |ps| ==> ps[i] == ps[1..][i - 1];
    }
  }

  lemma {:induction false} WhensLoweredIff(subject: Option<L.Expr>, ws: seq<C.Branch>)
    requires forall i :: 0 <= i < |ws| ==> C.WellFormed(ws[i].cond) && C.WellFormed(ws[i].result)
    ensures LowerWhens(subject, ws).Ok? <==> forall i :: 0 <= i < |ws| ==> IsLowerable(ws[i].cond) && IsLowerable(ws[i].result)
    decreases ws, 0
  {
    hide Lower, IsLowerable, C.WellFormed;
    if ws != [] {
      assert ws decreases to ws[0];
      LoweredIff(ws[0].cond);
      LoweredIff(ws[0].result);
      WhensLoweredIff(subject, ws[1..]);
      assert forall i :: 0 < i < |ws| ==> ws[i] == ws[1..][i - 1];
    }
  }

  // ---------- What is refused ----------

  // A number, a string, a list or a map, in an operand that must be a truth value.
  predicate IsIllTyped(e: C.Expression) {
    var bad := (a: C.Expression) => !MayBeTruth(a) && !a.Negate?;
    match e
    case Not(a) => bad(a)
    case And(a, b) => bad(a) || bad(b)
    case Or(a, b) => bad(a) || bad(b)
    case Xor(a, b) => bad(a) || bad(b)
    case _ => false
  }

  lemma NoTruth(m: L.Meaning, a: C.Expression, env: L.Env, group: seq<L.Env>)
    requires !MayBeTruth(a) && !a.Negate?
    ensures C.Eval(m, a, env, group).Some? ==> !L.IsTruth(C.Eval(m, a, env, group).value)
  {
    match a {
      case Literal(_) =>
      case List(_) => EvalListC(m, a, env, group);
      case Map(_) =>
    }
  }

  // An expression refused for such an operand has no value in Cypher.
  lemma RefusedHasNoValue(m: L.Meaning, e: C.Expression, env: L.Env, group: seq<L.Env>)
    requires IsIllTyped(e)
    ensures Lower(e).Err? && C.Eval(m, e, env, group) == None
  {
    match e {
      case Not(a) => NoTruth(m, a, env, group);
      case And(a, b) => if !MayBeTruth(a) && !a.Negate? { NoTruth(m, a, env, group); } else { NoTruth(m, b, env, group); }
      case Or(a, b) => if !MayBeTruth(a) && !a.Negate? { NoTruth(m, a, env, group); } else { NoTruth(m, b, env, group); }
      case Xor(a, b) => if !MayBeTruth(a) && !a.Negate? { NoTruth(m, a, env, group); } else { NoTruth(m, b, env, group); }
    }
  }

  // The four string operators become calls, of these names, and no other comparison does.
  lemma StringOperatorsAreCalls(a: C.Expression, op: L.CmpOp, b: C.Expression)
    requires Lower(C.Comparison(a, op, b)).Ok?
    ensures var la, lb, r := Lower(a), Lower(b), Lower(C.Comparison(a, op, b)).value;
            && la.Ok? && lb.Ok?
            && match op
               case StartsWith => r == L.FunctionCall("startsWith", false, [la.value, lb.value])
               case EndsWith => r == L.FunctionCall("endsWith", false, [la.value, lb.value])
               case Contains => r == L.FunctionCall("contains", false, [la.value, lb.value])
               case RegexMatch => r == L.FunctionCall("regex", false, [la.value, lb.value])
               case _ => r == L.Comparison(op, la.value, lb.value)
  {
    hide LowerWhens, LowerOpt, LowerAll, LowerPairs, Range.Loop, FoldsRange;
  }

  // What the error says, where it is the operation itself that is refused.
  lemma RefusalNames(e: C.Expression)
    ensures e.Not? && !MayBeTruth(e.e) ==> Lower(e) == Err(TypeMismatch("NOT"))
    ensures e.And? && (!MayBeTruth(e.l) || !MayBeTruth(e.r)) ==> Lower(e) == Err(TypeMismatch("AND"))
    ensures e.Or? && (!MayBeTruth(e.l) || !MayBeTruth(e.r)) ==> Lower(e) == Err(TypeMismatch("OR"))
    ensures e.Xor? && (!MayBeTruth(e.l) || !MayBeTruth(e.r)) ==> Lower(e) == Err(TypeMismatch("XOR"))
    ensures e.Comparison? && e.cmp == L.In && !MayBeList(e.r) ==> Lower(e) == Err(TypeMismatch("IN"))
    ensures e.FunctionCall? && C.WellFormed(e) && RangeOf(e.fname, e.args).Some? && !Ends(RangeOf(e.fname, e.args).value) ==> Lower(e) == Err(Overflow)
  {
    hide LowerWhens, LowerOpt, LowerAll, LowerPairs, Range.Loop, RangeOf, Ends;
    if e.FunctionCall? && C.WellFormed(e) && RangeOf(e.fname, e.args).Some? {
      RangeIsFolded(e);
      FoldedRange(e.fname, e.distinct, e.args);
    }
  }

  // A negation is refused although it may be null: NOT -a is lowered nowhere, and has a
  // value in Cypher exactly where a is null.
  lemma RefusedNegationIff(m: L.Meaning, a: C.Expression, env: L.Env, group: seq<L.Env>)
    ensures Lower(C.Not(C.Negate(a))).Err?
    ensures C.Eval(m, C.Not(C.Negate(a)), env, group).Some? <==> C.Eval(m, a, env, group) == Some(L.VNull)
  {
    assert C.Eval(m, C.Negate(a), env, group) == (if C.Eval(m, a, env, group).None? then None else L.UnaryV(L.Neg, C.Eval(m, a, env, group).value));
  }
}

/** Lowering of Cypher expressions to the algebra.

    Desugars XOR, the simple form of CASE and the string operators, and folds
    negated integer literals, constant subscripts and range() of literals.
 */
module LowerExpr {
  import opened Prelude
  import L = Lqa
  import C = Cypher
  import Range

  datatype LowerError = TypeMismatch(message: string) | Overflow

  predicate IsDefinitelyNonBoolean(e: C.Expression) {
    || (e.Literal? && (e.lit.Integer? || e.lit.Float? || e.lit.String?))
    || e.List? || e.Map? || e.Negate?
  }

  predicate IsDefinitelyNonList(e: C.Expression) {
    || (e.Literal? && (e.lit.Boolean? || e.lit.Integer? || e.lit.Float? || e.lit.String?))
    || e.Map?
  }

  function IntLits(ns: seq<int>): (r: seq<L.Expr>)
    ensures |r| == |ns| && forall i :: 0 <= i < |ns| ==> r[i] == L.Lit(L.Integer(ns[i]))
  {
    seq(|ns|, i requires 0 <= i < |ns| => L.Lit(L.Integer(ns[i])))
  }

  predicate IsIntLit(e: C.Expression) {
    e.Literal? && e.lit.Integer?
  }

  // range() of integer literals with a non-zero step is folded to a list.
  predicate FoldsRange(e: C.Expression)
    requires e.FunctionCall?
  {
    && L.EqIgnoreAsciiCase(e.fname, "range")
    && (|e.args| == 2 || |e.args| == 3)
    && (forall i :: 0 <= i < |e.args| ==> IsIntLit(e.args[i]))
    && (|e.args| == 3 ==> e.args[2].lit.n != 0)
  }

  // A literal list with a literal index is folded to the element.
  predicate FoldsSubscript(e: C.Expression)
    requires e.Subscript?
  {
    e.list.List? && IsIntLit(e.index)
  }

  // Rust's release build wraps when the least i64 is negated.
  function NegateI64(n: int): int {
    if n == I64_MIN then I64_MIN else -n
  }

  predicate IsStringOp(op: L.CmpOp) {
    op.StartsWith? || op.EndsWith? || op.Contains? || op.RegexMatch?
  }

  function StringOpName(op: L.CmpOp): string
    requires IsStringOp(op)
  {
    match op
    case StartsWith => "startsWith"
    case EndsWith => "endsWith"
    case Contains => "contains"
    case RegexMatch => "regex"
  }

  function Lower(e: C.Expression): Result<L.Expr, LowerError>
    decreases e
  {
    match e
    case Variable(x) => Ok(L.Variable(x))
    case Literal(l) => Ok(L.Lit(l))
    case Property(a, k) =>
      var la :- Lower(a);
      Ok(L.Property(la, k))
    case Arith(op, a, b) =>
      var la :- Lower(a);
      var lb :- Lower(b);
      Ok(L.Arith(op, la, lb))
    case Negate(a) =>
      if IsIntLit(a) then Ok(L.Lit(L.Integer(NegateI64(a.lit.n))))
      else
        var la :- Lower(a);
        Ok(L.Unary(L.Neg, la))
    case Not(a) =>
      if IsDefinitelyNonBoolean(a) then Err(TypeMismatch("NOT"))
      else
        var la :- Lower(a);
        Ok(L.Not(la))
    case IsNull(a) =>
      var la :- Lower(a);
      Ok(L.IsNull(la))
    case IsNotNull(a) =>
      var la :- Lower(a);
      Ok(L.IsNotNull(la))
    case Or(a, b) =>
      if IsDefinitelyNonBoolean(a) || IsDefinitelyNonBoolean(b) then Err(TypeMismatch("OR"))
      else
        var la :- Lower(a);
        var lb :- Lower(b);
        Ok(L.Or(la, lb))
    case And(a, b) =>
      if IsDefinitelyNonBoolean(a) || IsDefinitelyNonBoolean(b) then Err(TypeMismatch("AND"))
      else
        var la :- Lower(a);
        var lb :- Lower(b);
        Ok(L.And(la, lb))
    case Xor(a, b) =>
      if IsDefinitelyNonBoolean(a) || IsDefinitelyNonBoolean(b) then Err(TypeMismatch("XOR"))
      else
        var la :- Lower(a);
        var lb :- Lower(b);
        Ok(L.And(L.Or(la, lb), L.Not(L.And(la, lb))))
    case Comparison(a, op, b) =>
      if op == L.In && IsDefinitelyNonList(b) then Err(TypeMismatch("IN"))
      else
        var la :- Lower(a);
        var lb :- Lower(b);
        Ok(if IsStringOp(op) then L.FunctionCall(StringOpName(op), false, [la, lb]) else L.Comparison(op, la, lb))
    case FunctionCall(f, d, es) =>
      if FoldsRange(e) then
        var ns := Range.Loop(es[0].lit.n, es[1].lit.n, if |es| == 3 then es[2].lit.n else 1);
        if ns.None? then Err(Overflow) else Ok(L.List(IntLits(ns.value)))
      else
        var les :- LowerAll(es);
        Ok(L.FunctionCall(f, d, les))
    case Aggregate(k, d, arg) =>
      if arg.None? then Ok(L.Aggregate(k, d, None))
      else
        var la :- Lower(arg.value);
        Ok(L.Aggregate(k, d, Some(la)))
    case LabelCheck(x, ls) => Ok(L.LabelCheck(L.Variable(x), ls))
    case List(es) =>
      var les :- LowerAll(es);
      Ok(L.List(les))
    case Map(ps) =>
      var lps :- LowerPairs(ps);
      Ok(L.Map(lps))
    case Subscript(a, b) =>
      if FoldsSubscript(e) then
        var i := if b.lit.n < 0 then |a.items| + b.lit.n else b.lit.n;
        if 0 <= i < |a.items| then Lower(a.items[i]) else Ok(L.Lit(L.Null))
      else
        var la :- Lower(a);
        var lb :- Lower(b);
        Ok(L.Subscript(la, lb))
    case CaseExpression(operand, ws, otherwise) =>
      var lsubject :- LowerOpt(operand);
      var lbs :- LowerWhens(lsubject, ws);
      var lo :- LowerOpt(otherwise);
      Ok(L.CaseSearched(lbs, lo))
    case ListComprehension(x, l, p, j) =>
      var ll :- Lower(l);
      var lp :- LowerOpt(p);
      var lj :- LowerOpt(j);
      Ok(L.ListComprehension(x, ll, lp, lj))
  }

  function LowerOpt(e: Option<C.Expression>): (r: Result<Option<L.Expr>, LowerError>)
    ensures r.Ok? ==> (r.value.Some? <==> e.Some?)
    decreases e
  {
    if e.None? then Ok(None)
    else
      var le :- Lower(e.value);
      Ok(Some(le))
  }

  function LowerAll(es: seq<C.Expression>): (r: Result<seq<L.Expr>, LowerError>)
    ensures r.Ok? ==> |r.value| == |es|
    decreases es
  {
    if es == [] then Ok([])
    else
      var le :- Lower(es[0]);
      var les :- LowerAll(es[1..]);
      Ok([le] + les)
  }

  function LowerPairs(ps: seq<C.Entry>): Result<seq<L.Entry>, LowerError>
    decreases ps
  {
    if ps == [] then Ok([])
    else
      var lv :- Lower(ps[0].value);
      var lps :- LowerPairs(ps[1..]);
      Ok([L.Entry(ps[0].key, lv)] + lps)
  }

  // The operand of a simple CASE is copied into an equality in every branch.
  function LowerWhens(subject: Option<L.Expr>, ws: seq<C.Branch>): Result<seq<L.Branch>, LowerError>
    decreases ws
  {
    if ws == [] then Ok([])
    else
      assert ws decreases to ws[0];
      var cond, result := ws[0].cond, ws[0].result;
      var lc :- Lower(cond);
      var lr :- Lower(result);
      var rest :- LowerWhens(subject, ws[1..]);
      Ok([L.When(if subject.Some? then L.Comparison(L.Eq, subject.value, lc) else lc, lr)] + rest)
  }

  // ---------- Lowering preserves meaning ----------

  // No fold of e forgets a part of it that could be an error.
  predicate Strict(e: C.Expression) {
    match e
    case Variable(_) => true
    case Literal(_) => true
    case Property(a, _) => Strict(a)
    case Arith(_, a, b) => Strict(a) && Strict(b)
    case Negate(a) => Strict(a) && a != C.Literal(L.Integer(I64_MIN))
    case Not(a) => Strict(a)
    case IsNull(a) => Strict(a)
    case IsNotNull(a) => Strict(a)
    case Or(a, b) => Strict(a) && Strict(b)
    case Xor(a, b) => Strict(a) && Strict(b)
    case And(a, b) => Strict(a) && Strict(b)
    case Comparison(a, _, b) => Strict(a) && Strict(b)
    case FunctionCall(_, _, es) => forall i :: 0 <= i < |es| ==> Strict(es[i])
    case Aggregate(_, _, arg) => arg.Some? ==> Strict(arg.value)
    case LabelCheck(_, _) => true
    case List(es) => forall i :: 0 <= i < |es| ==> Strict(es[i])
    case Map(ps) => forall i :: 0 <= i < |ps| ==> Strict(ps[i].value)
    case Subscript(a, b) => Strict(a) && Strict(b) && !FoldsSubscript(e)
    case CaseExpression(o, ws, d) =>
      && (o.Some? ==> Strict(o.value) && ws != [])
      && (forall i :: 0 <= i < |ws| ==> assert ws decreases to ws[i]; Strict(ws[i].cond) && Strict(ws[i].result))
      && (d.Some? ==> Strict(d.value))
    case ListComprehension(_, l, p, j) =>
      && Strict(l)
      && (p.Some? ==> Strict(p.value))
      && (j.Some? ==> Strict(j.value))
  }

  // Where the source has a value, the lowered expression has the same one.
  lemma LoweringPreservesValues(m: L.Meaning, e: C.Expression, env: L.Env, group: seq<L.Env>)
    requires C.WellFormed(e) && Lower(e).Ok?
    ensures C.Eval(m, e, env, group).Some? ==> L.Eval(m, Lower(e).value, env, group) == C.Eval(m, e, env, group)
  {
    Preserves(m, e, env, group);
  }

  // Without a lossy fold it fails in the same places too.
  lemma LoweringPreservesErrors(m: L.Meaning, e: C.Expression, env: L.Env, group: seq<L.Env>)
    requires C.WellFormed(e) && Lower(e).Ok? && Strict(e)
    ensures L.Eval(m, Lower(e).value, env, group) == C.Eval(m, e, env, group)
  {
    Preserves(m, e, env, group);
  }

  // [1, NOT 3][0] is a type error in Cypher, but its lowering is the literal 1.
  lemma SubscriptFoldForgetsErrors(m: L.Meaning, env: L.Env)
    ensures
      var e := C.Subscript(C.List([C.Literal(L.Integer(1)), C.Not(C.Literal(L.Integer(3)))]), C.Literal(L.Integer(0)));
      && C.Eval(m, e, env, []) == None
      && Lower(e) == Ok(L.Lit(L.Integer(1)))
  {
    var items := [C.Literal(L.Integer(1)), C.Not(C.Literal(L.Integer(3)))];
    var bad := items[1..];
    assert C.Eval(m, bad[0], env, []) == None;
    assert C.EvalAll(m, bad, env, []) == None;
    assert C.EvalAll(m, items, env, []) == None;
    assert Lower(items[0]) == Ok(L.Lit(L.Integer(1)));
  }

  // The element that a literal index picks; a negative one counts from the end.
  function IndexOf(items: seq<C.Expression>, n: int): int {
    if n < 0 then |items| + n else n
  }

  // The fold agrees with Cypher, errors included, exactly when every element has a value,
  // or the one picked has none either.
  lemma SubscriptFoldIff(m: L.Meaning, items: seq<C.Expression>, n: int, env: L.Env, group: seq<L.Env>)
    requires var e, i := C.Subscript(C.List(items), C.Literal(L.Integer(n))), IndexOf(items, n);
             C.WellFormed(e) && Lower(e).Ok? && (0 <= i < |items| ==> Strict(items[i]))
    ensures var e, i := C.Subscript(C.List(items), C.Literal(L.Integer(n))), IndexOf(items, n);
            L.Eval(m, Lower(e).value, env, group) == C.Eval(m, e, env, group)
            <==> C.EvalAll(m, items, env, group).Some? || (0 <= i < |items| && C.Eval(m, items[i], env, group).None?)
  {
    var e, i := C.Subscript(C.List(items), C.Literal(L.Integer(n))), IndexOf(items, n);
    hide C.Eval, C.EvalAll, L.Eval, Lower, C.WellFormed, Strict;
    Preserves(m, e, env, group);
    LoweredSubscript(m, items, n, env, group);
    ItemsWellFormed(items, n);
    L.EvalLiteral(m, L.Null, env, group);
    if 0 <= i < |items| {
      Preserves(m, items[i], env, group);
    }
  }

  lemma ItemsWellFormed(items: seq<C.Expression>, n: int)
    requires C.WellFormed(C.Subscript(C.List(items), C.Literal(L.Integer(n))))
    ensures forall i :: 0 <= i < |items| ==> C.WellFormed(items[i])
  {
    assert C.WellFormed(C.List(items));
  }

  lemma LoweredSubscript(m: L.Meaning, items: seq<C.Expression>, n: int, env: L.Env, group: seq<L.Env>)
    ensures var e, i := C.Subscript(C.List(items), C.Literal(L.Integer(n))), IndexOf(items, n);
            && Lower(e) == (if 0 <= i < |items| then Lower(items[i]) else Ok(L.Lit(L.Null)))
            && var vs := C.EvalAll(m, items, env, group);
               C.Eval(m, e, env, group) == if vs.None? then None else Some(if 0 <= i < |items| then vs.value[i] else L.VNull)
  {
    hide C.EvalAll, C.EvalPairs, C.EvalWhens, C.EvalRows, C.Comprehend;
    hide LowerAll, LowerPairs, LowerWhens, LowerOpt;
    EvalListC(m, C.List(items), env, group);
    assert C.Eval(m, C.Literal(L.Integer(n)), env, group) == Some(L.VInt(n));
  }

  ghost predicate Same(m: L.Meaning, e: C.Expression, env: L.Env, group: seq<L.Env>)
    requires Lower(e).Ok?
  {
    C.Eval(m, e, env, group).Some? || Strict(e) ==> L.Eval(m, Lower(e).value, env, group) == C.Eval(m, e, env, group)
  }

  lemma {:induction false} Preserves(m: L.Meaning, e: C.Expression, env: L.Env, group: seq<L.Env>)
    requires C.WellFormed(e) && Lower(e).Ok?
    ensures Same(m, e, env, group)
    decreases e, 1, 1
  {
    hide C.Eval, L.Eval, Lower, Same, Strict, C.WellFormed;
    match e {
      case Arith(_, _, _) => PreservesArith(m, e, env, group);
      case Comparison(_, _, _) => PreservesComparison(m, e, env, group);
      case Or(_, _) => PreservesLogic(m, e, env, group);
      case And(_, _) => PreservesLogic(m, e, env, group);
      case Xor(_, _) => PreservesLogic(m, e, env, group);
      case Subscript(_, _) => PreservesSubscript(m, e, env, group);
      case Aggregate(_, _, _) => PreservesAggregate(m, e, env, group);
      case CaseExpression(_, _, _) => PreservesCase(m, e, env, group);
      case ListComprehension(_, _, _, _) => PreservesComprehension(m, e, env, group);
      case List(_) => PreservesLists(m, e, env, group);
      case Map(_) => PreservesLists(m, e, env, group);
      case FunctionCall(_, _, _) => PreservesLists(m, e, env, group);
      case Negate(_) => PreservesNegate(m, e, env, group);
      case Variable(_) => PreservesLeaf(m, e, env, group);
      case Literal(_) => PreservesLeaf(m, e, env, group);
      case LabelCheck(_, _) => PreservesLeaf(m, e, env, group);
      case _ => PreservesUnary(m, e, env, group);
    }
  }

  lemma PreservesLeaf(m: L.Meaning, e: C.Expression, env: L.Env, group: seq<L.Env>)
    requires e.Variable? || e.Literal? || e.LabelCheck?
    ensures Lower(e).Ok? && Same(m, e, env, group)
  {
    hide C.EvalAll, C.EvalPairs, C.EvalWhens, C.EvalRows, C.Comprehend;
    hide L.EvalAll, L.EvalPairs, L.EvalBranches, L.EvalRows, L.Comprehend, LowerAll, LowerPairs, LowerWhens, LowerOpt;
    if e.LabelCheck? {
      assert L.Eval(m, L.Variable(e.variable), env, group) == Some(L.Lookup(env, e.variable));
    }
  }

  lemma {:induction false} PreservesNegate(m: L.Meaning, e: C.Expression, env: L.Env, group: seq<L.Env>)
    requires e.Negate? && C.WellFormed(e) && Lower(e).Ok?
    ensures Same(m, e, env, group)
    decreases e, 1, 0
  {
    hide C.EvalAll, C.EvalPairs, C.EvalWhens, C.EvalRows, C.Comprehend;
    hide L.EvalAll, L.EvalPairs, L.EvalBranches, L.EvalRows, L.Comprehend, LowerAll, LowerPairs, LowerWhens, LowerOpt;
    if IsIntLit(e.e) {
      assert C.Eval(m, e.e, env, group) == Some(L.VInt(e.e.lit.n));
    } else {
      Preserves(m, e.e, env, group);
    }
  }

  // The other operators with one operand.
  lemma {:induction false} PreservesUnary(m: L.Meaning, e: C.Expression, env: L.Env, group: seq<L.Env>)
    requires (e.Property? || e.Not? || e.IsNull? || e.IsNotNull?) && C.WellFormed(e) && Lower(e).Ok?
    ensures Same(m, e, env, group)
    decreases e, 1, 0
  {
    hide C.EvalAll, C.EvalPairs, C.EvalWhens, C.EvalRows, C.Comprehend;
    hide L.EvalAll, L.EvalPairs, L.EvalBranches, L.EvalRows, L.Comprehend, LowerAll, LowerPairs, LowerWhens, LowerOpt;
    Preserves(m, e.e, env, group);
  }

  lemma {:induction false} PreservesArith(m: L.Meaning, e: C.Expression, env: L.Env, group: seq<L.Env>)
    requires e.Arith? && C.WellFormed(e) && Lower(e).Ok?
    ensures Same(m, e, env, group)
    decreases e, 1, 0
  {
    hide C.EvalAll, C.EvalPairs, C.EvalWhens, C.EvalRows, C.Comprehend;
    hide L.EvalAll, L.EvalPairs, L.EvalBranches, L.EvalRows, L.Comprehend, LowerAll, LowerPairs, LowerWhens, LowerOpt;
    Preserves(m, e.l, env, group);
    Preserves(m, e.r, env, group);
  }

  lemma {:induction false} PreservesComparison(m: L.Meaning, e: C.Expression, env: L.Env, group: seq<L.Env>)
    requires e.Comparison? && C.WellFormed(e) && Lower(e).Ok?
    ensures Same(m, e, env, group)
    decreases e, 1, 0
  {
    hide C.EvalAll, C.EvalPairs, C.EvalWhens, C.EvalRows, C.Comprehend;
    hide L.EvalAll, L.EvalPairs, L.EvalBranches, L.EvalRows, L.Comprehend, LowerAll, LowerPairs, LowerWhens, LowerOpt;
    Preserves(m, e.l, env, group);
    Preserves(m, e.r, env, group);
    if IsStringOp(e.cmp) {
      StringOperators(m, e.cmp, Lower(e.l).value, Lower(e.r).value, env, group);
    }
  }

  lemma {:induction false} PreservesLogic(m: L.Meaning, e: C.Expression, env: L.Env, group: seq<L.Env>)
    requires (e.Or? || e.And? || e.Xor?) && C.WellFormed(e) && Lower(e).Ok?
    ensures Same(m, e, env, group)
    decreases e, 1, 0
  {
    hide C.EvalAll, C.EvalPairs, C.EvalWhens, C.EvalRows, C.Comprehend;
    hide L.EvalAll, L.EvalPairs, L.EvalBranches, L.EvalRows, L.Comprehend, LowerAll, LowerPairs, LowerWhens, LowerOpt;
    Preserves(m, e.l, env, group);
    Preserves(m, e.r, env, group);
    if e.Xor? {
      XorDesugars(m, Lower(e.l).value, Lower(e.r).value, env, group);
    }
  }

  // a XOR b is (a OR b) AND NOT (a AND b) in three-valued logic.
  lemma XorDesugars(m: L.Meaning, a: L.Expr, b: L.Expr, env: L.Env, group: seq<L.Env>)
    ensures L.Eval(m, L.And(L.Or(a, b), L.Not(L.And(a, b))), env, group) == L.Eval(m, L.Xor(a, b), env, group)
  {
    hide L.Eval;
    L.EvalAnd(m, a, b, env, group);
    L.EvalOr(m, a, b, env, group);
    L.EvalXor(m, a, b, env, group);
    L.EvalNot(m, L.And(a, b), env, group);
    L.EvalAnd(m, L.Or(a, b), L.Not(L.And(a, b)), env, group);
  }

  lemma StringOperators(m: L.Meaning, op: L.CmpOp, a: L.Expr, b: L.Expr, env: L.Env, group: seq<L.Env>)
    requires IsStringOp(op)
    ensures L.Eval(m, L.FunctionCall(StringOpName(op), false, [a, b]), env, group) == L.Eval(m, L.Comparison(op, a, b), env, group)
  {
    hide L.EvalAll, L.EvalPairs, L.EvalBranches, L.EvalRows, L.Comprehend;
    EvalPair(m, a, b, env, group);
    var va, vb := L.Eval(m, a, env, group), L.Eval(m, b, env, group);
    if va.Some? && vb.Some? {
      CallStringOp(m, op, va.value, vb.value);
    }
  }

  lemma CallStringOp(m: L.Meaning, op: L.CmpOp, a: L.Value, b: L.Value)
    requires IsStringOp(op)
    ensures L.CallV(m, StringOpName(op), false, [a, b]) == Some(L.CompareV(m, op, a, b))
  {
    assert "endsWith"[0] == 'e' && "contains"[0] == 'c' && "regex"[0] == 'r' && "startsWith"[0] == 's';
  }

  lemma EvalPair(m: L.Meaning, a: L.Expr, b: L.Expr, env: L.Env, group: seq<L.Env>)
    ensures L.EvalAll(m, [a, b], env, group)
         == var va, vb := L.Eval(m, a, env, group), L.Eval(m, b, env, group);
            if va.None? || vb.None? then None else Some([va.value, vb.value])
  {
    assert [a, b][1..] == [b] && [b][1..] == [];
    assert L.EvalAll(m, [], env, group) == Some([]);
    var vb := L.Eval(m, b, env, group);
    assert vb.Some? ==> [vb.value] + [] == [vb.value];
    assert L.EvalAll(m, [b], env, group) == if vb.None? then None else Some([vb.value]);
    var va := L.Eval(m, a, env, group);
    assert va.Some? && vb.Some? ==> [va.value] + [vb.value] == [va.value, vb.value];
  }

  lemma {:induction false} PreservesLists(m: L.Meaning, e: C.Expression, env: L.Env, group: seq<L.Env>)
    requires (e.List? || e.Map? || e.FunctionCall?) && C.WellFormed(e) && Lower(e).Ok?
    ensures Same(m, e, env, group)
    decreases e, 1, 0
  {
    hide C.EvalAll, C.EvalPairs, C.EvalWhens, C.EvalRows, C.Comprehend;
    hide L.EvalAll, L.EvalPairs, L.EvalBranches, L.EvalRows, L.Comprehend, LowerAll, LowerPairs, LowerWhens, LowerOpt;
    match e {
      case List(es) => PreservesAll(m, es, env, group);
      case Map(ps) => PreservesPairs(m, ps, env, group);
      case FunctionCall(_, _, es) =>
        if FoldsRange(e) {
          PreservesRange(m, e, env, group);
        } else {
          PreservesAll(m, es, env, group);
        }
    }
  }

  lemma {:induction false} PreservesAggregate(m: L.Meaning, e: C.Expression, env: L.Env, group: seq<L.Env>)
    requires e.Aggregate? && C.WellFormed(e) && Lower(e).Ok?
    ensures Same(m, e, env, group)
    decreases e, 1, 0
  {
    hide C.EvalAll, C.EvalPairs, C.EvalWhens, C.EvalRows, C.Comprehend;
    hide L.EvalAll, L.EvalPairs, L.EvalBranches, L.EvalRows, L.Comprehend, LowerAll, LowerPairs, LowerWhens, LowerOpt;
    if e.arg.Some? {
      PreservesRows(m, e.arg.value, group);
    } else {
      assert seq(|group|, _ => L.VBool(true)) == seq(|group|, _ => L.VBool(true));
    }
  }

  lemma {:induction false} PreservesComprehension(m: L.Meaning, e: C.Expression, env: L.Env, group: seq<L.Env>)
    requires e.ListComprehension? && C.WellFormed(e) && Lower(e).Ok?
    ensures Same(m, e, env, group)
    decreases e, 1, 0
  {
    hide C.EvalAll, C.EvalPairs, C.EvalWhens, C.EvalRows, C.Comprehend;
    hide L.EvalAll, L.EvalPairs, L.EvalBranches, L.EvalRows, L.Comprehend, LowerAll, LowerPairs, LowerWhens, LowerOpt;
    Preserves(m, e.list, env, group);
    var vl := C.Eval(m, e.list, env, group);
    if vl.Some? && vl.value.VList? {
      PreservesComprehend(m, e, vl.value.items, env, group);
    }
  }

  lemma {:induction false} PreservesAll(m: L.Meaning, es: seq<C.Expression>, env: L.Env, group: seq<L.Env>)
    requires (forall i :: 0 <= i < |es| ==> C.WellFormed(es[i])) && LowerAll(es).Ok?
    ensures C.EvalAll(m, es, env, group).Some? || (forall i :: 0 <= i < |es| ==> Strict(es[i]))
        ==> L.EvalAll(m, LowerAll(es).value, env, group) == C.EvalAll(m, es, env, group)
    decreases es, 0, 0
  {
    if es != [] {
      Preserves(m, es[0], env, group);
      PreservesAll(m, es[1..], env, group);
    }
  }

  lemma {:induction false} PreservesPairs(m: L.Meaning, ps: seq<C.Entry>, env: L.Env, group: seq<L.Env>)
    requires (forall i :: 0 <= i < |ps| ==> C.WellFormed(ps[i].value)) && LowerPairs(ps).Ok?
    ensures C.EvalPairs(m, ps, env, group).Some? || (forall i :: 0 <= i < |ps| ==> Strict(ps[i].value))
        ==> L.EvalPairs(m, LowerPairs(ps).value, env, group) == C.EvalPairs(m, ps, env, group)
    decreases ps, 0, 0
  {
    if ps != [] {
      Preserves(m, ps[0].value, env, group);
      PreservesPairs(m, ps[1..], env, group);
    }
  }

  lemma {:induction false} PreservesRows(m: L.Meaning, e: C.Expression, rows: seq<L.Env>)
    requires C.WellFormed(e) && Lower(e).Ok?
    ensures C.EvalRows(m, e, rows).Some? || Strict(e) ==> L.EvalRows(m, Lower(e).value, rows) == C.EvalRows(m, e, rows)
    decreases e, 2, |rows|
  {
    if rows != [] {
      hide C.Eval, L.Eval, Lower, Strict, C.WellFormed;
      Preserves(m, e, rows[0], []);
      PreservesRows(m, e, rows[1..]);
    }
  }

  lemma {:induction false} PreservesComprehend(m: L.Meaning, e: C.Expression, vs: seq<L.Value>, env: L.Env, group: seq<L.Env>)
    requires e.ListComprehension? && C.WellFormed(e) && Lower(e).Ok?
    ensures C.Comprehend(m, e, vs, env, group).Some? || Strict(e)
        ==> L.Comprehend(m, Lower(e).value, vs, env, group) == C.Comprehend(m, e, vs, env, group)
    decreases e, 0, |vs|
  {
    if vs != [] {
      hide C.Eval, L.Eval;
      var env', group' := L.Bind(env, e.variable, vs[0]), L.BindAll(group, e.variable, vs[0]);
      if e.filter.Some? { Preserves(m, e.filter.value, env', group'); }
      if e.projection.Some? { Preserves(m, e.projection.value, env', group'); }
      PreservesComprehend(m, e, vs[1..], env, group);
    }
  }

  lemma {:induction false} PreservesSubscript(m: L.Meaning, e: C.Expression, env: L.Env, group: seq<L.Env>)
    requires e.Subscript? && C.WellFormed(e) && Lower(e).Ok?
    ensures Same(m, e, env, group)
    decreases e, 1, 0
  {
    if FoldsSubscript(e) {
      PreservesFold(m, e, env, group);
    } else {
      hide C.EvalAll, C.EvalPairs, C.EvalWhens, C.EvalRows, C.Comprehend;
      hide L.EvalAll, L.EvalPairs, L.EvalBranches, L.EvalRows, L.Comprehend, LowerAll, LowerPairs, LowerWhens, LowerOpt;
      Preserves(m, e.list, env, group);
      Preserves(m, e.index, env, group);
    }
  }

  lemma {:induction false} PreservesFold(m: L.Meaning, e: C.Expression, env: L.Env, group: seq<L.Env>)
    requires e.Subscript? && FoldsSubscript(e) && C.WellFormed(e) && Lower(e).Ok?
    ensures Same(m, e, env, group)
    decreases e, 0, 0
  {
    var es, n := e.list.items, e.index.lit.n;
    var i := IndexOf(es, n);
    assert e == C.Subscript(C.List(es), C.Literal(L.Integer(n)));
    assert !Strict(e);
    hide C.Eval, C.EvalAll, L.Eval, Lower, C.WellFormed, Strict;
    LoweredSubscript(m, es, n, env, group);
    L.EvalLiteral(m, L.Null, env, group);
    ItemsWellFormed(es, n);
    if 0 <= i < |es| && C.EvalAll(m, es, env, group).Some? {
      EvalAllAt(m, es, i, env, group);
      assert e.list decreases to es[i];
      Preserves(m, es[i], env, group);
    }
  }

  lemma EvalListC(m: L.Meaning, e: C.Expression, env: L.Env, group: seq<L.Env>)
    requires e.List?
    ensures var vs := C.EvalAll(m, e.items, env, group); C.Eval(m, e, env, group) == if vs.Some? then Some(L.VList(vs.value)) else None
  {
    hide C.EvalAll, C.EvalPairs, C.EvalWhens, C.EvalRows, C.Comprehend;
  }

  lemma {:induction false} EvalAllAt(m: L.Meaning, es: seq<C.Expression>, i: nat, env: L.Env, group: seq<L.Env>)
    requires i < |es| && C.EvalAll(m, es, env, group).Some?
    ensures C.Eval(m, es[i], env, group) == Some(C.EvalAll(m, es, env, group).value[i])
  {
    if i > 0 {
      EvalAllAt(m, es[1..], i - 1, env, group);
    }
  }

  lemma {:induction false} EvalIntLits(m: L.Meaning, ns: seq<int>, env: L.Env, group: seq<L.Env>)
    ensures L.EvalAll(m, IntLits(ns), env, group) == Some(L.IntsToValues(ns))
  {
    hide L.Eval, IntLits, L.IntsToValues;
    if ns == [] {
      assert IntLits(ns) == [] && L.IntsToValues(ns) == [];
    } else {
      EvalIntLits(m, ns[1..], env, group);
      assert IntLits(ns)[1..] == IntLits(ns[1..]);
      L.EvalLiteral(m, L.Integer(ns[0]), env, group);
      assert L.IntsToValues(ns) == [L.VInt(ns[0])] + L.IntsToValues(ns[1..]);
    }
  }

  lemma {:induction false} EvalLiterals(m: L.Meaning, es: seq<C.Expression>, env: L.Env, group: seq<L.Env>)
    requires forall i :: 0 <= i < |es| ==> es[i].Literal?
    ensures C.EvalAll(m, es, env, group).Some?
    ensures forall i :: 0 <= i < |es| ==> C.EvalAll(m, es, env, group).value[i] == L.LitValue(es[i].lit)
  {
    hide C.EvalPairs, C.EvalWhens, C.EvalRows, C.Comprehend;
    if es != [] {
      assert C.Eval(m, es[0], env, group) == Some(L.LitValue(es[0].lit));
      EvalLiterals(m, es[1..], env, group);
    }
  }

  lemma EvalCallC(m: L.Meaning, e: C.Expression, env: L.Env, group: seq<L.Env>)
    requires e.FunctionCall?
    ensures var vs := C.EvalAll(m, e.args, env, group); C.Eval(m, e, env, group) == if vs.Some? then L.CallV(m, e.fname, e.distinct, vs.value) else None
  {
    hide C.EvalAll, C.EvalPairs, C.EvalWhens, C.EvalRows, C.Comprehend, L.CallV;
  }

  lemma EvalList(m: L.Meaning, es: seq<L.Expr>, env: L.Env, group: seq<L.Env>)
    ensures var vs := L.EvalAll(m, es, env, group); L.Eval(m, L.List(es), env, group) == if vs.Some? then Some(L.VList(vs.value)) else None
  {
    hide L.EvalAll, L.EvalPairs, L.EvalBranches, L.EvalRows, L.Comprehend;
  }

  lemma PreservesRange(m: L.Meaning, e: C.Expression, env: L.Env, group: seq<L.Env>)
    requires e.FunctionCall? && FoldsRange(e)
    requires C.WellFormed(e) && Lower(e).Ok?
    ensures L.Eval(m, Lower(e).value, env, group) == C.Eval(m, e, env, group)
  {
    hide C.Eval, L.Eval, C.EvalAll, L.EvalAll, LowerAll, LowerPairs, LowerWhens, LowerOpt;
    var es := e.args;
    var step := if |es| == 3 then es[2].lit.n else 1;
    assert forall i :: 0 <= i < |es| ==> FitsI64(es[i].lit.n);
    var ns := L.Progression(es[0].lit.n, es[1].lit.n, step);
    Range.LoopIsProgression(es[0].lit.n, es[1].lit.n, step);
    EvalLiterals(m, es, env, group);
    var vs := C.EvalAll(m, es, env, group).value;
    NamesDiffer(e.fname);
    assert L.IsRangeCall(e.fname, vs);
    EvalIntLits(m, ns, env, group);
    assert Lower(e) == Ok(L.List(IntLits(ns)));
    EvalList(m, IntLits(ns), env, group);
    EvalCallC(m, e, env, group);
  }

  lemma NamesDiffer(name: string)
    requires L.EqIgnoreAsciiCase(name, "range")
    ensures name !in {"startsWith", "endsWith", "contains", "regex"}
  {
    assert |name| == 5;
    assert L.LowerChar(name[1]) == L.LowerChar("range"[1]);
  }

  lemma EvalCaseC(m: L.Meaning, e: C.Expression, subject: Option<L.Value>, env: L.Env, group: seq<L.Env>)
    requires e.CaseExpression?
    requires subject == if e.operand.None? then Some(L.VNull) else C.Eval(m, e.operand.value, env, group)
    ensures C.Eval(m, e, env, group)
         == if subject.None? then None
            else match C.EvalWhens(m, e.operand.Some?, subject.value, e.whens, env, group)
                 case None => None
                 case Some(hit) => if hit.Some? then hit else if e.otherwise.Some? then C.Eval(m, e.otherwise.value, env, group) else Some(L.VNull)
  {
    hide C.EvalAll, C.EvalPairs, C.EvalWhens, C.EvalRows, C.Comprehend;
  }

  lemma {:induction false} PreservesCase(m: L.Meaning, e: C.Expression, env: L.Env, group: seq<L.Env>)
    requires e.CaseExpression? && C.WellFormed(e) && Lower(e).Ok?
    ensures Same(m, e, env, group)
    decreases e, 1, 0
  {
    hide C.Eval, L.Eval, C.EvalWhens, L.EvalBranches, LowerAll, LowerPairs, LowerWhens;
    if e.operand.Some? { Preserves(m, e.operand.value, env, group); }
    if e.otherwise.Some? { Preserves(m, e.otherwise.value, env, group); }
    var lsubject := LowerOpt(e.operand).value;
    var lbs, lo := LowerWhens(lsubject, e.whens).value, LowerOpt(e.otherwise).value;
    assert Lower(e) == Ok(L.CaseSearched(lbs, lo));
    var subject := if e.operand.None? then Some(L.VNull) else C.Eval(m, e.operand.value, env, group);
    EvalCaseC(m, e, subject, env, group);
    L.EvalSearched(m, lbs, lo, env, group);
    if C.Eval(m, e, env, group).Some? || Strict(e) {
      if subject.Some? {
        PreservesWhens(m, lsubject, subject.value, e.whens, env, group);
      } else {
        SubjectFails(m, lsubject.value, e.whens, env, group);
      }
    }
  }

  // An error in the subject shows in the first branch.
  lemma SubjectFails(m: L.Meaning, subject: L.Expr, ws: seq<C.Branch>, env: L.Env, group: seq<L.Env>)
    requires ws != [] && LowerWhens(Some(subject), ws).Ok? && L.Eval(m, subject, env, group).None?
    ensures L.EvalBranches(m, LowerWhens(Some(subject), ws).value, env, group).None?
  {
    hide L.Eval, Lower;
    L.EvalEq(m, subject, Lower(ws[0].cond).value, env, group);
  }

  lemma {:induction false} PreservesWhens(m: L.Meaning, subject: Option<L.Expr>, v: L.Value, ws: seq<C.Branch>, env: L.Env, group: seq<L.Env>)
    requires forall i :: 0 <= i < |ws| ==> C.WellFormed(ws[i].cond) && C.WellFormed(ws[i].result)
    requires LowerWhens(subject, ws).Ok?
    requires subject.Some? ==> L.Eval(m, subject.value, env, group) == Some(v)
    ensures C.EvalWhens(m, subject.Some?, v, ws, env, group).Some? || (forall i :: 0 <= i < |ws| ==> Strict(ws[i].cond) && Strict(ws[i].result))
        ==> L.EvalBranches(m, LowerWhens(subject, ws).value, env, group) == C.EvalWhens(m, subject.Some?, v, ws, env, group)
    decreases ws, 0, 0
  {
    hide C.Eval, L.Eval, Lower, C.WellFormed, Strict;
    if ws != [] {
      assert ws decreases to ws[0];
      var cond, result := ws[0].cond, ws[0].result;
      Preserves(m, cond, env, group);
      Preserves(m, result, env, group);
      PreservesWhens(m, subject, v, ws[1..], env, group);
      if subject.Some? {
        L.EvalEq(m, subject.value, Lower(cond).value, env, group);
      }
    }
  }
}

/** The normaliser: rewriting simple CASE, nested NOT and constant null checks. */
module Normalize {
  import opened Prelude
  import opened Lqa
  import O = Ops

  // ---------- The rules ----------

  function SearchedBranches(subject: Expr, branches: seq<Branch>): seq<Branch> {
    if branches == [] then []
    else [When(Comparison(Eq, subject, branches[0].cond), branches[0].result)] + SearchedBranches(subject, branches[1..])
  }

  function SimpleCaseToSearched(subject: Expr, branches: seq<Branch>, otherwise: Option<Expr>): Expr {
    CaseSearched(SearchedBranches(subject, branches), otherwise)
  }

  function FlattenDoubleNot(e: Expr): Expr {
    if e.Not? then
      if e.e.Not? then FlattenDoubleNot(e.e.e) else Not(FlattenDoubleNot(e.e))
    else e
  }

  function FoldNullChecks(e: Expr): Expr {
    match e
    case IsNull(a) => if a.Lit? then Lit(Boolean(a.lit == Null)) else e
    case IsNotNull(a) => if a.Lit? then Lit(Boolean(a.lit != Null)) else e
    case _ => e
  }

  function NormalizeExpr(e: Expr): Expr {
    FoldNullChecks(FlattenDoubleNot(e))
  }

  function NormalizeItems(items: seq<O.ProjItem>): (r: seq<O.ProjItem>)
    ensures |r| == |items| && forall i :: 0 <= i < |items| ==> r[i] == O.ProjItem(NormalizeExpr(items[i].expr), items[i].alias)
  {
    if items == [] then [] else [O.ProjItem(NormalizeExpr(items[0].expr), items[0].alias)] + NormalizeItems(items[1..])
  }

  function NormalizeOp(op: O.Op): O.Op {
    match op
    case Selection(inner, p) => O.Selection(inner, NormalizeExpr(p))
    case Projection(inner, items, distinct) => O.Projection(inner, NormalizeItems(items), distinct)
    case _ => op
  }

  // ---------- Shape ----------

  function Nots(e: Expr): nat {
    if e.Not? then 1 + Nots(e.e) else 0
  }

  function Core(e: Expr): (c: Expr)
    ensures !c.Not?
  {
    if e.Not? then Core(e.e) else e
  }

  lemma {:induction false} FlattenKeepsParity(e: Expr)
    ensures FlattenDoubleNot(e) == if Nots(e) % 2 == 0 then Core(e) else Not(Core(e))
  {
    if e.Not? {
      if e.e.Not? {
        FlattenKeepsParity(e.e.e);
      } else {
        FlattenKeepsParity(e.e);
      }
    }
  }

  // At most one NOT is left at the front, the parity of the prefix is kept, and a
  // second pass finds nothing to do.
  lemma NormalizeShape(e: Expr)
    ensures var n := NormalizeExpr(e);
            && Nots(n) == Nots(e) % 2
            && Core(n) == (if Nots(e) % 2 == 0 then FoldNullChecks(Core(e)) else Core(e))
            && NormalizeExpr(n) == n
  {
    FlattenKeepsParity(e);
    var n := NormalizeExpr(e);
    FlattenKeepsParity(n);
    if Nots(e) % 2 == 1 {
      assert Nots(Not(Core(e))) == 1 + Nots(Core(e)) && Core(Not(Core(e))) == Core(e);
    }
  }

  // NULL IS NULL, 1 IS NOT NULL, ...
  predicate IsConstantCheck(e: Expr) {
    (e.IsNull? || e.IsNotNull?) && e.e.Lit?
  }

  // Nothing is left to rewrite.
  predicate IsNormal(e: Expr) {
    Nots(e) <= 1 && !IsConstantCheck(e)
  }

  lemma NormalizedIsNormal(e: Expr)
    ensures IsNormal(NormalizeExpr(e)) && (NormalizeExpr(e) == e <==> IsNormal(e))
    ensures IsConstantCheck(e) ==> NormalizeExpr(e) == Lit(Boolean(e.IsNull? <==> e.e == Lit(Null)))
  {
    NormalizeShape(e);
    FlattenKeepsParity(e);
  }

  // The predicate of a Selection and every item of a Projection are normal afterwards, and
  // nothing else about the operator changes.
  lemma OperatorIsNormal(op: O.Op)
    ensures var n := NormalizeOp(op);
            match op
            case Selection(inner, _) => n.Selection? && n.inner == inner && IsNormal(n.predicate_)
            case Projection(inner, items, distinct) =>
              && n.Projection? && n.inner == inner && n.distinct == distinct && |n.items| == |items|
              && forall i :: 0 <= i < |items| ==> IsNormal(n.items[i].expr) && n.items[i].alias == items[i].alias
            case _ => n == op
  {
    hide NormalizeExpr, IsNormal;
    match op {
      case Selection(_, p) => NormalizedIsNormal(p);
      case Projection(_, items, _) =>
        forall i | 0 <= i < |items|
          ensures IsNormal(NormalizeExpr(items[i].expr))
        {
          NormalizedIsNormal(items[i].expr);
        }
      case _ =>
    }
  }

  // ---------- Values ----------

  // The value under n negations.
  function NotTimes(n: nat, v: Option<Value>): Option<Value> {
    if n == 0 || v.None? then v
    else if !IsTruth(v.value) then None
    else if n % 2 == 0 then v
    else NotV(v.value)
  }

  lemma {:induction false} EvalNots(m: Meaning, e: Expr, env: Env, group: seq<Env>)
    ensures Eval(m, e, env, group) == NotTimes(Nots(e), Eval(m, Core(e), env, group))
  {
    hide EvalAll, EvalPairs, EvalBranches, EvalRows, Comprehend;
    if e.Not? {
      EvalNots(m, e.e, env, group);
      EvalNot(m, e.e, env, group);
    }
  }

  lemma FoldKeepsValue(m: Meaning, e: Expr, env: Env, group: seq<Env>)
    ensures Eval(m, FoldNullChecks(e), env, group) == Eval(m, e, env, group)
  {
    hide EvalAll, EvalPairs, EvalBranches, EvalRows, Comprehend;
  }

  // The value is kept, error or not, with one exception, stated exactly: two, four, ...
  // negations of something that is neither a truth value nor Null are an error that
  // the normaliser removes.
  lemma NormalizeValueIff(m: Meaning, e: Expr, env: Env, group: seq<Env>)
    ensures var core := Eval(m, Core(e), env, group);
            var removed := Nots(e) >= 2 && Nots(e) % 2 == 0 && core.Some? && !IsTruth(core.value);
            && (Eval(m, NormalizeExpr(e), env, group) == Eval(m, e, env, group) <==> !removed)
            && (removed ==> Eval(m, e, env, group).None?)
  {
    hide Eval, NotV;
    FlattenKeepsParity(e);
    EvalNots(m, e, env, group);
    var f := FlattenDoubleNot(e);
    FoldKeepsValue(m, f, env, group);
    if Nots(e) % 2 == 1 {
      EvalNot(m, Core(e), env, group);
      NotOfOther(m, Core(e), env, group);
    }
  }

  lemma NotOfOther(m: Meaning, a: Expr, env: Env, group: seq<Env>)
    ensures var v := Eval(m, a, env, group); v.Some? ==> (NotV(v.value).None? <==> !IsTruth(v.value))
  {
    hide Eval;
  }

  lemma NormalizeKeepsValues(m: Meaning, e: Expr, env: Env, group: seq<Env>)
    requires Eval(m, e, env, group).Some?
    ensures Eval(m, NormalizeExpr(e), env, group) == Eval(m, e, env, group)
  {
    hide Eval;
    NormalizeValueIff(m, e, env, group);
  }

  // ---------- Operators ----------

  // The rows on which the predicate is true; Null, false and errors drop the row.
  function Selected(m: Meaning, p: Expr, rows: seq<Env>): seq<Env> {
    if rows == [] then []
    else (if Eval(m, p, rows[0], []) == Some(VBool(true)) then [rows[0]] else []) + Selected(m, p, rows[1..])
  }

  function ProjectRow(m: Meaning, items: seq<O.ProjItem>, row: Env): Option<Env> {
    if items == [] then Some(map[])
    else
      var v :- Eval(m, items[0].expr, row, []);
      var rest :- ProjectRow(m, items[1..], row);
      Some(map[items[0].alias := v] + rest)
  }

  function Projected(m: Meaning, items: seq<O.ProjItem>, rows: seq<Env>): Option<seq<Env>> {
    if rows == [] then Some([])
    else
      var row :- ProjectRow(m, items, rows[0]);
      var rest :- Projected(m, items, rows[1..]);
      Some([row] + rest)
  }

  function Distinct(rows: seq<Env>): seq<Env> {
    if rows == [] then []
    else
      var init := Distinct(rows[..|rows| - 1]);
      if rows[|rows| - 1] in init then init else init + [rows[|rows| - 1]]
  }

  // What a Selection or Projection makes of the rows below it.
  function Output(m: Meaning, op: O.Op, rows: seq<Env>): Option<seq<Env>>
    requires op.Selection? || op.Projection?
  {
    match op
    case Selection(_, p) => Some(Selected(m, p, rows))
    case Projection(_, items, distinct) =>
      var out :- Projected(m, items, rows);
      Some(if distinct then Distinct(out) else out)
  }

  // Selections keep their rows whatever the predicate, even one that is an error.
  lemma {:induction false} SelectionKept(m: Meaning, p: Expr, rows: seq<Env>)
    ensures Selected(m, NormalizeExpr(p), rows) == Selected(m, p, rows)
  {
    hide Eval, NormalizeExpr;
    if rows != [] {
      SelectionKept(m, p, rows[1..]);
      SameTruth(m, p, rows[0]);
    }
  }

  lemma SameTruth(m: Meaning, p: Expr, row: Env)
    ensures Eval(m, NormalizeExpr(p), row, []) == Some(VBool(true)) <==> Eval(m, p, row, []) == Some(VBool(true))
  {
    hide Eval;
    NormalizeValueIff(m, p, row, []);
    EvalNots(m, p, row, []);
    FlattenKeepsParity(p);
    FoldKeepsValue(m, FlattenDoubleNot(p), row, []);
  }

  lemma {:induction false} ProjectRowKept(m: Meaning, items: seq<O.ProjItem>, row: Env)
    requires ProjectRow(m, items, row).Some?
    ensures ProjectRow(m, NormalizeItems(items), row) == ProjectRow(m, items, row)
  {
    hide Eval, NormalizeExpr;
    if items != [] {
      NormalizeKeepsValues(m, items[0].expr, row, []);
      ProjectRowKept(m, items[1..], row);
      assert NormalizeItems(items)[1..] == NormalizeItems(items[1..]);
    }
  }

  lemma {:induction false} ProjectionKept(m: Meaning, items: seq<O.ProjItem>, rows: seq<Env>)
    requires Projected(m, items, rows).Some?
    ensures Projected(m, NormalizeItems(items), rows) == Projected(m, items, rows)
  {
    hide ProjectRow, NormalizeItems;
    if rows != [] {
      ProjectRowKept(m, items, rows[0]);
      ProjectionKept(m, items, rows[1..]);
    }
  }

  // Normalising an operator keeps the operators below it and, row for row, its result
  // wherever that is not an error.
  lemma NormalizeOpKeepsRows(m: Meaning, op: O.Op, rows: seq<Env>)
    requires op.Selection? || op.Projection?
    ensures var n := NormalizeOp(op);
            && (op.Selection? ==> n.Selection?) && (op.Projection? ==> n.Projection?)
            && n.inner == op.inner
            && (Output(m, op, rows).Some? ==> Output(m, n, rows) == Output(m, op, rows))
            && NormalizeOp(n) == n
  {
    hide NormalizeExpr, Projected, Selected, Distinct;
    match op {
      case Selection(_, p) =>
        SelectionKept(m, p, rows);
        NormalizeShape(p);
      case Projection(_, items, _) =>
        if Projected(m, items, rows).Some? {
          ProjectionKept(m, items, rows);
        }
        var once := NormalizeItems(items);
        forall i | 0 <= i < |items|
          ensures NormalizeItems(once)[i] == once[i]
        {
          NormalizeShape(items[i].expr);
        }
    }
  }

  // ---------- Simple CASE ----------

  // The first branch whose value equals the subject's.
  function SimpleHit(m: Meaning, subject: Value, branches: seq<Branch>, env: Env, group: seq<Env>): Option<Option<Value>> {
    if branches == [] then Some(None)
    else
      var c :- Eval(m, branches[0].cond, env, group);
      if CompareV(m, Eq, subject, c) == VBool(true) then
        var v :- Eval(m, branches[0].result, env, group);
        Some(Some(v))
      else SimpleHit(m, subject, branches[1..], env, group)
  }

  // Simple CASE evaluates its subject once.
  function SimpleCase(m: Meaning, subject: Expr, branches: seq<Branch>, otherwise: Option<Expr>, env: Env, group: seq<Env>): Option<Value> {
    var s :- Eval(m, subject, env, group);
    var hit :- SimpleHit(m, s, branches, env, group);
    if hit.Some? then hit
    else if otherwise.Some? then Eval(m, otherwise.value, env, group)
    else Some(VNull)
  }

  lemma {:induction false} SearchedHits(m: Meaning, subject: Expr, branches: seq<Branch>, env: Env, group: seq<Env>)
    ensures var s, hit := Eval(m, subject, env, group), EvalBranches(m, SearchedBranches(subject, branches), env, group);
            hit == if branches == [] then Some(None) else if s.None? then None else SimpleHit(m, s.value, branches, env, group)
  {
    hide Eval, CompareV;
    if branches != [] {
      SearchedHits(m, subject, branches[1..], env, group);
      EvalEq(m, subject, branches[0].cond, env, group);
    }
  }

  // Copying the subject into every branch keeps the value, unless there is no branch to
  // copy it into: then an error in the subject goes unnoticed.
  lemma SimpleCaseKept(m: Meaning, subject: Expr, branches: seq<Branch>, otherwise: Option<Expr>, env: Env, group: seq<Env>)
    ensures var searched := Eval(m, SimpleCaseToSearched(subject, branches, otherwise), env, group);
            && (branches != [] || Eval(m, subject, env, group).Some? ==> searched == SimpleCase(m, subject, branches, otherwise, env, group))
            && (branches == [] ==> searched == if otherwise.Some? then Eval(m, otherwise.value, env, group) else Some(VNull))
  {
    hide Eval, EvalBranches;
    SearchedHits(m, subject, branches, env, group);
    EvalSearched(m, SearchedBranches(subject, branches), otherwise, env, group);
  }
}

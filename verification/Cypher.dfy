/** Cypher expressions as the parser builds them, and their meaning.

    Values and the operations on single values are those of module Lqa; the
    meaning of whole expressions is given here on its own, so that lowering has
    something to be compared with.
 */
module Cypher {
  import opened Prelude
  import L = Lqa

  datatype Expression =
    | Variable(name: string)
    | Literal(lit: L.Literal)
    | Property(e: Expression, key: string)
    | Arith(op: L.ArithOp, l: Expression, r: Expression)
    | Negate(e: Expression)
    | Not(e: Expression)
    | IsNull(e: Expression)
    | IsNotNull(e: Expression)
    | Or(l: Expression, r: Expression)
    | Xor(l: Expression, r: Expression)
    | And(l: Expression, r: Expression)
    | Comparison(l: Expression, cmp: L.CmpOp, r: Expression)
    | FunctionCall(fname: string, distinct: bool, args: seq<Expression>)
    | Aggregate(kind: L.AggKind, distinct: bool, arg: Option<Expression>)
    | LabelCheck(variable: string, labels: seq<string>)
    | List(items: seq<Expression>)
    | Map(pairs: seq<Entry>)
    | Subscript(list: Expression, index: Expression)
    | CaseExpression(operand: Option<Expression>, whens: seq<Branch>, otherwise: Option<Expression>)
    | ListComprehension(variable: string, list: Expression, filter: Option<Expression>, projection: Option<Expression>)

  datatype Entry = Entry(key: string, value: Expression)
  datatype Branch = When(cond: Expression, result: Expression)

  // CASE with an operand evaluates it once and takes the first WHEN equal to it;
  // Null equals nothing.
  function Eval(m: L.Meaning, e: Expression, env: L.Env, group: seq<L.Env>): Option<L.Value>
    decreases e, 1, 0
  {
    match e
    case Variable(x) => Some(L.Lookup(env, x))
    case Literal(l) => Some(L.LitValue(l))
    case Property(a, k) =>
      var va :- Eval(m, a, env, group);
      Some(L.PropertyV(m, va, k))
    case Arith(op, a, b) =>
      var va :- Eval(m, a, env, group);
      var vb :- Eval(m, b, env, group);
      L.ArithV(m, op, va, vb)
    case Negate(a) =>
      var va :- Eval(m, a, env, group);
      L.UnaryV(L.Neg, va)
    case Not(a) =>
      var va :- Eval(m, a, env, group);
      L.NotV(va)
    case IsNull(a) =>
      var va :- Eval(m, a, env, group);
      Some(L.VBool(va.VNull?))
    case IsNotNull(a) =>
      var va :- Eval(m, a, env, group);
      Some(L.VBool(!va.VNull?))
    case Or(a, b) =>
      var va :- Eval(m, a, env, group);
      var vb :- Eval(m, b, env, group);
      L.OrV(va, vb)
    case Xor(a, b) =>
      var va :- Eval(m, a, env, group);
      var vb :- Eval(m, b, env, group);
      L.XorV(va, vb)
    case And(a, b) =>
      var va :- Eval(m, a, env, group);
      var vb :- Eval(m, b, env, group);
      L.AndV(va, vb)
    case Comparison(a, op, b) =>
      var va :- Eval(m, a, env, group);
      var vb :- Eval(m, b, env, group);
      Some(L.CompareV(m, op, va, vb))
    case FunctionCall(f, d, es) =>
      var vs :- EvalAll(m, es, env, group);
      L.CallV(m, f, d, vs)
    case Aggregate(k, d, arg) =>
      var vs :- if arg.None? then Some(seq(|group|, _ => L.VBool(true))) else EvalRows(m, arg.value, group);
      m.agg(k, d, vs)
    case LabelCheck(x, ls) => Some(L.LabelV(m, L.Lookup(env, x), ls))
    case List(es) =>
      var vs :- EvalAll(m, es, env, group);
      Some(L.VList(vs))
    case Map(ps) =>
      var vs :- EvalPairs(m, ps, env, group);
      Some(L.VMap(vs))
    case Subscript(a, b) =>
      var va :- Eval(m, a, env, group);
      var vb :- Eval(m, b, env, group);
      L.SubscriptV(m, va, vb)
    case CaseExpression(operand, whens, otherwise) =>
      var subject :- if operand.None? then Some(L.VNull) else Eval(m, operand.value, env, group);
      var hit :- EvalWhens(m, operand.Some?, subject, whens, env, group);
      if hit.Some? then hit
      else if otherwise.Some? then Eval(m, otherwise.value, env, group)
      else Some(L.VNull)
    case ListComprehension(x, list, _, _) =>
      var vl :- Eval(m, list, env, group);
      if vl.VNull? then Some(L.VNull)
      else if vl.VList? then
        var vs :- Comprehend(m, e, vl.items, env, group);
        Some(L.VList(vs))
      else None
  }

  function EvalAll(m: L.Meaning, es: seq<Expression>, env: L.Env, group: seq<L.Env>): (r: Option<seq<L.Value>>)
    ensures r.Some? ==> |r.value| == |es|
    decreases es, 0, 0
  {
    if es == [] then Some([])
    else
      var v :- Eval(m, es[0], env, group);
      var vs :- EvalAll(m, es[1..], env, group);
      Some([v] + vs)
  }

  function EvalPairs(m: L.Meaning, ps: seq<Entry>, env: L.Env, group: seq<L.Env>): Option<seq<(string, L.Value)>>
    decreases ps, 0, 0
  {
    if ps == [] then Some([])
    else
      var v :- Eval(m, ps[0].value, env, group);
      var vs :- EvalPairs(m, ps[1..], env, group);
      Some([(ps[0].key, v)] + vs)
  }

  function EvalWhens(m: L.Meaning, simple: bool, subject: L.Value, ws: seq<Branch>, env: L.Env, group: seq<L.Env>): Option<Option<L.Value>>
    decreases ws, 0, 0
  {
    if ws == [] then Some(None)
    else
      assert ws decreases to ws[0];
      var When(cond, result) := ws[0];
      var c :- Eval(m, cond, env, group);
      var taken := if simple then L.CompareV(m, L.Eq, subject, c) else c;
      if taken == L.VBool(true) then
        var v :- Eval(m, result, env, group);
        Some(Some(v))
      else EvalWhens(m, simple, subject, ws[1..], env, group)
  }

  function EvalRows(m: L.Meaning, e: Expression, rows: seq<L.Env>): Option<seq<L.Value>>
    decreases e, 2, |rows|
  {
    if rows == [] then Some([])
    else
      var v :- Eval(m, e, rows[0], []);
      var vs :- EvalRows(m, e, rows[1..]);
      Some([v] + vs)
  }

  function Comprehend(m: L.Meaning, e: Expression, vs: seq<L.Value>, env: L.Env, group: seq<L.Env>): Option<seq<L.Value>>
    requires e.ListComprehension?
    decreases e, 0, |vs|
  {
    if vs == [] then Some([])
    else
      var env' := L.Bind(env, e.variable, vs[0]);
      var group' := L.BindAll(group, e.variable, vs[0]);
      var keep :- if e.filter.Some? then Eval(m, e.filter.value, env', group') else Some(L.VBool(true));
      var rest :- Comprehend(m, e, vs[1..], env, group);
      if keep != L.VBool(true) then Some(rest)
      else
        var v :- if e.projection.Some? then Eval(m, e.projection.value, env', group') else Some(vs[0]);
        Some([v] + rest)
  }

  // Every integer literal is an i64, as the parser guarantees.
  predicate WellFormed(e: Expression) {
    match e
    case Variable(_) => true
    case Literal(l) => l.Integer? ==> FitsI64(l.n)
    case Property(a, _) => WellFormed(a)
    case Arith(_, a, b) => WellFormed(a) && WellFormed(b)
    case Negate(a) => WellFormed(a)
    case Not(a) => WellFormed(a)
    case IsNull(a) => WellFormed(a)
    case IsNotNull(a) => WellFormed(a)
    case Or(a, b) => WellFormed(a) && WellFormed(b)
    case Xor(a, b) => WellFormed(a) && WellFormed(b)
    case And(a, b) => WellFormed(a) && WellFormed(b)
    case Comparison(a, _, b) => WellFormed(a) && WellFormed(b)
    case FunctionCall(_, _, es) => forall i :: 0 <= i < |es| ==> WellFormed(es[i])
    case Aggregate(_, _, arg) => arg.Some? ==> WellFormed(arg.value)
    case LabelCheck(_, _) => true
    case List(es) => forall i :: 0 <= i < |es| ==> WellFormed(es[i])
    case Map(ps) => forall i :: 0 <= i < |ps| ==> WellFormed(ps[i].value)
    case Subscript(a, b) => WellFormed(a) && WellFormed(b)
    case CaseExpression(o, ws, d) =>
      && (o.Some? ==> WellFormed(o.value))
      && (forall i :: 0 <= i < |ws| ==> assert ws decreases to ws[i]; WellFormed(ws[i].cond) && WellFormed(ws[i].result))
      && (d.Some? ==> WellFormed(d.value))
    case ListComprehension(_, l, p, j) =>
      && WellFormed(l)
      && (p.Some? ==> WellFormed(p.value))
      && (j.Some? ==> WellFormed(j.value))
  }
}

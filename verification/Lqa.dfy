/** The expression language of the logical query algebra and its meaning.

    Arithmetic operators share one constructor, and so do the literals; every
    other constructor is one of the algebra's own.  Values follow three-valued
    logic: comparisons and arithmetic on Null give Null, AND and OR are those
    of Kleene.  A type error (a logical operator on a number, say) is None and
    spoils the whole expression.
 */
module Lqa {
  import opened Prelude

  datatype Literal =
    | Integer(n: int)
    | Float(f: real)
    | String(s: string)
    | Boolean(b: bool)
    | Null
    | TypedLiteral(lexical: string, typeIri: string)
    | IriRef(iri: string)

  datatype ArithOp = Add | Sub | Mul | Div | Mod | Pow
  datatype UnaryOp = Neg | Pos
  datatype CmpOp = Eq | Ne | Lt | Le | Gt | Ge | In | StartsWith | EndsWith | Contains | RegexMatch
  datatype AggKind = Count | Sum | Avg | Min | Max | Collect | CountStar

  datatype Expr =
    | Variable(name: string)
    | Lit(lit: Literal)
    | Arith(op: ArithOp, l: Expr, r: Expr)
    | Unary(uop: UnaryOp, e: Expr)
    | Comparison(cmp: CmpOp, l: Expr, r: Expr)
    | IsNull(e: Expr)
    | IsNotNull(e: Expr)
    | And(l: Expr, r: Expr)
    | Or(l: Expr, r: Expr)
    | Xor(l: Expr, r: Expr)
    | Not(e: Expr)
    | Property(e: Expr, key: string)
    | Subscript(list: Expr, index: Expr)
    | List(items: seq<Expr>)
    | Map(pairs: seq<Entry>)
    | FunctionCall(fname: string, distinct: bool, args: seq<Expr>)
    | Aggregate(kind: AggKind, distinct: bool, arg: Option<Expr>)
    | CaseSearched(branches: seq<Branch>, otherwise: Option<Expr>)
    | ListComprehension(variable: string, list: Expr, filter: Option<Expr>, projection: Option<Expr>)
    | LabelCheck(e: Expr, labels: seq<string>)

  datatype Entry = Entry(key: string, value: Expr)
  datatype Branch = When(cond: Expr, result: Expr)

  // ---------- Values ----------

  datatype Value =
    | VNull
    | VBool(b: bool)
    | VInt(n: int)
    | VFloat(f: real)
    | VStr(s: string)
    | VTyped(lexical: string, typeIri: string)
    | VIri(iri: string)
    | VList(items: seq<Value>)
    | VMap(pairs: seq<(string, Value)>)
    | VNode(id: nat)
    | VRel(id: nat)

  datatype Truth = True | False | Unknown

  function TruthValue(t: Truth): Value {
    match t
    case True => VBool(true)
    case False => VBool(false)
    case Unknown => VNull
  }

  predicate IsTruth(v: Value) {
    v.VBool? || v.VNull?
  }

  // The operations the algebra takes from outside.  What is proved below holds
  // for every choice of them.
  datatype Meaning = Meaning(
    arith: (ArithOp, Value, Value) -> Option<Value>,
    compare: (CmpOp, Value, Value) -> Truth,
    property: (Value, string) -> Value,
    hasLabel: (Value, string) -> bool,
    index: (Value, Value) -> Option<Value>,
    func: (string, bool, seq<Value>) -> Option<Value>,
    agg: (AggKind, bool, seq<Value>) -> Option<Value>)

  type Env = map<string, Value>

  function LitValue(l: Literal): Value {
    match l
    case Integer(n) => VInt(n)
    case Float(f) => VFloat(f)
    case String(s) => VStr(s)
    case Boolean(b) => VBool(b)
    case Null => VNull
    case TypedLiteral(v, t) => VTyped(v, t)
    case IriRef(i) => VIri(i)
  }

  function Lookup(env: Env, x: string): Value {
    if x in env then env[x] else VNull
  }

  function ArithV(m: Meaning, op: ArithOp, a: Value, b: Value): Option<Value> {
    if a.VNull? || b.VNull? then Some(VNull) else m.arith(op, a, b)
  }

  // Negating the least i64 overflows, which is an error.
  function UnaryV(op: UnaryOp, a: Value): Option<Value> {
    match a
    case VNull => Some(VNull)
    case VInt(n) => if op == Pos then Some(a) else if n == I64_MIN then None else Some(VInt(-n))
    case VFloat(f) => Some(if op == Pos then a else VFloat(-f))
    case _ => None
  }

  // IN decides about Null by itself; every other comparison with Null is Null.
  function CompareV(m: Meaning, op: CmpOp, a: Value, b: Value): Value {
    if op != In && (a.VNull? || b.VNull?) then VNull else TruthValue(m.compare(op, a, b))
  }

  function AndV(a: Value, b: Value): Option<Value> {
    if !IsTruth(a) || !IsTruth(b) then None
    else if a == VBool(false) || b == VBool(false) then Some(VBool(false))
    else if a.VNull? || b.VNull? then Some(VNull)
    else Some(VBool(true))
  }

  function NotV(a: Value): Option<Value> {
    match a
    case VBool(b) => Some(VBool(!b))
    case VNull => Some(VNull)
    case _ => None
  }

  function OrV(a: Value, b: Value): Option<Value> {
    if !IsTruth(a) || !IsTruth(b) then None
    else if a == VBool(true) || b == VBool(true) then Some(VBool(true))
    else if a.VNull? || b.VNull? then Some(VNull)
    else Some(VBool(false))
  }

  function XorV(a: Value, b: Value): Option<Value> {
    if !IsTruth(a) || !IsTruth(b) then None
    else if a.VNull? || b.VNull? then Some(VNull)
    else Some(VBool(a.b != b.b))
  }

  // Where a truth value stands in the order false, null, true.
  function Rank(v: Value): int
    requires IsTruth(v)
  {
    match v
    case VNull => 0
    case _ => if v.b then 1 else -1
  }

  // AND is the lesser of the two, OR the greater, NOT turns the order around, and XOR is null
  // as soon as an operand is; none of them takes anything but truth values.
  lemma KleeneLogic(a: Value, b: Value)
    ensures (AndV(a, b).Some? <==> IsTruth(a) && IsTruth(b)) && (OrV(a, b).Some? <==> IsTruth(a) && IsTruth(b))
    ensures (XorV(a, b).Some? <==> IsTruth(a) && IsTruth(b)) && (NotV(a).Some? <==> IsTruth(a))
    ensures IsTruth(a) && IsTruth(b) ==>
              && IsTruth(AndV(a, b).value) && Rank(AndV(a, b).value) == (if Rank(a) <= Rank(b) then Rank(a) else Rank(b))
              && IsTruth(OrV(a, b).value) && Rank(OrV(a, b).value) == (if Rank(a) >= Rank(b) then Rank(a) else Rank(b))
              && IsTruth(XorV(a, b).value) && Rank(XorV(a, b).value) == -(Rank(a) * Rank(b))
    ensures IsTruth(a) ==> IsTruth(NotV(a).value) && Rank(NotV(a).value) == -Rank(a)
  {
    if IsTruth(a) && IsTruth(b) {
      assert Rank(a) == -1 || Rank(a) == 0 || Rank(a) == 1;
      assert Rank(b) == -1 || Rank(b) == 0 || Rank(b) == 1;
    }
  }

  function PropertyV(m: Meaning, a: Value, key: string): Value {
    if a.VNull? then VNull else m.property(a, key)
  }

  function LabelV(m: Meaning, a: Value, labels: seq<string>): Value {
    if a.VNull? then VNull else VBool(forall l :: l in labels ==> m.hasLabel(a, l))
  }

  // What is done with null yields null.
  lemma NullPropagates(m: Meaning, op: ArithOp, cmp: CmpOp, a: Value, key: string, labels: seq<string>)
    ensures ArithV(m, op, VNull, a) == ArithV(m, op, a, VNull) == Some(VNull)
    ensures cmp != In ==> CompareV(m, cmp, VNull, a) == CompareV(m, cmp, a, VNull) == VNull
    ensures PropertyV(m, VNull, key) == VNull && LabelV(m, VNull, labels) == VNull
    ensures SubscriptV(m, VNull, a) == SubscriptV(m, a, VNull) == Some(VNull)
  {
  }

  // Negative indices count from the end; an index outside the list gives Null.
  function SubscriptV(m: Meaning, a: Value, i: Value): Option<Value> {
    if a.VNull? || i.VNull? then Some(VNull)
    else if a.VList? && i.VInt? then
      var k := if i.n < 0 then |a.items| + i.n else i.n;
      Some(if 0 <= k < |a.items| then a.items[k] else VNull)
    else m.index(a, i)
  }

  // ---------- Functions known to the compiler ----------

  function LowerChar(c: char): char {
    if 'A' <= c <= 'Z' then (c as int + 32) as char else c
  }

  predicate EqIgnoreAsciiCase(a: string, b: string) {
    |a| == |b| && forall i :: 0 <= i < |a| ==> LowerChar(a[i]) == LowerChar(b[i])
  }

  // The comparison forgets the case of the 26 letters of ASCII and of nothing else.
  lemma LowerCharIff(c: char, d: char)
    ensures LowerChar(c) == LowerChar(d)
       <==> c == d || exists k: nat :: k < 26 && IsLetter(k, c) && IsLetter(k, d)
  {
    if 'A' <= c <= 'Z' && d == LowerChar(c) {
      assert IsLetter(c as nat - 'A' as nat, c) && IsLetter(c as nat - 'A' as nat, d);
    }
    if 'A' <= d <= 'Z' && c == LowerChar(d) {
      assert IsLetter(d as nat - 'A' as nat, c) && IsLetter(d as nat - 'A' as nat, d);
    }
  }

  // The letter at position k of the alphabet, as a capital or not.
  predicate IsLetter(k: nat, c: char)
    requires k < 26
  {
    c as int == 'A' as int + k || c as int == 'a' as int + k
  }

  // start, start + step, ... up to and including end.
  function Progression(start: int, end: int, step: int): (r: seq<int>)
    requires step != 0
    decreases if step > 0 then end - start else start - end
  {
    if (step > 0 && start <= end) || (step < 0 && start >= end)
    then [start] + Progression(start + step, end, step)
    else []
  }

  function IntsToValues(ns: seq<int>): (vs: seq<Value>)
    ensures |vs| == |ns| && forall i :: 0 <= i < |ns| ==> vs[i] == VInt(ns[i])
  {
    seq(|ns|, i requires 0 <= i < |ns| => VInt(ns[i]))
  }

  predicate IsRangeCall(name: string, args: seq<Value>) {
    && EqIgnoreAsciiCase(name, "range")
    && (|args| == 2 || |args| == 3)
    && (forall i :: 0 <= i < |args| ==> args[i].VInt?)
    && (|args| == 3 ==> args[2].n != 0)
  }

  function CallV(m: Meaning, name: string, distinct: bool, args: seq<Value>): Option<Value> {
    if |args| == 2 && name == "startsWith" then Some(CompareV(m, StartsWith, args[0], args[1]))
    else if |args| == 2 && name == "endsWith" then Some(CompareV(m, EndsWith, args[0], args[1]))
    else if |args| == 2 && name == "contains" then Some(CompareV(m, Contains, args[0], args[1]))
    else if |args| == 2 && name == "regex" then Some(CompareV(m, RegexMatch, args[0], args[1]))
    else if IsRangeCall(name, args) then
      Some(VList(IntsToValues(Progression(args[0].n, args[1].n, if |args| == 3 then args[2].n else 1))))
    else m.func(name, distinct, args)
  }

  // ---------- Evaluation ----------

  function Bind(env: Env, x: string, v: Value): Env {
    env[x := v]
  }

  function BindAll(rows: seq<Env>, x: string, v: Value): (r: seq<Env>)
    ensures |r| == |rows| && forall i :: 0 <= i < |rows| ==> r[i] == rows[i][x := v]
  {
    seq(|rows|, i requires 0 <= i < |rows| => rows[i][x := v])
  }

  // env binds the variables in scope; an aggregate ranges over the rows of the group.
  function Eval(m: Meaning, e: Expr, env: Env, group: seq<Env>): Option<Value>
    decreases e, 1, 0
  {
    match e
    case Variable(x) => Some(Lookup(env, x))
    case Lit(l) => Some(LitValue(l))
    case Arith(op, a, b) =>
      var va :- Eval(m, a, env, group);
      var vb :- Eval(m, b, env, group);
      ArithV(m, op, va, vb)
    case Unary(op, a) =>
      var va :- Eval(m, a, env, group);
      UnaryV(op, va)
    case Comparison(op, a, b) =>
      var va :- Eval(m, a, env, group);
      var vb :- Eval(m, b, env, group);
      Some(CompareV(m, op, va, vb))
    case IsNull(a) =>
      var va :- Eval(m, a, env, group);
      Some(VBool(va.VNull?))
    case IsNotNull(a) =>
      var va :- Eval(m, a, env, group);
      Some(VBool(!va.VNull?))
    case And(a, b) =>
      var va :- Eval(m, a, env, group);
      var vb :- Eval(m, b, env, group);
      AndV(va, vb)
    case Or(a, b) =>
      var va :- Eval(m, a, env, group);
      var vb :- Eval(m, b, env, group);
      OrV(va, vb)
    case Xor(a, b) =>
      var va :- Eval(m, a, env, group);
      var vb :- Eval(m, b, env, group);
      XorV(va, vb)
    case Not(a) =>
      var va :- Eval(m, a, env, group);
      NotV(va)
    case Property(a, k) =>
      var va :- Eval(m, a, env, group);
      Some(PropertyV(m, va, k))
    case Subscript(a, b) =>
      var va :- Eval(m, a, env, group);
      var vb :- Eval(m, b, env, group);
      SubscriptV(m, va, vb)
    case List(es) =>
      var vs :- EvalAll(m, es, env, group);
      Some(VList(vs))
    case Map(ps) =>
      var vs :- EvalPairs(m, ps, env, group);
      Some(VMap(vs))
    case FunctionCall(f, d, es) =>
      var vs :- EvalAll(m, es, env, group);
      CallV(m, f, d, vs)
    case Aggregate(k, d, arg) =>
      var vs :- if arg.None? then Some(seq(|group|, _ => VBool(true))) else EvalRows(m, arg.value, group);
      m.agg(k, d, vs)
    case CaseSearched(bs, otherwise) =>
      var hit :- EvalBranches(m, bs, env, group);
      if hit.Some? then hit
      else if otherwise.Some? then Eval(m, otherwise.value, env, group)
      else Some(VNull)
    case ListComprehension(x, list, _, _) =>
      var vl :- Eval(m, list, env, group);
      if vl.VNull? then Some(VNull)
      else if vl.VList? then
        var vs :- Comprehend(m, e, vl.items, env, group);
        Some(VList(vs))
      else None
    case LabelCheck(a, ls) =>
      var va :- Eval(m, a, env, group);
      Some(LabelV(m, va, ls))
  }

  function EvalAll(m: Meaning, es: seq<Expr>, env: Env, group: seq<Env>): (r: Option<seq<Value>>)
    ensures r.Some? ==> |r.value| == |es|
    decreases es, 0, 0
  {
    if es == [] then Some([])
    else
      var v :- Eval(m, es[0], env, group);
      var vs :- EvalAll(m, es[1..], env, group);
      Some([v] + vs)
  }

  function EvalPairs(m: Meaning, ps: seq<Entry>, env: Env, group: seq<Env>): Option<seq<(string, Value)>>
    decreases ps, 0, 0
  {
    if ps == [] then Some([])
    else
      var v :- Eval(m, ps[0].value, env, group);
      var vs :- EvalPairs(m, ps[1..], env, group);
      Some([(ps[0].key, v)] + vs)
  }

  // The value of the first branch whose condition is true, or Some(None) when there is none.
  function EvalBranches(m: Meaning, bs: seq<Branch>, env: Env, group: seq<Env>): Option<Option<Value>>
    decreases bs, 0, 0
  {
    if bs == [] then Some(None)
    else
      assert bs decreases to bs[0];
      var When(cond, result) := bs[0];
      var c :- Eval(m, cond, env, group);
      if c == VBool(true) then
        var v :- Eval(m, result, env, group);
        Some(Some(v))
      else EvalBranches(m, bs[1..], env, group)
  }

  function EvalRows(m: Meaning, e: Expr, rows: seq<Env>): Option<seq<Value>>
    decreases e, 2, |rows|
  {
    if rows == [] then Some([])
    else
      var v :- Eval(m, e, rows[0], []);
      var vs :- EvalRows(m, e, rows[1..]);
      Some([v] + vs)
  }

  function Comprehend(m: Meaning, e: Expr, vs: seq<Value>, env: Env, group: seq<Env>): Option<seq<Value>>
    requires e.ListComprehension?
    decreases e, 0, |vs|
  {
    if vs == [] then Some([])
    else
      var env' := Bind(env, e.variable, vs[0]);
      var group' := BindAll(group, e.variable, vs[0]);
      var keep :- if e.filter.Some? then Eval(m, e.filter.value, env', group') else Some(VBool(true));
      var rest :- Comprehend(m, e, vs[1..], env, group);
      if keep != VBool(true) then Some(rest)
      else
        var v :- if e.projection.Some? then Eval(m, e.projection.value, env', group') else Some(vs[0]);
        Some([v] + rest)
  }

  // ---------- One constructor at a time ----------

  lemma EvalEq(m: Meaning, a: Expr, b: Expr, env: Env, group: seq<Env>)
    ensures var va, vb, v := Eval(m, a, env, group), Eval(m, b, env, group), Eval(m, Comparison(Eq, a, b), env, group);
            && (va.None? || vb.None? ==> v.None?)
            && (va.Some? && vb.Some? ==> v == Some(CompareV(m, Eq, va.value, vb.value)))
  {
    hide EvalAll, EvalPairs, EvalBranches, EvalRows, Comprehend, CompareV;
  }

  lemma EvalArith(m: Meaning, op: ArithOp, a: Expr, b: Expr, env: Env, group: seq<Env>)
    ensures var va, vb := Eval(m, a, env, group), Eval(m, b, env, group);
            Eval(m, Arith(op, a, b), env, group) == if va.None? || vb.None? then None else ArithV(m, op, va.value, vb.value)
  {
    hide EvalAll, EvalPairs, EvalBranches, EvalRows, Comprehend, ArithV;
  }

  lemma EvalAnd(m: Meaning, a: Expr, b: Expr, env: Env, group: seq<Env>)
    ensures var va, vb := Eval(m, a, env, group), Eval(m, b, env, group);
            Eval(m, And(a, b), env, group) == if va.None? || vb.None? then None else AndV(va.value, vb.value)
  {
    hide EvalAll, EvalPairs, EvalBranches, EvalRows, Comprehend, AndV;
  }

  lemma EvalOr(m: Meaning, a: Expr, b: Expr, env: Env, group: seq<Env>)
    ensures var va, vb := Eval(m, a, env, group), Eval(m, b, env, group);
            Eval(m, Or(a, b), env, group) == if va.None? || vb.None? then None else OrV(va.value, vb.value)
  {
    hide EvalAll, EvalPairs, EvalBranches, EvalRows, Comprehend, OrV;
  }

  lemma EvalXor(m: Meaning, a: Expr, b: Expr, env: Env, group: seq<Env>)
    ensures var va, vb := Eval(m, a, env, group), Eval(m, b, env, group);
            Eval(m, Xor(a, b), env, group) == if va.None? || vb.None? then None else XorV(va.value, vb.value)
  {
    hide EvalAll, EvalPairs, EvalBranches, EvalRows, Comprehend, XorV;
  }

  lemma EvalNot(m: Meaning, a: Expr, env: Env, group: seq<Env>)
    ensures var va := Eval(m, a, env, group);
            Eval(m, Not(a), env, group) == if va.None? then None else NotV(va.value)
  {
    hide EvalAll, EvalPairs, EvalBranches, EvalRows, Comprehend, NotV;
  }

  lemma EvalVariable(m: Meaning, x: string, env: Env, group: seq<Env>)
    ensures Eval(m, Variable(x), env, group) == Some(Lookup(env, x))
  {
    hide EvalAll, EvalPairs, EvalBranches, EvalRows, Comprehend;
  }

  lemma EvalLiteral(m: Meaning, l: Literal, env: Env, group: seq<Env>)
    ensures Eval(m, Lit(l), env, group) == Some(LitValue(l))
  {
    hide EvalAll, EvalPairs, EvalBranches, EvalRows, Comprehend;
  }

  // An aggregate looks at the rows of the group only.
  lemma EvalAggregate(m: Meaning, e: Expr, env: Env, env': Env, group: seq<Env>)
    requires e.Aggregate?
    ensures Eval(m, e, env, group) == Eval(m, e, env', group)
  {
    hide EvalAll, EvalPairs, EvalBranches, EvalRows, Comprehend;
  }

  lemma EvalLabels(m: Meaning, x: string, labels: seq<string>, env: Env, group: seq<Env>)
    ensures Eval(m, LabelCheck(Variable(x), labels), env, group) == Some(LabelV(m, Lookup(env, x), labels))
  {
    hide EvalAll, EvalPairs, EvalBranches, EvalRows, Comprehend, LabelV;
  }

  lemma EvalProperty(m: Meaning, x: string, k: string, env: Env, group: seq<Env>)
    ensures Eval(m, Property(Variable(x), k), env, group) == Some(PropertyV(m, Lookup(env, x), k))
  {
    hide EvalAll, EvalPairs, EvalBranches, EvalRows, Comprehend, PropertyV;
  }

  lemma EvalCall(m: Meaning, f: string, d: bool, es: seq<Expr>, env: Env, group: seq<Env>)
    ensures var vs := EvalAll(m, es, env, group);
            Eval(m, FunctionCall(f, d, es), env, group) == if vs.None? then None else CallV(m, f, d, vs.value)
  {
    hide EvalAll, EvalPairs, EvalBranches, EvalRows, Comprehend, CallV;
  }

  lemma EvalComprehension(m: Meaning, e: Expr, env: Env, group: seq<Env>)
    requires e.ListComprehension?
    ensures var vl := Eval(m, e.list, env, group);
            Eval(m, e, env, group) ==
            if vl.None? then None
            else if vl.value.VNull? then Some(VNull)
            else if vl.value.VList? then
              (var vs := Comprehend(m, e, vl.value.items, env, group); if vs.None? then None else Some(VList(vs.value)))
            else None
  {
    hide EvalAll, EvalPairs, EvalBranches, EvalRows, Comprehend;
  }

  lemma EvalSearched(m: Meaning, bs: seq<Branch>, otherwise: Option<Expr>, env: Env, group: seq<Env>)
    ensures Eval(m, CaseSearched(bs, otherwise), env, group)
         == match EvalBranches(m, bs, env, group)
            case None => None
            case Some(hit) => if hit.Some? then hit else if otherwise.Some? then Eval(m, otherwise.value, env, group) else Some(VNull)
  {
    hide EvalAll, EvalPairs, EvalBranches, EvalRows, Comprehend;
  }

  // ---------- Free variables ----------

  function Free(e: Expr): set<string> {
    match e
    case Variable(x) => {x}
    case Lit(_) => {}
    case Arith(_, a, b) => Free(a) + Free(b)
    case Comparison(_, a, b) => Free(a) + Free(b)
    case And(a, b) => Free(a) + Free(b)
    case Or(a, b) => Free(a) + Free(b)
    case Xor(a, b) => Free(a) + Free(b)
    case Subscript(a, b) => Free(a) + Free(b)
    case Unary(_, a) => Free(a)
    case IsNull(a) => Free(a)
    case IsNotNull(a) => Free(a)
    case Not(a) => Free(a)
    case Property(a, _) => Free(a)
    case LabelCheck(a, _) => Free(a)
    case List(es) => FreeAll(es)
    case FunctionCall(_, _, es) => FreeAll(es)
    case Map(ps) => FreePairs(ps)
    case Aggregate(_, _, arg) => FreeOpt(arg)
    case CaseSearched(bs, o) => FreeBranches(bs) + FreeOpt(o)
    case ListComprehension(x, l, p, j) => Free(l) + (FreeOpt(p) + FreeOpt(j) - {x})
  }

  function FreeOpt(e: Option<Expr>): set<string> {
    if e.None? then {} else Free(e.value)
  }

  function FreeAll(es: seq<Expr>): set<string> {
    if es == [] then {} else Free(es[0]) + FreeAll(es[1..])
  }

  function FreePairs(ps: seq<Entry>): set<string> {
    if ps == [] then {} else Free(ps[0].value) + FreePairs(ps[1..])
  }

  function FreeBranches(bs: seq<Branch>): set<string> {
    if bs == [] then {}
    else
      assert bs decreases to bs[0];
      var When(cond, result) := bs[0];
      Free(cond) + Free(result) + FreeBranches(bs[1..])
  }

  // The free variables outside aggregates; the arguments of an aggregate range over the group.
  function Outer(e: Expr): set<string> {
    match e
    case Variable(x) => {x}
    case Lit(_) => {}
    case Arith(_, a, b) => Outer(a) + Outer(b)
    case Comparison(_, a, b) => Outer(a) + Outer(b)
    case And(a, b) => Outer(a) + Outer(b)
    case Or(a, b) => Outer(a) + Outer(b)
    case Xor(a, b) => Outer(a) + Outer(b)
    case Subscript(a, b) => Outer(a) + Outer(b)
    case Unary(_, a) => Outer(a)
    case IsNull(a) => Outer(a)
    case IsNotNull(a) => Outer(a)
    case Not(a) => Outer(a)
    case Property(a, _) => Outer(a)
    case LabelCheck(a, _) => Outer(a)
    case List(es) => OuterAll(es)
    case FunctionCall(_, _, es) => OuterAll(es)
    case Map(ps) => OuterPairs(ps)
    case Aggregate(_, _, _) => {}
    case CaseSearched(bs, o) => OuterBranches(bs) + OuterOpt(o)
    case ListComprehension(x, l, p, j) => Outer(l) + (OuterOpt(p) + OuterOpt(j) - {x})
  }

  function OuterOpt(e: Option<Expr>): set<string> {
    if e.None? then {} else Outer(e.value)
  }

  function OuterAll(es: seq<Expr>): set<string> {
    if es == [] then {} else Outer(es[0]) + OuterAll(es[1..])
  }

  function OuterPairs(ps: seq<Entry>): set<string> {
    if ps == [] then {} else Outer(ps[0].value) + OuterPairs(ps[1..])
  }

  function OuterBranches(bs: seq<Branch>): set<string> {
    if bs == [] then {}
    else
      assert bs decreases to bs[0];
      var When(cond, result) := bs[0];
      Outer(cond) + Outer(result) + OuterBranches(bs[1..])
  }

  lemma {:induction false} OuterIsFree(e: Expr)
    ensures Outer(e) <= Free(e)
    decreases e, 1
  {
    hide OuterAll, FreeAll, OuterPairs, FreePairs, OuterBranches, FreeBranches;
    if IsBinary(e) {
      OuterIsFree(Left(e));
      OuterIsFree(Right(e));
    } else if IsUnary(e) {
      OuterIsFree(e.e);
    } else {
      match e {
        case List(es) => OuterAllIsFree(es);
        case FunctionCall(_, _, es) => OuterAllIsFree(es);
        case Map(ps) => OuterPairsAreFree(ps);
        case CaseSearched(bs, o) =>
          OuterBranchesAreFree(bs);
          if o.Some? { OuterIsFree(o.value); }
        case ListComprehension(_, l, p, j) =>
          OuterIsFree(l);
          if p.Some? { OuterIsFree(p.value); }
          if j.Some? { OuterIsFree(j.value); }
        case _ =>
      }
    }
  }

  lemma {:induction false} OuterAllIsFree(es: seq<Expr>)
    ensures OuterAll(es) <= FreeAll(es)
    decreases es, 0
  {
    if es != [] {
      OuterIsFree(es[0]);
      OuterAllIsFree(es[1..]);
    }
  }

  lemma {:induction false} OuterPairsAreFree(ps: seq<Entry>)
    ensures OuterPairs(ps) <= FreePairs(ps)
    decreases ps, 0
  {
    if ps != [] {
      OuterIsFree(ps[0].value);
      OuterPairsAreFree(ps[1..]);
    }
  }

  lemma {:induction false} OuterBranchesAreFree(bs: seq<Branch>)
    ensures OuterBranches(bs) <= FreeBranches(bs)
    decreases bs, 0
  {
    if bs != [] {
      assert bs decreases to bs[0];
      OuterIsFree(bs[0].cond);
      OuterIsFree(bs[0].result);
      OuterBranchesAreFree(bs[1..]);
    }
  }

  ghost predicate Agree(xs: set<string>, env: Env, env': Env) {
    forall x :: x in xs ==> Lookup(env, x) == Lookup(env', x)
  }

  ghost predicate AgreeAll(xs: set<string>, rows: seq<Env>, rows': seq<Env>) {
    |rows| == |rows'| && forall i :: 0 <= i < |rows| ==> Agree(xs, rows[i], rows'[i])
  }

  lemma AgreeBind(outer: set<string>, inner: set<string>, x: string, v: Value, env: Env, env': Env)
    requires Agree(outer, env, env') && inner - {x} <= outer
    ensures Agree(inner, Bind(env, x, v), Bind(env', x, v))
  {
    forall y | y in inner
      ensures Lookup(Bind(env, x, v), y) == Lookup(Bind(env', x, v), y)
    {
      if y != x {
        assert y in inner - {x};
        assert y in outer;
        assert Lookup(env, y) == Lookup(env', y);
      }
    }
  }

  predicate IsBinary(e: Expr) {
    e.Arith? || e.Comparison? || e.And? || e.Or? || e.Xor? || e.Subscript?
  }

  function Left(e: Expr): Expr
    requires IsBinary(e)
  {
    if e.Subscript? then e.list else e.l
  }

  function Right(e: Expr): Expr
    requires IsBinary(e)
  {
    if e.Subscript? then e.index else e.r
  }

  predicate IsUnary(e: Expr) {
    e.Unary? || e.IsNull? || e.IsNotNull? || e.Not? || e.Property? || e.LabelCheck?
  }

  // An expression depends on nothing but its free variables outside aggregates, and those
  // of the group.
  lemma {:induction false} OuterCoincidence(m: Meaning, e: Expr, env: Env, env': Env, group: seq<Env>, group': seq<Env>)
    requires Agree(Outer(e), env, env') && AgreeAll(Free(e), group, group')
    ensures Eval(m, e, env, group) == Eval(m, e, env', group')
    decreases e, 1, 1
  {
    hide Eval, Free, Outer;
    if IsBinary(e) {
      CoincidenceBinary(m, e, env, env', group, group');
    } else if IsUnary(e) {
      CoincidenceUnary(m, e, env, env', group, group');
    } else {
      CoincidenceOther(m, e, env, env', group, group');
    }
  }

  lemma {:induction false} CoincidenceBinary(m: Meaning, e: Expr, env: Env, env': Env, group: seq<Env>, group': seq<Env>)
    requires IsBinary(e) && Agree(Outer(e), env, env') && AgreeAll(Free(e), group, group')
    ensures Eval(m, e, env, group) == Eval(m, e, env', group')
    decreases e, 1, 0
  {
    hide EvalAll, EvalPairs, EvalBranches, EvalRows, Comprehend, FreeAll, FreePairs, FreeBranches, OuterAll, OuterPairs, OuterBranches;
    assert Free(e) == Free(Left(e)) + Free(Right(e)) && Outer(e) == Outer(Left(e)) + Outer(Right(e));
    OuterCoincidence(m, Left(e), env, env', group, group');
    OuterCoincidence(m, Right(e), env, env', group, group');
  }

  lemma {:induction false} CoincidenceUnary(m: Meaning, e: Expr, env: Env, env': Env, group: seq<Env>, group': seq<Env>)
    requires IsUnary(e) && !IsBinary(e) && Agree(Outer(e), env, env') && AgreeAll(Free(e), group, group')
    ensures Eval(m, e, env, group) == Eval(m, e, env', group')
    decreases e, 1, 0
  {
    hide EvalAll, EvalPairs, EvalBranches, EvalRows, Comprehend, FreeAll, FreePairs, FreeBranches, OuterAll, OuterPairs, OuterBranches;
    OuterCoincidence(m, e.e, env, env', group, group');
  }

  lemma {:induction false} CoincidenceOther(m: Meaning, e: Expr, env: Env, env': Env, group: seq<Env>, group': seq<Env>)
    requires !IsBinary(e) && !IsUnary(e)
    requires Agree(Outer(e), env, env') && AgreeAll(Free(e), group, group')
    ensures Eval(m, e, env, group) == Eval(m, e, env', group')
    decreases e, 1, 0
  {
    hide EvalAll, EvalPairs, EvalBranches, EvalRows, Comprehend, FreeAll, FreePairs, FreeBranches, OuterAll, OuterPairs, OuterBranches;
    match e {
      case Variable(_) =>
      case Lit(_) =>
      case List(es) => CoincidenceAll(m, es, env, env', group, group');
      case FunctionCall(_, _, es) => CoincidenceAll(m, es, env, env', group, group');
      case Map(ps) => CoincidencePairs(m, ps, env, env', group, group');
      case Aggregate(_, _, arg) =>
        if arg.Some? {
          assert Free(e) == Free(arg.value);
          CoincidenceRows(m, arg.value, group, group');
        } else {
          assert seq(|group|, _ => VBool(true)) == seq(|group'|, _ => VBool(true));
        }
      case CaseSearched(bs, o) =>
        assert Free(e) == FreeBranches(bs) + FreeOpt(o) && Outer(e) == OuterBranches(bs) + OuterOpt(o);
        CoincidenceBranches(m, bs, env, env', group, group');
        if o.Some? { OuterCoincidence(m, o.value, env, env', group, group'); }
      case ListComprehension(_, l, _, _) =>
        OuterCoincidence(m, l, env, env', group, group');
        var vl := Eval(m, l, env, group);
        if vl.Some? && vl.value.VList? {
          CoincidenceComprehend(m, e, vl.value.items, env, env', group, group');
        }
    }
  }

  lemma {:induction false} CoincidenceAll(m: Meaning, es: seq<Expr>, env: Env, env': Env, group: seq<Env>, group': seq<Env>)
    requires Agree(OuterAll(es), env, env') && AgreeAll(FreeAll(es), group, group')
    ensures EvalAll(m, es, env, group) == EvalAll(m, es, env', group')
    decreases es, 0, 0
  {
    if es != [] {
      OuterCoincidence(m, es[0], env, env', group, group');
      CoincidenceAll(m, es[1..], env, env', group, group');
    }
  }

  lemma {:induction false} CoincidencePairs(m: Meaning, ps: seq<Entry>, env: Env, env': Env, group: seq<Env>, group': seq<Env>)
    requires Agree(OuterPairs(ps), env, env') && AgreeAll(FreePairs(ps), group, group')
    ensures EvalPairs(m, ps, env, group) == EvalPairs(m, ps, env', group')
    decreases ps, 0, 0
  {
    if ps != [] {
      OuterCoincidence(m, ps[0].value, env, env', group, group');
      CoincidencePairs(m, ps[1..], env, env', group, group');
    }
  }

  lemma {:induction false} CoincidenceBranches(m: Meaning, bs: seq<Branch>, env: Env, env': Env, group: seq<Env>, group': seq<Env>)
    requires Agree(OuterBranches(bs), env, env') && AgreeAll(FreeBranches(bs), group, group')
    ensures EvalBranches(m, bs, env, group) == EvalBranches(m, bs, env', group')
    decreases bs, 0, 0
  {
    if bs != [] {
      assert bs decreases to bs[0];
      var When(cond, result) := bs[0];
      OuterCoincidence(m, cond, env, env', group, group');
      OuterCoincidence(m, result, env, env', group, group');
      CoincidenceBranches(m, bs[1..], env, env', group, group');
    }
  }

  lemma {:induction false} CoincidenceRows(m: Meaning, e: Expr, rows: seq<Env>, rows': seq<Env>)
    requires AgreeAll(Free(e), rows, rows')
    ensures EvalRows(m, e, rows) == EvalRows(m, e, rows')
    decreases e, 2, |rows|
  {
    if rows != [] {
      OuterIsFree(e);
      OuterCoincidence(m, e, rows[0], rows'[0], [], []);
      CoincidenceRows(m, e, rows[1..], rows'[1..]);
    }
  }

  lemma {:induction false} CoincidenceComprehend(m: Meaning, e: Expr, vs: seq<Value>, env: Env, env': Env, group: seq<Env>, group': seq<Env>)
    requires e.ListComprehension?
    requires Agree(Outer(e), env, env') && AgreeAll(Free(e), group, group')
    ensures Comprehend(m, e, vs, env, group) == Comprehend(m, e, vs, env', group')
    decreases e, 0, |vs|
  {
    if vs != [] {
      var x := e.variable;
      var inner := FreeOpt(e.filter) + FreeOpt(e.projection);
      var env1, env1' := Bind(env, x, vs[0]), Bind(env', x, vs[0]);
      var group1, group1' := BindAll(group, x, vs[0]), BindAll(group', x, vs[0]);
      AgreeBind(Outer(e), OuterOpt(e.filter) + OuterOpt(e.projection), x, vs[0], env, env');
      forall i | 0 <= i < |group|
        ensures Agree(inner, group1[i], group1'[i])
      {
        AgreeBind(Free(e), inner, x, vs[0], group[i], group'[i]);
      }
      if e.filter.Some? { OuterCoincidence(m, e.filter.value, env1, env1', group1, group1'); }
      if e.projection.Some? { OuterCoincidence(m, e.projection.value, env1, env1', group1, group1'); }
      CoincidenceComprehend(m, e, vs[1..], env, env', group, group');
    }
  }

  // In particular on nothing but its free variables.
  lemma Coincidence(m: Meaning, e: Expr, env: Env, env': Env, group: seq<Env>, group': seq<Env>)
    requires Agree(Free(e), env, env') && AgreeAll(Free(e), group, group')
    ensures Eval(m, e, env, group) == Eval(m, e, env', group')
  {
    hide Eval, Free, Outer;
    OuterIsFree(e);
    OuterCoincidence(m, e, env, env', group, group');
  }
}

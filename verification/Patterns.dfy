/** Path patterns, their meaning, and what lowering makes of them. */
module Patterns {
  import opened Prelude
  import opened Ops
  import L = Lqa
  import C = Cypher
  import E = LowerExpr
  import A = Lowerable

  // ---------- Syntax ----------

  datatype RelDirection = Right | Left | Both
  datatype RangeQuantifier = RangeQuantifier(lower: Option<nat>, upper: Option<nat>)
  datatype Prop = Prop(key: string, value: C.Expression)

  datatype Element =
    | Node(variable: Option<string>, labels: seq<string>, props: Option<seq<Prop>>)
    | Rel(variable: Option<string>, direction: RelDirection, relTypes: seq<string>, props: Option<seq<Prop>>, range: Option<RangeQuantifier>)

  datatype Pattern = Pattern(variable: Option<string>, elements: seq<Element>)

  // [Node, Rel, Node, ..., Node]
  predicate Alternating(es: seq<Element>) {
    |es| % 2 == 1 && forall i :: 0 <= i < |es| ==> (es[i].Node? <==> i % 2 == 0)
  }

  function LowerDirection(d: RelDirection): Direction {
    match d
    case Right => Outgoing
    case Left => Incoming
    case Both => Undirected
  }

  function LowerRange(r: Option<RangeQuantifier>): Option<PathRange> {
    if r.None? then None
    else Some(PathRange(if r.value.lower.Some? then r.value.lower.value else 1, r.value.upper))
  }

  // ---------- Names for node positions ----------

  function AnonName(n: nat): string {
    "_lqa_anon_" + Decimal(n)
  }

  ghost predicate IsAnonName(x: string) {
    exists n: nat :: x == AnonName(n)
  }

  function NodeCount(es: seq<Element>): nat {
    if es == [] then 0 else (if es[0].Node? then 1 else 0) + NodeCount(es[1..])
  }

  // The number of names an element uses up.
  function Anon(e: Element): nat {
    if e.Node? && e.variable.None? then 1 else 0
  }

  function AnonCount(es: seq<Element>): nat {
    if es == [] then 0 else Anon(es[0]) + AnonCount(es[1..])
  }

  function NameOf(e: Element, counter: nat): seq<string> {
    if e.Rel? then [] else if e.variable.Some? then [e.variable.value] else [AnonName(counter)]
  }

  function Names(es: seq<Element>, counter: nat): (r: seq<string>)
    ensures |r| == NodeCount(es)
  {
    if es == [] then [] else NameOf(es[0], counter) + Names(es[1..], counter + Anon(es[0]))
  }

  // ---------- Lowering, element by element ----------

  datatype PatternError = InExpression(error: E.LowerError) | NoPrecedingNode | MissingNode | EmptyList

  // The variables of the scan over the elements.
  datatype State = State(op: Option<Op>, nodeIdx: nat, lastSrc: Option<string>, afterRel: bool, seen: set<string>)

  function OpOrUnit(op: Option<Op>): Op {
    if op.Some? then op.value else Unit
  }

  function AddLabels(op: Op, x: string, labels: seq<string>): Op
    decreases labels
  {
    if labels == [] then op
    else AddLabels(Selection(op, L.LabelCheck(L.Variable(x), [labels[0]])), x, labels[1..])
  }

  function AddProps(op: Op, x: string, props: seq<Prop>): Result<Op, PatternError>
    decreases props
  {
    if props == [] then Ok(op)
    else
      var v := E.Lower(props[0].value);
      if v.Err? then Err(InExpression(v.error))
      else AddProps(Selection(op, L.Comparison(L.Eq, L.Property(L.Variable(x), props[0].key), v.value)), x, props[1..])
  }

  function PropsOf(props: Option<seq<Prop>>): seq<Prop> {
    if props.Some? then props.value else []
  }

  function LowerNode(n: Element, x: string, st: State): Result<Op, PatternError>
    requires n.Node?
  {
    if st.afterRel || x in st.seen then
      AddProps(AddLabels(OpOrUnit(st.op), x, n.labels), x, PropsOf(n.props))
    else
      var scan := Scan(x, if n.labels == [] then None else Some(n.labels[0]), if |n.labels| > 1 then n.labels[1..] else []);
      var op :- AddProps(scan, x, PropsOf(n.props));
      Ok(if st.op.None? then op else CartesianProduct(st.op.value, op))
  }

  // A relationship without a variable loses its inline properties.
  function LowerRel(r: Element, from: string, to: string, pathVar: Option<string>, st: State): Result<Op, PatternError>
    requires r.Rel?
  {
    var expand := Expand(OpOrUnit(st.op), from, r.variable, to, r.relTypes, LowerDirection(r.direction), LowerRange(r.range), pathVar);
    if r.variable.Some? then AddProps(expand, r.variable.value, PropsOf(r.props)) else Ok(expand)
  }

  function LowerElement(e: Element, names: seq<string>, pathVar: Option<string>, st: State): Result<State, PatternError> {
    if e.Node? then
      if st.nodeIdx >= |names| then Err(MissingNode)
      else
        var x := names[st.nodeIdx];
        var op :- LowerNode(e, x, st);
        Ok(State(Some(op), st.nodeIdx + 1, Some(x), false, st.seen + {x}))
    else if st.lastSrc.None? then Err(NoPrecedingNode)
    else if st.nodeIdx >= |names| then Err(MissingNode)
    else
      var op :- LowerRel(e, st.lastSrc.value, names[st.nodeIdx], pathVar, st);
      Ok(st.(op := Some(op), afterRel := true))
  }

  function LowerElements(es: seq<Element>, names: seq<string>, pathVar: Option<string>, st: State): Result<State, PatternError> {
    if es == [] then Ok(st)
    else
      var next :- LowerElement(es[0], names, pathVar, st);
      LowerElements(es[1..], names, pathVar, next)
  }

  function Start(seen: set<string>): State {
    State(None, 0, None, false, seen)
  }

  // The operator for one pattern, and the variables seen after it.
  function LowerOne(p: Pattern, counter: nat, seen: set<string>): Result<(Op, set<string>), PatternError> {
    var st :- LowerElements(p.elements, Names(p.elements, counter), p.variable, Start(seen));
    Ok((OpOrUnit(st.op), st.seen))
  }

  function LowerRest(ps: seq<Pattern>, acc: Op, counter: nat, seen: set<string>): Result<(Op, set<string>), PatternError> {
    if ps == [] then Ok((acc, seen))
    else
      var one :- LowerOne(ps[0], counter, seen);
      LowerRest(ps[1..], CartesianProduct(acc, one.0), counter + AnonCount(ps[0].elements), one.1)
  }

  function LowerList(ps: seq<Pattern>, counter: nat, seen: set<string>): Result<(Op, set<string>), PatternError> {
    if ps == [] then Err(EmptyList)
    else
      var one :- LowerOne(ps[0], counter, seen);
      LowerRest(ps[1..], one.0, counter + AnonCount(ps[0].elements), one.1)
  }

  // ---------- Meaning ----------

  // The named variables, and the values of the expressions in the pattern.
  datatype Context = Context(env: L.Env, value: C.Expression -> Option<L.Value>)

  ghost function ContextOf(m: L.Meaning, env: L.Env): Context {
    Context(env, e => C.Eval(m, e, env, []))
  }

  ghost predicate PropsHold(m: L.Meaning, v: L.Value, props: seq<Prop>, ctx: Context) {
    forall i :: 0 <= i < |props| ==>
      var w := ctx.value(props[i].value);
      w.Some? && L.CompareV(m, L.Eq, L.PropertyV(m, v, props[i].key), w.value) == L.VBool(true)
  }

  ghost predicate NodeHolds(m: L.Meaning, g: Graph, n: Element, v: L.Value, ctx: Context)
    requires n.Node?
  {
    IsNode(g, v) && HasLabels(m, v, n.labels) && PropsHold(m, v, PropsOf(n.props), ctx)
  }

  // a-[e]->b, a<-[e]-b, or either, as the pattern is drawn.
  predicate Leads(e: Edge, a: L.Value, b: L.Value, d: RelDirection, types: seq<string>) {
    var right, left := a == L.VNode(e.src) && b == L.VNode(e.dst), a == L.VNode(e.dst) && b == L.VNode(e.src);
    (types == [] || e.typ in types) && match d { case Right => right case Left => left case Both => right || left }
  }

  ghost predicate IsPath(es: seq<Edge>, a: L.Value, b: L.Value, g: Graph, d: RelDirection, types: seq<string>) {
    if es == [] then a == b
    else exists mid: L.Value :: es[0] in g.edges && Leads(es[0], a, mid, d, types) && IsPath(es[1..], mid, b, g, d, types)
  }

  // *lower..upper; a path has one step at least where no lower bound is written.
  predicate IsLength(n: nat, r: RangeQuantifier) {
    n >= (if r.lower.Some? then r.lower.value else 1) && (r.upper.Some? ==> n <= r.upper.value)
  }

  // rel is what the relationship pattern binds: one relationship, or the list of those of a path.
  ghost predicate Joins(g: Graph, a: L.Value, rel: L.Value, b: L.Value, r: Element)
    requires r.Rel?
  {
    if r.range.None? then exists e :: e in g.edges && Leads(e, a, b, r.direction, r.relTypes) && rel == L.VRel(e.id)
    else exists es :: IsPath(es, a, b, g, r.direction, r.relTypes) && IsLength(|es|, r.range.value) && rel == L.VList(RelIds(es))
  }

  ghost predicate RelHolds(m: L.Meaning, g: Graph, r: Element, a: L.Value, b: L.Value, ctx: Context)
    requires r.Rel?
  {
    exists rel :: Joins(g, a, rel, b, r)
                  && (r.variable.Some? ==> L.Lookup(ctx.env, r.variable.value) == rel)
                  && PropsHold(m, rel, PropsOf(r.props), ctx)
  }

  // next is the node at e, or the one the relationship e leads to.
  ghost predicate ElementHolds(m: L.Meaning, g: Graph, e: Element, last: Option<L.Value>, next: L.Value, ctx: Context) {
    if e.Node? then NodeHolds(m, g, e, next, ctx) else last.Some? && RelHolds(m, g, e, last.value, next, ctx)
  }

  function NodesAfter(e: Element, ns: seq<L.Value>): seq<L.Value>
    requires ns != []
  {
    if e.Node? then ns[1..] else ns
  }

  function LastAfter(e: Element, next: L.Value, last: Option<L.Value>): Option<L.Value> {
    if e.Node? then Some(next) else last
  }

  // A constraint on an element, the node before it and the node at or after it.
  type Constraint = (Element, Option<L.Value>, L.Value) -> bool

  // ns[i] is the node at the i-th node position, counting from the first of es.
  ghost predicate Chain(es: seq<Element>, ns: seq<L.Value>, last: Option<L.Value>, holds: Constraint) {
    if es == [] then true
    else
      && ns != []
      && holds(es[0], last, ns[0])
      && Chain(es[1..], NodesAfter(es[0], ns), LastAfter(es[0], ns[0], last), holds)
  }

  ghost function Required(m: L.Meaning, g: Graph, ctx: Context): Constraint {
    (e, last, next) => ElementHolds(m, g, e, last, next, ctx)
  }

  ghost predicate ElementsHold(m: L.Meaning, g: Graph, es: seq<Element>, ns: seq<L.Value>, last: Option<L.Value>, ctx: Context) {
    Chain(es, ns, last, Required(m, g, ctx))
  }

  // The node positions of a named variable hold the value the assignment gives it.
  ghost predicate NamedAgree(es: seq<Element>, ns: seq<L.Value>, env: L.Env)
    requires |ns| == NodeCount(es)
  {
    if es == [] then true
    else if es[0].Rel? then NamedAgree(es[1..], ns, env)
    else (es[0].variable.Some? ==> ns[0] == L.Lookup(env, es[0].variable.value)) && NamedAgree(es[1..], ns[1..], env)
  }

  ghost predicate AllMatch(m: L.Meaning, g: Graph, ps: seq<Pattern>, nss: seq<seq<L.Value>>, env: L.Env)
    requires |nss| == |ps|
  {
    ps != [] ==>
      && |nss[0]| == NodeCount(ps[0].elements)
      && NamedAgree(ps[0].elements, nss[0], env)
      && ElementsHold(m, g, ps[0].elements, nss[0], None, ContextOf(m, env))
      && AllMatch(m, g, ps[1..], nss[1..], env)
  }

  // env matches the patterns: nodes can be found for their anonymous positions
  // such that every constraint holds.
  ghost predicate Matches(m: L.Meaning, g: Graph, ps: seq<Pattern>, env: L.Env) {
    exists nss :: |nss| == |ps| && AllMatch(m, g, ps, nss, env)
  }

  // What lowering forgets: the inline properties of relationships without a variable.
  function Forget(e: Element): Element {
    if e.Rel? && e.variable.None? then e.(props := None) else e
  }

  function ForgetAll(es: seq<Element>): (r: seq<Element>)
    ensures |r| == |es| && NodeCount(r) == NodeCount(es)
    ensures forall i :: 0 <= i < |es| ==> r[i] == Forget(es[i])
  {
    if es == [] then [] else [Forget(es[0])] + ForgetAll(es[1..])
  }

  function ForgetEach(ps: seq<Pattern>): (r: seq<Pattern>)
    ensures |r| == |ps|
  {
    if ps == [] then [] else [Pattern(ps[0].variable, ForgetAll(ps[0].elements))] + ForgetEach(ps[1..])
  }

  // ---------- One element ----------

  // The lowered property values mean under env' what the written ones mean under env.
  ghost predicate ValuesAgree(m: L.Meaning, props: seq<Prop>, ctx: Context, env': L.Env) {
    forall i :: 0 <= i < |props| && E.Lower(props[i].value).Ok? ==>
      L.Eval(m, E.Lower(props[i].value).value, env', []) == ctx.value(props[i].value)
  }

  lemma {:induction false} AddLabelsHolds(m: L.Meaning, g: Graph, op: Op, x: string, labels: seq<string>, env: L.Env)
    requires !L.Lookup(env, x).VNull?
    ensures Sat(m, g, AddLabels(op, x, labels), env) <==> Sat(m, g, op, env) && HasLabels(m, L.Lookup(env, x), labels)
    decreases labels
  {
    if labels != [] {
      var check := L.LabelCheck(L.Variable(x), [labels[0]]);
      AddLabelsHolds(m, g, Selection(op, check), x, labels[1..], env);
      L.EvalLabels(m, x, [labels[0]], env, []);
      assert labels == [labels[0]] + labels[1..];
    }
  }

  lemma PropsHoldCons(m: L.Meaning, v: L.Value, props: seq<Prop>, ctx: Context)
    requires props != []
    ensures PropsHold(m, v, props, ctx) <==> PropsHold(m, v, [props[0]], ctx) && PropsHold(m, v, props[1..], ctx)
  {
    assert [props[0]][0] == props[0];
    assert forall i :: 0 < i < |props| ==> props[i] == props[1..][i - 1];
  }

  lemma {:induction false} AddPropsHolds(m: L.Meaning, g: Graph, op: Op, x: string, props: seq<Prop>, ctx: Context, env': L.Env)
    requires AddProps(op, x, props).Ok? && ValuesAgree(m, props, ctx, env')
    ensures Sat(m, g, AddProps(op, x, props).value, env') <==> Sat(m, g, op, env') && PropsHold(m, L.Lookup(env', x), props, ctx)
    decreases props
  {
    hide E.Lower;
    if props != [] {
      var v := E.Lower(props[0].value).value;
      var p := L.Property(L.Variable(x), props[0].key);
      AddPropsHolds(m, g, Selection(op, L.Comparison(L.Eq, p, v)), x, props[1..], ctx, env');
      L.EvalProperty(m, x, props[0].key, env', []);
      L.EvalEq(m, p, v, env', []);
      PropsHoldCons(m, L.Lookup(env', x), props, ctx);
      assert PropsHold(m, L.Lookup(env', x), [props[0]], ctx) <==> L.Eval(m, L.Comparison(L.Eq, p, v), env', []) == Some(L.VBool(true)) by {
        assert [props[0]][0] == props[0];
      }
    }
  }

  ghost predicate SatOpt(m: L.Meaning, g: Graph, op: Option<Op>, env: L.Env) {
    op.Some? ==> Sat(m, g, op.value, env)
  }

  // Where the constraints of this pattern so far hold, and those given before
  // it, every variable seen is bound to a node, and so is the target of the
  // relationship just lowered.
  ghost predicate Invariant(m: L.Meaning, g: Graph, names: seq<string>, st: State, env: L.Env, given: bool) {
    && (st.lastSrc.Some? ==> st.lastSrc.value in st.seen)
    && (st.afterRel ==> st.nodeIdx < |names|)
    && (given && SatOpt(m, g, st.op, env) ==>
          && (forall x :: x in st.seen ==> IsNode(g, L.Lookup(env, x)))
          && (st.afterRel ==> IsNode(g, L.Lookup(env, names[st.nodeIdx]))))
  }

  lemma NodeLowered(m: L.Meaning, g: Graph, n: Element, names: seq<string>, st: State, ctx: Context, env': L.Env, given: bool)
    requires n.Node? && st.nodeIdx < |names| && LowerNode(n, names[st.nodeIdx], st).Ok?
    requires ValuesAgree(m, PropsOf(n.props), ctx, env') && Invariant(m, g, names, st, env', given)
    ensures given ==> (Sat(m, g, LowerNode(n, names[st.nodeIdx], st).value, env')
                       <==> SatOpt(m, g, st.op, env') && NodeHolds(m, g, n, L.Lookup(env', names[st.nodeIdx]), ctx))
  {
    var x := names[st.nodeIdx];
    if st.afterRel || x in st.seen {
      var acc := OpOrUnit(st.op);
      AddPropsHolds(m, g, AddLabels(acc, x, n.labels), x, PropsOf(n.props), ctx, env');
      if L.Lookup(env', x).VNull? {
        AddLabelsNeedsOp(m, g, acc, x, n.labels, env');
      } else {
        AddLabelsHolds(m, g, acc, x, n.labels, env');
      }
    } else {
      var scan := Scan(x, if n.labels == [] then None else Some(n.labels[0]), if |n.labels| > 1 then n.labels[1..] else []);
      AddPropsHolds(m, g, scan, x, PropsOf(n.props), ctx, env');
      if n.labels != [] {
        assert n.labels == [n.labels[0]] + n.labels[1..];
      }
    }
  }

  lemma {:induction false} AddLabelsNeedsOp(m: L.Meaning, g: Graph, op: Op, x: string, labels: seq<string>, env: L.Env)
    ensures Sat(m, g, AddLabels(op, x, labels), env) ==> Sat(m, g, op, env)
    decreases labels
  {
    if labels != [] {
      AddLabelsNeedsOp(m, g, Selection(op, L.LabelCheck(L.Variable(x), [labels[0]])), x, labels[1..], env);
    }
  }

  lemma LeadsIsFollows(e: Edge, a: L.Value, b: L.Value, d: RelDirection, types: seq<string>)
    ensures Leads(e, a, b, d, types) <==> Follows(e, a, b, LowerDirection(d), types)
  {
  }

  lemma {:induction false} PathIsWalk(es: seq<Edge>, a: L.Value, b: L.Value, g: Graph, d: RelDirection, types: seq<string>)
    ensures IsPath(es, a, b, g, d, types) <==> Walk(es, a, b, g, LowerDirection(d), types)
  {
    hide Leads, Follows, LowerDirection;
    if es != [] {
      forall mid: L.Value
        ensures Leads(es[0], a, mid, d, types) <==> Follows(es[0], a, mid, LowerDirection(d), types)
        ensures IsPath(es[1..], mid, b, g, d, types) <==> Walk(es[1..], mid, b, g, LowerDirection(d), types)
      {
        LeadsIsFollows(es[0], a, mid, d, types);
        PathIsWalk(es[1..], mid, b, g, d, types);
      }
    }
  }

  // The lowered direction and range accept what the pattern asks for.
  lemma JoinsIsConnects(g: Graph, a: L.Value, rel: L.Value, b: L.Value, r: Element)
    requires r.Rel?
    ensures Joins(g, a, rel, b, r) <==> Connects(g, a, rel, b, r.relTypes, LowerDirection(r.direction), LowerRange(r.range))
  {
    hide Leads, Follows, IsPath, Walk, LowerDirection;
    forall e
      ensures Leads(e, a, b, r.direction, r.relTypes) <==> Follows(e, a, b, LowerDirection(r.direction), r.relTypes)
    {
      LeadsIsFollows(e, a, b, r.direction, r.relTypes);
    }
    forall es
      ensures IsPath(es, a, b, g, r.direction, r.relTypes) <==> Walk(es, a, b, g, LowerDirection(r.direction), r.relTypes)
    {
      PathIsWalk(es, a, b, g, r.direction, r.relTypes);
    }
  }

  lemma RelLowered(m: L.Meaning, g: Graph, r: Element, from: string, to: string, pathVar: Option<string>, st: State, ctx: Context, env': L.Env)
    requires r.Rel? && LowerRel(r, from, to, pathVar, st).Ok?
    requires ValuesAgree(m, PropsOf(r.props), ctx, env')
    requires r.variable.Some? ==> L.Lookup(ctx.env, r.variable.value) == L.Lookup(env', r.variable.value)
    ensures Sat(m, g, LowerRel(r, from, to, pathVar, st).value, env')
       <==> SatOpt(m, g, st.op, env') && RelHolds(m, g, Forget(r), L.Lookup(env', from), L.Lookup(env', to), ctx)
  {
    hide Joins, Connects, LowerDirection, LowerRange;
    var expand := Expand(OpOrUnit(st.op), from, r.variable, to, r.relTypes, LowerDirection(r.direction), LowerRange(r.range), pathVar);
    forall rel
      ensures Joins(g, L.Lookup(env', from), rel, L.Lookup(env', to), Forget(r))
         <==> Connects(g, L.Lookup(env', from), rel, L.Lookup(env', to), r.relTypes, LowerDirection(r.direction), LowerRange(r.range))
    {
      JoinsIsConnects(g, L.Lookup(env', from), rel, L.Lookup(env', to), Forget(r));
    }
    if r.variable.Some? {
      AddPropsHolds(m, g, expand, r.variable.value, PropsOf(r.props), ctx, env');
    }
  }

  // ---------- All elements ----------

  ghost predicate EnvsAgree(m: L.Meaning, es: seq<Element>, ctx: Context, env': L.Env) {
    forall i :: 0 <= i < |es| ==>
      && ValuesAgree(m, PropsOf(es[i].props), ctx, env')
      && (es[i].variable.Some? ==> L.Lookup(ctx.env, es[i].variable.value) == L.Lookup(env', es[i].variable.value))
  }

  function LookupAll(env: L.Env, names: seq<string>): (r: seq<L.Value>)
    ensures |r| == |names| && forall i :: 0 <= i < |names| ==> r[i] == L.Lookup(env, names[i])
  {
    seq(|names|, i requires 0 <= i < |names| => L.Lookup(env, names[i]))
  }

  function Last(env: L.Env, st: State): Option<L.Value> {
    if st.lastSrc.Some? then Some(L.Lookup(env, st.lastSrc.value)) else None
  }

  lemma ElementLowered(m: L.Meaning, g: Graph, e: Element, names: seq<string>, pathVar: Option<string>, st: State,
                       ctx: Context, env': L.Env, given: bool)
    requires WellFormed(g) && LowerElement(e, names, pathVar, st).Ok?
    requires Invariant(m, g, names, st, env', given) && EnvsAgree(m, [e], ctx, env')
    ensures var next := LowerElement(e, names, pathVar, st).value;
            && Invariant(m, g, names, next, env', given)
            && (given ==> (SatOpt(m, g, next.op, env')
                           <==> SatOpt(m, g, st.op, env') && ElementHolds(m, g, Forget(e), Last(env', st), L.Lookup(env', names[st.nodeIdx]), ctx)))
  {
    assert [e][0] == e;
    var next := LowerElement(e, names, pathVar, st).value;
    if e.Node? {
      NodeLowered(m, g, e, names, st, ctx, env', given);
    } else {
      RelLowered(m, g, e, st.lastSrc.value, names[st.nodeIdx], pathVar, st, ctx, env');
      if given && SatOpt(m, g, next.op, env') {
        TargetIsNode(m, g, Forget(e), L.Lookup(env', st.lastSrc.value), L.Lookup(env', names[st.nodeIdx]), ctx);
      }
    }
  }

  lemma LookupShift(env: L.Env, names: seq<string>, k: nat)
    requires k < |names|
    ensures LookupAll(env, names[k..])[1..] == LookupAll(env, names[k + 1..]) && LookupAll(env, names[k..])[0] == L.Lookup(env, names[k])
  {
  }

  lemma {:induction false} ElementsLowered(m: L.Meaning, g: Graph, es: seq<Element>, names: seq<string>, pathVar: Option<string>, st: State,
                                           ctx: Context, env': L.Env, given: bool)
    requires WellFormed(g) && LowerElements(es, names, pathVar, st).Ok?
    requires Invariant(m, g, names, st, env', given) && EnvsAgree(m, es, ctx, env')
    requires st.nodeIdx + NodeCount(es) == |names|
    ensures var end := LowerElements(es, names, pathVar, st).value;
            && Invariant(m, g, names, end, env', given)
            && (given ==> (SatOpt(m, g, end.op, env')
                           <==> SatOpt(m, g, st.op, env') && ElementsHold(m, g, ForgetAll(es), LookupAll(env', names[st.nodeIdx..]), Last(env', st), ctx)))
  {
    hide ElementHolds, ValuesAgree, LowerNode, LowerRel, Sat;
    if es != [] {
      var next := LowerElement(es[0], names, pathVar, st).value;
      assert es == [es[0]] + es[1..];
      EnvsAgreeSplit(m, [es[0]], es[1..], ctx, env');
      ElementLowered(m, g, es[0], names, pathVar, st, ctx, env', given);
      ElementsLowered(m, g, es[1..], names, pathVar, next, ctx, env', given);
      var ns := LookupAll(env', names[st.nodeIdx..]);
      LookupShift(env', names, st.nodeIdx);
      assert ForgetAll(es)[1..] == ForgetAll(es[1..]);
    }
  }

  lemma TargetIsNode(m: L.Meaning, g: Graph, r: Element, a: L.Value, b: L.Value, ctx: Context)
    requires r.Rel? && WellFormed(g) && IsNode(g, a) && RelHolds(m, g, r, a, b, ctx)
    ensures IsNode(g, b)
  {
    var dir, range := LowerDirection(r.direction), LowerRange(r.range);
    var rel :| Joins(g, a, rel, b, r);
    JoinsIsConnects(g, a, rel, b, r);
    if range.Some? {
      var es :| Walk(es, a, b, g, dir, r.relTypes) && InRange(|es|, range.value) && rel == L.VList(RelIds(es));
      WalkEndsAtNode(es, a, b, g, dir, r.relTypes);
    }
  }

  // ---------- Pattern lists ----------

  lemma EnvsAgreeSplit(m: L.Meaning, a: seq<Element>, b: seq<Element>, ctx: Context, env': L.Env)
    requires EnvsAgree(m, a + b, ctx, env')
    ensures EnvsAgree(m, a, ctx, env') && EnvsAgree(m, b, ctx, env')
  {
    assert forall i :: 0 <= i < |a| ==> (a + b)[i] == a[i];
    assert forall i :: 0 <= i < |b| ==> (a + b)[|a| + i] == b[i];
  }

  // The constraints on es hold of the nodes env' gives to their names.
  ghost predicate Holds(m: L.Meaning, g: Graph, es: seq<Element>, counter: nat, ctx: Context, env': L.Env) {
    ElementsHold(m, g, ForgetAll(es), LookupAll(env', Names(es, counter)), None, ctx)
  }

  ghost predicate AllHold(m: L.Meaning, g: Graph, ps: seq<Pattern>, counter: nat, ctx: Context, env': L.Env) {
    ps != [] ==>
      && Holds(m, g, ps[0].elements, counter, ctx, env')
      && AllHold(m, g, ps[1..], counter + AnonCount(ps[0].elements), ctx, env')
  }

  lemma OneLowered(m: L.Meaning, g: Graph, p: Pattern, counter: nat, seen: set<string>, ctx: Context, env': L.Env, given: bool)
    requires WellFormed(g) && LowerOne(p, counter, seen).Ok? && EnvsAgree(m, p.elements, ctx, env') && p.elements != []
    requires given ==> forall x :: x in seen ==> IsNode(g, L.Lookup(env', x))
    ensures var r := LowerOne(p, counter, seen).value;
            given ==> (Sat(m, g, r.0, env') <==> Holds(m, g, p.elements, counter, ctx, env'))
                      && (Sat(m, g, r.0, env') ==> forall x :: x in r.1 ==> IsNode(g, L.Lookup(env', x)))
  {
    var names := Names(p.elements, counter);
    ElementsLowered(m, g, p.elements, names, p.variable, Start(seen), ctx, env', given);
    assert names[0..] == names;
    LowerElementsHasOp(p.elements, names, p.variable, Start(seen));
  }

  lemma {:induction false} LowerElementsHasOp(es: seq<Element>, names: seq<string>, pathVar: Option<string>, st: State)
    requires LowerElements(es, names, pathVar, st).Ok? && (es != [] || st.op.Some?)
    ensures LowerElements(es, names, pathVar, st).value.op.Some?
  {
    if es != [] {
      LowerElementsHasOp(es[1..], names, pathVar, LowerElement(es[0], names, pathVar, st).value);
    }
  }

  ghost predicate AllAgree(m: L.Meaning, ps: seq<Pattern>, ctx: Context, env': L.Env) {
    forall i :: 0 <= i < |ps| ==> EnvsAgree(m, ps[i].elements, ctx, env') && ps[i].elements != []
  }

  lemma {:induction false} RestLowered(m: L.Meaning, g: Graph, ps: seq<Pattern>, acc: Op, counter: nat, seen: set<string>, ctx: Context, env': L.Env)
    requires WellFormed(g) && LowerRest(ps, acc, counter, seen).Ok? && AllAgree(m, ps, ctx, env')
    requires Sat(m, g, acc, env') ==> forall x :: x in seen ==> IsNode(g, L.Lookup(env', x))
    ensures Sat(m, g, LowerRest(ps, acc, counter, seen).value.0, env') <==> Sat(m, g, acc, env') && AllHold(m, g, ps, counter, ctx, env')
    decreases |ps|
  {
    hide Holds, LowerOne, EnvsAgree;
    if ps != [] {
      var one := LowerOne(ps[0], counter, seen).value;
      OneLowered(m, g, ps[0], counter, seen, ctx, env', Sat(m, g, acc, env'));
      RestLowered(m, g, ps[1..], CartesianProduct(acc, one.0), counter + AnonCount(ps[0].elements), one.1, ctx, env');
    }
  }

  // For a given choice of nodes at the anonymous positions, the lowered tree
  // says what the patterns say.
  lemma ListLowered(m: L.Meaning, g: Graph, ps: seq<Pattern>, counter: nat, seen: set<string>, ctx: Context, env': L.Env)
    requires WellFormed(g) && LowerList(ps, counter, seen).Ok? && AllAgree(m, ps, ctx, env')
    requires forall x :: x in seen ==> IsNode(g, L.Lookup(env', x))
    ensures Sat(m, g, LowerList(ps, counter, seen).value.0, env') <==> AllHold(m, g, ps, counter, ctx, env')
  {
    hide Holds, LowerOne, EnvsAgree;
    var one := LowerOne(ps[0], counter, seen).value;
    OneLowered(m, g, ps[0], counter, seen, ctx, env', true);
    RestLowered(m, g, ps[1..], one.0, counter + AnonCount(ps[0].elements), one.1, ctx, env');
  }

  // ---------- Anonymous nodes ----------

  lemma AnonNameInjective(a: nat, b: nat)
    ensures AnonName(a) == AnonName(b) ==> a == b
  {
    assert AnonName(a)[10..] == Decimal(a) && AnonName(b)[10..] == Decimal(b);
    DecimalInjective(a, b);
  }

  // env' is env except for the generated names.
  ghost predicate SameNamed(env: L.Env, env': L.Env) {
    forall x :: !IsAnonName(x) ==> L.Lookup(env, x) == L.Lookup(env', x)
  }

  // No variable of the pattern looks generated.
  ghost predicate PlainVariables(es: seq<Element>) {
    forall i :: 0 <= i < |es| && es[i].variable.Some? ==> !IsAnonName(es[i].variable.value)
  }

  function BindNames(es: seq<Element>, ns: seq<L.Value>, counter: nat, env: L.Env): L.Env
    requires |ns| == NodeCount(es)
  {
    if es == [] then env
    else if es[0].Rel? then BindNames(es[1..], ns, counter, env)
    else if es[0].variable.Some? then BindNames(es[1..], ns[1..], counter, env)
    else BindNames(es[1..], ns[1..], counter + 1, env)[AnonName(counter) := ns[0]]
  }

  lemma LookupCons(env: L.Env, x: string, names: seq<string>)
    ensures LookupAll(env, [x] + names) == [L.Lookup(env, x)] + LookupAll(env, names)
  {
  }

  // x is not one of the names generated for counter values in [lo, hi).
  ghost predicate Outside(x: string, lo: nat, hi: nat) {
    forall n: nat :: lo <= n < hi ==> x != AnonName(n)
  }

  lemma {:induction false} BindNamesFrame(es: seq<Element>, ns: seq<L.Value>, counter: nat, env: L.Env)
    requires |ns| == NodeCount(es)
    ensures forall x :: Outside(x, counter, counter + AnonCount(es)) ==> L.Lookup(BindNames(es, ns, counter, env), x) == L.Lookup(env, x)
  {
    hide AnonName;
    if es != [] {
      var c := counter + Anon(es[0]);
      BindNamesFrame(es[1..], if es[0].Node? then ns[1..] else ns, c, env);
      forall x | Outside(x, counter, counter + AnonCount(es))
        ensures L.Lookup(BindNames(es, ns, counter, env), x) == L.Lookup(env, x)
      {
        assert Outside(x, c, c + AnonCount(es[1..]));
      }
    }
  }

  // Generated names are fresh, so any choice of nodes can be put into the assignment.
  lemma NoNamesLeft(counter: nat)
    ensures Names([], counter) == []
  {
  }

  lemma NamesCons(es: seq<Element>, counter: nat)
    requires es != []
    ensures Names(es, counter) == NameOf(es[0], counter) + Names(es[1..], counter + Anon(es[0]))
    ensures es[0].Rel? ==> NameOf(es[0], counter) == [] && Names(es, counter) == Names(es[1..], counter)
    ensures es[0].Node? ==> |NameOf(es[0], counter)| == 1 && Names(es, counter) == [NameOf(es[0], counter)[0]] + Names(es[1..], counter + Anon(es[0]))
  {
    hide AnonName;
    assert [] + Names(es[1..], counter) == Names(es[1..], counter);
  }

  // A named node keeps its value under the names bound after it.
  lemma BindNamed(rest: seq<Element>, ns: seq<L.Value>, counter: nat, env: L.Env, x: string, v: L.Value)
    requires |ns| == NodeCount(rest) && L.Lookup(env, x) == v && Outside(x, counter, counter + AnonCount(rest))
    ensures LookupAll(BindNames(rest, ns, counter, env), [x] + Names(rest, counter)) == [v] + LookupAll(BindNames(rest, ns, counter, env), Names(rest, counter))
  {
    hide LookupAll, Names, AnonCount, Outside, BindNames;
    BindNamesFrame(rest, ns, counter, env);
    LookupCons(BindNames(rest, ns, counter, env), x, Names(rest, counter));
  }

  lemma {:induction false} BindNamesBinds(es: seq<Element>, ns: seq<L.Value>, counter: nat, env: L.Env)
    requires |ns| == NodeCount(es) && NamedAgree(es, ns, env) && PlainVariables(es)
    ensures LookupAll(BindNames(es, ns, counter, env), Names(es, counter)) == ns
  {
    hide AnonName, LookupAll, Names;
    NoNamesLeft(counter);
    if es != [] {
      var rest, c := es[1..], counter + Anon(es[0]);
      PlainTail(es);
      NamesCons(es, counter);
      BindNamesBinds(rest, if es[0].Node? then ns[1..] else ns, c, env);
      if es[0].Rel? {
      } else if es[0].variable.Some? {
        var x := es[0].variable.value;
        BindNamed(rest, ns[1..], c, env, x, ns[0]);
        assert ns == [ns[0]] + ns[1..];
      } else {
        BindOne(rest, BindNames(rest, ns[1..], c, env), counter, ns[0]);
        assert ns == [ns[0]] + ns[1..];
      }
    }
  }

  lemma PlainTail(es: seq<Element>)
    requires PlainVariables(es) && es != []
    ensures PlainVariables(es[1..])
    ensures es[0].variable.Some? ==> forall n: nat :: es[0].variable.value != AnonName(n)
  {
    assert forall i :: 0 <= i < |es[1..]| ==> es[1..][i] == es[i + 1];
  }

  lemma BindOne(rest: seq<Element>, inner: L.Env, counter: nat, v: L.Value)
    requires PlainVariables(rest)
    ensures LookupAll(inner[AnonName(counter) := v], [AnonName(counter)] + Names(rest, counter + 1)) == [v] + LookupAll(inner, Names(rest, counter + 1))
  {
    var names := Names(rest, counter + 1);
    NamesMiss(rest, counter + 1, counter);
    LookupCons(inner[AnonName(counter) := v], AnonName(counter), names);
    assert LookupAll(inner[AnonName(counter) := v], names) == LookupAll(inner, names);
  }

  // The names from counter on do not include one generated before.
  lemma {:induction false} NamesMiss(es: seq<Element>, counter: nat, n: nat)
    requires n < counter && PlainVariables(es)
    ensures AnonName(n) !in Names(es, counter)
  {
    if es != [] {
      PlainTail(es);
      AnonNameInjective(n, counter);
      NamesMiss(es[1..], counter + Anon(es[0]), n);
    }
  }

  lemma {:induction false} NamedAgreeLookup(es: seq<Element>, counter: nat, env: L.Env, env': L.Env)
    requires PlainVariables(es) && SameNamed(env, env')
    ensures NamedAgree(es, LookupAll(env', Names(es, counter)), env)
  {
    hide LookupAll, AnonName;
    if es != [] {
      PlainTail(es);
      var c := counter + Anon(es[0]);
      NamedAgreeLookup(es[1..], c, env, env');
      NamesCons(es, counter);
      if es[0].Node? {
        var x := NameOf(es[0], counter)[0];
        LookupCons(env', x, Names(es[1..], c));
        assert LookupAll(env', Names(es, counter))[1..] == LookupAll(env', Names(es[1..], c));
      }
    }
  }

  lemma {:induction false} NamedAgreeSame(es: seq<Element>, ns: seq<L.Value>, env: L.Env, env': L.Env)
    requires |ns| == NodeCount(es) && PlainVariables(es) && SameNamed(env, env') && NamedAgree(es, ns, env)
    ensures NamedAgree(es, ns, env')
  {
    if es != [] {
      PlainTail(es);
      NamedAgreeSame(es[1..], if es[0].Node? then ns[1..] else ns, env, env');
    }
  }

  lemma {:induction false} NamedAgreeForget(es: seq<Element>, ns: seq<L.Value>, env: L.Env)
    requires |ns| == NodeCount(es)
    ensures NamedAgree(ForgetAll(es), ns, env) <==> NamedAgree(es, ns, env)
  {
    if es != [] {
      NamedAgreeForget(es[1..], if es[0].Node? then ns[1..] else ns, env);
    }
  }

  // ---------- The theorem ----------

  // Inline property values have a value, or cannot lose an error when lowered,
  // and mention no generated name.
  ghost predicate GoodValues(m: L.Meaning, es: seq<Element>, env: L.Env) {
    forall i :: 0 <= i < |es| ==>
      var props := PropsOf(es[i].props);
      forall j :: 0 <= j < |props| ==>
        && C.WellFormed(props[j].value)
        && (C.Eval(m, props[j].value, env, []).Some? || E.Strict(props[j].value))
        && (E.Lower(props[j].value).Ok? ==> forall x :: x in L.Free(E.Lower(props[j].value).value) ==> !IsAnonName(x))
  }

  ghost predicate GoodPatterns(m: L.Meaning, ps: seq<Pattern>, env: L.Env) {
    forall i :: 0 <= i < |ps| ==> ps[i].elements != [] && PlainVariables(ps[i].elements) && GoodValues(m, ps[i].elements, env)
  }

  lemma GoodValuesAgree(m: L.Meaning, es: seq<Element>, env: L.Env, env': L.Env)
    requires GoodValues(m, es, env) && SameNamed(env, env') && PlainVariables(es)
    ensures EnvsAgree(m, es, ContextOf(m, env), env')
  {
    forall i | 0 <= i < |es|
      ensures ValuesAgree(m, PropsOf(es[i].props), ContextOf(m, env), env')
    {
      var props := PropsOf(es[i].props);
      forall j | 0 <= j < |props| && E.Lower(props[j].value).Ok?
        ensures L.Eval(m, E.Lower(props[j].value).value, env', []) == C.Eval(m, props[j].value, env, [])
      {
        var e, le := props[j].value, E.Lower(props[j].value).value;
        L.Coincidence(m, le, env, env', [], []);
        if C.Eval(m, e, env, []).Some? {
          E.LoweringPreservesValues(m, e, env, []);
        } else {
          E.LoweringPreservesErrors(m, e, env, []);
        }
      }
    }
  }

  function NodesFor(ps: seq<Pattern>, counter: nat, env': L.Env): (r: seq<seq<L.Value>>)
    ensures |r| == |ps|
  {
    if ps == [] then []
    else [LookupAll(env', Names(ps[0].elements, counter))] + NodesFor(ps[1..], counter + AnonCount(ps[0].elements), env')
  }

  lemma {:induction false} HoldingMatches(m: L.Meaning, g: Graph, ps: seq<Pattern>, counter: nat, env: L.Env, env': L.Env)
    requires GoodPatterns(m, ps, env) && SameNamed(env, env') && AllHold(m, g, ps, counter, ContextOf(m, env), env')
    ensures AllMatch(m, g, ForgetEach(ps), NodesFor(ps, counter, env'), env)
  {
    hide ElementsHold, GoodValues, NamedAgree, PlainVariables, SameNamed, Names, ForgetAll;
    if ps != [] {
      var es := ps[0].elements;
      var ns := LookupAll(env', Names(es, counter));
      NamedAgreeLookup(es, counter, env, env');
      NamedAgreeForget(es, ns, env);
      GoodTail(m, ps, env);
      HoldingMatches(m, g, ps[1..], counter + AnonCount(es), env, env');
      assert ForgetEach(ps)[1..] == ForgetEach(ps[1..]);
      assert NodesFor(ps, counter, env')[1..] == NodesFor(ps[1..], counter + AnonCount(es), env');
    }
  }

  lemma GoodTail(m: L.Meaning, ps: seq<Pattern>, env: L.Env)
    requires ps != [] && GoodPatterns(m, ps, env)
    ensures GoodPatterns(m, ps[1..], env)
  {
    assert forall i :: 0 <= i < |ps[1..]| ==> ps[1..][i] == ps[i + 1];
  }

  function BindEach(ps: seq<Pattern>, nss: seq<seq<L.Value>>, counter: nat, env: L.Env): L.Env
    requires |nss| == |ps|
  {
    if ps == [] then env
    else
      var inner := BindEach(ps[1..], nss[1..], counter + AnonCount(ps[0].elements), env);
      if |nss[0]| == NodeCount(ps[0].elements) then BindNames(ps[0].elements, nss[0], counter, inner) else inner
  }

  // The names of these patterns keep their values when those before them are bound.
  lemma NamesKept(es: seq<Element>, counter: nat, inner: L.Env, outer: L.Env)
    requires PlainVariables(es)
    requires forall x :: Outside(x, 0, counter) ==> L.Lookup(outer, x) == L.Lookup(inner, x)
    ensures LookupAll(inner, Names(es, counter)) == LookupAll(outer, Names(es, counter))
  {
    hide Names, Outside, LookupAll;
    forall i | 0 <= i < |Names(es, counter)|
      ensures Outside(Names(es, counter)[i], 0, counter)
    {
      NamesOutside(es, counter, i);
    }
  }

  lemma {:induction false} LaterNamesKept(ps: seq<Pattern>, counter: nat, m: L.Meaning, g: Graph, ctx: Context, inner: L.Env, outer: L.Env)
    requires forall i :: 0 <= i < |ps| ==> PlainVariables(ps[i].elements)
    requires forall x :: Outside(x, 0, counter) ==> L.Lookup(outer, x) == L.Lookup(inner, x)
    requires AllHold(m, g, ps, counter, ctx, inner)
    ensures AllHold(m, g, ps, counter, ctx, outer)
  {
    hide ElementsHold, LookupAll, Names;
    if ps != [] {
      var es := ps[0].elements;
      NamesKept(es, counter, inner, outer);
      assert forall i :: 0 <= i < |ps[1..]| ==> ps[1..][i] == ps[i + 1];
      forall x | Outside(x, 0, counter + AnonCount(es))
        ensures L.Lookup(outer, x) == L.Lookup(inner, x)
      {
        assert Outside(x, 0, counter);
      }
      LaterNamesKept(ps[1..], counter + AnonCount(es), m, g, ctx, inner, outer);
    }
  }

  lemma NamesOutside(es: seq<Element>, counter: nat, i: nat)
    requires PlainVariables(es) && i < |Names(es, counter)|
    ensures Outside(Names(es, counter)[i], 0, counter)
  {
    forall n: nat | n < counter
      ensures Names(es, counter)[i] != AnonName(n)
    {
      NamesMiss(es, counter, n);
    }
  }

  // The names of one pattern, bound over an assignment that keeps the named variables.
  lemma NamesBound(es: seq<Element>, ns: seq<L.Value>, counter: nat, env: L.Env, inner: L.Env)
    requires |ns| == NodeCount(es) && PlainVariables(es) && NamedAgree(ForgetAll(es), ns, env) && SameNamed(env, inner)
    ensures LookupAll(BindNames(es, ns, counter, inner), Names(es, counter)) == ns
    ensures forall x :: Outside(x, counter, counter + AnonCount(es)) ==> L.Lookup(BindNames(es, ns, counter, inner), x) == L.Lookup(inner, x)
  {
    hide NamedAgree, PlainVariables, SameNamed, Outside;
    NamedAgreeForget(es, ns, env);
    NamedAgreeSame(es, ns, env, inner);
    BindNamesBinds(es, ns, counter, inner);
    BindNamesFrame(es, ns, counter, inner);
  }

  lemma {:induction false} MatchingHolds(m: L.Meaning, g: Graph, ps: seq<Pattern>, nss: seq<seq<L.Value>>, counter: nat, env: L.Env)
    requires |nss| == |ps| && GoodPatterns(m, ps, env) && AllMatch(m, g, ForgetEach(ps), nss, env)
    ensures AllHold(m, g, ps, counter, ContextOf(m, env), BindEach(ps, nss, counter, env))
    ensures forall x :: (forall n: nat :: counter <= n ==> x != AnonName(n)) ==> L.Lookup(BindEach(ps, nss, counter, env), x) == L.Lookup(env, x)
  {
    hide ElementsHold, GoodValues, NamedAgree, PlainVariables, Names, LookupAll, BindNames, ForgetAll, NodeCount;
    if ps != [] {
      var es, ns := ps[0].elements, nss[0];
      var c := counter + AnonCount(es);
      var inner, outer := BindEach(ps[1..], nss[1..], c, env), BindEach(ps, nss, counter, env);
      assert ForgetEach(ps)[1..] == ForgetEach(ps[1..]);
      GoodTail(m, ps, env);
      MatchingHolds(m, g, ps[1..], nss[1..], c, env);
      assert SameNamed(env, inner);
      NamesBound(es, ns, counter, env, inner);
      BoundOutside(counter, c, inner, outer);
      LaterNamesKept(ps[1..], c, m, g, ContextOf(m, env), inner, outer);
      forall x | forall n: nat :: counter <= n ==> x != AnonName(n)
        ensures L.Lookup(outer, x) == L.Lookup(env, x)
      {
        assert Outside(x, counter, c);
      }
    }
  }

  lemma BoundOutside(lo: nat, hi: nat, inner: L.Env, outer: L.Env)
    requires lo <= hi && forall x :: Outside(x, lo, hi) ==> L.Lookup(outer, x) == L.Lookup(inner, x)
    ensures forall x :: Outside(x, 0, hi) ==> L.Lookup(outer, x) == L.Lookup(inner, x)
  {
    forall x | Outside(x, 0, hi)
      ensures L.Lookup(outer, x) == L.Lookup(inner, x)
    {
      assert Outside(x, lo, hi);
    }
  }

  lemma GoodPatternsAgree(m: L.Meaning, ps: seq<Pattern>, env: L.Env, env': L.Env)
    requires GoodPatterns(m, ps, env) && SameNamed(env, env')
    ensures AllAgree(m, ps, ContextOf(m, env), env')
  {
    forall i | 0 <= i < |ps|
      ensures EnvsAgree(m, ps[i].elements, ContextOf(m, env), env')
    {
      GoodValuesAgree(m, ps[i].elements, env, env');
    }
  }

  // An assignment of the named variables extends to one that satisfies the
  // lowered tree exactly when it matches the patterns, the inline properties
  // of anonymous relationships left aside.
  lemma PatternsFaithful(m: L.Meaning, g: Graph, ps: seq<Pattern>, counter: nat, seen: set<string>, env: L.Env)
    requires WellFormed(g) && LowerList(ps, counter, seen).Ok? && GoodPatterns(m, ps, env)
    requires forall x :: x in seen ==> !IsAnonName(x) && IsNode(g, L.Lookup(env, x))
    ensures (exists env': L.Env :: SameNamed(env, env') && Sat(m, g, LowerList(ps, counter, seen).value.0, env'))
       <==> Matches(m, g, ForgetEach(ps), env)
  {
    hide AllMatch, AllHold, LowerList, GoodPatterns, AllAgree;
    var op := LowerList(ps, counter, seen).value.0;
    forall env': L.Env | SameNamed(env, env') && Sat(m, g, op, env')
      ensures Matches(m, g, ForgetEach(ps), env)
    {
      GoodPatternsAgree(m, ps, env, env');
      ListLowered(m, g, ps, counter, seen, ContextOf(m, env), env');
      HoldingMatches(m, g, ps, counter, env, env');
    }
    if Matches(m, g, ForgetEach(ps), env) {
      var nss :| |nss| == |ps| && AllMatch(m, g, ForgetEach(ps), nss, env);
      MatchingHolds(m, g, ps, nss, counter, env);
      var env' := BindEach(ps, nss, counter, env);
      assert SameNamed(env, env');
      GoodPatternsAgree(m, ps, env, env');
      ListLowered(m, g, ps, counter, seen, ContextOf(m, env), env');
    }
  }

  // Where no anonymous relationship has inline properties, nothing is left aside.
  lemma NothingForgotten(es: seq<Element>)
    requires forall i :: 0 <= i < |es| && es[i].Rel? && es[i].variable.None? ==> es[i].props.None?
    ensures ForgetAll(es) == es
  {
  }

  lemma {:induction false} NothingForgottenInEach(ps: seq<Pattern>)
    requires forall i, j :: 0 <= i < |ps| && 0 <= j < |ps[i].elements| && ps[i].elements[j].Rel? && ps[i].elements[j].variable.None? ==>
               ps[i].elements[j].props.None?
    ensures ForgetEach(ps) == ps
  {
    if ps != [] {
      NothingForgotten(ps[0].elements);
      NothingForgottenInEach(ps[1..]);
    }
  }

  // Then an assignment extends to one that satisfies the lowered tree exactly when it
  // matches the patterns.
  lemma PatternsExact(m: L.Meaning, g: Graph, ps: seq<Pattern>, counter: nat, seen: set<string>, env: L.Env)
    requires WellFormed(g) && LowerList(ps, counter, seen).Ok? && GoodPatterns(m, ps, env)
    requires forall x :: x in seen ==> !IsAnonName(x) && IsNode(g, L.Lookup(env, x))
    requires forall i, j :: 0 <= i < |ps| && 0 <= j < |ps[i].elements| && ps[i].elements[j].Rel? && ps[i].elements[j].variable.None? ==>
               ps[i].elements[j].props.None?
    ensures (exists env': L.Env :: SameNamed(env, env') && Sat(m, g, LowerList(ps, counter, seen).value.0, env'))
       <==> Matches(m, g, ps, env)
  {
    hide LowerList, GoodPatterns, Matches, Sat;
    PatternsFaithful(m, g, ps, counter, seen, env);
    NothingForgottenInEach(ps);
  }

  // What an element asks includes what is left of it.
  lemma ForgettingAsksLess(m: L.Meaning, g: Graph, e: Element, last: Option<L.Value>, next: L.Value, ctx: Context)
    requires ElementHolds(m, g, e, last, next, ctx)
    ensures ElementHolds(m, g, Forget(e), last, next, ctx)
  {
    if Forget(e) != e {
      assert RelHolds(m, g, e, last.value, next, ctx);
      var rel :| Joins(g, last.value, rel, next, e);
      assert Joins(g, last.value, rel, next, Forget(e));
      assert PropsHold(m, rel, [], ctx);
    }
  }

  lemma {:induction false} ForgetChain(m: L.Meaning, g: Graph, es: seq<Element>, ns: seq<L.Value>, last: Option<L.Value>, ctx: Context)
    requires Chain(es, ns, last, Required(m, g, ctx))
    ensures Chain(ForgetAll(es), ns, last, Required(m, g, ctx))
  {
    hide ElementHolds;
    if es != [] {
      ForgettingAsksLess(m, g, es[0], last, ns[0], ctx);
      ForgetChain(m, g, es[1..], NodesAfter(es[0], ns), LastAfter(es[0], ns[0], last), ctx);
      assert ForgetAll(es)[0] == Forget(es[0]) && ForgetAll(es)[1..] == ForgetAll(es[1..]);
    }
  }

  lemma {:induction false} ForgettingMatches(m: L.Meaning, g: Graph, ps: seq<Pattern>, nss: seq<seq<L.Value>>, env: L.Env)
    requires |nss| == |ps| && AllMatch(m, g, ps, nss, env)
    ensures AllMatch(m, g, ForgetEach(ps), nss, env)
  {
    hide Chain;
    if ps != [] {
      ForgetChain(m, g, ps[0].elements, nss[0], None, ContextOf(m, env));
      NamedAgreeForget(ps[0].elements, nss[0], env);
      ForgettingMatches(m, g, ps[1..], nss[1..], env);
      assert ForgetEach(ps)[1..] == ForgetEach(ps[1..]);
    }
  }

  // The tree is right about an assignment exactly when the assignment does not match
  // the patterns for want of such a property alone.
  lemma TreeIsRightIff(m: L.Meaning, g: Graph, ps: seq<Pattern>, counter: nat, seen: set<string>, env: L.Env)
    requires WellFormed(g) && LowerList(ps, counter, seen).Ok? && GoodPatterns(m, ps, env)
    requires forall x :: x in seen ==> !IsAnonName(x) && IsNode(g, L.Lookup(env, x))
    ensures ((exists env': L.Env :: SameNamed(env, env') && Sat(m, g, LowerList(ps, counter, seen).value.0, env'))
             <==> Matches(m, g, ps, env))
       <==> (Matches(m, g, ForgetEach(ps), env) ==> Matches(m, g, ps, env))
  {
    hide LowerList, GoodPatterns, AllMatch, Sat;
    PatternsFaithful(m, g, ps, counter, seen, env);
    if Matches(m, g, ps, env) {
      var nss :| |nss| == |ps| && AllMatch(m, g, ps, nss, env);
      ForgettingMatches(m, g, ps, nss, env);
    }
  }

  // One relationship between two named nodes.
  ghost predicate LinkHolds(m: L.Meaning, g: Graph, from: Element, rel: Element, to: Element, env: L.Env)
    requires from.Node? && rel.Rel? && to.Node? && from.variable.Some? && to.variable.Some?
  {
    var u, v := L.Lookup(env, from.variable.value), L.Lookup(env, to.variable.value);
    NodeHolds(m, g, from, u, ContextOf(m, env)) && RelHolds(m, g, rel, u, v, ContextOf(m, env)) && NodeHolds(m, g, to, v, ContextOf(m, env))
  }

  lemma LinkElements(m: L.Meaning, g: Graph, from: Element, rel: Element, to: Element, u: L.Value, v: L.Value, ctx: Context)
    requires from.Node? && rel.Rel? && to.Node?
    ensures ElementsHold(m, g, [from, rel, to], [u, v], None, ctx)
       <==> NodeHolds(m, g, from, u, ctx) && RelHolds(m, g, rel, u, v, ctx) && NodeHolds(m, g, to, v, ctx)
  {
    hide NodeHolds, RelHolds;
    var holds := Required(m, g, ctx);
    var es, ns := [from, rel, to], [u, v];
    assert es[1..] == [rel, to] && [rel, to][1..] == [to] && [to][1..] == [] && ns[1..] == [v] && [v][1..] == [];
    assert Chain([], [], Some(v), holds);
    assert Chain([to], [v], Some(u), holds) <==> holds(to, Some(u), v);
    assert Chain([rel, to], [v], Some(u), holds) <==> holds(rel, Some(u), v) && holds(to, Some(u), v);
    assert Chain(es, ns, None, holds) <==> holds(from, None, u) && Chain([rel, to], [v], Some(u), holds);
  }

  lemma LinkNames(from: Element, rel: Element, to: Element, ms: seq<L.Value>, env: L.Env)
    requires from.Node? && rel.Rel? && to.Node? && from.variable.Some? && to.variable.Some?
    ensures NodeCount([from, rel, to]) == 2
    ensures |ms| == 2 ==> (NamedAgree([from, rel, to], ms, env) <==>
                             ms == [L.Lookup(env, from.variable.value), L.Lookup(env, to.variable.value)])
  {
    var es := [from, rel, to];
    assert es[1..] == [rel, to] && [rel, to][1..] == [to] && [to][1..] == [];
    assert NodeCount([]) == 0;
    assert NodeCount([to]) == 1;
    assert NodeCount([rel, to]) == 1;
    if |ms| == 2 {
      var u, v := ms[0], ms[1];
      assert ms == [u, v] && ms[1..] == [v] && [v][1..] == [];
      assert NamedAgree([], [], env);
      assert NamedAgree([to], [v], env) <==> v == L.Lookup(env, to.variable.value);
      assert NamedAgree([rel, to], [v], env) <==> NamedAgree([to], [v], env);
      assert NamedAgree(es, ms, env) <==> u == L.Lookup(env, from.variable.value) && NamedAgree([rel, to], ms[1..], env);
    }
  }

  lemma OnePattern(m: L.Meaning, g: Graph, p: Pattern, nss: seq<seq<L.Value>>, env: L.Env)
    requires |nss| == 1
    ensures AllMatch(m, g, [p], nss, env)
       <==> |nss[0]| == NodeCount(p.elements) && NamedAgree(p.elements, nss[0], env) && ElementsHold(m, g, p.elements, nss[0], None, ContextOf(m, env))
  {
    hide NamedAgree, ElementsHold, NodeCount;
    assert [p][1..] == [] && nss[1..] == [];
    assert AllMatch(m, g, [], [], env);
  }

  lemma LinkMatches(m: L.Meaning, g: Graph, from: Element, rel: Element, to: Element, env: L.Env)
    requires from.Node? && rel.Rel? && to.Node? && from.variable.Some? && to.variable.Some?
    ensures Matches(m, g, [Pattern(None, [from, rel, to])], env) <==> LinkHolds(m, g, from, rel, to, env)
  {
    hide NodeHolds, RelHolds, NamedAgree, ElementsHold, NodeCount, AllMatch;
    var p := Pattern(None, [from, rel, to]);
    var u, v := L.Lookup(env, from.variable.value), L.Lookup(env, to.variable.value);
    LinkNames(from, rel, to, [u, v], env);
    LinkElements(m, g, from, rel, to, u, v, ContextOf(m, env));
    OnePattern(m, g, p, [[u, v]], env);
    if Matches(m, g, [p], env) {
      var nss :| |nss| == 1 && AllMatch(m, g, [p], nss, env);
      OnePattern(m, g, p, nss, env);
      LinkNames(from, rel, to, nss[0], env);
    }
  }

  // (a)-[{..}]->(b) is lowered rightly for two nodes exactly when they are joined by a
  // relationship with the properties, or not joined at all.
  lemma AnonymousPropertiesIff(m: L.Meaning, g: Graph, from: Element, rel: Element, to: Element, counter: nat, seen: set<string>, env: L.Env)
    requires from.Node? && rel.Rel? && to.Node? && from.variable.Some? && to.variable.Some? && rel.variable.None?
    requires var ps := [Pattern(None, [from, rel, to])]; WellFormed(g) && LowerList(ps, counter, seen).Ok? && GoodPatterns(m, ps, env)
    requires forall x :: x in seen ==> !IsAnonName(x) && IsNode(g, L.Lookup(env, x))
    ensures
      var ps := [Pattern(None, [from, rel, to])];
      var u, v := L.Lookup(env, from.variable.value), L.Lookup(env, to.variable.value);
      ((exists env': L.Env :: SameNamed(env, env') && Sat(m, g, LowerList(ps, counter, seen).value.0, env')) <==> Matches(m, g, ps, env))
      <==> (LinkHolds(m, g, from, Forget(rel), to, env) ==> RelHolds(m, g, rel, u, v, ContextOf(m, env)))
  {
    hide LowerList, GoodPatterns, Matches, Sat, NodeHolds, RelHolds;
    var es := [from, rel, to];
    var ps := [Pattern(None, es)];
    PatternsFaithful(m, g, ps, counter, seen, env);
    assert ps[1..] == [] && ForgetAll(es) == [from, Forget(rel), to];
    assert ForgetEach(ps) == [Pattern(None, [from, Forget(rel), to])];
    LinkMatches(m, g, from, rel, to, env);
    LinkMatches(m, g, from, Forget(rel), to, env);
    if LinkHolds(m, g, from, rel, to, env) {
      var u, v := L.Lookup(env, from.variable.value), L.Lookup(env, to.variable.value);
      ForgettingAsksLess(m, g, rel, Some(u), v, ContextOf(m, env));
    }
  }

  // ()-[{w: 1}]->() is lowered like ()-[]->(), so it accepts an edge with w = 2.
  lemma AnonymousPropertiesAreForgotten(m: L.Meaning)
    requires m.property(L.VRel(0), "w") == L.VInt(2) && m.compare(L.Eq, L.VInt(2), L.VInt(1)) == L.False
    ensures
      var node, rel := Node(None, [], None), Rel(None, Right, [], Some([Prop("w", C.Literal(L.Integer(1)))]), None);
      var g := Graph({0}, {Edge(0, 0, "T", 0)});
      && LowerList([Pattern(None, [node, rel, node])], 0, {}) == LowerList([Pattern(None, [node, Forget(rel), node])], 0, {})
      && Matches(m, g, [Pattern(None, [node, Forget(rel), node])], map[])
      && !Matches(m, g, [Pattern(None, [node, rel, node])], map[])
  {
    var node, rel := Node(None, [], None), Rel(None, Right, [], Some([Prop("w", C.Literal(L.Integer(1)))]), None);
    SameLowering(node, rel, Forget(rel));
    LoopMatchesBare(m, node, Forget(rel));
    LoopDoesNotMatch(m, node, rel);
  }

  lemma LoopMatchesBare(m: L.Meaning, node: Element, bare: Element)
    requires node == Node(None, [], None) && bare == Rel(None, Right, [], None, None)
    ensures Matches(m, Graph({0}, {Edge(0, 0, "T", 0)}), [Pattern(None, [node, bare, node])], map[])
  {
    var e := Edge(0, 0, "T", 0);
    var g := Graph({0}, {e});
    ThreeElements(m, g, node, bare, map[]);
    assert e in g.edges && Leads(e, L.VNode(0), L.VNode(0), Right, bare.relTypes);
    assert Joins(g, L.VNode(0), L.VRel(0), L.VNode(0), bare);
    assert RelHolds(m, g, bare, L.VNode(0), L.VNode(0), ContextOf(m, map[]));
  }

  lemma LoopDoesNotMatch(m: L.Meaning, node: Element, rel: Element)
    requires m.property(L.VRel(0), "w") == L.VInt(2) && m.compare(L.Eq, L.VInt(2), L.VInt(1)) == L.False
    requires node == Node(None, [], None) && rel == Rel(None, Right, [], Some([Prop("w", C.Literal(L.Integer(1)))]), None)
    ensures !Matches(m, Graph({0}, {Edge(0, 0, "T", 0)}), [Pattern(None, [node, rel, node])], map[])
  {
    var g := Graph({0}, {Edge(0, 0, "T", 0)});
    ThreeElements(m, g, node, rel, map[]);
    forall a: L.Value, b: L.Value
      ensures !RelHolds(m, g, rel, a, b, ContextOf(m, map[]))
    {
      forall r | Joins(g, a, r, b, rel)
        ensures !PropsHold(m, r, PropsOf(rel.props), ContextOf(m, map[]))
      {
        assert r == L.VRel(0);
        var v := PropsOf(rel.props)[0].value;
        assert C.Eval(m, v, map[], []) == Some(L.VInt(1));
      }
    }
  }

  lemma SameLowering(node: Element, rel: Element, bare: Element)
    requires node == Node(None, [], None) && rel.Rel? && rel.variable.None? && bare == Forget(rel)
    ensures LowerList([Pattern(None, [node, rel, node])], 0, {}) == LowerList([Pattern(None, [node, bare, node])], 0, {})
  {
    var a, b := [node, rel, node], [node, bare, node];
    var names := Names(a, 0);
    assert a[1..] == [rel, node] && b[1..] == [bare, node] && [rel, node][1..] == [node] && [bare, node][1..] == [node];
    assert Names([rel, node], 1) == Names([node], 1) == Names([bare, node], 1);
    assert Names(b, 0) == names;
    var st := LowerElement(node, names, None, Start({}));
    if st.Ok? {
      assert LowerElement(rel, names, None, st.value) == LowerElement(bare, names, None, st.value);
      assert LowerElements([rel, node], names, None, st.value) == LowerElements([bare, node], names, None, st.value);
    }
    assert LowerElements(a, names, None, Start({})) == LowerElements(b, names, None, Start({}));
    assert AnonCount([rel, node]) == AnonCount([node]) == AnonCount([bare, node]);
  }

  lemma ThreeElements(m: L.Meaning, g: Graph, node: Element, rel: Element, env: L.Env)
    requires node == Node(None, [], None) && rel.Rel?
    ensures Matches(m, g, [Pattern(None, [node, rel, node])], env)
       <==> exists a: L.Value, b: L.Value :: IsNode(g, a) && IsNode(g, b) && RelHolds(m, g, rel, a, b, ContextOf(m, env))
  {
    var es := [node, rel, node];
    assert es[1..] == [rel, node] && [rel, node][1..] == [node] && [node][1..] == [];
    assert NodeCount([node]) == 1 + NodeCount([node][1..]) == 1;
    assert NodeCount([rel, node]) == 1 && NodeCount(es) == 2;
    forall ns: seq<L.Value> | |ns| == 2
      ensures NamedAgree(es, ns, env)
      ensures ElementsHold(m, g, es, ns, None, ContextOf(m, env)) <==> IsNode(g, ns[0]) && IsNode(g, ns[1]) && RelHolds(m, g, rel, ns[0], ns[1], ContextOf(m, env))
    {
      assert NodeHolds(m, g, node, ns[1], ContextOf(m, env)) <==> IsNode(g, ns[1]);
      assert Chain([node][1..], ns[1..][1..], Some(ns[1]), Required(m, g, ContextOf(m, env)));
      assert ElementsHold(m, g, [node], ns[1..], Some(ns[0]), ContextOf(m, env)) <==> IsNode(g, ns[1]);
      assert NamedAgree([node], ns[1..], env) && NamedAgree([rel, node], ns[1..], env);
      assert ElementsHold(m, g, [rel, node], ns[1..], Some(ns[0]), ContextOf(m, env)) <==> RelHolds(m, g, rel, ns[0], ns[1], ContextOf(m, env)) && IsNode(g, ns[1]);
    }
    forall a: L.Value, b: L.Value | IsNode(g, a) && IsNode(g, b) && RelHolds(m, g, rel, a, b, ContextOf(m, env))
      ensures Matches(m, g, [Pattern(None, es)], env)
    {
      var ns := [a, b];
      assert ns[0] == a && ns[1] == b;
      assert ElementsHold(m, g, es, ns, None, ContextOf(m, env));
      assert AllMatch(m, g, [Pattern(None, es)], [ns], env);
    }
    if Matches(m, g, [Pattern(None, es)], env) {
      var nss :| |nss| == 1 && AllMatch(m, g, [Pattern(None, es)], nss, env);
      assert |nss[0]| == 2;
    }
  }

  // ---------- Errors ----------

  predicate StartsWithNode(es: seq<Element>) {
    es == [] || es[0].Node?
  }

  lemma {:induction false} LastNodeCounts(a: seq<Element>)
    requires a != [] && a[|a| - 1].Node?
    ensures NodeCount(a) > 0
  {
    if |a| > 1 {
      assert a[1..][|a[1..]| - 1] == a[|a| - 1];
      LastNodeCounts(a[1..]);
    }
  }

  // On an alternating pattern the scan finds a source and a target for every
  // relationship: it can fail only in an expression.
  lemma {:induction false} AlternatingNeverStuck(es: seq<Element>, names: seq<string>, pathVar: Option<string>, st: State)
    requires st.nodeIdx + NodeCount(es) == |names| && (es == [] || es[|es| - 1].Node?)
    requires st.lastSrc.None? ==> StartsWithNode(es)
    requires forall i :: 0 <= i < |es| - 1 ==> (es[i].Node? <==> es[i + 1].Rel?)
    ensures LowerElements(es, names, pathVar, st).Err? ==> LowerElements(es, names, pathVar, st).error.InExpression?
  {
    if es != [] {
      LastNodeCounts(es);
      var next := LowerElement(es[0], names, pathVar, st);
      NeverOtherError(es[0], names, pathVar, st);
      if next.Ok? {
        var rest := es[1..];
        assert forall i :: 0 <= i < |rest| ==> rest[i] == es[i + 1];
        AlternatingNeverStuck(rest, names, pathVar, next.value);
      }
    }
  }

  // A well-formed pattern is lowered, or one of its expressions cannot be.
  lemma OnlyExpressionsFail(p: Pattern, counter: nat, seen: set<string>)
    requires Alternating(p.elements)
    ensures LowerOne(p, counter, seen).Err? ==> LowerOne(p, counter, seen).error.InExpression?
  {
    var es := p.elements;
    assert es[0].Node? && es[|es| - 1].Node?;
    AlternatingNeverStuck(es, Names(es, counter), p.variable, Start(seen));
  }

  lemma NeverOtherError(e: Element, names: seq<string>, pathVar: Option<string>, st: State)
    requires st.nodeIdx < |names| && (e.Rel? ==> st.lastSrc.Some?)
    ensures LowerElement(e, names, pathVar, st).Err? ==> LowerElement(e, names, pathVar, st).error.InExpression?
  {
    var x := names[st.nodeIdx];
    if e.Node? {
      AddPropsErrors(AddLabels(OpOrUnit(st.op), x, e.labels), x, PropsOf(e.props));
      AddPropsErrors(Scan(x, if e.labels == [] then None else Some(e.labels[0]), if |e.labels| > 1 then e.labels[1..] else []), x, PropsOf(e.props));
    } else if e.variable.Some? {
      AddPropsErrors(Expand(OpOrUnit(st.op), st.lastSrc.value, e.variable, x, e.relTypes, LowerDirection(e.direction), LowerRange(e.range), pathVar),
                     e.variable.value, PropsOf(e.props));
    }
  }

  lemma {:induction false} AddPropsErrors(op: Op, x: string, props: seq<Prop>)
    ensures AddProps(op, x, props).Err? ==> AddProps(op, x, props).error.InExpression?
    decreases props
  {
    if props != [] && E.Lower(props[0].value).Ok? {
      var v := E.Lower(props[0].value).value;
      AddPropsErrors(Selection(op, L.Comparison(L.Eq, L.Property(L.Variable(x), props[0].key), v)), x, props[1..]);
    }
  }

  // ---------- What is lowered ----------

  ghost predicate PropsWellFormed(e: Element) {
    forall i :: 0 <= i < |PropsOf(e.props)| ==> C.WellFormed(PropsOf(e.props)[i].value)
  }

  // The inline values of anonymous relationships are not looked at.
  predicate ElementLowerable(e: Element) {
    e.Node? || e.variable.Some? ==> forall i :: 0 <= i < |PropsOf(e.props)| ==> A.IsLowerable(PropsOf(e.props)[i].value)
  }

  lemma {:induction false} AddPropsOkIff(op: Op, x: string, props: seq<Prop>)
    requires forall i :: 0 <= i < |props| ==> C.WellFormed(props[i].value)
    ensures AddProps(op, x, props).Ok? <==> forall i :: 0 <= i < |props| ==> A.IsLowerable(props[i].value)
    decreases props
  {
    hide E.Lower, A.IsLowerable, C.WellFormed;
    if props != [] {
      A.LoweredIff(props[0].value);
      assert forall i :: 0 < i < |props| ==> props[i] == props[1..][i - 1];
      if E.Lower(props[0].value).Ok? {
        var v := E.Lower(props[0].value).value;
        AddPropsOkIff(Selection(op, L.Comparison(L.Eq, L.Property(L.Variable(x), props[0].key), v)), x, props[1..]);
      }
    }
  }

  lemma ElementLoweredIff(e: Element, names: seq<string>, pathVar: Option<string>, st: State)
    requires st.nodeIdx < |names| && (e.Rel? ==> st.lastSrc.Some?) && PropsWellFormed(e)
    ensures LowerElement(e, names, pathVar, st).Ok? <==> ElementLowerable(e)
  {
    hide AddProps, A.IsLowerable, C.WellFormed, LowerDirection, LowerRange;
    var x, props := names[st.nodeIdx], PropsOf(e.props);
    if e.Node? {
      AddPropsOkIff(AddLabels(OpOrUnit(st.op), x, e.labels), x, props);
      AddPropsOkIff(Scan(x, if e.labels == [] then None else Some(e.labels[0]), if |e.labels| > 1 then e.labels[1..] else []), x, props);
    } else if e.variable.Some? {
      AddPropsOkIff(Expand(OpOrUnit(st.op), st.lastSrc.value, e.variable, x, e.relTypes, LowerDirection(e.direction), LowerRange(e.range), pathVar),
                    e.variable.value, props);
    }
  }

  lemma {:induction false} ElementsLoweredIff(es: seq<Element>, names: seq<string>, pathVar: Option<string>, st: State)
    requires st.nodeIdx + NodeCount(es) == |names| && (es == [] || es[|es| - 1].Node?)
    requires st.lastSrc.None? ==> StartsWithNode(es)
    requires forall i :: 0 <= i < |es| - 1 ==> (es[i].Node? <==> es[i + 1].Rel?)
    requires forall i :: 0 <= i < |es| ==> PropsWellFormed(es[i])
    ensures LowerElements(es, names, pathVar, st).Ok? <==> forall i :: 0 <= i < |es| ==> ElementLowerable(es[i])
  {
    hide PropsWellFormed, ElementLowerable, LowerNode, LowerRel;
    if es != [] {
      LastNodeCounts(es);
      var next, rest := LowerElement(es[0], names, pathVar, st), es[1..];
      ElementLoweredIff(es[0], names, pathVar, st);
      assert forall i :: 0 <= i < |rest| ==> rest[i] == es[i + 1];
      if next.Ok? {
        ElementsLoweredIff(rest, names, pathVar, next.value);
      }
      assert forall i :: 0 < i < |es| ==> es[i] == rest[i - 1];
    }
  }

  predicate PatternLowerable(p: Pattern) {
    forall i :: 0 <= i < |p.elements| ==> ElementLowerable(p.elements[i])
  }

  // What the parser builds: alternating elements, and integers that fit.
  ghost predicate IsParsed(p: Pattern) {
    Alternating(p.elements) && forall i :: 0 <= i < |p.elements| ==> PropsWellFormed(p.elements[i])
  }

  lemma PatternLoweredIff(p: Pattern, counter: nat, seen: set<string>)
    requires IsParsed(p)
    ensures LowerOne(p, counter, seen).Ok? <==> PatternLowerable(p)
  {
    hide PropsWellFormed, ElementLowerable, LowerElements;
    var es := p.elements;
    assert es[0].Node? && es[|es| - 1].Node?;
    ElementsLoweredIff(es, Names(es, counter), p.variable, Start(seen));
  }

  lemma {:induction false} RestLoweredIff(ps: seq<Pattern>, acc: Op, counter: nat, seen: set<string>)
    requires forall i :: 0 <= i < |ps| ==> IsParsed(ps[i])
    ensures LowerRest(ps, acc, counter, seen).Ok? <==> forall i :: 0 <= i < |ps| ==> PatternLowerable(ps[i])
    decreases ps
  {
    hide IsParsed, PatternLowerable, LowerOne;
    if ps != [] {
      PatternLoweredIff(ps[0], counter, seen);
      var one := LowerOne(ps[0], counter, seen);
      assert forall i :: 0 < i < |ps| ==> ps[i] == ps[1..][i - 1];
      if one.Ok? {
        RestLoweredIff(ps[1..], CartesianProduct(acc, one.value.0), counter + AnonCount(ps[0].elements), one.value.1);
      }
    }
  }

  // A list of patterns is lowered exactly when it is not empty and every inline value that
  // is looked at can be lowered.
  lemma ListLoweredIff(ps: seq<Pattern>, counter: nat, seen: set<string>)
    requires forall i :: 0 <= i < |ps| ==> IsParsed(ps[i])
    ensures LowerList(ps, counter, seen).Ok? <==> ps != [] && forall i :: 0 <= i < |ps| ==> PatternLowerable(ps[i])
  {
    hide IsParsed, PatternLowerable, LowerOne;
    if ps != [] {
      PatternLoweredIff(ps[0], counter, seen);
      var one := LowerOne(ps[0], counter, seen);
      assert forall i :: 0 < i < |ps| ==> ps[i] == ps[1..][i - 1];
      if one.Ok? {
        RestLoweredIff(ps[1..], one.value.0, counter + AnonCount(ps[0].elements), one.value.1);
      }
    }
  }
}

/** The operators of the logical query algebra, read as constraints.

    A tree of the operators below is a conjunctive query: an assignment of
    values to variables satisfies it or not.
 */
module Ops {
  import opened Prelude
  import L = Lqa

  datatype Direction = Outgoing | Incoming | Undirected
  datatype PathRange = PathRange(lower: nat, upper: Option<nat>)
  datatype ProjItem = ProjItem(expr: L.Expr, alias: string)

  datatype Op =
    | Unit
    | Scan(variable: string, firstLabel: Option<string>, extraLabels: seq<string>)
    | Expand(inner: Op, from: string, relVar: Option<string>, to: string, relTypes: seq<string>,
             direction: Direction, range: Option<PathRange>, pathVar: Option<string>)
    | Selection(inner: Op, predicate_: L.Expr)
    | Projection(inner: Op, items: seq<ProjItem>, distinct: bool)
    | CartesianProduct(left: Op, right: Op)
    | LeftOuterJoin(left: Op, right: Op)

  // ---------- Property graphs ----------

  // Labels and properties are those the Meaning gives to nodes and relationships.
  datatype Edge = Edge(id: nat, src: nat, typ: string, dst: nat)
  datatype Graph = Graph(nodes: set<nat>, edges: set<Edge>)

  ghost predicate WellFormed(g: Graph) {
    forall e :: e in g.edges ==> e.src in g.nodes && e.dst in g.nodes
  }

  predicate IsNode(g: Graph, v: L.Value) {
    v.VNode? && v.id in g.nodes
  }

  // e leads from a to b when followed in the given direction.
  predicate Follows(e: Edge, a: L.Value, b: L.Value, dir: Direction, types: seq<string>) {
    && (types == [] || e.typ in types)
    && match dir
       case Outgoing => a == L.VNode(e.src) && b == L.VNode(e.dst)
       case Incoming => a == L.VNode(e.dst) && b == L.VNode(e.src)
       case Undirected => (a == L.VNode(e.src) && b == L.VNode(e.dst)) || (a == L.VNode(e.dst) && b == L.VNode(e.src))
  }

  // The edges lead from a to b, one after the other.
  ghost predicate Walk(es: seq<Edge>, a: L.Value, b: L.Value, g: Graph, dir: Direction, types: seq<string>) {
    if es == [] then a == b
    else exists mid: L.Value :: es[0] in g.edges && Follows(es[0], a, mid, dir, types) && Walk(es[1..], mid, b, g, dir, types)
  }

  function RelIds(es: seq<Edge>): seq<L.Value> {
    seq(|es|, i requires 0 <= i < |es| => L.VRel(es[i].id))
  }

  predicate InRange(n: nat, range: PathRange) {
    range.lower <= n && (range.upper.Some? ==> n <= range.upper.value)
  }

  // rel is what the relationship pattern binds: one relationship, or the list of them along a path.
  ghost predicate Connects(g: Graph, a: L.Value, rel: L.Value, b: L.Value, types: seq<string>, dir: Direction, range: Option<PathRange>) {
    if range.None? then exists e :: e in g.edges && Follows(e, a, b, dir, types) && rel == L.VRel(e.id)
    else exists es :: Walk(es, a, b, g, dir, types) && InRange(|es|, range.value) && rel == L.VList(RelIds(es))
  }

  lemma {:induction false} WalkEndsAtNode(es: seq<Edge>, a: L.Value, b: L.Value, g: Graph, dir: Direction, types: seq<string>)
    requires WellFormed(g) && IsNode(g, a) && Walk(es, a, b, g, dir, types)
    ensures IsNode(g, b)
  {
    if es != [] {
      var mid: L.Value :| es[0] in g.edges && Follows(es[0], a, mid, dir, types) && Walk(es[1..], mid, b, g, dir, types);
      WalkEndsAtNode(es[1..], mid, b, g, dir, types);
    }
  }

  // ---------- Satisfaction ----------

  ghost predicate HasLabels(m: L.Meaning, v: L.Value, labels: seq<string>) {
    forall l :: l in labels ==> m.hasLabel(v, l)
  }

  // The assignment env satisfies the conjunctive query op over g.
  ghost predicate Sat(m: L.Meaning, g: Graph, op: Op, env: L.Env) {
    match op
    case Unit => true
    case Scan(x, first, extra) =>
      && IsNode(g, L.Lookup(env, x))
      && (first.Some? ==> m.hasLabel(L.Lookup(env, x), first.value))
      && HasLabels(m, L.Lookup(env, x), extra)
    case Expand(inner, from, relVar, to, types, dir, range, _) =>
      && Sat(m, g, inner, env)
      && exists rel :: Connects(g, L.Lookup(env, from), rel, L.Lookup(env, to), types, dir, range)
                       && (relVar.Some? ==> L.Lookup(env, relVar.value) == rel)
    case Selection(inner, p) => Sat(m, g, inner, env) && L.Eval(m, p, env, []) == Some(L.VBool(true))
    case Projection(inner, _, _) => Sat(m, g, inner, env)
    case CartesianProduct(a, b) => Sat(m, g, a, env) && Sat(m, g, b, env)
    case LeftOuterJoin(a, _) => Sat(m, g, a, env)
  }
}

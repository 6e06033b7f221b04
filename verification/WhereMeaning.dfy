/** The WHERE clause of an update matches what the operators match.

    A property graph is stored as triples: a sentinel for every node, its labels,
    its properties as literals, and its relationships.  Over that store the
    solutions of the clause are the assignments that satisfy the operators.
 */
module WhereMeaning {
  import opened Prelude
  import opened Sparql
  import opened WriteSet
  import opened Where
  import SE = SetEffect
  import L = Lqa
  import O = Ops

  // ---------- Groups without OPTIONAL ----------

  predicate IsFlat(part: Part) {
    match part
    case Match(_) => true
    case Either(l, r) => TpVars(l) == TpVars(r)
    case NotExists(_) => true
    case _ => false
  }

  function BindVars(parts: seq<Part>): set<string> {
    if parts == [] then {}
    else
      (match parts[0]
       case Match(tp) => TpVars(tp)
       case Either(l, _) => TpVars(l)
       case _ => {})
      + BindVars(parts[1..])
  }

  ghost predicate Matches(part: Part, g: Store, mu: Solution) {
    match part
    case Match(tp) => Holds(tp, g, mu)
    case Either(l, r) => Holds(l, g, mu) || Holds(r, g, mu)
    case _ => true
  }

  lemma {:induction false} InstExtends(vt: VarTerm, mu: Solution, nu: Solution)
    requires Extends(mu, nu) && VarsOf(vt) <= mu.Keys
    ensures Inst(vt, mu) == Inst(vt, nu)
  {
    match vt {
      case QuotedPat(s, p, o) => InstExtends(s, mu, nu); InstExtends(p, mu, nu); InstExtends(o, mu, nu);
      case _ =>
    }
  }

  lemma HoldsExtends(tp: TriplePattern, g: Store, mu: Solution, nu: Solution)
    requires Extends(mu, nu) && TpVars(tp) <= mu.Keys
    ensures Holds(tp, g, mu) <==> Holds(tp, g, nu)
  {
    InstExtends(tp.s, mu, nu);
    InstExtends(tp.p, mu, nu);
    InstExtends(tp.o, mu, nu);
  }

  lemma SingleBgp(tp: TriplePattern, g: Store, mu: Solution, nu: Solution)
    ensures BgpMatch([tp], g, mu, nu) <==> Extends(mu, nu) && nu.Keys == mu.Keys + TpVars(tp) && Holds(tp, g, nu)
  {
    SingleVars(tp);
    assert tp in [tp];
  }

  // One part binds its variables and must match.
  lemma FlatStep(part: Part, g: Store, mu: Solution, nu: Solution)
    requires IsFlat(part)
    ensures Step(part, g, mu, nu) <==> Extends(mu, nu) && nu.Keys == mu.Keys + BindVars([part]) && Matches(part, g, nu)
  {
    assert [part][1..] == [] && BindVars([part][1..]) == {};
    match part {
      case Match(tp) => SingleBgp(tp, g, mu, nu);
      case Either(l, r) => SingleBgp(l, g, mu, nu); SingleBgp(r, g, mu, nu);
      case NotExists(_) =>
        if Extends(mu, nu) && nu.Keys == mu.Keys {
          assert nu == mu;
        }
    }
  }

  lemma MatchesExtends(part: Part, g: Store, mu: Solution, nu: Solution)
    requires IsFlat(part) && Extends(mu, nu) && BindVars([part]) <= mu.Keys
    ensures Matches(part, g, mu) <==> Matches(part, g, nu)
  {
    assert [part][1..] == [] && BindVars([part][1..]) == {};
    match part {
      case Match(tp) => HoldsExtends(tp, g, mu, nu);
      case Either(l, r) => HoldsExtends(l, g, mu, nu); HoldsExtends(r, g, mu, nu);
      case _ =>
    }
  }

  ghost predicate AllMatch(parts: seq<Part>, g: Store, mu: Solution) {
    forall part :: part in parts ==> Matches(part, g, mu)
  }

  lemma BindVarsCons(parts: seq<Part>)
    requires parts != []
    ensures BindVars(parts) == BindVars([parts[0]]) + BindVars(parts[1..])
  {
    assert [parts[0]][1..] == [] && BindVars([parts[0]][1..]) == {};
  }

  // A flat group is solved by binding all its variables so that every part matches; the
  // order of the parts does not matter.
  lemma {:induction false} FlatReaches(parts: seq<Part>, g: Store, mu: Solution, nu: Solution)
    requires forall part :: part in parts ==> IsFlat(part)
    ensures Reaches(parts, g, mu, nu) <==> Extends(mu, nu) && nu.Keys == mu.Keys + BindVars(parts) && AllMatch(parts, g, nu)
  {
    hide IsFlat, Step, Matches, BindVars;
    if parts == [] {
      EmptyBinds();
      if Extends(mu, nu) && nu.Keys == mu.Keys {
        assert nu == mu;
      }
    } else {
      var first, rest := parts[0], parts[1..];
      BindVarsCons(parts);
      assert forall part :: part in parts <==> part == first || part in rest;
      if Reaches(parts, g, mu, nu) {
        var xi := ReachesSplit(parts, g, mu, nu);
        FlatStep(first, g, mu, xi);
        FlatReaches(rest, g, xi, nu);
        MatchesExtends(first, g, xi, nu);
      }
      if Extends(mu, nu) && nu.Keys == mu.Keys + BindVars(parts) && AllMatch(parts, g, nu) {
        var xi: Solution := map x | x in nu && x in mu.Keys + BindVars([first]) :: nu[x];
        assert xi.Keys == mu.Keys + BindVars([first]);
        MatchesExtends(first, g, xi, nu);
        FlatStep(first, g, mu, xi);
        FlatReaches(rest, g, xi, nu);
      }
    }
  }

  lemma EmptyBinds()
    ensures BindVars([]) == {}
  {
  }

  // ---------- The store of a property graph ----------

  // How values are written as terms; every choice of literals will do.
  datatype View = View(m: L.Meaning, graph: O.Graph, base: string, repr: L.Value -> Option<Term>)

  predicate IsNodeTerm(v: View, t: Term) {
    t.BNode? && t.id in v.graph.nodes
  }

  predicate IsSentinel(v: View, t: Triple) {
    IsNodeTerm(v, t.s) && t.p == NodeIri(v.base) && t.o == NodeIri(v.base)
  }

  ghost predicate IsLabel(v: View, t: Triple) {
    IsNodeTerm(v, t.s) && t.p == Iri(RDF_TYPE) && exists l :: t.o == Iri(v.base + l) && v.m.hasLabel(L.VNode(t.s.id), l)
  }

  function PropertyOf(v: View, n: nat, k: string): L.Value {
    v.m.property(L.VNode(n), k)
  }

  ghost predicate IsProperty(v: View, t: Triple) {
    && IsNodeTerm(v, t.s)
    && exists k :: t.p == PropIri(v.base, k) && !PropertyOf(v, t.s.id, k).VNull? && v.repr(PropertyOf(v, t.s.id, k)) == Some(t.o)
  }

  ghost predicate IsEdge(v: View, t: Triple) {
    exists e :: e in v.graph.edges && t == Triple(BNode(e.src), TypeIri(v.base, e.typ), BNode(e.dst))
  }

  ghost function Stored(v: View): Store {
    iset t: Triple | IsSentinel(v, t) || IsLabel(v, t) || IsProperty(v, t) || IsEdge(v, t)
  }

  // The base keeps the vocabulary of the graph apart from rdf:type, and values are literals.
  ghost predicate GoodView(v: View) {
    && O.WellFormed(v.graph)
    && (forall s :: v.base + s != RDF_TYPE)
    && forall a :: v.repr(a).Some? ==> v.repr(a).value.Lit?
  }

  lemma BaseInjective(base: string, a: string, b: string)
    ensures base + a == base + b ==> a == b
  {
    assert (base + a)[|base|..] == a && (base + b)[|base|..] == b;
  }

  lemma SentinelStored(v: View, s: Term)
    requires GoodView(v)
    ensures Triple(s, NodeIri(v.base), NodeIri(v.base)) in Stored(v) <==> IsNodeTerm(v, s)
  {
    assert v.base + "__node" != RDF_TYPE;
  }

  lemma LabelStored(v: View, s: Term, l: string)
    requires GoodView(v)
    ensures Triple(s, Iri(RDF_TYPE), Iri(v.base + l)) in Stored(v) <==> IsNodeTerm(v, s) && v.m.hasLabel(L.VNode(s.id), l)
  {
    var t := Triple(s, Iri(RDF_TYPE), Iri(v.base + l));
    assert v.base + "__node" != RDF_TYPE;
    forall k ensures t.p != PropIri(v.base, k) {
      assert v.base + k != RDF_TYPE;
    }
    if t in Stored(v) {
      assert IsLabel(v, t);
      var l' :| t.o == Iri(v.base + l') && v.m.hasLabel(L.VNode(t.s.id), l');
      BaseInjective(v.base, l, l');
    }
  }

  lemma PropertyStored(v: View, s: Term, k: string, o: Term)
    requires GoodView(v) && o.Lit?
    ensures Triple(s, PropIri(v.base, k), o) in Stored(v)
       <==> IsNodeTerm(v, s) && !PropertyOf(v, s.id, k).VNull? && v.repr(PropertyOf(v, s.id, k)) == Some(o)
  {
    var t := Triple(s, PropIri(v.base, k), o);
    if t in Stored(v) {
      assert IsProperty(v, t);
      var k' :| t.p == PropIri(v.base, k') && !PropertyOf(v, t.s.id, k').VNull? && v.repr(PropertyOf(v, t.s.id, k')) == Some(t.o);
      BaseInjective(v.base, k, k');
    }
  }

  // A relationship type that is no property key, and not the name of the sentinel.
  ghost predicate GoodType(v: View, typ: string) {
    typ != "__node" && forall n :: n in v.graph.nodes ==> PropertyOf(v, n, typ).VNull?
  }

  lemma EdgeStored(v: View, s: Term, typ: string, o: Term)
    requires GoodView(v) && GoodType(v, typ)
    ensures Triple(s, TypeIri(v.base, typ), o) in Stored(v)
       <==> exists e :: e in v.graph.edges && e.typ == typ && s == BNode(e.src) && o == BNode(e.dst)
  {
    var t := Triple(s, TypeIri(v.base, typ), o);
    assert v.base + typ != RDF_TYPE;
    if t in Stored(v) {
      BaseInjective(v.base, typ, "__node");
      assert !IsProperty(v, t) by {
        if IsProperty(v, t) {
          var k :| t.p == PropIri(v.base, k) && !PropertyOf(v, t.s.id, k).VNull?;
          BaseInjective(v.base, typ, k);
        }
      }
      var e :| e in v.graph.edges && t == Triple(BNode(e.src), TypeIri(v.base, e.typ), BNode(e.dst));
      BaseInjective(v.base, typ, e.typ);
    }
  }

  // ---------- The operators covered ----------

  function OpVars(op: O.Op): set<string> {
    match op
    case Scan(x, _, _) => {x}
    case Expand(inner, from, _, to, _, _, _, _) => OpVars(inner) + {from, to}
    case Selection(inner, _) => OpVars(inner)
    case CartesianProduct(a, b) => OpVars(a) + OpVars(b)
    case _ => {}
  }

  // Equalities of a property and a constant, label checks, and the absence of one label.
  predicate IsSimplePredicate(p: L.Expr, base: string, lit: Serializer, xs: set<string>) {
    match p
    case Comparison(op, l, r) =>
      && op == L.Eq
      && (EqToTriple(l, r, base, lit).Some? ==> l.e.name in xs)
      && (EqToTriple(l, r, base, lit).None? ==> EqToTriple(r, l, base, lit).Some? && r.e.name in xs)
    case And(a, b) => IsSimplePredicate(a, base, lit, xs) && IsSimplePredicate(b, base, lit, xs)
    case LabelCheck(e, _) => e.Variable? && e.name in xs
    case Not(c) => c.LabelCheck? && c.e.Variable? && c.e.name in xs && |c.labels| == 1
    case _ => false
  }

  // Anonymous relationships of one type and fixed length, from nodes of the tree or of the
  // clauses before it, which bind the variables xs.
  ghost predicate IsSimpleIn(op: O.Op, v: View, lit: Serializer, xs: set<string>) {
    match op
    case Unit => true
    case Scan(_, _, _) => true
    case Expand(inner, from, relVar, _, types, _, range, _) =>
      IsSimpleIn(inner, v, lit, xs) && from in OpVars(inner) + xs && relVar.None? && range.None? && |types| == 1 && GoodType(v, types[0])
    case Selection(inner, p) => IsSimpleIn(inner, v, lit, xs) && IsSimplePredicate(p, v.base, lit, OpVars(inner) + xs)
    case CartesianProduct(a, b) => IsSimpleIn(a, v, lit, xs) && IsSimpleIn(b, v, lit, xs + OpVars(a))
    case _ => false
  }

  ghost predicate IsSimple(op: O.Op, v: View, lit: Serializer) {
    IsSimpleIn(op, v, lit, {})
  }

  // A constant's term stands for the values that equal the constant.
  ghost predicate AgreeAt(v: View, lit: Serializer, e: L.Expr, a: L.Value, env: L.Env) {
    lit(e).Some? ==>
      && lit(e).value.Lit?
      && var c := L.Eval(v.m, e, env, []);
         && c.Some?
         && (L.CompareV(v.m, L.Eq, a, c.value) == L.VBool(true) <==> !a.VNull? && v.repr(a) == lit(e))
         && (L.CompareV(v.m, L.Eq, c.value, a) == L.VBool(true) <==> !a.VNull? && v.repr(a) == lit(e))
  }

  // The comparison of property k of x with the constant e, under one assignment.
  ghost predicate AgreesFor(v: View, lit: Serializer, x: string, k: string, e: L.Expr, mu: Solution, env: L.Env) {
    x in mu && mu[x].BNode? ==> AgreeAt(v, lit, e, PropertyOf(v, mu[x].id, k), env)
  }

  ghost predicate PredicateAgrees(v: View, lit: Serializer, p: L.Expr, mu: Solution, env: L.Env) {
    match p
    case Comparison(_, l, r) =>
      if EqToTriple(l, r, v.base, lit).Some? then AgreesFor(v, lit, l.e.name, l.key, r, mu, env)
      else if EqToTriple(r, l, v.base, lit).Some? then AgreesFor(v, lit, r.e.name, r.key, l, mu, env)
      else true
    case And(a, b) => PredicateAgrees(v, lit, a, mu, env) && PredicateAgrees(v, lit, b, mu, env)
    case _ => true
  }

  // Terms decide the equalities of op rightly under this assignment, as far as the
  // operators below let it through.
  ghost predicate TermsAgree(v: View, lit: Serializer, op: O.Op, mu: Solution, env: L.Env) {
    match op
    case Expand(inner, _, _, _, _, _, _, _) => TermsAgree(v, lit, inner, mu, env)
    case Selection(inner, p) => TermsAgree(v, lit, inner, mu, env) && (O.Sat(v.m, v.graph, inner, env) ==> PredicateAgrees(v, lit, p, mu, env))
    case CartesianProduct(a, b) => TermsAgree(v, lit, a, mu, env) && TermsAgree(v, lit, b, mu, env)
    case _ => true
  }

  ghost predicate AllAgree(v: View, lit: Serializer, op: O.Op) {
    forall mu: Solution, env :: mu.Keys == OpVars(op) && Stands(env, mu, OpVars(op)) && BindsNodes(v, OpVars(op), mu) ==> TermsAgree(v, lit, op, mu, env)
  }

  function ValueOf(t: Term): L.Value {
    if t.BNode? then L.VNode(t.id) else L.VNull
  }

  // The assignment gives the variables xs the values that the solution's terms stand for.
  ghost predicate Stands(env: L.Env, mu: Solution, xs: set<string>) {
    forall x :: x in xs ==> x in mu && L.Lookup(env, x) == ValueOf(mu[x])
  }

  ghost predicate BindsNodes(v: View, xs: set<string>, mu: Solution) {
    forall x :: x in xs ==> x in mu && IsNodeTerm(v, mu[x])
  }

  // The parts hold, the NOT EXISTS of single bound patterns among them.
  ghost predicate PartHolds(part: Part, g: Store, mu: Solution) {
    match part
    case Match(tp) => Holds(tp, g, mu)
    case Either(l, r) => Holds(l, g, mu) || Holds(r, g, mu)
    case NotExists(alts) => |alts| == 1 && |alts[0]| == 1 && TpVars(alts[0][0]) <= mu.Keys && !Holds(alts[0][0], g, mu)
    case _ => false
  }

  ghost predicate PartsHold(parts: seq<Part>, g: Store, mu: Solution) {
    forall part :: part in parts ==> PartHolds(part, g, mu)
  }

  lemma PartsHoldAppend(a: seq<Part>, b: seq<Part>, g: Store, mu: Solution)
    ensures PartsHold(a + b, g, mu) <==> PartsHold(a, g, mu) && PartsHold(b, g, mu)
  {
    assert forall part :: part in a + b <==> part in a || part in b;
  }

  // ---------- Labels ----------

  lemma HoldsOf(x: string, p: Term, o: Term, g: Store, mu: Solution)
    requires x in mu
    ensures Holds(TP(Var(x), Const(p), Const(o)), g, mu) <==> Triple(mu[x], p, o) in g
  {
  }

  lemma {:induction false} LabelPartsHold(v: View, x: string, labels: seq<string>, mu: Solution)
    requires GoodView(v) && x in mu && IsNodeTerm(v, mu[x])
    ensures PartsHold(LabelParts(x, labels, v.base), Stored(v), mu) <==> O.HasLabels(v.m, L.VNode(mu[x].id), labels)
  {
    hide Stored, GoodView;
    if labels != [] {
      LabelPartsHold(v, x, labels[1..], mu);
      LabelStored(v, mu[x], labels[0]);
      HoldsOf(x, Iri(RDF_TYPE), Iri(v.base + labels[0]), Stored(v), mu);
      var first, rest := [Match(LabelPattern(x, labels[0], v.base))], LabelParts(x, labels[1..], v.base);
      PartsHoldAppend(first, rest, Stored(v), mu);
      assert first[0] in first;
      assert forall l :: l in labels <==> l == labels[0] || l in labels[1..];
    }
  }

  // ---------- Predicates ----------

  lemma EqHolds(v: View, x: string, k: string, e: L.Expr, lit: Serializer, mu: Solution, env: L.Env)
    requires GoodView(v) && lit(e).Some? && Stands(env, mu, {x}) && BindsNodes(v, {x}, mu) && AgreesFor(v, lit, x, k, e, mu, env)
    ensures var tp := TP(Var(x), Const(PropIri(v.base, k)), Const(lit(e).value));
            var property := L.Property(L.Variable(x), k);
            && (Holds(tp, Stored(v), mu) <==> L.Eval(v.m, L.Comparison(L.Eq, property, e), env, []) == Some(L.VBool(true)))
            && (Holds(tp, Stored(v), mu) <==> L.Eval(v.m, L.Comparison(L.Eq, e, property), env, []) == Some(L.VBool(true)))
  {
    hide Stored, GoodView, L.CompareV, L.EvalAll, L.EvalPairs, L.EvalBranches, L.EvalRows, L.Comprehend;
    var n := mu[x].id;
    assert AgreeAt(v, lit, e, PropertyOf(v, n, k), env);
    HoldsOf(x, PropIri(v.base, k), lit(e).value, Stored(v), mu);
    PropertyStored(v, mu[x], k, lit(e).value);
    L.EvalProperty(v.m, x, k, env, []);
    L.EvalEq(v.m, L.Property(L.Variable(x), k), e, env, []);
    L.EvalEq(v.m, e, L.Property(L.Variable(x), k), env, []);
  }

  lemma AndIsTrue(m: L.Meaning, a: L.Expr, b: L.Expr, env: L.Env)
    ensures L.Eval(m, L.And(a, b), env, []) == Some(L.VBool(true))
       <==> L.Eval(m, a, env, []) == Some(L.VBool(true)) && L.Eval(m, b, env, []) == Some(L.VBool(true))
  {
    hide L.Eval;
    L.EvalAnd(m, a, b, env, []);
  }

  lemma EvalLabels(m: L.Meaning, x: string, labels: seq<string>, n: nat, env: L.Env)
    requires L.Lookup(env, x) == L.VNode(n)
    ensures L.Eval(m, L.LabelCheck(L.Variable(x), labels), env, []) == Some(L.VBool(O.HasLabels(m, L.VNode(n), labels)))
    ensures L.Eval(m, L.Not(L.LabelCheck(L.Variable(x), labels)), env, []) == Some(L.VBool(!O.HasLabels(m, L.VNode(n), labels)))
  {
    hide L.EvalAll, L.EvalPairs, L.EvalBranches, L.EvalRows, L.Comprehend;
  }

  lemma OnePart(part: Part, g: Store, mu: Solution)
    ensures PartsHold([part], g, mu) <==> PartHolds(part, g, mu)
  {
    assert part in [part];
  }

  // The parts of a predicate hold exactly when the predicate is true.
  lemma {:induction false} PredicateHolds(v: View, p: L.Expr, lit: Serializer, meaning: FilterMeaning, mu: Solution, env: L.Env, xs: set<string>)
    requires GoodView(v) && IsSimplePredicate(p, v.base, lit, xs) && Stands(env, mu, xs) && BindsNodes(v, xs, mu)
    requires PredicateAgrees(v, lit, p, mu, env)
    ensures PartsHold(PredicateParts(p, v.base, lit, meaning), Stored(v), mu) <==> L.Eval(v.m, p, env, []) == Some(L.VBool(true))
  {
    hide Stored, GoodView, AgreesFor, L.Eval, PartsHold, FilterParts;
    match p {
      case Comparison(_, l, r) =>
        if EqToTriple(l, r, v.base, lit).Some? {
          EqHolds(v, l.e.name, l.key, r, lit, mu, env);
          OnePart(Match(EqToTriple(l, r, v.base, lit).value), Stored(v), mu);
        } else {
          EqHolds(v, r.e.name, r.key, l, lit, mu, env);
          OnePart(Match(EqToTriple(r, l, v.base, lit).value), Stored(v), mu);
        }
      case And(a, b) =>
        PredicateHolds(v, a, lit, meaning, mu, env, xs);
        PredicateHolds(v, b, lit, meaning, mu, env, xs);
        PartsHoldAppend(PredicateParts(a, v.base, lit, meaning), PredicateParts(b, v.base, lit, meaning), Stored(v), mu);
        AndIsTrue(v.m, a, b, env);
      case LabelCheck(e, labels) =>
        LabelPartsHold(v, e.name, labels, mu);
        EvalLabels(v.m, e.name, labels, mu[e.name].id, env);
      case Not(c) => NotLabelHolds(v, c.e.name, c.labels, mu, env);
    }
  }

  lemma NotLabelHolds(v: View, x: string, labels: seq<string>, mu: Solution, env: L.Env)
    requires GoodView(v) && |labels| == 1 && Stands(env, mu, {x}) && BindsNodes(v, {x}, mu)
    ensures PartsHold(NoLabelParts(x, labels, v.base), Stored(v), mu) <==> L.Eval(v.m, L.Not(L.LabelCheck(L.Variable(x), labels)), env, []) == Some(L.VBool(true))
  {
    hide Stored, GoodView, L.Eval, PartsHold;
    var tp := LabelPattern(x, labels[0], v.base);
    assert labels[1..] == [];
    assert NoLabelParts(x, labels, v.base) == [NotExists([[tp]])];
    OnePart(NotExists([[tp]]), Stored(v), mu);
    HoldsOf(x, Iri(RDF_TYPE), Iri(v.base + labels[0]), Stored(v), mu);
    LabelStored(v, mu[x], labels[0]);
    EvalLabels(v.m, x, labels, mu[x].id, env);
    assert O.HasLabels(v.m, L.VNode(mu[x].id), labels) <==> v.m.hasLabel(L.VNode(mu[x].id), labels[0]);
  }

  // ---------- Operators ----------

  // An edge between the two terms, in the direction of the pattern.
  ghost predicate EdgeBetween(v: View, s: Term, t: Term, typ: string, dir: O.Direction) {
    exists e :: e in v.graph.edges && e.typ == typ
                && ((dir != O.Incoming && s == BNode(e.src) && t == BNode(e.dst)) || (dir != O.Outgoing && t == BNode(e.src) && s == BNode(e.dst)))
  }

  lemma EdgePartHolds(v: View, from: string, to: string, typ: string, dir: O.Direction, mu: Solution)
    requires GoodView(v) && GoodType(v, typ) && from in mu && to in mu
    ensures PartHolds(EdgePart(from, Const(TypeIri(v.base, typ)), to, dir), Stored(v), mu) <==> EdgeBetween(v, mu[from], mu[to], typ, dir)
  {
    hide Stored, TypeIri, GoodView, GoodType;
    EdgeStored(v, mu[from], typ, mu[to]);
    EdgeStored(v, mu[to], typ, mu[from]);
    PatternHolds(from, TypeIri(v.base, typ), to, Stored(v), mu);
    PatternHolds(to, TypeIri(v.base, typ), from, Stored(v), mu);
  }

  lemma EdgeConnects(v: View, s: Term, t: Term, types: seq<string>, dir: O.Direction)
    requires GoodView(v) && |types| == 1 && IsNodeTerm(v, s)
    ensures EdgeBetween(v, s, t, types[0], dir) <==> exists rel :: O.Connects(v.graph, ValueOf(s), rel, ValueOf(t), types, dir, None)
    ensures EdgeBetween(v, s, t, types[0], dir) ==> IsNodeTerm(v, t)
  {
    assert forall e :: e in v.graph.edges ==> (e.typ in types <==> e.typ == types[0]);
    var a, b := ValueOf(s), ValueOf(t);
    if EdgeBetween(v, s, t, types[0], dir) {
      var e :| e in v.graph.edges && e.typ == types[0]
               && ((dir != O.Incoming && s == BNode(e.src) && t == BNode(e.dst)) || (dir != O.Outgoing && t == BNode(e.src) && s == BNode(e.dst)));
      assert O.Follows(e, a, b, dir, types);
      assert O.Connects(v.graph, a, L.VRel(e.id), b, types, dir, None);
    }
  }

  lemma EdgeHolds(v: View, from: string, to: string, types: seq<string>, dir: O.Direction, mu: Solution, env: L.Env)
    requires GoodView(v) && |types| == 1 && GoodType(v, types[0])
    requires Stands(env, mu, {from, to}) && IsNodeTerm(v, mu[from])
    ensures PartHolds(EdgePart(from, Const(TypeIri(v.base, types[0])), to, dir), Stored(v), mu)
       <==> exists rel :: O.Connects(v.graph, L.Lookup(env, from), rel, L.Lookup(env, to), types, dir, None)
    ensures PartHolds(EdgePart(from, Const(TypeIri(v.base, types[0])), to, dir), Stored(v), mu) ==> IsNodeTerm(v, mu[to])
  {
    hide Stored, GoodView, GoodType, EdgeBetween, O.Connects, PartHolds;
    EdgePartHolds(v, from, to, types[0], dir, mu);
    EdgeConnects(v, mu[from], mu[to], types, dir);
  }

  lemma OneEdge(from: string, to: string, types: seq<string>, dir: O.Direction, base: string)
    requires |types| == 1
    ensures ExpandParts(from, to, types, dir, base) == [EdgePart(from, Const(TypeIri(base, types[0])), to, dir)]
  {
    assert types[1..] == [] && EdgeParts(from, to, types[1..], dir, base) == [];
  }

  lemma PatternHolds(x: string, p: Term, y: string, g: Store, mu: Solution)
    requires x in mu && y in mu
    ensures Holds(TP(Var(x), Const(p), Var(y)), g, mu) <==> Triple(mu[x], p, mu[y]) in g
  {
  }

  lemma StandsSubset(env: L.Env, mu: Solution, xs: set<string>, ys: set<string>)
    requires Stands(env, mu, xs) && ys <= xs
    ensures Stands(env, mu, ys)
  {
  }

  // The parts of an operator hold exactly when the assignment satisfies it, all its
  // variables being nodes.
  lemma {:induction false} OpHolds(v: View, op: O.Op, lit: Serializer, meaning: FilterMeaning, mu: Solution, env: L.Env, xs: set<string>)
    requires GoodView(v) && IsSimpleIn(op, v, lit, xs) && Stands(env, mu, OpVars(op) + xs) && BindsNodes(v, xs, mu)
    requires BindsNodes(v, OpVars(op), mu) ==> TermsAgree(v, lit, op, mu, env)
    ensures WhereParts(op, v.base, lit, meaning).Ok?
    ensures PartsHold(WhereParts(op, v.base, lit, meaning).value, Stored(v), mu)
       <==> BindsNodes(v, OpVars(op), mu) && O.Sat(v.m, v.graph, op, env)
  {
    hide Stored, GoodView, PredicateAgrees, L.Eval, PartsHold, O.Connects, GoodType, IsSimplePredicate, PredicateParts;
    var g := Stored(v);
    assert WhereParts(op, v.base, lit, meaning).Ok? by {
      OpFlatIn(op, v, lit, meaning, xs);
    }
    match op {
      case Unit => assert PartsHold([], g, mu) by { NoParts(g, mu); }
      case Scan(x, first, extra) => ScanHolds(v, x, first, extra, mu, env);
      case Expand(inner, from, _, to, types, dir, _, _) =>
        var parts, edge := WhereParts(inner, v.base, lit, meaning).value, ExpandParts(from, to, types, dir, v.base);
        PartsHoldAppend(parts, edge, g, mu);
        OneEdge(from, to, types, dir, v.base);
        OnePart(edge[0], g, mu);
        StandsSubset(env, mu, OpVars(op) + xs, {from, to});
        StandsSubset(env, mu, OpVars(op) + xs, OpVars(inner) + xs);
        if BindsNodes(v, OpVars(inner), mu) {
          EdgeHolds(v, from, to, types, dir, mu, env);
        }
        if BindsNodes(v, OpVars(op), mu) || !BindsNodes(v, OpVars(inner), mu) {
          OpHolds(v, inner, lit, meaning, mu, env, xs);
        }
      case Selection(inner, p) =>
        OpHolds(v, inner, lit, meaning, mu, env, xs);
        PartsHoldAppend(WhereParts(inner, v.base, lit, meaning).value, PredicateParts(p, v.base, lit, meaning), g, mu);
        if BindsNodes(v, OpVars(inner), mu) && O.Sat(v.m, v.graph, inner, env) {
          PredicateHolds(v, p, lit, meaning, mu, env, OpVars(inner) + xs);
        }
      case CartesianProduct(a, b) =>
        PartsHoldAppend(WhereParts(a, v.base, lit, meaning).value, WhereParts(b, v.base, lit, meaning).value, g, mu);
        StandsSubset(env, mu, OpVars(op) + xs, OpVars(a) + xs);
        StandsSubset(env, mu, OpVars(op) + xs, OpVars(b) + (xs + OpVars(a)));
        if BindsNodes(v, OpVars(op), mu) || !BindsNodes(v, OpVars(a), mu) {
          OpHolds(v, a, lit, meaning, mu, env, xs);
        }
        if BindsNodes(v, OpVars(a), mu) {
          OpHolds(v, b, lit, meaning, mu, env, xs + OpVars(a));
        }
    }
  }

  lemma NoParts(g: Store, mu: Solution)
    ensures PartsHold([], g, mu)
  {
  }

  lemma ScanHolds(v: View, x: string, first: Option<string>, extra: seq<string>, mu: Solution, env: L.Env)
    requires GoodView(v) && Stands(env, mu, {x})
    ensures var firsts := if first.Some? then [first.value] else [];
            var parts := [Sentinel(x, v.base)] + LabelParts(x, firsts, v.base) + LabelParts(x, extra, v.base);
            PartsHold(parts, Stored(v), mu) <==> BindsNodes(v, {x}, mu) && O.Sat(v.m, v.graph, O.Scan(x, first, extra), env)
  {
    hide Stored, GoodView, PartsHold;
    var firsts := if first.Some? then [first.value] else [];
    var a, b, c := [Sentinel(x, v.base)], LabelParts(x, firsts, v.base), LabelParts(x, extra, v.base);
    PartsHoldAppend(a + b, c, Stored(v), mu);
    PartsHoldAppend(a, b, Stored(v), mu);
    OnePart(a[0], Stored(v), mu);
    HoldsOf(x, NodeIri(v.base), NodeIri(v.base), Stored(v), mu);
    SentinelStored(v, mu[x]);
    if IsNodeTerm(v, mu[x]) {
      LabelPartsHold(v, x, firsts, mu);
      LabelPartsHold(v, x, extra, mu);
    }
  }

  // ---------- Shape of the clause ----------

  lemma {:induction false} BindVarsAppend(a: seq<Part>, b: seq<Part>)
    ensures BindVars(a + b) == BindVars(a) + BindVars(b)
  {
    if a == [] {
      assert a + b == b;
    } else {
      assert (a + b)[0] == a[0] && (a + b)[1..] == a[1..] + b;
      BindVarsAppend(a[1..], b);
    }
  }

  ghost predicate IsFlatGroup(parts: seq<Part>, xs: set<string>) {
    (forall part :: part in parts ==> IsFlat(part)) && BindVars(parts) <= xs
  }

  lemma FlatAppend(a: seq<Part>, b: seq<Part>, xs: set<string>)
    requires IsFlatGroup(a, xs) && IsFlatGroup(b, xs)
    ensures IsFlatGroup(a + b, xs) && BindVars(a + b) == BindVars(a) + BindVars(b)
  {
    BindVarsAppend(a, b);
  }

  lemma OneMatch(tp: TriplePattern, xs: set<string>)
    requires TpVars(tp) <= xs
    ensures IsFlatGroup([Match(tp)], xs) && BindVars([Match(tp)]) == TpVars(tp)
  {
    var parts := [Match(tp)];
    assert parts[1..] == [] && BindVars(parts[1..]) == {};
  }

  lemma EdgeFlat(from: string, p: VarTerm, to: string, dir: O.Direction)
    requires p.Const?
    ensures IsFlatGroup([EdgePart(from, p, to, dir)], {from, to}) && BindVars([EdgePart(from, p, to, dir)]) == {from, to}
  {
    var parts := [EdgePart(from, p, to, dir)];
    assert parts[1..] == [] && BindVars(parts[1..]) == {};
  }

  lemma FlatWiden(parts: seq<Part>, xs: set<string>, ys: set<string>)
    requires IsFlatGroup(parts, xs) && xs <= ys
    ensures IsFlatGroup(parts, ys)
  {
  }

  lemma {:induction false} LabelPartsFlat(x: string, labels: seq<string>, base: string)
    ensures IsFlatGroup(LabelParts(x, labels, base), {x})
    ensures IsFlatGroup(NoLabelParts(x, labels, base), {x})
  {
    if labels != [] {
      LabelPartsFlat(x, labels[1..], base);
    }
  }

  lemma {:induction false} PredicateFlat(p: L.Expr, base: string, lit: Serializer, meaning: FilterMeaning, xs: set<string>)
    requires IsSimplePredicate(p, base, lit, xs)
    ensures IsFlatGroup(PredicateParts(p, base, lit, meaning), xs)
  {
    match p {
      case Comparison(_, l, r) =>
        OneMatch(PredicateParts(p, base, lit, meaning)[0].tp, xs);
      case And(a, b) =>
        PredicateFlat(a, base, lit, meaning, xs);
        PredicateFlat(b, base, lit, meaning, xs);
        FlatAppend(PredicateParts(a, base, lit, meaning), PredicateParts(b, base, lit, meaning), xs);
      case LabelCheck(e, labels) => LabelPartsFlat(e.name, labels, base);
      case Not(c) => LabelPartsFlat(c.e.name, c.labels, base);
    }
  }

  lemma FlatBinds(parts: seq<Part>, xs: set<string>)
    requires IsFlatGroup(parts, xs)
    ensures BindVars(parts) <= xs
  {
  }

  lemma NothingFlat()
    ensures IsFlatGroup([], {}) && BindVars([]) == {}
  {
  }

  lemma OpFlat(op: O.Op, v: View, lit: Serializer, meaning: FilterMeaning)
    requires IsSimple(op, v, lit)
    ensures WhereParts(op, v.base, lit, meaning).Ok?
    ensures var parts := WhereParts(op, v.base, lit, meaning).value; IsFlatGroup(parts, OpVars(op)) && BindVars(parts) == OpVars(op)
  {
    hide IsSimpleIn, WhereParts, BindVars, IsFlat;
    OpFlatIn(op, v, lit, meaning, {});
  }

  lemma {:induction false} OpFlatIn(op: O.Op, v: View, lit: Serializer, meaning: FilterMeaning, xs: set<string>)
    requires IsSimpleIn(op, v, lit, xs)
    ensures WhereParts(op, v.base, lit, meaning).Ok?
    ensures var parts := WhereParts(op, v.base, lit, meaning).value; IsFlatGroup(parts, OpVars(op) + xs) && OpVars(op) <= BindVars(parts)
  {
    hide GoodType, IsSimplePredicate, IsFlatGroup, BindVars;
    match op {
      case Unit =>
        NothingFlat();
        FlatWiden([], {}, OpVars(op) + xs);
      case Scan(x, first, extra) =>
        var firsts := if first.Some? then [first.value] else [];
        LabelPartsFlat(x, firsts, v.base);
        LabelPartsFlat(x, extra, v.base);
        var a := [Sentinel(x, v.base)];
        OneMatch(TP(Var(x), Const(NodeIri(v.base)), Const(NodeIri(v.base))), {x});
        FlatAppend(a, LabelParts(x, firsts, v.base), {x});
        FlatAppend(a + LabelParts(x, firsts, v.base), LabelParts(x, extra, v.base), {x});
        FlatWiden(a + LabelParts(x, firsts, v.base) + LabelParts(x, extra, v.base), {x}, OpVars(op) + xs);
      case Expand(inner, from, _, to, types, dir, _, _) =>
        OpFlatIn(inner, v, lit, meaning, xs);
        var edge := ExpandParts(from, to, types, dir, v.base);
        OneEdge(from, to, types, dir, v.base);
        EdgeFlat(from, Const(TypeIri(v.base, types[0])), to, dir);
        FlatWiden(edge, {from, to}, OpVars(op) + xs);
        FlatWiden(WhereParts(inner, v.base, lit, meaning).value, OpVars(inner) + xs, OpVars(op) + xs);
        FlatAppend(WhereParts(inner, v.base, lit, meaning).value, edge, OpVars(op) + xs);
      case Selection(inner, p) =>
        OpFlatIn(inner, v, lit, meaning, xs);
        PredicateFlat(p, v.base, lit, meaning, OpVars(inner) + xs);
        FlatAppend(WhereParts(inner, v.base, lit, meaning).value, PredicateParts(p, v.base, lit, meaning), OpVars(op) + xs);
      case CartesianProduct(a, b) =>
        OpFlatIn(a, v, lit, meaning, xs);
        OpFlatIn(b, v, lit, meaning, xs + OpVars(a));
        FlatWiden(WhereParts(a, v.base, lit, meaning).value, OpVars(a) + xs, OpVars(op) + xs);
        FlatWiden(WhereParts(b, v.base, lit, meaning).value, OpVars(b) + (xs + OpVars(a)), OpVars(op) + xs);
        FlatAppend(WhereParts(a, v.base, lit, meaning).value, WhereParts(b, v.base, lit, meaning).value, OpVars(op) + xs);
    }
  }

  // ---------- The clause and the operators ----------

  lemma SingleNotExists(tp: TriplePattern, g: Store, mu: Solution)
    requires TpVars(tp) <= mu.Keys
    ensures FilterHolds(NotExists([[tp]]), g, mu) <==> !Holds(tp, g, mu)
  {
    var part := NotExists([[tp]]);
    assert [tp] in part.alternatives;
    forall nu: Solution | BgpMatch([tp], g, mu, nu)
      ensures Holds(tp, g, mu)
    {
      SingleBgp(tp, g, mu, nu);
      HoldsExtends(tp, g, mu, nu);
    }
    if Holds(tp, g, mu) {
      SingleBgp(tp, g, mu, mu);
    }
  }

  // The filters that predicates give rise to look at one pattern over bound variables.
  ghost predicate HasBoundFilters(parts: seq<Part>, xs: set<string>) {
    forall part :: part in parts && part.NotExists? ==>
      |part.alternatives| == 1 && |part.alternatives[0]| == 1 && TpVars(part.alternatives[0][0]) <= xs
  }

  lemma {:induction false} LabelFilters(x: string, labels: seq<string>, base: string, xs: set<string>)
    requires x in xs
    ensures HasBoundFilters(LabelParts(x, labels, base), xs) && HasBoundFilters(NoLabelParts(x, labels, base), xs)
  {
    if labels != [] {
      LabelFilters(x, labels[1..], base, xs);
    }
  }

  lemma {:induction false} PredicateFilters(p: L.Expr, base: string, lit: Serializer, meaning: FilterMeaning, xs: set<string>)
    requires IsSimplePredicate(p, base, lit, xs)
    ensures HasBoundFilters(PredicateParts(p, base, lit, meaning), xs)
  {
    match p {
      case And(a, b) =>
        PredicateFilters(a, base, lit, meaning, xs);
        PredicateFilters(b, base, lit, meaning, xs);
      case LabelCheck(e, labels) => LabelFilters(e.name, labels, base, xs);
      case Not(c) => LabelFilters(c.e.name, c.labels, base, xs);
      case _ =>
    }
  }

  lemma OpFilters(op: O.Op, v: View, lit: Serializer, meaning: FilterMeaning, xs: set<string>)
    requires IsSimple(op, v, lit) && OpVars(op) <= xs && WhereParts(op, v.base, lit, meaning).Ok?
    ensures HasBoundFilters(WhereParts(op, v.base, lit, meaning).value, xs)
  {
    hide IsSimpleIn, WhereParts, HasBoundFilters;
    OpFiltersIn(op, v, lit, meaning, {}, xs);
  }

  lemma {:induction false} OpFiltersIn(op: O.Op, v: View, lit: Serializer, meaning: FilterMeaning, before: set<string>, xs: set<string>)
    requires IsSimpleIn(op, v, lit, before) && OpVars(op) + before <= xs && WhereParts(op, v.base, lit, meaning).Ok?
    ensures HasBoundFilters(WhereParts(op, v.base, lit, meaning).value, xs)
  {
    hide GoodType, IsSimplePredicate, PredicateParts;
    match op {
      case Unit =>
      case Scan(x, first, extra) =>
        LabelFilters(x, if first.Some? then [first.value] else [], v.base, xs);
        LabelFilters(x, extra, v.base, xs);
      case Expand(inner, from, _, to, types, dir, _, _) =>
        OpFiltersIn(inner, v, lit, meaning, before, xs);
        OneEdge(from, to, types, dir, v.base);
      case Selection(inner, p) =>
        OpFiltersIn(inner, v, lit, meaning, before, xs);
        PredicateFilters(p, v.base, lit, meaning, OpVars(inner) + before);
      case CartesianProduct(a, b) =>
        OpFiltersIn(a, v, lit, meaning, before, xs);
        OpFiltersIn(b, v, lit, meaning, before + OpVars(a), xs);
    }
  }

  lemma FlatSolves(parts: seq<Part>, g: Store, mu: Solution)
    requires (forall part :: part in parts ==> IsFlat(part)) && HasBoundFilters(parts, BindVars(parts))
    ensures IsSolution(parts, g, mu) <==> mu.Keys == BindVars(parts) && PartsHold(parts, g, mu)
  {
    hide Reaches, BindVars, Holds;
    FlatReaches(parts, g, map[], mu);
    if mu.Keys == BindVars(parts) {
      forall part | part in parts
        ensures PartHolds(part, g, mu) <==> Matches(part, g, mu) && FilterHolds(part, g, mu)
      {
        if part.NotExists? {
          var alt := part.alternatives[0];
          assert alt == [alt[0]] && part.alternatives == [alt];
          SingleNotExists(part.alternatives[0][0], g, mu);
        }
      }
    }
  }

  // The solutions bind the variables of the operators and no others.
  lemma SolutionKeys(v: View, op: O.Op, lit: Serializer, meaning: FilterMeaning, mu: Solution)
    requires IsSimple(op, v, lit)
    ensures WhereParts(op, v.base, lit, meaning).Ok?
    ensures var parts := WhereParts(op, v.base, lit, meaning).value;
            IsSolution(parts, Stored(v), mu) <==> mu.Keys == OpVars(op) && PartsHold(parts, Stored(v), mu)
  {
    hide Stored, PartsHold, IsSimple, WhereParts, IsSolution;
    OpFlat(op, v, lit, meaning);
    OpFilters(op, v, lit, meaning, OpVars(op));
    FlatSolves(WhereParts(op, v.base, lit, meaning).value, Stored(v), mu);
  }

  lemma NoScope(op: O.Op, v: View, lit: Serializer, mu: Solution, env: L.Env)
    requires IsSimple(op, v, lit) && Stands(env, mu, OpVars(op))
    ensures IsSimpleIn(op, v, lit, {}) && Stands(env, mu, OpVars(op) + {}) && BindsNodes(v, {}, mu)
  {
  }

  // Over the store of a property graph, the solutions of the WHERE clause are the
  // assignments of nodes that satisfy the operators, no more and no fewer, as far as
  // terms decide the equalities rightly.
  lemma WhereIsSat(v: View, op: O.Op, lit: Serializer, meaning: FilterMeaning, mu: Solution, env: L.Env)
    requires GoodView(v) && IsSimple(op, v, lit)
    requires mu.Keys == OpVars(op) ==> Stands(env, mu, OpVars(op)) && (BindsNodes(v, OpVars(op), mu) ==> TermsAgree(v, lit, op, mu, env))
    ensures WhereParts(op, v.base, lit, meaning).Ok?
    ensures IsSolution(WhereParts(op, v.base, lit, meaning).value, Stored(v), mu)
       <==> mu.Keys == OpVars(op) && BindsNodes(v, OpVars(op), mu) && O.Sat(v.m, v.graph, op, env)
  {
    hide Stored, GoodView, TermsAgree, PartsHold, IsSimple, WhereParts, O.Sat, IsSolution;
    SolutionKeys(v, op, lit, meaning, mu);
    if mu.Keys == OpVars(op) {
      NoScope(op, v, lit, mu, env);
      OpHolds(v, op, lit, meaning, mu, env, {});
    }
  }

  // ---------- Assignments as solutions ----------

  function SolutionOf(env: L.Env, xs: set<string>): Solution {
    map x | x in xs :: BNode(if L.Lookup(env, x).VNode? then L.Lookup(env, x).id else 0)
  }

  lemma SatBindsNodes(v: View, op: O.Op, lit: Serializer, env: L.Env)
    requires GoodView(v) && IsSimple(op, v, lit) && O.Sat(v.m, v.graph, op, env)
    ensures forall x :: x in OpVars(op) ==> O.IsNode(v.graph, L.Lookup(env, x))
  {
    hide IsSimpleIn, O.Sat;
    SatBindsNodesIn(v, op, lit, env, {});
  }

  lemma {:induction false} SatBindsNodesIn(v: View, op: O.Op, lit: Serializer, env: L.Env, xs: set<string>)
    requires GoodView(v) && IsSimpleIn(op, v, lit, xs) && O.Sat(v.m, v.graph, op, env)
    requires forall x :: x in xs ==> O.IsNode(v.graph, L.Lookup(env, x))
    ensures forall x :: x in OpVars(op) ==> O.IsNode(v.graph, L.Lookup(env, x))
  {
    hide L.Eval, GoodType, IsSimplePredicate;
    match op {
      case Expand(inner, from, _, to, types, dir, _, _) =>
        SatBindsNodesIn(v, inner, lit, env, xs);
        var rel :| O.Connects(v.graph, L.Lookup(env, from), rel, L.Lookup(env, to), types, dir, None);
        var e :| e in v.graph.edges && O.Follows(e, L.Lookup(env, from), L.Lookup(env, to), dir, types);
      case Selection(inner, _) => SatBindsNodesIn(v, inner, lit, env, xs);
      case CartesianProduct(a, b) =>
        SatBindsNodesIn(v, a, lit, env, xs);
        SatBindsNodesIn(v, b, lit, env, xs + OpVars(a));
      case _ =>
    }
  }

  // Every satisfying assignment is found: its nodes make a solution.
  lemma SatIsFound(v: View, op: O.Op, lit: Serializer, meaning: FilterMeaning, env: L.Env)
    requires GoodView(v) && IsSimple(op, v, lit) && O.Sat(v.m, v.graph, op, env)
    requires TermsAgree(v, lit, op, SolutionOf(env, OpVars(op)), env)
    ensures WhereParts(op, v.base, lit, meaning).Ok?
    ensures IsSolution(WhereParts(op, v.base, lit, meaning).value, Stored(v), SolutionOf(env, OpVars(op)))
  {
    hide Stored, GoodView, TermsAgree, IsSimple, O.Sat, IsSolution;
    SatBindsNodes(v, op, lit, env);
    WhereIsSat(v, op, lit, meaning, SolutionOf(env, OpVars(op)), env);
  }

  // Some satisfying assignment gives x the node n.
  ghost predicate Finds(v: View, op: O.Op, x: string, n: nat) {
    exists env :: O.Sat(v.m, v.graph, op, env) && L.Lookup(env, x) == L.VNode(n)
  }

  lemma MatchedIsFound(v: View, op: O.Op, lit: Serializer, meaning: FilterMeaning, x: string, t: Term)
    requires GoodView(v) && AllAgree(v, lit, op) && IsSimple(op, v, lit) && x in OpVars(op) && WhereParts(op, v.base, lit, meaning).Ok?
    requires t in Matched(WhereParts(op, v.base, lit, meaning).value, x, Stored(v))
    ensures t.BNode? && Finds(v, op, x, t.id)
  {
    hide Stored, GoodView, IsSimple, O.Sat, IsSolution, WhereParts, TermsAgree;
    var parts := WhereParts(op, v.base, lit, meaning).value;
    var mu: Solution :| IsSolution(parts, Stored(v), mu) && x in mu && !mu[x].Lit? && mu[x] == t;
    SolutionKeys(v, op, lit, meaning, mu);
    WhereIsSat(v, op, lit, meaning, mu, EnvOf(mu));
    assert L.Lookup(EnvOf(mu), x) == L.VNode(t.id);
  }

  lemma FoundIsMatched(v: View, op: O.Op, lit: Serializer, meaning: FilterMeaning, x: string, n: nat)
    requires GoodView(v) && AllAgree(v, lit, op) && IsSimple(op, v, lit) && x in OpVars(op) && WhereParts(op, v.base, lit, meaning).Ok?
    requires Finds(v, op, x, n)
    ensures BNode(n) in Matched(WhereParts(op, v.base, lit, meaning).value, x, Stored(v))
  {
    hide Stored, GoodView, IsSimple, O.Sat, IsSolution, WhereParts, TermsAgree;
    var env :| O.Sat(v.m, v.graph, op, env) && L.Lookup(env, x) == L.VNode(n);
    SatBindsNodes(v, op, lit, env);
    SatIsFound(v, op, lit, meaning, env);
    assert SolutionOf(env, OpVars(op))[x] == BNode(n);
  }

  // The nodes that a SET or MERGE over the clause works on are those that some
  // satisfying assignment gives the variable.
  lemma MatchedNodes(v: View, op: O.Op, lit: Serializer, meaning: FilterMeaning, x: string)
    requires GoodView(v) && AllAgree(v, lit, op) && IsSimple(op, v, lit) && x in OpVars(op)
    ensures WhereParts(op, v.base, lit, meaning).Ok?
    ensures forall t: Term :: t in Matched(WhereParts(op, v.base, lit, meaning).value, x, Stored(v)) <==> t.BNode? && Finds(v, op, x, t.id)
  {
    hide Stored, GoodView, AllAgree, IsSimple, Matched, WhereParts, Finds;
    OpFlat(op, v, lit, meaning);
    var parts := WhereParts(op, v.base, lit, meaning).value;
    forall t: Term
      ensures t in Matched(parts, x, Stored(v)) <==> t.BNode? && Finds(v, op, x, t.id)
    {
      if t in Matched(parts, x, Stored(v)) {
        MatchedIsFound(v, op, lit, meaning, x, t);
      }
      if t.BNode? && Finds(v, op, x, t.id) {
        FoundIsMatched(v, op, lit, meaning, x, t.id);
      }
    }
  }

  function EnvOf(mu: Solution): L.Env {
    map x | x in mu :: ValueOf(mu[x])
  }

  // ---------- A map merge over a match ----------

  lemma FixedAppend(a: seq<Part>, b: seq<Part>)
    requires Avoids(a, {}) && Avoids(b, {})
    ensures Avoids(a + b, {})
  {
  }

  lemma {:induction false} LabelPartsFixed(x: string, labels: seq<string>, base: string)
    ensures Avoids(LabelParts(x, labels, base), {}) && Avoids(NoLabelParts(x, labels, base), {})
  {
    if labels != [] {
      LabelPartsFixed(x, labels[1..], base);
    }
  }

  lemma {:induction false} PredicateFixed(p: L.Expr, base: string, lit: Serializer, meaning: FilterMeaning, xs: set<string>)
    requires IsSimplePredicate(p, base, lit, xs)
    ensures Avoids(PredicateParts(p, base, lit, meaning), {})
  {
    match p {
      case And(a, b) =>
        PredicateFixed(a, base, lit, meaning, xs);
        PredicateFixed(b, base, lit, meaning, xs);
        FixedAppend(PredicateParts(a, base, lit, meaning), PredicateParts(b, base, lit, meaning));
      case LabelCheck(e, labels) => LabelPartsFixed(e.name, labels, base);
      case Not(c) => LabelPartsFixed(c.e.name, c.labels, base);
      case _ =>
    }
  }

  lemma SimpleAlone(op: O.Op, v: View, lit: Serializer)
    requires IsSimple(op, v, lit)
    ensures IsSimpleIn(op, v, lit, {})
  {
  }

  // Every predicate in the clause is a fixed IRI.
  lemma {:induction false} OpFixed(op: O.Op, v: View, lit: Serializer, meaning: FilterMeaning, xs: set<string>)
    requires IsSimpleIn(op, v, lit, xs) && WhereParts(op, v.base, lit, meaning).Ok?
    ensures Avoids(WhereParts(op, v.base, lit, meaning).value, {})
  {
    hide GoodType, IsSimplePredicate, PredicateParts;
    match op {
      case Unit =>
      case Scan(x, first, extra) =>
        var firsts := if first.Some? then [first.value] else [];
        LabelPartsFixed(x, firsts, v.base);
        LabelPartsFixed(x, extra, v.base);
        FixedAppend([Sentinel(x, v.base)], LabelParts(x, firsts, v.base));
        FixedAppend([Sentinel(x, v.base)] + LabelParts(x, firsts, v.base), LabelParts(x, extra, v.base));
      case Expand(inner, from, _, to, types, dir, _, _) =>
        OpFixed(inner, v, lit, meaning, xs);
        OneEdge(from, to, types, dir, v.base);
        FixedAppend(WhereParts(inner, v.base, lit, meaning).value, ExpandParts(from, to, types, dir, v.base));
      case Selection(inner, p) =>
        OpFixed(inner, v, lit, meaning, xs);
        PredicateFixed(p, v.base, lit, meaning, OpVars(inner) + xs);
        FixedAppend(WhereParts(inner, v.base, lit, meaning).value, PredicateParts(p, v.base, lit, meaning));
      case CartesianProduct(a, b) =>
        OpFixed(a, v, lit, meaning, xs);
        OpFixed(b, v, lit, meaning, xs + OpVars(a));
        FixedAppend(WhereParts(a, v.base, lit, meaning).value, WhereParts(b, v.base, lit, meaning).value);
    }
  }

  lemma {:induction false} FlatIsSure(parts: seq<Part>, x: string)
    requires (forall part :: part in parts ==> IsFlat(part)) && x in BindVars(parts)
    ensures Binds(parts, x)
  {
    assert parts != [];
    if x in SureVars(parts[0]) {
      assert Binds(parts, x);
    } else {
      assert forall q :: q in parts[1..] ==> q in parts;
      assert IsFlat(parts[0]);
      FlatIsSure(parts[1..], x);
      var i :| 0 <= i < |parts[1..]| && x in SureVars(parts[1..][i]);
      assert parts[i + 1] == parts[1..][i];
    }
  }

  lemma {:induction false} VarsWithin(parts: seq<Part>, xs: set<string>)
    requires IsFlatGroup(parts, xs) && HasBoundFilters(parts, xs)
    ensures PartsVars(parts) <= xs
  {
    if parts != [] {
      BindVarsCons(parts);
      var part := parts[0];
      assert part in parts;
      assert [part][1..] == [] && BindVars([part][1..]) == {};
      if part.NotExists? {
        var alt := part.alternatives[0];
        assert alt == [alt[0]] && part.alternatives == [alt];
        SingleVars(alt[0]);
      }
      assert forall q :: q in parts[1..] ==> q in parts;
      VarsWithin(parts[1..], xs);
    }
  }

  // MATCH ... SET x += {...}, without named relationships, gives exactly the nodes that the
  // operators bind x to exactly the merged properties.
  lemma MapMergeUnnamed(v: View, op: O.Op, lit: Serializer, meaning: FilterMeaning, x: string, pairs: seq<L.Entry>, supply: Supply)
    requires GoodView(v) && AllAgree(v, lit, op) && IsSimple(op, v, lit) && WhereParts(op, v.base, lit, meaning).Ok?
    requires x in OpVars(op)
    requires forall i :: 0 <= i < |pairs| ==> OldVar(x, pairs[i].key) !in OpVars(op)
    requires CompileItem(MergeMap(x, L.Map(pairs)), WhereParts(op, v.base, lit, meaning).value, v.base, lit).Ok?
    ensures var updates := CompileItem(MergeMap(x, L.Map(pairs)), WhereParts(op, v.base, lit, meaning).value, v.base, lit).value;
            var nodes := iset t: Term | t.BNode? && Finds(v, op, x, t.id);
            SE.IsMerge(pairs, v.base, lit, nodes, Stored(v), RunAll(updates, Stored(v), supply))
  {
    hide GoodView, AllAgree, IsSimple, Finds, WhereParts, CompileItem, SE.IsMerge, RunAll, Matched, Avoids, OldVar, Binds;
    var context := WhereParts(op, v.base, lit, meaning).value;
    OpFlat(op, v, lit, meaning);
    OpFilters(op, v, lit, meaning, OpVars(op));
    SimpleAlone(op, v, lit);
    OpFixed(op, v, lit, meaning, {});
    VarsWithin(context, OpVars(op));
    FlatIsSure(context, x);
    BoundIsKnown(context, x);
    SE.MapMergeEffect(x, pairs, context, v.base, lit, Stored(v), supply);
    MatchedNodes(v, op, lit, meaning, x);
    assert Matched(context, x, Stored(v)) == iset t: Term | t.BNode? && Finds(v, op, x, t.id);
  }

  // Two triple patterns in a group.
  lemma TwoMatches(p: TriplePattern, q: TriplePattern, g: Store, mu: Solution)
    ensures IsSolution([Match(p), Match(q)], g, mu) <==> mu.Keys == TpVars(p) + TpVars(q) && Holds(p, g, mu) && Holds(q, g, mu)
  {
    hide Holds, TpVars, IsSolution;
    var parts := [Match(p), Match(q)];
    OneMatch(p, TpVars(p));
    OneMatch(q, TpVars(q));
    assert parts == [Match(p)] + [Match(q)];
    BindVarsAppend([Match(p)], [Match(q)]);
    FlatSolves(parts, g, mu);
    assert parts[0] in parts && parts[1] in parts;
  }

  lemma StepParts(a: string, b: string, typ: string, base: string, lit: Serializer, meaning: FilterMeaning)
    ensures WhereParts(O.Expand(O.Scan(a, None, []), a, None, b, [typ], O.Outgoing, None, None), base, lit, meaning)
         == Ok([Sentinel(a, base), Match(TP(Var(a), Const(TypeIri(base, typ)), Var(b)))])
  {
    OneEdge(a, b, [typ], O.Outgoing, base);
    var scan := [Sentinel(a, base)];
    assert LabelParts(a, [], base) == [];
    assert scan + [] + [] == scan;
    assert WhereParts(O.Scan(a, None, []), base, lit, meaning) == Ok(scan);
    var edge := Match(TP(Var(a), Const(TypeIri(base, typ)), Var(b)));
    assert scan + [edge] == [Sentinel(a, base), edge];
  }

  // (a)-[:typ]->(b) binds b to nodes only, exactly when no node has a property of that name.
  lemma TypeIsNoKeyIff(v: View, a: string, b: string, typ: string, lit: Serializer, meaning: FilterMeaning)
    requires GoodView(v) && a != b && typ != "__node"
    requires forall n :: n in v.graph.nodes && !PropertyOf(v, n, typ).VNull? ==> v.repr(PropertyOf(v, n, typ)).Some?
    ensures var op := O.Expand(O.Scan(a, None, []), a, None, b, [typ], O.Outgoing, None, None);
            var parts := WhereParts(op, v.base, lit, meaning);
            && parts.Ok?
            && ((forall mu: Solution :: IsSolution(parts.value, Stored(v), mu) ==> BindsNodes(v, {a, b}, mu)) <==> GoodType(v, typ))
  {
    var op := O.Expand(O.Scan(a, None, []), a, None, b, [typ], O.Outgoing, None, None);
    var sentinel, edge := TP(Var(a), Const(NodeIri(v.base)), Const(NodeIri(v.base))), TP(Var(a), Const(TypeIri(v.base, typ)), Var(b));
    var parts := [Match(sentinel), Match(edge)];
    StepParts(a, b, typ, v.base, lit, meaning);
    hide Stored, O.Sat, IsSolution, WhereParts;
    if GoodType(v, typ) {
      assert OpVars(op) == {a, b};
      assert IsSimpleIn(O.Scan(a, None, []), v, lit, {}) && OpVars(O.Scan(a, None, [])) == {a};
      assert IsSimple(op, v, lit);
      forall mu: Solution | IsSolution(parts, Stored(v), mu)
        ensures BindsNodes(v, {a, b}, mu)
      {
        WhereIsSat(v, op, lit, meaning, mu, EnvOf(mu));
      }
    } else {
      var n :| n in v.graph.nodes && !PropertyOf(v, n, typ).VNull?;
      var o := v.repr(PropertyOf(v, n, typ)).value;
      var mu: Solution := map[a := BNode(n), b := o];
      PropertyStored(v, BNode(n), typ, o);
      SentinelStored(v, BNode(n));
      TwoMatches(sentinel, edge, Stored(v), mu);
      assert IsSolution(parts, Stored(v), mu) && !IsNodeTerm(v, mu[b]);
    }
  }
}

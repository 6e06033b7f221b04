/** What the WHERE clause of an update makes of single predicates.

    Equalities become triple patterns, which compare terms; other comparisons
    become FILTERs; and what has neither form is skipped, so that the clause
    matches more than the operators do.  For each of them the stores on which
    the clause is right are stated exactly.
 */
module WherePredicates {
  import opened Prelude
  import opened Sparql
  import opened WriteSet
  import opened Where
  import opened WhereMeaning
  import C = Constants
  import L = Lqa
  import O = Ops

  // ---------- When a clause is right ----------

  // Some solution of the clause extends the assignment.
  ghost predicate Kept(v: View, op: O.Op, lit: Serializer, meaning: FilterMeaning, mu: Solution) {
    var parts := WhereParts(op, v.base, lit, meaning);
    parts.Ok? && exists nu: Solution :: Extends(mu, nu) && IsSolution(parts.value, Stored(v), nu)
  }

  ghost predicate Solved(v: View, op: O.Op, lit: Serializer, meaning: FilterMeaning, mu: Solution) {
    var parts := WhereParts(op, v.base, lit, meaning);
    parts.Ok? && IsSolution(parts.value, Stored(v), mu)
  }

  ghost predicate AssignsNodes(v: View, op: O.Op, mu: Solution) {
    mu.Keys == OpVars(op) && BindsNodes(v, OpVars(op), mu)
  }

  // The clause keeps exactly the assignments of nodes that satisfy the operators.
  ghost predicate Right(v: View, op: O.Op, lit: Serializer, meaning: FilterMeaning) {
    forall mu: Solution :: AssignsNodes(v, op, mu) ==> (Kept(v, op, lit, meaning, mu) <==> O.Sat(v.m, v.graph, op, EnvOf(mu)))
  }

  lemma SatSelection(v: View, inner: O.Op, p: L.Expr, env: L.Env)
    ensures O.Sat(v.m, v.graph, O.Selection(inner, p), env)
       <==> O.Sat(v.m, v.graph, inner, env) && L.Eval(v.m, p, env, []) == Some(L.VBool(true))
  {
    hide L.Eval;
  }

  // A solution of the operators' clause, as an assignment that satisfies them.
  lemma SolutionIsSat(v: View, inner: O.Op, lit: Serializer, meaning: FilterMeaning, mu: Solution)
    requires GoodView(v) && IsSimple(inner, v, lit) && AllAgree(v, lit, inner)
    ensures WhereParts(inner, v.base, lit, meaning).Ok?
    ensures IsSolution(WhereParts(inner, v.base, lit, meaning).value, Stored(v), mu)
       <==> AssignsNodes(v, inner, mu) && O.Sat(v.m, v.graph, inner, EnvOf(mu))
  {
    hide GoodView, IsSimple, Stored, WhereParts, IsSolution, TermsAgree, O.Sat;
    WhereIsSat(v, inner, lit, meaning, mu, EnvOf(mu));
  }

  // What a predicate about x keeps, and what it should keep, node by node.
  lemma SelectionRightIff(v: View, inner: O.Op, p: L.Expr, x: string, lit: Serializer, meaning: FilterMeaning, keeps: nat -> bool, holds: nat -> bool)
    requires GoodView(v) && IsSimple(inner, v, lit) && AllAgree(v, lit, inner) && x in OpVars(inner)
    requires WhereParts(inner, v.base, lit, meaning).Ok?
    requires forall mu: Solution :: AssignsNodes(v, inner, mu) ==>
               && (Kept(v, O.Selection(inner, p), lit, meaning, mu) <==> Solved(v, inner, lit, meaning, mu) && keeps(mu[x].id))
               && (L.Eval(v.m, p, EnvOf(mu), []) == Some(L.VBool(true)) <==> holds(mu[x].id))
    ensures Right(v, O.Selection(inner, p), lit, meaning) <==> forall n :: Finds(v, inner, x, n) ==> (keeps(n) <==> holds(n))
  {
    hide GoodView, IsSimple, AllAgree, Stored, WhereParts, IsSolution, O.Sat, Kept, L.Eval, Finds;
    var whole, context, g := O.Selection(inner, p), WhereParts(inner, v.base, lit, meaning).value, Stored(v);
    forall mu: Solution
      ensures O.Sat(v.m, v.graph, whole, EnvOf(mu)) <==> O.Sat(v.m, v.graph, inner, EnvOf(mu)) && L.Eval(v.m, p, EnvOf(mu), []) == Some(L.VBool(true))
      ensures IsSolution(context, g, mu) <==> AssignsNodes(v, inner, mu) && O.Sat(v.m, v.graph, inner, EnvOf(mu))
    {
      SatSelection(v, inner, p, EnvOf(mu));
      SolutionIsSat(v, inner, lit, meaning, mu);
    }
    assert forall mu: Solution :: AssignsNodes(v, whole, mu) <==> AssignsNodes(v, inner, mu);
    if Right(v, whole, lit, meaning) {
      forall n | Finds(v, inner, x, n)
        ensures keeps(n) <==> holds(n)
      {
        FoundIsMatched(v, inner, lit, meaning, x, n);
        var mu: Solution :| IsSolution(context, g, mu) && x in mu && !mu[x].Lit? && mu[x] == BNode(n);
        assert AssignsNodes(v, whole, mu);
      }
    }
    if forall n :: Finds(v, inner, x, n) ==> (keeps(n) <==> holds(n)) {
      forall mu: Solution | AssignsNodes(v, whole, mu)
        ensures Kept(v, whole, lit, meaning, mu) <==> O.Sat(v.m, v.graph, whole, EnvOf(mu))
      {
        if IsSolution(context, g, mu) {
          assert mu[x] in Matched(context, x, g);
          MatchedIsFound(v, inner, lit, meaning, x, mu[x]);
        }
      }
    }
  }

  lemma FoundIsNode(v: View, op: O.Op, x: string, n: nat, lit: Serializer)
    requires GoodView(v) && IsSimple(op, v, lit) && x in OpVars(op) && Finds(v, op, x, n)
    ensures n in v.graph.nodes
  {
    hide GoodView, IsSimple, O.Sat;
    var env :| O.Sat(v.m, v.graph, op, env) && L.Lookup(env, x) == L.VNode(n);
    SatBindsNodes(v, op, lit, env);
  }

  // ---------- Equalities as triple patterns ----------

  // Values and constants are written as the compiler writes them.
  ghost predicate AsWritten(v: View, lit: Serializer, w: C.Writer) {
    && C.CypherEquality(v.m) && C.DistinctTexts(w)
    && (forall a :: v.repr(a) == C.ValueTerm(a, w))
    && (forall e :: lit(e) == C.ConstTerm(e, w))
    && forall n, k :: n in v.graph.nodes ==> C.FloatsAreFloats(PropertyOf(v, n, k), w)
  }

  // The scalar that a literal or negated literal stands for.
  function ScalarOf(e: L.Expr, w: C.Writer): Option<L.Value> {
    match e
    case Lit(l) => if C.IsScalar(L.LitValue(l)) && C.FloatsAreFloats(L.LitValue(l), w) then Some(L.LitValue(l)) else None
    case Unary(op, a) =>
      if op == L.Neg && a.Lit? && a.lit.Integer? && a.lit.n != I64_MIN then Some(L.VInt(-a.lit.n))
      else if op == L.Neg && a.Lit? && a.lit.Float? && w.isFloat(-a.lit.f) then Some(L.VFloat(-a.lit.f))
      else None
    case _ => None
  }

  lemma ScalarTerm(v: View, lit: Serializer, w: C.Writer, e: L.Expr, env: L.Env)
    requires AsWritten(v, lit, w) && ScalarOf(e, w).Some?
    ensures L.Eval(v.m, e, env, []) == ScalarOf(e, w) && C.IsScalar(ScalarOf(e, w).value) && C.FloatsAreFloats(ScalarOf(e, w).value, w)
    ensures lit(e) == C.ValueTerm(ScalarOf(e, w).value, w) && lit(e).Some? && lit(e).value.Lit?
  {
    hide L.EvalAll, L.EvalPairs, L.EvalBranches, L.EvalRows, L.Comprehend, C.CypherEquality, C.DistinctTexts;
  }

  // Terms decide an equality with a scalar exactly when the stored value is not misread.
  lemma AgreeIff(v: View, lit: Serializer, w: C.Writer, e: L.Expr, a: L.Value, env: L.Env)
    requires AsWritten(v, lit, w) && ScalarOf(e, w).Some? && C.FloatsAreFloats(a, w)
    ensures AgreeAt(v, lit, e, a, env) <==> !C.Misread(a, ScalarOf(e, w).value, w)
  {
    hide L.Eval, C.ConstTerm, L.CompareV;
    ScalarTerm(v, lit, w, e, env);
    var c := ScalarOf(e, w).value;
    if !a.VNull? {
      C.TermsDecideIff(v.m, a, c, w);
    } else {
      NullCompares(v.m, c);
    }
  }

  lemma NullCompares(m: L.Meaning, c: L.Value)
    ensures L.CompareV(m, L.Eq, L.VNull, c) == L.VNull && L.CompareV(m, L.Eq, c, L.VNull) == L.VNull
  {
  }

  lemma EqualityKeeps(v: View, inner: O.Op, x: string, k: string, e: L.Expr, lit: Serializer, meaning: FilterMeaning, mu: Solution)
    requires GoodView(v) && IsSimple(inner, v, lit) && lit(e).Some? && lit(e).value.Lit? && x in OpVars(inner) && AssignsNodes(v, inner, mu)
    ensures WhereParts(inner, v.base, lit, meaning).Ok?
    ensures Kept(v, O.Selection(inner, L.Comparison(L.Eq, L.Property(L.Variable(x), k), e)), lit, meaning, mu)
       <==> Solved(v, inner, lit, meaning, mu)
            && !PropertyOf(v, mu[x].id, k).VNull? && v.repr(PropertyOf(v, mu[x].id, k)) == lit(e)
  {
    var p := L.Comparison(L.Eq, L.Property(L.Variable(x), k), e);
    var whole, tp := O.Selection(inner, p), TP(Var(x), Const(PropIri(v.base, k)), Const(lit(e).value));
    assert IsSimple(whole, v, lit) && OpVars(whole) == OpVars(inner);
    SolutionKeys(v, inner, lit, meaning, mu);
    var context := WhereParts(inner, v.base, lit, meaning).value;
    assert WhereParts(whole, v.base, lit, meaning) == Ok(context + [Match(tp)]);
    hide GoodView, IsSimple, Stored, WhereParts, IsSolution, PartsHold;
    forall nu: Solution | Extends(mu, nu)
      ensures IsSolution(context + [Match(tp)], Stored(v), nu) ==> nu == mu
    {
      SolutionKeys(v, whole, lit, meaning, nu);
    }
    SolutionKeys(v, whole, lit, meaning, mu);
    PartsHoldAppend(context, [Match(tp)], Stored(v), mu);
    OnePart(Match(tp), Stored(v), mu);
    HoldsOf(x, PropIri(v.base, k), lit(e).value, Stored(v), mu);
    PropertyStored(v, mu[x], k, lit(e).value);
  }

  // x.k = c as a triple pattern is right exactly when no node that the operators below
  // match stores under k a number of the other type that equals c, or a list or map whose
  // text is the string c.
  lemma EqualityIff(v: View, inner: O.Op, x: string, k: string, e: L.Expr, lit: Serializer, w: C.Writer, meaning: FilterMeaning)
    requires GoodView(v) && IsSimple(inner, v, lit) && AllAgree(v, lit, inner) && x in OpVars(inner)
    requires AsWritten(v, lit, w) && ScalarOf(e, w).Some?
    ensures Right(v, O.Selection(inner, L.Comparison(L.Eq, L.Property(L.Variable(x), k), e)), lit, meaning)
       <==> forall n :: Finds(v, inner, x, n) ==> !C.Misread(PropertyOf(v, n, k), ScalarOf(e, w).value, w)
  {
    hide GoodView, IsSimple, AllAgree, Stored, WhereParts, IsSolution, Kept, Right, Finds, L.Eval, L.CompareV, C.ConstTerm, C.Misread;
    var p, c := L.Comparison(L.Eq, L.Property(L.Variable(x), k), e), ScalarOf(e, w).value;
    var keeps := (n: nat) => !PropertyOf(v, n, k).VNull? && v.repr(PropertyOf(v, n, k)) == lit(e);
    var holds := (n: nat) => L.CompareV(v.m, L.Eq, PropertyOf(v, n, k), c) == L.VBool(true);
    ScalarTerm(v, lit, w, e, map[]);
    OpFlat(inner, v, lit, meaning);
    forall mu: Solution | AssignsNodes(v, inner, mu)
      ensures Kept(v, O.Selection(inner, p), lit, meaning, mu) <==> Solved(v, inner, lit, meaning, mu) && keeps(mu[x].id)
      ensures L.Eval(v.m, p, EnvOf(mu), []) == Some(L.VBool(true)) <==> holds(mu[x].id)
    {
      EqualityKeeps(v, inner, x, k, e, lit, meaning, mu);
      ScalarTerm(v, lit, w, e, EnvOf(mu));
      L.EvalProperty(v.m, x, k, EnvOf(mu), []);
      L.EvalEq(v.m, L.Property(L.Variable(x), k), e, EnvOf(mu), []);
    }
    SelectionRightIff(v, inner, p, x, lit, meaning, keeps, holds);
    forall n | Finds(v, inner, x, n)
      ensures (keeps(n) <==> holds(n)) <==> !C.Misread(PropertyOf(v, n, k), c, w)
    {
      FoundIsNode(v, inner, x, n, lit);
      if PropertyOf(v, n, k).VNull? {
        NullCompares(v.m, c);
        C.NullIsRead(c, w);
      } else {
        C.TermsDecideIff(v.m, PropertyOf(v, n, k), c, w);
      }
    }
  }

  // The node is matched by x.k = c exactly when its property has the constant's term.
  lemma ScanMatches(v: View, x: string, k: string, e: L.Expr, n: nat, lit: Serializer, meaning: FilterMeaning)
    requires GoodView(v) && lit(e).Some? && lit(e).value.Lit? && n in v.graph.nodes
    ensures var op := O.Selection(O.Scan(x, None, []), L.Comparison(L.Eq, L.Property(L.Variable(x), k), e));
            var parts := WhereParts(op, v.base, lit, meaning);
            && parts.Ok?
            && (BNode(n) in Matched(parts.value, x, Stored(v)) <==> !PropertyOf(v, n, k).VNull? && v.repr(PropertyOf(v, n, k)) == lit(e))
  {
    var scan := O.Scan(x, None, []);
    var op := O.Selection(scan, L.Comparison(L.Eq, L.Property(L.Variable(x), k), e));
    assert OpVars(scan) == {x} && OpVars(op) == OpVars(scan);
    assert IsSimple(scan, v, lit) && IsSimple(op, v, lit);
    OpFlat(op, v, lit, meaning);
    hide GoodView, IsSimple, Stored, WhereParts, IsSolution, PartsHold, PropertyOf, OpVars;
    var parts := WhereParts(op, v.base, lit, meaning).value;
    var mu: Solution := map[x := BNode(n)];
    assert AssignsNodes(v, scan, mu);
    EqualityKeeps(v, scan, x, k, e, lit, meaning, mu);
    forall nu: Solution | IsSolution(parts, Stored(v), nu)
      ensures nu.Keys == {x} && (Extends(mu, nu) ==> nu == mu)
    {
      SolutionKeys(v, op, lit, meaning, nu);
    }
    assert Extends(mu, mu);
    assert Kept(v, op, lit, meaning, mu) <==> IsSolution(parts, Stored(v), mu);
    ScanSolved(v, x, mu, lit, meaning);
    if BNode(n) in Matched(parts, x, Stored(v)) {
      var nu: Solution :| IsSolution(parts, Stored(v), nu) && x in nu && !nu[x].Lit? && nu[x] == BNode(n);
      assert nu == mu;
    }
  }

  lemma ScanSolved(v: View, x: string, mu: Solution, lit: Serializer, meaning: FilterMeaning)
    requires GoodView(v) && AssignsNodes(v, O.Scan(x, None, []), mu)
    ensures Solved(v, O.Scan(x, None, []), lit, meaning, mu)
  {
    hide GoodView, Stored, WhereParts, IsSolution;
    var scan := O.Scan(x, None, []);
    SolutionIsSat(v, scan, lit, meaning, mu);
    assert L.Lookup(EnvOf(mu), x) == ValueOf(mu[x]);
  }

  // MATCH (x) WHERE x.k = 1.0 does not work on the nodes where k is the integer 1, which
  // satisfy it; and WHERE x.k = '[1]' works on those where k is the list [1].
  lemma FloatMissesInteger(v: View, x: string, k: string, n: nat, i: int, lit: Serializer, w: C.Writer, meaning: FilterMeaning)
    requires GoodView(v) && AsWritten(v, lit, w) && n in v.graph.nodes && PropertyOf(v, n, k) == L.VInt(i) && w.isFloat(i as real)
    ensures var op := O.Selection(O.Scan(x, None, []), L.Comparison(L.Eq, L.Property(L.Variable(x), k), L.Lit(L.Float(i as real))));
            var parts := WhereParts(op, v.base, lit, meaning);
            Finds(v, op, x, n) && parts.Ok? && BNode(n) !in Matched(parts.value, x, Stored(v))
  {
    hide GoodView, Stored, WhereParts, Matched;
    var e := L.Lit(L.Float(i as real));
    var p := L.Comparison(L.Eq, L.Property(L.Variable(x), k), e);
    ScalarTerm(v, lit, w, e, map[x := L.VNode(n)]);
    ScanMatches(v, x, k, e, n, lit, meaning);
    var env: L.Env := map[x := L.VNode(n)];
    L.EvalProperty(v.m, x, k, env, []);
    L.EvalEq(v.m, L.Property(L.Variable(x), k), e, env, []);
    assert v.m.compare(L.Eq, L.VInt(i), L.VFloat(i as real)) == L.True;
    assert O.Sat(v.m, v.graph, O.Selection(O.Scan(x, None, []), p), env);
  }

  lemma StringFindsList(v: View, x: string, k: string, n: nat, lit: Serializer, w: C.Writer, meaning: FilterMeaning)
    requires GoodView(v) && AsWritten(v, lit, w) && n in v.graph.nodes && PropertyOf(v, n, k) == L.VList([L.VInt(1)])
    ensures var op := O.Selection(O.Scan(x, None, []), L.Comparison(L.Eq, L.Property(L.Variable(x), k), L.Lit(L.String("[1]"))));
            var parts := WhereParts(op, v.base, lit, meaning);
            !Finds(v, op, x, n) && parts.Ok? && BNode(n) in Matched(parts.value, x, Stored(v))
  {
    hide GoodView, Stored, WhereParts, Matched;
    var e := L.Lit(L.String("[1]"));
    var a, scan := L.VList([L.VInt(1)]), O.Scan(x, None, []);
    var p := L.Comparison(L.Eq, L.Property(L.Variable(x), k), e);
    C.ListOfOne(w);
    ScalarTerm(v, lit, w, e, map[]);
    ScanMatches(v, x, k, e, n, lit, meaning);
    forall env | L.Lookup(env, x) == L.VNode(n)
      ensures !O.Sat(v.m, v.graph, O.Selection(scan, p), env)
    {
      ScalarTerm(v, lit, w, e, env);
      L.EvalProperty(v.m, x, k, env, []);
      L.EvalEq(v.m, L.Property(L.Variable(x), k), e, env, []);
      assert v.m.compare(L.Eq, a, L.VStr("[1]")) == L.False;
    }
  }

  // ---------- Comparisons as filters ----------

  // The node has the property, and the filter accepts its term.
  predicate Passes(v: View, lit: Serializer, meaning: FilterMeaning, op: L.CmpOp, k: string, e: L.Expr, n: nat) {
    var a := PropertyOf(v, n, k);
    !a.VNull? && v.repr(a).Some? && lit(e).Some? && meaning(op, 0, v.repr(a).value, 0, lit(e).value)
  }

  // A property key that is no relationship type.
  ghost predicate GoodKey(v: View, k: string) {
    k != "__node" && forall e :: e in v.graph.edges ==> e.typ != k
  }

  lemma OnlyPropertyStored(v: View, n: nat, k: string, o: Term)
    requires GoodView(v) && GoodKey(v, k) && n in v.graph.nodes
    ensures Triple(BNode(n), PropIri(v.base, k), o) in Stored(v)
       <==> !PropertyOf(v, n, k).VNull? && v.repr(PropertyOf(v, n, k)) == Some(o)
  {
    var t := Triple(BNode(n), PropIri(v.base, k), o);
    if t in Stored(v) {
      assert v.base + k != RDF_TYPE;
      BaseInjective(v.base, k, "__node");
      assert !IsEdge(v, t) by {
        if IsEdge(v, t) {
          var e :| e in v.graph.edges && t == Triple(BNode(e.src), TypeIri(v.base, e.typ), BNode(e.dst));
          BaseInjective(v.base, k, e.typ);
        }
      }
      assert o.Lit?;
    }
    if !PropertyOf(v, n, k).VNull? && v.repr(PropertyOf(v, n, k)) == Some(o) {
      PropertyStored(v, BNode(n), k, o);
    }
    if o.Lit? {
      PropertyStored(v, BNode(n), k, o);
    }
  }

  // The lookup finds the property of the node, and the filter compares it.
  lemma LookupThenFilter(v: View, x: string, k: string, op: L.CmpOp, e: L.Expr, lit: Serializer, meaning: FilterMeaning, filter: Part, mu: Solution)
    requires GoodView(v) && GoodKey(v, k) && lit(e).Some?
    requires BindsNodes(v, {x}, mu) && FilterVar(x, k) !in mu
    requires filter.Filter? && filter.l == Var(FilterVar(x, k)) && filter.r == Const(lit(e).value)
    requires forall s, t :: filter.rel(s, t) == meaning(op, 0, s, 0, t)
    ensures (exists nu: Solution :: Step(OldPart(x, PropIri(v.base, k), FilterVar(x, k), false), Stored(v), mu, nu) && FilterHolds(filter, Stored(v), nu))
       <==> Passes(v, lit, meaning, op, k, e, mu[x].id)
  {
    hide Stored, GoodView, Step;
    var fv, n, a, g := FilterVar(x, k), mu[x].id, PropertyOf(v, mu[x].id, k), Stored(v);
    var look := OldPart(x, PropIri(v.base, k), fv, false);
    forall o: Term
      ensures Triple(mu[x], PropIri(v.base, k), o) in g <==> !a.VNull? && v.repr(a) == Some(o)
    {
      OnlyPropertyStored(v, n, k, o);
    }
    forall nu: Solution | Step(look, g, mu, nu) && FilterHolds(filter, g, nu)
      ensures Passes(v, lit, meaning, op, k, e, n)
    {
      OldPartStep(x, PropIri(v.base, k), fv, false, g, mu, nu);
      var o: Term :| Triple(mu[x], PropIri(v.base, k), o) in g && nu == mu[fv := o];
    }
    if Passes(v, lit, meaning, op, k, e, n) {
      var o := v.repr(a).value;
      var nu := mu[fv := o];
      OldPartStep(x, PropIri(v.base, k), fv, false, g, mu, nu);
      assert OldValue(x, PropIri(v.base, k), fv, g, mu, nu);
      assert FilterHolds(filter, g, nu);
    }
  }

  // What the lookup and the filter add to the context: one lookup that the filter accepts.
  lemma LookupSolutions(context: seq<Part>, x: string, p: Term, fv: string, filter: Part, g: Store, mu: Solution)
    requires GoodVars(context, x, fv) && x in mu && fv !in mu && filter.Filter?
    requires forall xi: Solution :: IsSolution(context, g, xi) ==> xi.Keys == mu.Keys
    ensures (exists nu: Solution :: Extends(mu, nu) && IsSolution((context + [OldPart(x, p, fv, false)]) + [filter], g, nu))
       <==> IsSolution(context, g, mu) && exists nu: Solution :: Step(OldPart(x, p, fv, false), g, mu, nu) && FilterHolds(filter, g, nu)
  {
    hide Step, IsSolution, FilterHolds, GoodVars;
    var look := OldPart(x, p, fv, false);
    forall nu: Solution | Extends(mu, nu) && IsSolution((context + [look]) + [filter], g, nu)
      ensures IsSolution(context, g, mu) && Step(look, g, mu, nu) && FilterHolds(filter, g, nu)
    {
      SolutionsWithGuard(context + [look], filter, g, nu);
      WhereSolutions(context, x, p, fv, false, g, nu);
      var xi: Solution :| IsSolution(context, g, xi) && Step(look, g, xi, nu);
      OldPartStep(x, p, fv, false, g, xi, nu);
      assert xi == mu;
    }
    forall nu: Solution | IsSolution(context, g, mu) && Step(look, g, mu, nu) && FilterHolds(filter, g, nu)
      ensures Extends(mu, nu) && IsSolution((context + [look]) + [filter], g, nu)
    {
      SolutionsWithGuard(context + [look], filter, g, nu);
      WhereSolutions(context, x, p, fv, false, g, nu);
      OldPartStep(x, p, fv, false, g, mu, nu);
    }
  }

  lemma ComparisonParts(inner: O.Op, base: string, x: string, k: string, op: L.CmpOp, c: L.Literal, lit: Serializer, meaning: FilterMeaning) returns (filter: Part)
    requires WhereParts(inner, base, lit, meaning).Ok? && lit(L.Lit(c)).Some? && op in {L.Ne, L.Lt, L.Le, L.Gt, L.Ge}
    ensures filter.Filter? && filter.l == Var(FilterVar(x, k)) && filter.r == Const(lit(L.Lit(c)).value)
    ensures forall s, t :: filter.rel(s, t) == meaning(op, 0, s, 0, t)
    ensures var context := WhereParts(inner, base, lit, meaning).value;
            WhereParts(O.Selection(inner, L.Comparison(op, L.Property(L.Variable(x), k), L.Lit(c))), base, lit, meaning)
            == Ok((context + [OldPart(x, PropIri(base, k), FilterVar(x, k), false)]) + [filter])
  {
    var cmp := L.Comparison(op, L.Property(L.Variable(x), k), L.Lit(c));
    var context, look := WhereParts(inner, base, lit, meaning).value, OldPart(x, PropIri(base, k), FilterVar(x, k), false);
    filter := PredicateParts(cmp, base, lit, meaning)[1];
    assert PredicateParts(cmp, base, lit, meaning) == [look] + [filter];
    assert context + ([look] + [filter]) == (context + [look]) + [filter];
  }

  lemma SimpleContext(v: View, op: O.Op, x: string, fv: string, lit: Serializer, meaning: FilterMeaning)
    requires IsSimple(op, v, lit) && fv !in OpVars(op) && x in OpVars(op)
    ensures WhereParts(op, v.base, lit, meaning).Ok?
    ensures GoodVars(WhereParts(op, v.base, lit, meaning).value, x, fv)
    ensures forall mu: Solution :: IsSolution(WhereParts(op, v.base, lit, meaning).value, Stored(v), mu) ==> mu.Keys == OpVars(op)
  {
    hide IsSimple, WhereParts, Stored, IsSolution, Binds;
    OpFlat(op, v, lit, meaning);
    OpFilters(op, v, lit, meaning, OpVars(op));
    var context := WhereParts(op, v.base, lit, meaning).value;
    VarsWithin(context, OpVars(op));
    FlatIsSure(context, x);
    forall mu: Solution | IsSolution(context, Stored(v), mu)
      ensures mu.Keys == OpVars(op)
    {
      SolutionKeys(v, op, lit, meaning, mu);
    }
  }

  lemma ComparisonKeeps(v: View, inner: O.Op, x: string, k: string, op: L.CmpOp, c: L.Literal, lit: Serializer, meaning: FilterMeaning, mu: Solution)
    requires GoodView(v) && IsSimple(inner, v, lit) && GoodKey(v, k) && lit(L.Lit(c)).Some?
    requires op in {L.Ne, L.Lt, L.Le, L.Gt, L.Ge} && FilterVar(x, k) !in OpVars(inner) && x in OpVars(inner) && AssignsNodes(v, inner, mu)
    ensures Kept(v, O.Selection(inner, L.Comparison(op, L.Property(L.Variable(x), k), L.Lit(c))), lit, meaning, mu)
       <==> Solved(v, inner, lit, meaning, mu) && Passes(v, lit, meaning, op, k, L.Lit(c), mu[x].id)
  {
    SimpleContext(v, inner, x, FilterVar(x, k), lit, meaning);
    var filter := ComparisonParts(inner, v.base, x, k, op, c, lit, meaning);
    hide GoodView, IsSimple, GoodKey, WhereParts, Stored, Step, IsSolution, FilterHolds, GoodVars, Passes, OldPart;
    LookupSolutions(WhereParts(inner, v.base, lit, meaning).value, x, PropIri(v.base, k), FilterVar(x, k), filter, Stored(v), mu);
    LookupThenFilter(v, x, k, op, L.Lit(c), lit, meaning, filter, mu);
  }

  // A comparison of a property with a constant becomes an OPTIONAL lookup and a FILTER.
  // That is right exactly when the filter accepts, of the nodes the operators below match,
  // those for which the comparison is true.
  lemma ComparisonFilterIff(v: View, inner: O.Op, x: string, k: string, op: L.CmpOp, c: L.Literal, lit: Serializer, meaning: FilterMeaning)
    requires GoodView(v) && IsSimple(inner, v, lit) && AllAgree(v, lit, inner) && GoodKey(v, k) && lit(L.Lit(c)).Some?
    requires op in {L.Ne, L.Lt, L.Le, L.Gt, L.Ge} && FilterVar(x, k) !in OpVars(inner) && x in OpVars(inner)
    ensures Right(v, O.Selection(inner, L.Comparison(op, L.Property(L.Variable(x), k), L.Lit(c))), lit, meaning)
       <==> forall n :: Finds(v, inner, x, n) ==>
              (Passes(v, lit, meaning, op, k, L.Lit(c), n) <==> L.CompareV(v.m, op, PropertyOf(v, n, k), L.LitValue(c)) == L.VBool(true))
  {
    hide GoodView, IsSimple, AllAgree, GoodKey, Stored, WhereParts, IsSolution, Kept, Right, Finds, L.Eval, L.CompareV, Passes;
    var p := L.Comparison(op, L.Property(L.Variable(x), k), L.Lit(c));
    var keeps := (n: nat) => Passes(v, lit, meaning, op, k, L.Lit(c), n);
    var holds := (n: nat) => L.CompareV(v.m, op, PropertyOf(v, n, k), L.LitValue(c)) == L.VBool(true);
    OpFlat(inner, v, lit, meaning);
    forall mu: Solution | AssignsNodes(v, inner, mu)
      ensures Kept(v, O.Selection(inner, p), lit, meaning, mu) <==> Solved(v, inner, lit, meaning, mu) && keeps(mu[x].id)
      ensures L.Eval(v.m, p, EnvOf(mu), []) == Some(L.VBool(true)) <==> holds(mu[x].id)
    {
      ComparisonKeeps(v, inner, x, k, op, c, lit, meaning, mu);
      EvalTest(v.m, op, x, k, c, EnvOf(mu));
    }
    SelectionRightIff(v, inner, p, x, lit, meaning, keeps, holds);
  }

  lemma EvalTest(m: L.Meaning, op: L.CmpOp, x: string, k: string, c: L.Literal, env: L.Env)
    ensures L.Eval(m, L.Comparison(op, L.Property(L.Variable(x), k), L.Lit(c)), env, [])
         == Some(L.CompareV(m, op, L.PropertyV(m, L.Lookup(env, x), k), L.LitValue(c)))
  {
    hide L.EvalAll, L.EvalPairs, L.EvalBranches, L.EvalRows, L.Comprehend, L.PropertyV, L.CompareV;
    assert L.Eval(m, L.Variable(x), env, []) == Some(L.Lookup(env, x));
  }

  // FILTER compares as SPARQL does.
  ghost predicate SparqlFilter(meaning: FilterMeaning, w: C.Writer) {
    && (forall s: Term, t: Term :: meaning(L.Ne, 0, s, 0, t) <==> C.SparqlUnequal(s, t, w))
    && forall op, s: Term, t: Term :: op in {L.Lt, L.Le, L.Gt, L.Ge} && C.KindOf(Some(t)) == C.Number ==>
         (meaning(op, 0, s, 0, t) <==> C.SparqlOrdered(op, s, t, w))
  }

  ghost predicate ProperGraph(v: View) {
    forall n, k :: n in v.graph.nodes ==> C.IsProper(PropertyOf(v, n, k))
  }

  // x.k <> c misses the nodes whose value is of another type than c, which Cypher takes
  // for different; it is right exactly when there are none, nor lists or maps whose text is c.
  lemma UnequalFilterIff(v: View, inner: O.Op, x: string, k: string, c: L.Literal, lit: Serializer, w: C.Writer, meaning: FilterMeaning)
    requires GoodView(v) && IsSimple(inner, v, lit) && AllAgree(v, lit, inner) && GoodKey(v, k) && FilterVar(x, k) !in OpVars(inner) && x in OpVars(inner)
    requires AsWritten(v, lit, w) && C.CypherOrder(v.m) && SparqlFilter(meaning, w) && ProperGraph(v) && ScalarOf(L.Lit(c), w).Some?
    ensures Right(v, O.Selection(inner, L.Comparison(L.Ne, L.Property(L.Variable(x), k), L.Lit(c))), lit, meaning)
       <==> forall n :: Finds(v, inner, x, n) && !PropertyOf(v, n, k).VNull? ==>
              var a := PropertyOf(v, n, k);
              && C.KindOf(C.ValueTerm(a, w)) == C.KindOf(C.LitTerm(c, w))
              && !(c.String? && (a.VList? || a.VMap?) && C.ValueText(a, w) == Some(c.s))
  {
    hide GoodView, IsSimple, AllAgree, GoodKey, Right, Finds, L.Eval, L.CompareV, C.SparqlUnequal, C.ValueText, C.CypherOrder;
    ScalarTerm(v, lit, w, L.Lit(c), map[]);
    ComparisonFilterIff(v, inner, x, k, L.Ne, c, lit, meaning);
    forall n | Finds(v, inner, x, n)
      ensures var a := PropertyOf(v, n, k);
              (Passes(v, lit, meaning, L.Ne, k, L.Lit(c), n) <==> L.CompareV(v.m, L.Ne, a, L.LitValue(c)) == L.VBool(true))
              <==> (a.VNull? || (C.KindOf(C.ValueTerm(a, w)) == C.KindOf(C.LitTerm(c, w)) && !(c.String? && (a.VList? || a.VMap?) && C.ValueText(a, w) == Some(c.s))))
    {
      FoundIsNode(v, inner, x, n, lit);
      if PropertyOf(v, n, k).VNull? {
        NullTest(v.m, L.Ne, L.LitValue(c));
      } else {
        C.UnequalIff(v.m, PropertyOf(v, n, k), L.LitValue(c), w);
      }
    }
  }

  lemma NullTest(m: L.Meaning, op: L.CmpOp, c: L.Value)
    requires op != L.In
    ensures L.CompareV(m, op, L.VNull, c) == L.VNull
  {
  }

  // Comparing with a number for order is right on every graph.
  lemma OrderFilterIsRight(v: View, inner: O.Op, x: string, k: string, op: L.CmpOp, c: L.Literal, lit: Serializer, w: C.Writer, meaning: FilterMeaning)
    requires GoodView(v) && IsSimple(inner, v, lit) && AllAgree(v, lit, inner) && GoodKey(v, k) && FilterVar(x, k) !in OpVars(inner) && x in OpVars(inner)
    requires AsWritten(v, lit, w) && C.CypherOrder(v.m) && SparqlFilter(meaning, w) && ProperGraph(v)
    requires op in {L.Lt, L.Le, L.Gt, L.Ge} && (c.Integer? || (c.Float? && w.isFloat(c.f)))
    ensures Right(v, O.Selection(inner, L.Comparison(op, L.Property(L.Variable(x), k), L.Lit(c))), lit, meaning)
  {
    hide GoodView, IsSimple, AllAgree, GoodKey, Right, Finds, L.Eval, L.CompareV, C.SparqlOrdered, C.CypherOrder;
    ScalarTerm(v, lit, w, L.Lit(c), map[]);
    ComparisonFilterIff(v, inner, x, k, op, c, lit, meaning);
    forall n | Finds(v, inner, x, n)
      ensures Passes(v, lit, meaning, op, k, L.Lit(c), n) <==> L.CompareV(v.m, op, PropertyOf(v, n, k), L.LitValue(c)) == L.VBool(true)
    {
      FoundIsNode(v, inner, x, n, lit);
      if PropertyOf(v, n, k).VNull? {
        NullTest(v.m, op, L.LitValue(c));
      } else {
        C.OrderDecides(v.m, op, PropertyOf(v, n, k), L.LitValue(c), w);
      }
    }
  }

  lemma StandardMembership(m: L.Meaning)
    requires forall op, a, b :: m.compare(op, a, b) == C.StandardCompare(op, a, b)
    ensures CypherMembership(m)
  {
    forall a: L.Value, vs: seq<L.Value>, i | 0 <= i < |vs|
      ensures L.CompareV(m, L.Eq, a, vs[i]) == L.VBool(true) <==> !a.VNull? && !vs[i].VNull? && C.SameScalar(a, vs[i])
    {
    }
  }

  // A graph of one node with the integer 1 under k, and a writer, that meet every assumption
  // made here of graphs, writers and comparisons.
  lemma OneNodeMeetsAll() returns (v: View, lit: Serializer, w: C.Writer, meaning: FilterMeaning)
    ensures GoodView(v) && AsWritten(v, lit, w) && C.CypherOrder(v.m) && SparqlFilter(meaning, w) && ProperGraph(v)
    ensures CypherMembership(v.m)
    ensures 0 in v.graph.nodes && PropertyOf(v, 0, "k") == L.VInt(1) && w.isFloat(1 as real)
  {
    w := C.WholeFloats();
    var writer := w;
    var m := L.Meaning((op, a, b) => None, (op, a, b) => C.StandardCompare(op, a, b), (a, k) => if k == "k" then L.VInt(1) else L.VNull,
                       (a, l) => false, (a, b) => None, (f, d, vs) => None, (k, d, vs) => None);
    v := View(m, O.Graph({0}, {}), RDF_TYPE + "/", (a: L.Value) => C.ValueTerm(a, writer));
    lit := (e: L.Expr) => C.ConstTerm(e, writer);
    meaning := (op, i, s, j, t) => if op == L.Ne then C.SparqlUnequal(s, t, writer) else C.SparqlOrdered(op, s, t, writer);
    C.WholeFloatsAreDistinct(1);
    C.StandardCompareIsCypher(m);
    StandardMembership(m);
    assert forall s: string :: |v.base + s| > |RDF_TYPE|;
  }

  // ---------- Predicates that are skipped ----------

  // Has expr a SPARQL form on one side of a FILTER?
  predicate IsSide(e: L.Expr, lit: Serializer) {
    match e
    case Lit(_) => lit(e).Some?
    case Variable(_) => true
    case Property(b, _) => b.Variable?
    case Unary(op, a) => op == L.Neg && IsSide(a, lit)
    case _ => false
  }

  predicate LooksUp(e: L.Expr) {
    match e
    case Property(_, _) => true
    case Unary(_, a) => LooksUp(a)
    case _ => false
  }

  // The predicates that leave nothing in the clause: IS NULL, IS NOT NULL, OR, XOR, NOT of
  // anything but labels, calls, and comparisons without a constant or a property to look up.
  predicate IsSkipped(p: L.Expr, lit: Serializer) {
    match p
    case Comparison(op, l, r) =>
      && !(op == L.Eq && ((l.Property? && l.e.Variable? && lit(r).Some?) || (r.Property? && r.e.Variable? && lit(l).Some?)))
      && (IsSide(l, lit) ==> !LooksUp(l) && (IsSide(r, lit) ==> !LooksUp(r) && op in {L.In, L.StartsWith, L.EndsWith, L.Contains, L.RegexMatch}))
    case And(a, b) => IsSkipped(a, lit) && IsSkipped(b, lit)
    case LabelCheck(v, labels) => !v.Variable? || labels == []
    case Not(c) => !(c.LabelCheck? && c.e.Variable?) || c.labels == []
    case _ => true
  }

  lemma {:induction false} SideIs(e: L.Expr, base: string, lit: Serializer)
    ensures FilterSide(e, base, lit).Some? <==> IsSide(e, lit)
    ensures FilterSide(e, base, lit).Some? ==> (FilterSide(e, base, lit).value.parts == [] <==> !LooksUp(e))
  {
    match e {
      case Unary(_, a) => SideIs(a, base, lit);
      case _ =>
    }
  }

  lemma {:induction false} SkippedIff(p: L.Expr, base: string, lit: Serializer, meaning: FilterMeaning)
    ensures PredicateParts(p, base, lit, meaning) == [] <==> IsSkipped(p, lit)
  {
    match p {
      case Comparison(op, l, r) =>
        SideIs(l, base, lit);
        SideIs(r, base, lit);
      case And(a, b) =>
        SkippedIff(a, base, lit, meaning);
        SkippedIff(b, base, lit, meaning);
      case LabelCheck(e, labels) =>
        if e.Variable? && labels != [] {
          assert LabelParts(e.name, labels, base)[0] == Match(LabelPattern(e.name, labels[0], base));
        }
      case Not(c) =>
        if c.LabelCheck? && c.e.Variable? && c.labels != [] {
          assert NoLabelParts(c.e.name, c.labels, base)[0] == NotExists([[LabelPattern(c.e.name, c.labels[0], base)]]);
        }
      case _ =>
    }
  }

  lemma SkippedKeeps(v: View, inner: O.Op, p: L.Expr, lit: Serializer, meaning: FilterMeaning, mu: Solution)
    requires IsSimple(inner, v, lit) && IsSkipped(p, lit) && mu.Keys == OpVars(inner)
    ensures WhereParts(inner, v.base, lit, meaning).Ok?
    ensures Kept(v, O.Selection(inner, p), lit, meaning, mu) <==> Solved(v, inner, lit, meaning, mu)
  {
    SkippedIff(p, v.base, lit, meaning);
    SolutionKeys(v, inner, lit, meaning, mu);
    var context := WhereParts(inner, v.base, lit, meaning).value;
    assert context + [] == context;
    assert WhereParts(O.Selection(inner, p), v.base, lit, meaning) == Ok(context);
    hide IsSimple, Stored, WhereParts, IsSolution, PartsHold;
    forall nu: Solution | Extends(mu, nu) && IsSolution(context, Stored(v), nu)
      ensures nu == mu
    {
      SolutionKeys(v, inner, lit, meaning, nu);
    }
    assert Extends(mu, mu);
  }

  // A skipped predicate about one property is right exactly when it is true of every node
  // that the operators below match.
  lemma SkippedTestIff(v: View, inner: O.Op, p: L.Expr, x: string, lit: Serializer, meaning: FilterMeaning, holds: nat -> bool)
    requires GoodView(v) && IsSimple(inner, v, lit) && AllAgree(v, lit, inner) && x in OpVars(inner) && IsSkipped(p, lit)
    requires forall mu: Solution :: AssignsNodes(v, inner, mu) ==> (L.Eval(v.m, p, EnvOf(mu), []) == Some(L.VBool(true)) <==> holds(mu[x].id))
    ensures Right(v, O.Selection(inner, p), lit, meaning) <==> forall n :: Finds(v, inner, x, n) ==> holds(n)
  {
    hide GoodView, IsSimple, AllAgree, IsSkipped, Kept, Solved, Right, Finds, L.Eval;
    OpFlat(inner, v, lit, meaning);
    forall mu: Solution | AssignsNodes(v, inner, mu)
      ensures Kept(v, O.Selection(inner, p), lit, meaning, mu) <==> Solved(v, inner, lit, meaning, mu)
    {
      SkippedKeeps(v, inner, p, lit, meaning, mu);
    }
    SelectionRightIff(v, inner, p, x, lit, meaning, (n: nat) => true, holds);
  }

  // WHERE x.k IS NOT NULL is right exactly when every matched node has k.
  lemma IsNotNullIff(v: View, inner: O.Op, x: string, k: string, lit: Serializer, meaning: FilterMeaning)
    requires GoodView(v) && IsSimple(inner, v, lit) && AllAgree(v, lit, inner) && x in OpVars(inner)
    ensures Right(v, O.Selection(inner, L.IsNotNull(L.Property(L.Variable(x), k))), lit, meaning)
       <==> forall n :: Finds(v, inner, x, n) ==> !PropertyOf(v, n, k).VNull?
  {
    hide GoodView, IsSimple, AllAgree, Right, Finds, L.Eval;
    var p := L.IsNotNull(L.Property(L.Variable(x), k));
    forall mu: Solution | AssignsNodes(v, inner, mu)
      ensures L.Eval(v.m, p, EnvOf(mu), []) == Some(L.VBool(true)) <==> !PropertyOf(v, mu[x].id, k).VNull?
    {
      EvalNullTests(v.m, x, k, EnvOf(mu));
    }
    SkippedTestIff(v, inner, p, x, lit, meaning, (n: nat) => !PropertyOf(v, n, k).VNull?);
  }

  // WHERE x.k IS NULL is right exactly when no matched node has k.
  lemma IsNullIff(v: View, inner: O.Op, x: string, k: string, lit: Serializer, meaning: FilterMeaning)
    requires GoodView(v) && IsSimple(inner, v, lit) && AllAgree(v, lit, inner) && x in OpVars(inner)
    ensures Right(v, O.Selection(inner, L.IsNull(L.Property(L.Variable(x), k))), lit, meaning)
       <==> forall n :: Finds(v, inner, x, n) ==> PropertyOf(v, n, k).VNull?
  {
    hide GoodView, IsSimple, AllAgree, Right, Finds, L.Eval;
    var p := L.IsNull(L.Property(L.Variable(x), k));
    forall mu: Solution | AssignsNodes(v, inner, mu)
      ensures L.Eval(v.m, p, EnvOf(mu), []) == Some(L.VBool(true)) <==> PropertyOf(v, mu[x].id, k).VNull?
    {
      EvalNullTests(v.m, x, k, EnvOf(mu));
    }
    SkippedTestIff(v, inner, p, x, lit, meaning, (n: nat) => PropertyOf(v, n, k).VNull?);
  }

  lemma EvalNullTests(m: L.Meaning, x: string, k: string, env: L.Env)
    ensures var a := L.PropertyV(m, L.Lookup(env, x), k);
            && L.Eval(m, L.IsNotNull(L.Property(L.Variable(x), k)), env, []) == Some(L.VBool(!a.VNull?))
            && L.Eval(m, L.IsNull(L.Property(L.Variable(x), k)), env, []) == Some(L.VBool(a.VNull?))
  {
    hide L.EvalAll, L.EvalPairs, L.EvalBranches, L.EvalRows, L.Comprehend, L.PropertyV;
    L.EvalProperty(m, x, k, env, []);
  }

  // MATCH (x) WHERE x.k IS NOT NULL works on the nodes without k as well.
  lemma IsNotNullIsSkipped(v: View, x: string, k: string, n: nat, lit: Serializer, meaning: FilterMeaning)
    requires GoodView(v) && n in v.graph.nodes && PropertyOf(v, n, k).VNull?
    ensures var op := O.Selection(O.Scan(x, None, []), L.IsNotNull(L.Property(L.Variable(x), k)));
            var parts := WhereParts(op, v.base, lit, meaning);
            && parts.Ok? && BNode(n) in Matched(parts.value, x, Stored(v)) && !Finds(v, op, x, n)
  {
    hide Stored, GoodView, Matched;
    var scan, p := O.Scan(x, None, []), L.IsNotNull(L.Property(L.Variable(x), k));
    assert WhereParts(O.Selection(scan, p), v.base, lit, meaning) == WhereParts(scan, v.base, lit, meaning) by {
      var parts := WhereParts(scan, v.base, lit, meaning).value;
      assert parts + [] == parts;
    }
    MatchedNodes(v, scan, lit, meaning, x);
    var env: L.Env := map[x := L.VNode(n)];
    assert O.Sat(v.m, v.graph, scan, env) && L.Lookup(env, x) == L.VNode(n);
    forall env: L.Env | L.Lookup(env, x) == L.VNode(n)
      ensures !O.Sat(v.m, v.graph, O.Selection(scan, p), env)
    {
      EvalNullTests(v.m, x, k, env);
    }
  }

  // WHERE NOT x.k op c is right exactly when the comparison is false, and not null, for
  // every matched node.
  lemma NotComparisonIff(v: View, inner: O.Op, x: string, k: string, op: L.CmpOp, c: L.Literal, lit: Serializer, meaning: FilterMeaning)
    requires GoodView(v) && IsSimple(inner, v, lit) && AllAgree(v, lit, inner) && x in OpVars(inner) && op != L.In
    ensures Right(v, O.Selection(inner, L.Not(L.Comparison(op, L.Property(L.Variable(x), k), L.Lit(c)))), lit, meaning)
       <==> forall n :: Finds(v, inner, x, n) ==>
              !PropertyOf(v, n, k).VNull? && !c.Null? && v.m.compare(op, PropertyOf(v, n, k), L.LitValue(c)) == L.False
  {
    hide GoodView, IsSimple, AllAgree, Right, Finds, L.Eval;
    var test := L.Comparison(op, L.Property(L.Variable(x), k), L.Lit(c));
    var holds := (n: nat) => !PropertyOf(v, n, k).VNull? && !c.Null? && v.m.compare(op, PropertyOf(v, n, k), L.LitValue(c)) == L.False;
    forall mu: Solution | AssignsNodes(v, inner, mu)
      ensures L.Eval(v.m, L.Not(test), EnvOf(mu), []) == Some(L.VBool(true)) <==> holds(mu[x].id)
    {
      EvalTest(v.m, op, x, k, c, EnvOf(mu));
      L.EvalNot(v.m, test, EnvOf(mu), []);
      NotIsTrue(v.m, op, PropertyOf(v, mu[x].id, k), c);
    }
    SkippedTestIff(v, inner, L.Not(test), x, lit, meaning, holds);
  }

  lemma NotIsTrue(m: L.Meaning, op: L.CmpOp, a: L.Value, c: L.Literal)
    requires op != L.In
    ensures L.NotV(L.CompareV(m, op, a, L.LitValue(c))) == Some(L.VBool(true)) <==> !a.VNull? && !c.Null? && m.compare(op, a, L.LitValue(c)) == L.False
  {
  }

  // A comparison of a property with a constant.
  datatype Test = Test(x: string, k: string, op: L.CmpOp, c: L.Literal)

  function TestExpr(t: Test): L.Expr {
    L.Comparison(t.op, L.Property(L.Variable(t.x), t.k), L.Lit(t.c))
  }

  ghost predicate TestHolds(v: View, t: Test, env: L.Env) {
    L.CompareV(v.m, t.op, L.PropertyV(v.m, L.Lookup(env, t.x), t.k), L.LitValue(t.c)) == L.VBool(true)
  }

  // WHERE a OR b is right exactly when every assignment that the operators below let
  // through passes one of the two.
  lemma OrIff(v: View, inner: O.Op, a: Test, b: Test, lit: Serializer, meaning: FilterMeaning)
    requires GoodView(v) && IsSimple(inner, v, lit) && AllAgree(v, lit, inner)
    ensures Right(v, O.Selection(inner, L.Or(TestExpr(a), TestExpr(b))), lit, meaning)
       <==> forall mu: Solution :: AssignsNodes(v, inner, mu) && O.Sat(v.m, v.graph, inner, EnvOf(mu)) ==>
              TestHolds(v, a, EnvOf(mu)) || TestHolds(v, b, EnvOf(mu))
  {
    hide GoodView, IsSimple, AllAgree, Kept, L.Eval, O.Sat, L.CompareV, L.PropertyV, WhereParts, IsSolution, Stored;
    var p := L.Or(TestExpr(a), TestExpr(b));
    var whole := O.Selection(inner, p);
    assert IsSkipped(p, lit);
    forall mu: Solution
      ensures AssignsNodes(v, whole, mu) <==> AssignsNodes(v, inner, mu)
      ensures AssignsNodes(v, inner, mu) ==> (Kept(v, whole, lit, meaning, mu) <==> O.Sat(v.m, v.graph, inner, EnvOf(mu)))
      ensures O.Sat(v.m, v.graph, whole, EnvOf(mu)) <==> O.Sat(v.m, v.graph, inner, EnvOf(mu)) && (TestHolds(v, a, EnvOf(mu)) || TestHolds(v, b, EnvOf(mu)))
    {
      if AssignsNodes(v, inner, mu) {
        SkippedKeeps(v, inner, p, lit, meaning, mu);
        SolutionIsSat(v, inner, lit, meaning, mu);
      }
      SatSelection(v, inner, p, EnvOf(mu));
      EvalTest(v.m, a.op, a.x, a.k, a.c, EnvOf(mu));
      EvalTest(v.m, b.op, b.x, b.k, b.c, EnvOf(mu));
      L.EvalOr(v.m, TestExpr(a), TestExpr(b), EnvOf(mu), []);
      OrIsTrue(v.m, a.op, L.PropertyV(v.m, L.Lookup(EnvOf(mu), a.x), a.k), L.LitValue(a.c), b.op, L.PropertyV(v.m, L.Lookup(EnvOf(mu), b.x), b.k), L.LitValue(b.c));
    }
  }

  lemma OrIsTrue(m: L.Meaning, op: L.CmpOp, a: L.Value, c: L.Value, op': L.CmpOp, b: L.Value, d: L.Value)
    ensures var x, y := L.CompareV(m, op, a, c), L.CompareV(m, op', b, d);
            L.OrV(x, y) == Some(L.VBool(true)) <==> x == L.VBool(true) || y == L.VBool(true)
  {
  }

  // ---------- Membership ----------

  // null is in no list, and membership is equality with some element.
  ghost predicate CypherMembership(m: L.Meaning) {
    forall a: L.Value, vs: seq<L.Value> ::
      m.compare(L.In, a, L.VList(vs)) == L.True <==> exists i :: 0 <= i < |vs| && L.CompareV(m, L.Eq, a, vs[i]) == L.VBool(true)
  }

  function Literals(cs: seq<L.Literal>): seq<L.Expr> {
    seq(|cs|, i requires 0 <= i < |cs| => L.Lit(cs[i]))
  }

  lemma {:induction false} EvalLiterals(m: L.Meaning, cs: seq<L.Literal>, env: L.Env)
    ensures var r := L.EvalAll(m, Literals(cs), env, []);
            r.Some? && |r.value| == |cs| && forall i :: 0 <= i < |cs| ==> r.value[i] == L.LitValue(cs[i])
  {
    if cs != [] {
      assert Literals(cs)[1..] == Literals(cs[1..]);
      EvalLiterals(m, cs[1..], env);
    }
  }

  lemma EvalIn(m: L.Meaning, x: string, k: string, cs: seq<L.Literal>, env: L.Env)
    requires CypherMembership(m)
    ensures L.Eval(m, L.Comparison(L.In, L.Property(L.Variable(x), k), L.List(Literals(cs))), env, []) == Some(L.VBool(true))
       <==> exists i :: 0 <= i < |cs| && L.CompareV(m, L.Eq, L.PropertyV(m, L.Lookup(env, x), k), L.LitValue(cs[i])) == L.VBool(true)
  {
    hide L.EvalAll, L.EvalPairs, L.EvalBranches, L.EvalRows, L.Comprehend, L.PropertyV, Literals;
    EvalLiterals(m, cs, env);
    L.EvalProperty(m, x, k, env, []);
    var a, vs := L.PropertyV(m, L.Lookup(env, x), k), L.EvalAll(m, Literals(cs), env, []).value;
    assert L.Eval(m, L.List(Literals(cs)), env, []) == Some(L.VList(vs));
    assert L.CompareV(m, L.In, a, L.VList(vs)) == L.TruthValue(m.compare(L.In, a, L.VList(vs)));
    if i :| 0 <= i < |cs| && L.CompareV(m, L.Eq, a, L.LitValue(cs[i])) == L.VBool(true) {
      assert L.CompareV(m, L.Eq, a, vs[i]) == L.VBool(true);
    }
  }

  // WHERE x.k IN [...] leaves an OPTIONAL lookup that restricts nothing, so it is right
  // exactly when every matched node has one of the values.
  lemma InIff(v: View, inner: O.Op, x: string, k: string, cs: seq<L.Literal>, lit: Serializer, meaning: FilterMeaning)
    requires GoodView(v) && IsSimple(inner, v, lit) && AllAgree(v, lit, inner) && x in OpVars(inner) && FilterVar(x, k) !in OpVars(inner)
    requires CypherMembership(v.m)
    ensures Right(v, O.Selection(inner, L.Comparison(L.In, L.Property(L.Variable(x), k), L.List(Literals(cs)))), lit, meaning)
       <==> forall n :: Finds(v, inner, x, n) ==>
              exists i :: 0 <= i < |cs| && L.CompareV(v.m, L.Eq, PropertyOf(v, n, k), L.LitValue(cs[i])) == L.VBool(true)
  {
    hide GoodView, IsSimple, AllAgree, Kept, Solved, Right, Finds, L.Eval, L.CompareV, CypherMembership;
    var p := L.Comparison(L.In, L.Property(L.Variable(x), k), L.List(Literals(cs)));
    var holds := (n: nat) => exists i :: 0 <= i < |cs| && L.CompareV(v.m, L.Eq, PropertyOf(v, n, k), L.LitValue(cs[i])) == L.VBool(true);
    OpFlat(inner, v, lit, meaning);
    forall mu: Solution | AssignsNodes(v, inner, mu)
      ensures Kept(v, O.Selection(inner, p), lit, meaning, mu) <==> Solved(v, inner, lit, meaning, mu)
      ensures L.Eval(v.m, p, EnvOf(mu), []) == Some(L.VBool(true)) <==> holds(mu[x].id)
    {
      LookupKeeps(v, inner, x, k, L.List(Literals(cs)), lit, meaning, mu);
      EvalIn(v.m, x, k, cs, EnvOf(mu));
    }
    SelectionRightIff(v, inner, p, x, lit, meaning, (n: nat) => true, holds);
  }

  lemma LookupKeeps(v: View, inner: O.Op, x: string, k: string, e: L.Expr, lit: Serializer, meaning: FilterMeaning, mu: Solution)
    requires IsSimple(inner, v, lit) && x in OpVars(inner) && FilterVar(x, k) !in OpVars(inner) && mu.Keys == OpVars(inner) && e.List?
    ensures Kept(v, O.Selection(inner, L.Comparison(L.In, L.Property(L.Variable(x), k), e)), lit, meaning, mu) <==> Solved(v, inner, lit, meaning, mu)
  {
    var fv, p := FilterVar(x, k), PropIri(v.base, k);
    SimpleContext(v, inner, x, fv, lit, meaning);
    assert PredicateParts(L.Comparison(L.In, L.Property(L.Variable(x), k), e), v.base, lit, meaning) == [OldPart(x, p, fv, false)];
    hide IsSimple, Stored, IsSolution, GoodVars, PredicateParts, OldPart;
    LookupRestrictsNothing(WhereParts(inner, v.base, lit, meaning).value, x, p, fv, Stored(v), mu);
  }

  lemma LookupRestrictsNothing(context: seq<Part>, x: string, p: Term, fv: string, g: Store, mu: Solution)
    requires GoodVars(context, x, fv) && x in mu && fv !in mu
    requires forall xi: Solution :: IsSolution(context, g, xi) ==> xi.Keys == mu.Keys
    ensures (exists nu: Solution :: Extends(mu, nu) && IsSolution(context + [OldPart(x, p, fv, false)], g, nu)) <==> IsSolution(context, g, mu)
  {
    hide Step, IsSolution, GoodVars;
    var look := OldPart(x, p, fv, false);
    forall nu: Solution | Extends(mu, nu) && IsSolution(context + [look], g, nu)
      ensures IsSolution(context, g, mu)
    {
      WhereSolutions(context, x, p, fv, false, g, nu);
      var xi: Solution :| IsSolution(context, g, xi) && Step(look, g, xi, nu);
      OldPartStep(x, p, fv, false, g, xi, nu);
      assert xi == mu;
    }
    if IsSolution(context, g, mu) {
      var nu := mu;
      if o: Term :| Triple(mu[x], p, o) in g {
        nu := mu[fv := o];
      }
      OldPartStep(x, p, fv, false, g, mu, nu);
      WhereSolutions(context, x, p, fv, false, g, nu);
      assert Extends(mu, nu);
    }
  }
}

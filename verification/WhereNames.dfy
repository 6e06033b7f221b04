/** Named relationships in the match of a write.

    The WHERE clause of an update has no term for a relationship, so the name of
    one plays no part in it.  Where the name is used for nothing else, the clause
    is right all the same.
 */
module WhereNames {
  import opened Prelude
  import opened Sparql
  import opened WriteSet
  import opened Where
  import opened WhereMeaning
  import C = Constants
  import SE = SetEffect
  import L = Lqa
  import O = Ops

  // The operators without the names of relationships.
  function Unnamed(op: O.Op): O.Op {
    match op
    case Expand(inner, from, _, to, types, dir, range, pathVar) => O.Expand(Unnamed(inner), from, None, to, types, dir, range, pathVar)
    case Selection(inner, p) => O.Selection(Unnamed(inner), p)
    case CartesianProduct(a, b) => O.CartesianProduct(Unnamed(a), Unnamed(b))
    case _ => op
  }

  function RelNames(op: O.Op): set<string> {
    match op
    case Expand(inner, _, relVar, _, _, _, _, _) => RelNames(inner) + if relVar.Some? then {relVar.value} else {}
    case Selection(inner, _) => RelNames(inner)
    case CartesianProduct(a, b) => RelNames(a) + RelNames(b)
    case _ => {}
  }

  // No two relationships share a name.
  predicate OncePerName(op: O.Op) {
    match op
    case Expand(inner, _, relVar, _, _, _, _, _) => OncePerName(inner) && (relVar.Some? ==> relVar.value !in RelNames(inner))
    case Selection(inner, _) => OncePerName(inner)
    case CartesianProduct(a, b) => OncePerName(a) && OncePerName(b) && RelNames(a) !! RelNames(b)
    case _ => true
  }

  // Names of relationships are those of nothing else.
  ghost predicate IsNamedIn(op: O.Op, v: View, lit: Serializer, xs: set<string>) {
    IsSimpleIn(Unnamed(op), v, lit, xs) && OncePerName(op) && RelNames(op) !! OpVars(op) + xs
  }

  ghost predicate IsNamed(op: O.Op, v: View, lit: Serializer) {
    IsNamedIn(op, v, lit, {})
  }

  // Constants have no variables.
  ghost predicate IsClosed(lit: Serializer) {
    forall e :: lit(e).Some? ==> L.Free(e) == {}
  }

  lemma {:induction false} SerializedIsClosed(e: L.Expr, w: C.Writer)
    requires C.Serialize(e, w).Some?
    ensures L.Free(e) == {}
    decreases e, 0
  {
    match e {
      case Arith(_, a, b) => SerializedIsClosed(a, w); SerializedIsClosed(b, w);
      case List(items) => AllAreClosed(items, w);
      case Map(pairs) => PairsAreClosed(pairs, w);
      case _ =>
    }
  }

  lemma {:induction false} AllAreClosed(es: seq<L.Expr>, w: C.Writer)
    requires C.SerializeAll(es, w).Some?
    ensures L.FreeAll(es) == {}
    decreases es, 1
  {
    if es != [] {
      SerializedIsClosed(es[0], w);
      AllAreClosed(es[1..], w);
    }
  }

  lemma {:induction false} PairsAreClosed(ps: seq<L.Entry>, w: C.Writer)
    requires C.SerializePairs(ps, w).Some?
    ensures L.FreePairs(ps) == {}
    decreases ps, 1
  {
    if ps != [] {
      SerializedIsClosed(ps[0].value, w);
      PairsAreClosed(ps[1..], w);
    }
  }

  // The code's constants are closed.
  lemma WrittenIsClosed(lit: Serializer, w: C.Writer)
    requires forall e :: lit(e) == C.ConstTerm(e, w)
    ensures IsClosed(lit)
  {
    forall e | lit(e).Some?
      ensures L.Free(e) == {}
    {
      match e {
        case Arith(_, _, _) => SerializedIsClosed(e, w);
        case List(_) => SerializedIsClosed(e, w);
        case Map(_) => SerializedIsClosed(e, w);
        case Unary(_, a) => assert L.Free(a) == {};
        case _ =>
      }
    }
  }

  // ---------- The clause does not see the names ----------

  lemma {:induction false} UnnamedVars(op: O.Op)
    ensures OpVars(Unnamed(op)) == OpVars(op)
  {
    match op {
      case Expand(inner, _, _, _, _, _, _, _) => UnnamedVars(inner);
      case Selection(inner, _) => UnnamedVars(inner);
      case CartesianProduct(a, b) => UnnamedVars(a); UnnamedVars(b);
      case _ =>
    }
  }

  lemma {:induction false} UnnamedParts(op: O.Op, v: View, lit: Serializer, meaning: FilterMeaning, xs: set<string>)
    requires IsSimpleIn(Unnamed(op), v, lit, xs)
    ensures WhereParts(op, v.base, lit, meaning) == WhereParts(Unnamed(op), v.base, lit, meaning)
  {
    hide GoodType, IsSimplePredicate, PredicateParts, ExpandParts;
    match op {
      case Expand(inner, _, _, _, _, _, _, _) => UnnamedParts(inner, v, lit, meaning, xs);
      case Selection(inner, _) => UnnamedParts(inner, v, lit, meaning, xs);
      case CartesianProduct(a, b) =>
        UnnamedVars(a);
        UnnamedParts(a, v, lit, meaning, xs);
        UnnamedParts(b, v, lit, meaning, xs + OpVars(a));
      case _ =>
    }
  }

  // ---------- Satisfaction ----------

  lemma {:induction false} SimpleFree(p: L.Expr, base: string, lit: Serializer, xs: set<string>)
    requires IsSimplePredicate(p, base, lit, xs) && IsClosed(lit)
    ensures L.Free(p) <= xs
  {
    match p {
      case Comparison(_, l, r) =>
        if EqToTriple(l, r, base, lit).Some? {
          assert L.Free(l) == L.Free(l.e) == {l.e.name} && L.Free(r) == {};
        } else {
          assert L.Free(r) == L.Free(r.e) == {r.e.name} && L.Free(l) == {};
        }
      case And(a, b) => SimpleFree(a, base, lit, xs); SimpleFree(b, base, lit, xs);
      case LabelCheck(e, _) => assert L.Free(e) == {e.name};
      case Not(c) => assert L.Free(c) == L.Free(c.e) == {c.e.name};
    }
  }

  // Satisfaction depends on the variables and the names only.
  lemma {:induction false} SatAgrees(v: View, op: O.Op, lit: Serializer, env: L.Env, env': L.Env, xs: set<string>)
    requires IsSimpleIn(Unnamed(op), v, lit, xs) && IsClosed(lit)
    requires L.Agree(OpVars(op) + RelNames(op) + xs, env, env')
    ensures O.Sat(v.m, v.graph, op, env) <==> O.Sat(v.m, v.graph, op, env')
  {
    hide L.Eval, L.Free, GoodType, IsSimplePredicate, IsClosed, O.Connects;
    match op {
      case Expand(inner, _, _, _, _, _, _, _) =>
        UnnamedVars(inner);
        SatAgrees(v, inner, lit, env, env', xs);
      case Selection(inner, p) =>
        UnnamedVars(inner);
        SatAgrees(v, inner, lit, env, env', xs);
        SimpleFree(p, v.base, lit, OpVars(Unnamed(inner)) + xs);
        L.Coincidence(v.m, p, env, env', [], []);
      case CartesianProduct(a, b) =>
        UnnamedVars(a);
        SatAgrees(v, a, lit, env, env', xs);
        SatAgrees(v, b, lit, env, env', xs + OpVars(a));
      case _ =>
    }
  }

  lemma {:induction false} NamesCanGo(v: View, op: O.Op, env: L.Env)
    requires O.Sat(v.m, v.graph, op, env)
    ensures O.Sat(v.m, v.graph, Unnamed(op), env)
  {
    hide L.Eval, O.Connects;
    match op {
      case Expand(inner, _, _, _, _, _, _, _) => NamesCanGo(v, inner, env);
      case Selection(inner, _) => NamesCanGo(v, inner, env);
      case CartesianProduct(a, b) => NamesCanGo(v, a, env); NamesCanGo(v, b, env);
      case _ =>
    }
  }

  // env' is env but for the names.
  ghost predicate SameBut(names: set<string>, env: L.Env, env': L.Env) {
    forall x :: x !in names ==> L.Lookup(env, x) == L.Lookup(env', x)
  }

  // The relationships found can be given their names.
  lemma {:induction false} NamesCanBeGiven(v: View, op: O.Op, lit: Serializer, env: L.Env, xs: set<string>) returns (env': L.Env)
    requires IsNamedIn(op, v, lit, xs) && IsClosed(lit) && O.Sat(v.m, v.graph, Unnamed(op), env)
    ensures SameBut(RelNames(op), env, env') && O.Sat(v.m, v.graph, op, env')
  {
    hide L.Eval, L.Free, GoodType, IsSimplePredicate, IsClosed, O.Connects;
    env' := env;
    match op {
      case Expand(inner, from, relVar, to, types, dir, range, _) =>
        UnnamedVars(inner);
        env' := NamesCanBeGiven(v, inner, lit, env, xs);
        if relVar.Some? {
          var rel :| O.Connects(v.graph, L.Lookup(env', from), rel, L.Lookup(env', to), types, dir, range);
          var before := env';
          env' := env'[relVar.value := rel];
          SatAgrees(v, inner, lit, before, env', xs);
        }
      case Selection(inner, p) =>
        UnnamedVars(inner);
        env' := NamesCanBeGiven(v, inner, lit, env, xs);
        SimpleFree(p, v.base, lit, OpVars(Unnamed(inner)) + xs);
        L.Coincidence(v.m, p, env, env', [], []);
      case CartesianProduct(a, b) =>
        UnnamedVars(a);
        UnnamedVars(b);
        var between := NamesCanBeGiven(v, a, lit, env, xs);
        SatAgreesUnnamed(v, b, lit, env, between, xs + OpVars(a));
        env' := NamesCanBeGiven(v, b, lit, between, xs + OpVars(a));
        SatAgrees(v, a, lit, between, env', xs);
      case _ =>
    }
  }

  lemma {:induction false} UnnamedTwice(op: O.Op)
    ensures Unnamed(Unnamed(op)) == Unnamed(op) && RelNames(Unnamed(op)) == {}
  {
    match op {
      case Expand(inner, _, _, _, _, _, _, _) => UnnamedTwice(inner);
      case Selection(inner, _) => UnnamedTwice(inner);
      case CartesianProduct(a, b) => UnnamedTwice(a); UnnamedTwice(b);
      case _ =>
    }
  }

  lemma SatAgreesUnnamed(v: View, op: O.Op, lit: Serializer, env: L.Env, env': L.Env, xs: set<string>)
    requires IsSimpleIn(Unnamed(op), v, lit, xs) && IsClosed(lit) && L.Agree(OpVars(op) + xs, env, env')
    ensures O.Sat(v.m, v.graph, Unnamed(op), env) <==> O.Sat(v.m, v.graph, Unnamed(op), env')
  {
    UnnamedTwice(op);
    UnnamedVars(op);
    SatAgrees(v, Unnamed(op), lit, env, env', xs);
  }

  // ---------- Named matches ----------

  // The solutions of the clause are the assignments of nodes that satisfy the operators
  // for some choice of the named relationships.
  lemma NamedIsSat(v: View, op: O.Op, lit: Serializer, meaning: FilterMeaning, mu: Solution)
    requires GoodView(v) && IsNamed(op, v, lit) && IsClosed(lit)
    requires mu.Keys == OpVars(op) && BindsNodes(v, OpVars(op), mu) ==> TermsAgree(v, lit, Unnamed(op), mu, EnvOf(mu))
    ensures WhereParts(op, v.base, lit, meaning).Ok?
    ensures IsSolution(WhereParts(op, v.base, lit, meaning).value, Stored(v), mu)
       <==> mu.Keys == OpVars(op) && BindsNodes(v, OpVars(op), mu)
            && exists env :: SameBut(RelNames(op), EnvOf(mu), env) && O.Sat(v.m, v.graph, op, env)
  {
    hide Stored, GoodView, IsSimpleIn, O.Sat, IsSolution, WhereParts, TermsAgree, SameBut, IsClosed;
    UnnamedVars(op);
    UnnamedParts(op, v, lit, meaning, {});
    WhereIsSat(v, Unnamed(op), lit, meaning, mu, EnvOf(mu));
    if mu.Keys == OpVars(op) && O.Sat(v.m, v.graph, Unnamed(op), EnvOf(mu)) {
      var env := NamesCanBeGiven(v, op, lit, EnvOf(mu), {});
    }
    forall env | mu.Keys == OpVars(op) && SameBut(RelNames(op), EnvOf(mu), env) && O.Sat(v.m, v.graph, op, env)
      ensures O.Sat(v.m, v.graph, Unnamed(op), EnvOf(mu))
    {
      NamesCanGo(v, op, env);
      SameButAgrees(op, EnvOf(mu), env);
      SatAgreesUnnamed(v, op, lit, EnvOf(mu), env, {});
    }
  }

  lemma SameButAgrees(op: O.Op, env: L.Env, env': L.Env)
    requires SameBut(RelNames(op), env, env') && RelNames(op) !! OpVars(op)
    ensures L.Agree(OpVars(op), env, env')
  {
  }

  lemma FindsUnnamed(v: View, op: O.Op, lit: Serializer, x: string, n: nat)
    requires IsNamed(op, v, lit) && IsClosed(lit) && x in OpVars(op)
    ensures Finds(v, op, x, n) <==> Finds(v, Unnamed(op), x, n)
  {
    hide O.Sat, IsSimpleIn, IsClosed;
    if Finds(v, op, x, n) {
      var env :| O.Sat(v.m, v.graph, op, env) && L.Lookup(env, x) == L.VNode(n);
      NamesCanGo(v, op, env);
    }
    if Finds(v, Unnamed(op), x, n) {
      var env :| O.Sat(v.m, v.graph, Unnamed(op), env) && L.Lookup(env, x) == L.VNode(n);
      var env' := NamesCanBeGiven(v, op, lit, env, {});
      assert L.Lookup(env', x) == L.VNode(n);
    }
  }

  // From the algebra to the store: MATCH ... SET x += {...}, once compiled, gives exactly
  // the nodes that the operators bind x to exactly the merged properties.
  lemma MapMergeOverMatch(v: View, op: O.Op, lit: Serializer, meaning: FilterMeaning, x: string, pairs: seq<L.Entry>, supply: Supply)
    requires GoodView(v) && IsNamed(op, v, lit) && IsClosed(lit) && AllAgree(v, lit, Unnamed(op)) && x in OpVars(op)
    requires WhereParts(op, v.base, lit, meaning).Ok? && forall i :: 0 <= i < |pairs| ==> OldVar(x, pairs[i].key) !in OpVars(op)
    requires CompileItem(MergeMap(x, L.Map(pairs)), WhereParts(op, v.base, lit, meaning).value, v.base, lit).Ok?
    ensures var updates := CompileItem(MergeMap(x, L.Map(pairs)), WhereParts(op, v.base, lit, meaning).value, v.base, lit).value;
            var nodes := iset t: Term | t.BNode? && Finds(v, op, x, t.id);
            SE.IsMerge(pairs, v.base, lit, nodes, Stored(v), RunAll(updates, Stored(v), supply))
  {
    hide GoodView, AllAgree, IsSimpleIn, Finds, WhereParts, CompileItem, SE.IsMerge, RunAll, OldVar, IsClosed, Stored;
    UnnamedVars(op);
    UnnamedParts(op, v, lit, meaning, {});
    MapMergeUnnamed(v, Unnamed(op), lit, meaning, x, pairs, supply);
    forall t: Term | t.BNode?
      ensures Finds(v, op, x, t.id) <==> Finds(v, Unnamed(op), x, t.id)
    {
      FindsUnnamed(v, op, lit, x, t.id);
    }
    assert (iset t: Term | t.BNode? && Finds(v, op, x, t.id)) == (iset t: Term | t.BNode? && Finds(v, Unnamed(op), x, t.id));
  }
}

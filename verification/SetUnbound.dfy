/** SET on the name of a relationship.

    No part of the WHERE clause binds such a name, so the lookup of the old
    value finds every subject with the property.  What the update does to the
    store, and when that is what SET means, is stated exactly.
 */
module SetUnbound {
  import opened Prelude
  import opened Sparql
  import opened WriteSet
  import N = WhereNames
  import Q = Where
  import R = RelMergeEffect
  import W = WhereMeaning
  import L = Lqa
  import O = Ops

  // ---------- The lookup ----------

  ghost predicate SomeValue(r: string, p: Term, old_: string, g: Store, mu: Solution, nu: Solution) {
    exists s: Term, o: Term :: Triple(s, p, o) in g && nu == mu[r := s][old_ := o]
  }

  // The subjects that have the property.
  ghost function Havers(p: Term, g: Store): iset<Term> {
    iset t: Triple | t in g && t.p == p :: t.s
  }

  lemma MatchAny(r: string, p: Term, old_: string, g: Store, mu: Solution, nu: Solution)
    requires r !in mu && old_ !in mu && r != old_
    ensures Step(Match(OldTriple(r, p, old_)), g, mu, nu) <==> SomeValue(r, p, old_, g, mu, nu)
  {
    var t := OldTriple(r, p, old_);
    SingleVars(t);
    assert TpVars(t) == {r, old_};
    if BgpMatch([t], g, mu, nu) {
      assert t in [t];
      assert nu == mu[r := nu[r]][old_ := nu[old_]];
      assert Triple(nu[r], p, nu[old_]) in g;
    }
    if SomeValue(r, p, old_, g, mu, nu) {
      assert InstTp(t, nu) == Some(Triple(nu[r], p, nu[old_]));
    }
  }

  lemma AnyStep(r: string, p: Term, old_: string, strict: bool, g: Store, mu: Solution, nu: Solution)
    requires r !in mu && old_ !in mu && r != old_
    ensures Step(OldPart(r, p, old_, strict), g, mu, nu)
       <==> SomeValue(r, p, old_, g, mu, nu) || (!strict && nu == mu && Havers(p, g) == iset{})
  {
    hide Step;
    var t := OldTriple(r, p, old_);
    MatchAny(r, p, old_, g, mu, nu);
    if !strict {
      StepOptionalOld(t, g, mu, nu);
      if exists xi: Solution :: Step(Match(t), g, mu, xi) {
        var xi: Solution :| Step(Match(t), g, mu, xi);
        MatchAny(r, p, old_, g, mu, xi);
        assert xi[r] in Havers(p, g);
      }
      if Havers(p, g) != iset{} {
        var s: Term :| s in Havers(p, g);
        var u: Triple :| u in g && u.p == p && u.s == s;
        assert Triple(s, p, u.o) in g;
        MatchAny(r, p, old_, g, mu, mu[r := s][old_ := u.o]);
      }
    }
  }

  // r and the variable for the old value are new to the context.
  ghost predicate IsUnbound(context: seq<Part>, r: string, old_: string) {
    r !in PartsVars(context) && old_ !in PartsVars(context) && r != old_
  }

  lemma FiltersIgnoreBoth(context: seq<Part>, r: string, old_: string, g: Store, mu: Solution, nu: Solution)
    requires IsUnbound(context, r, old_) && r !in mu && old_ !in mu
    requires nu == mu || (r in nu && old_ in nu && nu == mu[r := nu[r]][old_ := nu[old_]])
    ensures (forall part :: part in context ==> FilterHolds(part, g, nu)) <==> (forall part :: part in context ==> FilterHolds(part, g, mu))
  {
    if nu != mu {
      var xi := mu[r := nu[r]];
      forall part | part in context
        ensures FilterHolds(part, g, nu) <==> FilterHolds(part, g, mu)
      {
        PartVarsIn(context, part);
        FilterIgnores(part, g, mu, xi, r, nu[r]);
        FilterIgnores(part, g, xi, nu, old_, nu[old_]);
      }
    }
  }

  lemma LookupIsNoFilter(r: string, p: Term, old_: string, strict: bool, g: Store, nu: Solution)
    ensures FilterHolds(OldPart(r, p, old_, strict), g, nu)
  {
  }

  lemma AnySolutions(context: seq<Part>, r: string, p: Term, old_: string, strict: bool, g: Store, nu: Solution)
    requires IsUnbound(context, r, old_)
    ensures IsSolution(context + [OldPart(r, p, old_, strict)], g, nu)
       <==> exists mu: Solution :: IsSolution(context, g, mu) && r !in mu && old_ !in mu && Step(OldPart(r, p, old_, strict), g, mu, nu)
  {
    hide Step, OldPart, FilterHolds;
    var q := OldPart(r, p, old_, strict);
    var all := context + [q];
    ReachesAppend(context, q, g, map[], nu);
    assert forall part :: part in all <==> part in context || part == q;
    LookupIsNoFilter(r, p, old_, strict, g, nu);
    if IsSolution(all, g, nu) {
      var mu: Solution :| Reaches(context, g, map[], mu) && Step(q, g, mu, nu);
      ReachesDomain(context, g, map[], mu);
      AnyStep(r, p, old_, strict, g, mu, nu);
      FiltersIgnoreBoth(context, r, old_, g, mu, nu);
      assert IsSolution(context, g, mu);
    }
    forall mu: Solution | IsSolution(context, g, mu) && r !in mu && old_ !in mu && Step(q, g, mu, nu)
      ensures IsSolution(all, g, nu)
    {
      AnyStep(r, p, old_, strict, g, mu, nu);
      FiltersIgnoreBoth(context, r, old_, g, mu, nu);
    }
  }

  // ---------- The effect ----------

  ghost predicate HasSolution(context: seq<Part>, g: Store) {
    exists mu: Solution :: IsSolution(context, g, mu)
  }

  // The nodes that an update on an unbound name reaches.
  ghost function Reached(context: seq<Part>, p: Term, g: Store): iset<Term> {
    if HasSolution(context, g) then Havers(p, g) else iset{}
  }

  lemma UnboundDeletes(context: seq<Part>, r: string, w: Write, old_: string, g: Store, t: Triple)
    requires w.Put? && IsUnbound(context, r, old_)
    ensures t in g ==> (Deletes(CompileWrite(r, w, old_, context), g, t) <==> HasSolution(context, g) && t.p == w.property)
  {
    hide IsSolution, Step;
    var u, q, del := CompileWrite(r, w, old_, context), OldPart(r, w.property, old_, w.strict), OldTriple(r, w.property, old_);
    assert u.pattern == context + [q] && u.delete == [del];
    if Deletes(u, g, t) {
      var nu: Solution, tp :| IsSolution(u.pattern, g, nu) && tp in u.delete && InstTp(tp, nu) == Some(t);
      AnySolutions(context, r, w.property, old_, w.strict, g, nu);
    }
    if t in g && t.p == w.property && HasSolution(context, g) {
      var mu: Solution :| IsSolution(context, g, mu);
      NewToSolution(context, r, old_, g, mu);
      var nu := mu[r := t.s][old_ := t.o];
      assert Triple(t.s, w.property, t.o) in g;
      AnyStep(r, w.property, old_, w.strict, g, mu, nu);
      AnySolutions(context, r, w.property, old_, w.strict, g, nu);
      assert IsSolution(u.pattern, g, nu) && del in u.delete && InstTp(del, nu) == Some(t);
    }
  }

  lemma NewToSolution(context: seq<Part>, r: string, old_: string, g: Store, mu: Solution)
    requires IsUnbound(context, r, old_) && IsSolution(context, g, mu)
    ensures r !in mu && old_ !in mu
  {
    ReachesDomain(context, g, map[], mu);
  }

  lemma UnboundInserts(context: seq<Part>, r: string, w: Write, old_: string, g: Store, supply: Supply, t: Triple)
    requires w.Put? && IsUnbound(context, r, old_) && NoLiteralSubjects(g) && (w.strict ==> w.value.None?)
    ensures Inserts(CompileWrite(r, w, old_, context), g, supply, t)
       <==> t.s in Reached(context, w.property, g) && t.p == w.property && w.value == Some(t.o)
  {
    hide IsSolution, Step;
    var u, q := CompileWrite(r, w, old_, context), OldPart(r, w.property, old_, w.strict);
    assert u.pattern == context + [q];
    if Inserts(u, g, supply, t) {
      var nu: Solution, tp :| IsSolution(u.pattern, g, nu) && tp in u.insert && InsertsBy(tp, nu, supply, t);
      AnySolutions(context, r, w.property, old_, w.strict, g, nu);
      var mu: Solution :| IsSolution(context, g, mu) && r !in mu && old_ !in mu && Step(q, g, mu, nu);
      AnyStep(r, w.property, old_, w.strict, g, mu, nu);
      var s: Term, o: Term :| Triple(s, w.property, o) in g && nu == mu[r := s][old_ := o];
      assert s in Havers(w.property, g);
    }
    if t.s in Reached(context, w.property, g) && t.p == w.property && w.value == Some(t.o) {
      var mu: Solution :| IsSolution(context, g, mu);
      NewToSolution(context, r, old_, g, mu);
      var found: Triple :| found in g && found.p == w.property && found.s == t.s;
      var nu := mu[r := found.s][old_ := found.o];
      assert Triple(found.s, w.property, found.o) in g;
      AnyStep(r, w.property, old_, w.strict, g, mu, nu);
      AnySolutions(context, r, w.property, old_, w.strict, g, nu);
      assert IsSolution(u.pattern, g, nu) && u.insert[0] in u.insert && InsertsBy(u.insert[0], nu, supply, t);
    }
  }

  // As soon as the context has a solution, the update writes to everything that has the
  // property.
  lemma UnboundWriteHasEffect(context: seq<Part>, r: string, w: Write, old_: string, g: Store, supply: Supply)
    requires w.Put? && IsUnbound(context, r, old_) && NoLiteralSubjects(g) && (w.strict ==> w.value.None?)
    ensures Run(CompileWrite(r, w, old_, context), g, supply) == Effect(w, Reached(context, w.property, g), g)
  {
    hide Deletes, Inserts, CompileWrite, HasSolution, IsUnbound;
    var u := CompileWrite(r, w, old_, context);
    forall t: Triple
      ensures t in Run(u, g, supply) <==> t in Effect(w, Reached(context, w.property, g), g)
    {
      UnboundDeletes(context, r, w, old_, g, t);
      UnboundInserts(context, r, w, old_, g, supply, t);
      assert t in g && t.p == w.property ==> t.s in Havers(w.property, g);
    }
  }

  // ---------- When that is right ----------

  // The write would change nothing at n.
  ghost predicate IsGiven(n: Term, w: Write, g: Store)
    requires w.Put?
  {
    forall o: Term :: Triple(n, w.property, o) in g <==> w.value == Some(o)
  }

  lemma EffectsEqualIff(w: Write, a: iset<Term>, b: iset<Term>, g: Store)
    requires w.Put?
    ensures Effect(w, a, g) == Effect(w, b, g) <==> forall n: Term :: (n in a) != (n in b) ==> IsGiven(n, w, g)
  {
    if Effect(w, a, g) == Effect(w, b, g) {
      forall n: Term, o: Term | (n in a) != (n in b)
        ensures Triple(n, w.property, o) in g <==> w.value == Some(o)
      {
        var t := Triple(n, w.property, o);
        assert t in Effect(w, a, g) <==> t in Effect(w, b, g);
      }
    }
    if forall n: Term :: (n in a) != (n in b) ==> IsGiven(n, w, g) {
      forall t: Triple
        ensures t in Effect(w, a, g) <==> t in Effect(w, b, g)
      {
        if (t.s in a) != (t.s in b) && t.p == w.property {
          assert IsGiven(t.s, w, g) && Triple(t.s, w.property, t.o) == t;
        }
      }
    }
  }

  // ---------- SET r.k = e ----------

  lemma {:induction false} NamesNeedVars(op: O.Op)
    ensures N.RelNames(op) != {} ==> W.OpVars(op) != {}
  {
    match op {
      case Expand(_, _, _, to, _, _, _, _) => assert to in W.OpVars(op);
      case Selection(inner, _) => NamesNeedVars(inner);
      case CartesianProduct(a, b) =>
        NamesNeedVars(a);
        NamesNeedVars(b);
        assert N.RelNames(op) == N.RelNames(a) + N.RelNames(b);
      case _ =>
    }
  }

  // The clause of a MATCH has no part for the name of a relationship.
  lemma NameIsUnbound(v: W.View, op: O.Op, lit: Serializer, meaning: Q.FilterMeaning, r: string, key: string)
    requires N.IsNamed(op, v, lit) && r in N.RelNames(op) && OldVar(r, key) !in W.OpVars(op)
    ensures Q.WhereParts(op, v.base, lit, meaning).Ok?
    ensures var context := Q.WhereParts(op, v.base, lit, meaning).value; context != [] && IsUnbound(context, r, OldVar(r, key))
  {
    hide W.IsSimpleIn, W.OpVars, Q.WhereParts, N.RelNames;
    N.UnnamedVars(op);
    N.UnnamedParts(op, v, lit, meaning, {});
    R.ClausesArePlain(v, N.Unnamed(op), lit, meaning);
    W.OpFlat(N.Unnamed(op), v, lit, meaning);
    var context := Q.WhereParts(op, v.base, lit, meaning).value;
    W.VarsWithin(context, W.OpVars(op));
    NamesNeedVars(op);
    var x :| x in W.OpVars(op);
    assert Binds(context, x);
    assert |OldVar(r, key)| > |r|;
  }

  // e is a relationship from one end of the row to the other, in a direction that counts.
  ghost predicate IsEdgeOf(e: Term, from: string, to: string, typ: Term, dir: O.Direction, g: Store, mu: Solution) {
    && from in mu && to in mu
    && ((dir != O.Incoming && e == Quoted(mu[from], typ, mu[to]) && Triple(mu[from], typ, mu[to]) in g)
        || (dir != O.Outgoing && e == Quoted(mu[to], typ, mu[from]) && Triple(mu[to], typ, mu[from]) in g))
  }

  ghost predicate IsMatchedEdge(e: Term, context: seq<Part>, from: string, to: string, typ: Term, dir: O.Direction, g: Store) {
    exists mu: Solution :: IsSolution(context, g, mu) && IsEdgeOf(e, from, to, typ, dir, g, mu)
  }

  // The relationships matched.
  ghost function Edges(context: seq<Part>, from: string, to: string, typ: Term, dir: O.Direction, g: Store): iset<Term> {
    iset e: Term | IsMatchedEdge(e, context, from, to, typ, dir, g)
  }

  // MATCH ... SET r.k = e, r being the name of a relationship, writes to every subject with
  // the property, whatever the MATCH found.  It does what SET means exactly when nothing
  // was found, or every relationship found has the property already, or loses it, and
  // everything else that has it has just the value written.
  lemma RelationshipSetIff(v: W.View, op: O.Op, lit: Serializer, meaning: Q.FilterMeaning, from: string, r: string, to: string, typ: string,
                           dir: O.Direction, key: string, e: L.Expr, g: Store, supply: Supply)
    requires N.IsNamed(op, v, lit) && r in N.RelNames(op) && OldVar(r, key) !in W.OpVars(op)
    requires (lit(e).Some? || e == L.Lit(L.Null)) && NoLiteralSubjects(g)
    ensures Q.WhereParts(op, v.base, lit, meaning).Ok?
    ensures var context, w := Q.WhereParts(op, v.base, lit, meaning).value, Put(PropIri(v.base, key), lit(e), false);
            var us, edges := CompileItem(Property(r, key, e), context, v.base, lit), Edges(context, from, to, Q.TypeIri(v.base, typ), dir, g);
            && us.Ok?
            && var h := RunAll(us.value, g, supply);
            && h == Effect(w, Reached(context, w.property, g), g)
            && (h == Effect(w, edges, g)
                <==> (HasSolution(context, g) ==>
                        && (lit(e).Some? ==> edges <= Havers(w.property, g))
                        && forall n: Term :: n in Havers(w.property, g) && n !in edges ==> IsGiven(n, w, g)))
  {
    hide Q.WhereParts, N.IsNamed, CompileWrite, Effect, IsSolution, Run, OldVar, IsUnbound, IsEdgeOf;
    NameIsUnbound(v, op, lit, meaning, r, key);
    var context, w := Q.WhereParts(op, v.base, lit, meaning).value, Put(PropIri(v.base, key), lit(e), false);
    var edges := Edges(context, from, to, Q.TypeIri(v.base, typ), dir, g);
    var us := CompileItem(Property(r, key, e), context, v.base, lit).value;
    assert us == [CompileWrite(r, w, OldVar(r, key), context)] && us[1..] == [];
    assert RunAll(us[1..], Run(us[0], g, supply), supply) == Run(us[0], g, supply);
    UnboundWriteHasEffect(context, r, w, OldVar(r, key), g, supply);
    EffectsEqualIff(w, Reached(context, w.property, g), edges, g);
    ReachedOrNot(context, w, edges, g);
  }

  lemma HaversHave(p: Term, g: Store)
    ensures forall n: Term, o: Term :: Triple(n, p, o) in g ==> n in Havers(p, g)
  {
    forall n: Term, o: Term | Triple(n, p, o) in g
      ensures n in Havers(p, g)
    {
      var t := Triple(n, p, o);
      assert t.s == n;
    }
  }

  lemma ReachedOrNot(context: seq<Part>, w: Write, edges: iset<Term>, g: Store)
    requires w.Put? && (!HasSolution(context, g) ==> edges == iset{})
    ensures (forall n: Term :: (n in Reached(context, w.property, g)) != (n in edges) ==> IsGiven(n, w, g))
       <==> (HasSolution(context, g) ==>
               && (w.value.Some? ==> edges <= Havers(w.property, g))
               && forall n: Term :: n in Havers(w.property, g) && n !in edges ==> IsGiven(n, w, g))
  {
    hide HasSolution;
    HaversHave(w.property, g);
  }
}

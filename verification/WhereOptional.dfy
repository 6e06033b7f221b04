/** OPTIONAL MATCH in the WHERE clause of an update.

    The clause keeps every row of what comes before, extended by each way of
    satisfying the optional pattern and left as it is where there is none.  So a
    write to a variable bound before works on the same nodes with and without
    the OPTIONAL MATCH.  What becomes of one that only the OPTIONAL MATCH binds
    is stated exactly.
 */
module WhereOptional {
  import opened Prelude
  import opened Sparql
  import opened WriteSet
  import opened Where
  import opened WhereMeaning
  import opened WhereNames
  import SE = SetEffect
  import U = SetUnbound
  import L = Lqa
  import O = Ops

  // ---------- Filters and more variables ----------

  lemma {:induction false} InstSame(vt: VarTerm, mu: Solution, nu: Solution)
    requires Extends(mu, nu) && forall y :: y in VarsOf(vt) && y in nu ==> y in mu
    ensures Inst(vt, nu) == Inst(vt, mu)
  {
    match vt {
      case QuotedPat(s, p, o) => InstSame(s, mu, nu); InstSame(p, mu, nu); InstSame(o, mu, nu);
      case _ =>
    }
  }

  lemma BgpSame(tps: seq<TriplePattern>, g: Store, mu: Solution, nu: Solution)
    requires Extends(mu, nu) && forall y :: y in AllVars(tps) && y in nu ==> y in mu
    ensures (exists xi: Solution :: BgpMatch(tps, g, mu, xi)) <==> (exists xi: Solution :: BgpMatch(tps, g, nu, xi))
  {
    forall xi: Solution | BgpMatch(tps, g, mu, xi)
      ensures exists om: Solution :: BgpMatch(tps, g, nu, om)
    {
      var om: Solution := map y | y in nu.Keys + AllVars(tps) :: if y in nu then nu[y] else xi[y];
      forall tp | tp in tps
        ensures Holds(tp, g, om)
      {
        assert forall y :: y in TpVars(tp) ==> y in AllVars(tps) && y in xi && om[y] == xi[y];
        SameOnVars(tp, g, xi, om);
      }
      assert BgpMatch(tps, g, nu, om);
    }
    forall xi: Solution | BgpMatch(tps, g, nu, xi)
      ensures exists om: Solution :: BgpMatch(tps, g, mu, om)
    {
      var om: Solution := map y | y in mu.Keys + AllVars(tps) :: xi[y];
      forall tp | tp in tps
        ensures Holds(tp, g, om)
      {
        assert forall y :: y in TpVars(tp) ==> y in AllVars(tps) && y in xi && om[y] == xi[y];
        SameOnVars(tp, g, om, xi);
      }
      assert BgpMatch(tps, g, mu, om);
    }
  }

  lemma {:induction false} InstOnVars(vt: VarTerm, mu: Solution, nu: Solution)
    requires forall y :: y in VarsOf(vt) ==> y in mu && y in nu && mu[y] == nu[y]
    ensures Inst(vt, mu) == Inst(vt, nu)
  {
    match vt {
      case QuotedPat(s, p, o) => InstOnVars(s, mu, nu); InstOnVars(p, mu, nu); InstOnVars(o, mu, nu);
      case _ =>
    }
  }

  lemma SameOnVars(tp: TriplePattern, g: Store, mu: Solution, nu: Solution)
    requires forall y :: y in TpVars(tp) ==> y in mu && y in nu && mu[y] == nu[y]
    ensures Holds(tp, g, mu) <==> Holds(tp, g, nu)
  {
    InstOnVars(tp.s, mu, nu);
    InstOnVars(tp.p, mu, nu);
    InstOnVars(tp.o, mu, nu);
  }

  // A filter does not see variables it does not mention.
  lemma FilterSame(part: Part, g: Store, mu: Solution, nu: Solution)
    requires Extends(mu, nu) && forall y :: y in PartVars(part) && y in nu ==> y in mu
    ensures FilterHolds(part, g, nu) <==> FilterHolds(part, g, mu)
  {
    match part {
      case Filter(l, _, r) =>
        InstSame(l, mu, nu);
        InstSame(r, mu, nu);
      case NotExists(alts) =>
        forall alt | alt in alts
          ensures (exists xi: Solution :: BgpMatch(alt, g, mu, xi)) <==> (exists xi: Solution :: BgpMatch(alt, g, nu, xi))
        {
          BgpSame(alt, g, mu, nu);
        }
      case _ =>
    }
  }

  // ---------- OPTIONAL at the end of a group ----------

  // The filters of the group look at no variable that the body binds anew.
  ghost predicate IsSettled(l: seq<Part>, body: seq<Part>) {
    forall part, y :: part in l && (part.Filter? || part.NotExists?) && y in PartVars(part) && y in PartsVars(body) ==> Binds(l, y)
  }

  lemma {:induction false} BindVarsAreVars(parts: seq<Part>)
    ensures BindVars(parts) <= PartsVars(parts)
  {
    if parts != [] {
      BindVarsAreVars(parts[1..]);
    }
  }

  lemma BodyExtends(body: seq<Part>, g: Store, mu: Solution, nu: Solution)
    requires (forall part :: part in body ==> IsFlat(part)) && Solves(body, g, mu, nu)
    ensures Extends(mu, nu) && nu.Keys == mu.Keys + BindVars(body)
  {
    FlatReaches(body, g, mu, nu);
  }

  lemma SettledFilters(l: seq<Part>, body: seq<Part>, g: Store, mu: Solution, nu: Solution)
    requires IsSettled(l, body) && Reaches(l, g, map[], mu) && Extends(mu, nu) && nu.Keys <= mu.Keys + BindVars(body)
    ensures (forall part :: part in l ==> FilterHolds(part, g, nu)) <==> (forall part :: part in l ==> FilterHolds(part, g, mu))
  {
    ReachesDomain(l, g, map[], mu);
    BindVarsAreVars(body);
    forall part | part in l
      ensures FilterHolds(part, g, nu) <==> FilterHolds(part, g, mu)
    {
      if part.Filter? || part.NotExists? {
        FilterSame(part, g, mu, nu);
      }
    }
  }

  // Every row extended by each solution of the body, or left alone where there is none.
  lemma OptionalSolutions(l: seq<Part>, body: seq<Part>, g: Store, nu: Solution)
    requires (forall part :: part in body ==> IsFlat(part)) && IsSettled(l, body)
    ensures IsSolution(l + [Optional(body)], g, nu)
       <==> exists mu: Solution :: IsSolution(l, g, mu) && Step(Optional(body), g, mu, nu)
  {
    hide IsFlat, IsSettled, FilterHolds, Reaches, BindVars;
    var q := Optional(body);
    var all := l + [q];
    ReachesAppend(l, q, g, map[], nu);
    assert forall part :: part in all <==> part in l || part == q;
    OptionalIsNoFilter(body, g, nu);
    forall mu: Solution | Reaches(l, g, map[], mu) && Step(q, g, mu, nu)
      ensures (forall part :: part in l ==> FilterHolds(part, g, nu)) <==> (forall part :: part in l ==> FilterHolds(part, g, mu))
    {
      if Solves(body, g, mu, nu) {
        BodyExtends(body, g, mu, nu);
      }
      SettledFilters(l, body, g, mu, nu);
    }
  }

  lemma OptionalIsNoFilter(body: seq<Part>, g: Store, nu: Solution)
    ensures FilterHolds(Optional(body), g, nu)
  {
  }

  // So a variable that the group binds keeps its nodes.
  lemma OptionalKeepsNodes(l: seq<Part>, body: seq<Part>, x: string, g: Store)
    requires (forall part :: part in body ==> IsFlat(part)) && IsSettled(l, body) && Binds(l, x)
    ensures Matched(l + [Optional(body)], x, g) == Matched(l, x, g)
  {
    hide IsFlat, IsSettled, BindVars, Reaches;
    var all := l + [Optional(body)];
    forall n: Term
      ensures n in Matched(all, x, g) <==> n in Matched(l, x, g)
    {
      if n in Matched(all, x, g) {
        var nu: Solution :| IsSolution(all, g, nu) && x in nu && !nu[x].Lit? && nu[x] == n;
        OptionalSolutions(l, body, g, nu);
        var mu: Solution :| IsSolution(l, g, mu) && Step(Optional(body), g, mu, nu);
        ReachesDomain(l, g, map[], mu);
        if Solves(body, g, mu, nu) {
          BodyExtends(body, g, mu, nu);
        }
        assert mu[x] == n;
      }
      if n in Matched(l, x, g) {
        var mu: Solution :| IsSolution(l, g, mu) && x in mu && !mu[x].Lit? && mu[x] == n;
        var nu := SomeStep(body, g, mu);
        OptionalSolutions(l, body, g, nu);
      }
    }
  }

  lemma SomeStep(body: seq<Part>, g: Store, mu: Solution) returns (nu: Solution)
    requires forall part :: part in body ==> IsFlat(part)
    ensures Step(Optional(body), g, mu, nu) && Extends(mu, nu)
  {
    if exists xi: Solution :: Solves(body, g, mu, xi) {
      nu :| Solves(body, g, mu, nu);
      BodyExtends(body, g, mu, nu);
    } else {
      nu := mu;
    }
  }

  // ---------- OPTIONAL MATCH after a MATCH ----------

  // a, and then OPTIONAL MATCH of each of bs.
  function WithOptionals(a: O.Op, bs: seq<O.Op>): O.Op {
    if bs == [] then a else O.LeftOuterJoin(WithOptionals(a, bs[..|bs| - 1]), bs[|bs| - 1])
  }

  function ClauseVars(a: O.Op, bs: seq<O.Op>): set<string> {
    if bs == [] then OpVars(a) else ClauseVars(a, bs[..|bs| - 1]) + OpVars(bs[|bs| - 1])
  }

  // Every pattern is one of those covered, given the variables bound before it.
  ghost predicate AreCovered(a: O.Op, bs: seq<O.Op>, v: View, lit: Serializer) {
    if bs == [] then IsNamed(a, v, lit)
    else AreCovered(a, bs[..|bs| - 1], v, lit) && IsNamedIn(bs[|bs| - 1], v, lit, ClauseVars(a, bs[..|bs| - 1]))
  }

  // What is known of a clause for a MATCH and OPTIONAL MATCHes after it.
  ghost predicate IsGoodClause(parts: seq<Part>, xs: set<string>, all: set<string>) {
    && (forall x :: x in xs ==> Binds(parts, x))
    && PartsVars(parts) <= all
    && Avoids(parts, {})
    && forall part, y :: part in parts && (part.Filter? || part.NotExists?) && y in PartVars(part) ==> y in xs
  }

  lemma SimpleClause(v: View, a: O.Op, lit: Serializer, meaning: FilterMeaning)
    requires IsNamed(a, v, lit)
    ensures WhereParts(a, v.base, lit, meaning).Ok? && IsGoodClause(WhereParts(a, v.base, lit, meaning).value, OpVars(a), OpVars(a))
  {
    hide IsSimpleIn, WhereParts, Avoids, BindVars, IsFlat;
    UnnamedVars(a);
    UnnamedParts(a, v, lit, meaning, {});
    OpFlat(Unnamed(a), v, lit, meaning);
    var parts := WhereParts(a, v.base, lit, meaning).value;
    OpFilters(Unnamed(a), v, lit, meaning, OpVars(a));
    OpFixed(Unnamed(a), v, lit, meaning, {});
    VarsWithin(parts, OpVars(a));
    forall x | x in OpVars(a)
      ensures Binds(parts, x)
    {
      FlatIsSure(parts, x);
    }
    NoFilter(parts);
    forall part, y | part in parts && part.NotExists? && y in PartVars(part)
      ensures y in OpVars(a)
    {
      PartVarsIn(parts, part);
    }
  }

  lemma NoFilter(parts: seq<Part>)
    requires forall part :: part in parts ==> IsFlat(part)
    ensures forall part :: part in parts ==> !part.Filter?
  {
  }

  lemma BodyOf(v: View, b: O.Op, lit: Serializer, meaning: FilterMeaning, xs: set<string>)
    requires IsNamedIn(b, v, lit, xs)
    ensures WhereParts(b, v.base, lit, meaning).Ok?
    ensures var body := WhereParts(b, v.base, lit, meaning).value;
            (forall part :: part in body ==> IsFlat(part)) && PartsVars(body) <= OpVars(b) + xs && OpVars(b) <= BindVars(body) && Avoids(body, {})
  {
    hide IsSimpleIn, WhereParts, Avoids, BindVars, IsFlat;
    UnnamedVars(b);
    UnnamedParts(b, v, lit, meaning, xs);
    OpFlatIn(Unnamed(b), v, lit, meaning, xs);
    OpFiltersIn(Unnamed(b), v, lit, meaning, xs, OpVars(b) + xs);
    OpFixed(Unnamed(b), v, lit, meaning, xs);
    VarsWithin(WhereParts(b, v.base, lit, meaning).value, OpVars(b) + xs);
  }

  lemma OptionalParts(v: View, a: O.Op, b: O.Op, lit: Serializer, meaning: FilterMeaning)
    requires WhereParts(a, v.base, lit, meaning).Ok? && WhereParts(b, v.base, lit, meaning).Ok?
    ensures var l, body := WhereParts(a, v.base, lit, meaning).value, WhereParts(b, v.base, lit, meaning).value;
            WhereParts(O.LeftOuterJoin(a, b), v.base, lit, meaning) == Ok(l + if body == [] then [] else [Optional(body)])
  {
  }

  lemma GoodWithOptional(parts: seq<Part>, body: seq<Part>, xs: set<string>, all: set<string>, more: set<string>)
    requires IsGoodClause(parts, xs, all) && PartsVars(body) <= all + more && Avoids(body, {})
    ensures IsGoodClause(parts + [Optional(body)], xs, all + more) && IsSettled(parts, body)
  {
    var whole := parts + [Optional(body)];
    forall x | x in xs
      ensures Binds(whole, x)
    {
      var i :| 0 <= i < |parts| && x in SureVars(parts[i]);
      assert whole[i] == parts[i];
    }
    PartsVarsAppend(parts, Optional(body));
    assert Avoids([Optional(body)], {}) by {
      assert forall i :: 0 <= i < |body| ==> PartAvoids(body[i], {});
    }
    FixedAppend(parts, [Optional(body)]);
  }

  lemma {:induction false} PartsVarsAppend(parts: seq<Part>, part: Part)
    ensures PartsVars(parts + [part]) == PartsVars(parts) + PartVars(part)
  {
    hide PartVars;
    if parts == [] {
      assert parts + [part] == [part] && [part][1..] == [];
    } else {
      assert (parts + [part])[1..] == parts[1..] + [part];
      PartsVarsAppend(parts[1..], part);
    }
  }

  // Over every store, the nodes of a variable of the MATCH are the same with the OPTIONAL
  // MATCHes as without them.
  lemma {:induction false} OptionalsKeepNodes(v: View, a: O.Op, bs: seq<O.Op>, lit: Serializer, meaning: FilterMeaning)
    requires AreCovered(a, bs, v, lit)
    ensures WhereParts(a, v.base, lit, meaning).Ok? && WhereParts(WithOptionals(a, bs), v.base, lit, meaning).Ok?
    ensures var parts := WhereParts(WithOptionals(a, bs), v.base, lit, meaning).value;
            && IsGoodClause(parts, OpVars(a), ClauseVars(a, bs))
            && forall x, g: Store :: x in OpVars(a) ==> Matched(parts, x, g) == Matched(WhereParts(a, v.base, lit, meaning).value, x, g)
    decreases |bs|
  {
    hide WhereParts, IsNamedIn, IsGoodClause, Matched, IsSettled, Avoids, IsFlat, OpVars;
    SimpleClauseOf(v, a, bs, lit);
    SimpleClause(v, a, lit, meaning);
    if bs != [] {
      var init, b := bs[..|bs| - 1], bs[|bs| - 1];
      OptionalsKeepNodes(v, a, init, lit, meaning);
      BodyOf(v, b, lit, meaning, ClauseVars(a, init));
      OptionalParts(v, WithOptionals(a, init), b, lit, meaning);
      var l, body := WhereParts(WithOptionals(a, init), v.base, lit, meaning).value, WhereParts(b, v.base, lit, meaning).value;
      if body == [] {
        assert l + [] == l;
        MoreVars(l, OpVars(a), ClauseVars(a, init), ClauseVars(a, bs));
      } else {
        GoodWithOptional(l, body, OpVars(a), ClauseVars(a, init), OpVars(b));
        forall x, g: Store | x in OpVars(a)
          ensures Matched(l + [Optional(body)], x, g) == Matched(l, x, g)
        {
          BoundOf(l, OpVars(a), ClauseVars(a, init), x);
          OptionalKeepsNodes(l, body, x, g);
        }
      }
    }
  }

  lemma {:induction false} SimpleClauseOf(v: View, a: O.Op, bs: seq<O.Op>, lit: Serializer)
    requires AreCovered(a, bs, v, lit)
    ensures IsNamed(a, v, lit)
    decreases |bs|
  {
    if bs != [] {
      SimpleClauseOf(v, a, bs[..|bs| - 1], lit);
    }
  }

  lemma MoreVars(parts: seq<Part>, xs: set<string>, all: set<string>, more: set<string>)
    requires IsGoodClause(parts, xs, all) && all <= more
    ensures IsGoodClause(parts, xs, more)
  {
  }

  lemma BoundOf(parts: seq<Part>, xs: set<string>, all: set<string>, x: string)
    requires IsGoodClause(parts, xs, all) && x in xs
    ensures Binds(parts, x)
  {
  }

  // MATCH ... OPTIONAL MATCH ... SET x += {...}, x being a variable of the MATCH, gives
  // exactly the nodes that the MATCH binds x to exactly the merged properties.
  lemma MapMergeOverOptional(v: View, a: O.Op, bs: seq<O.Op>, lit: Serializer, meaning: FilterMeaning, x: string, pairs: seq<L.Entry>, supply: Supply)
    requires GoodView(v) && AreCovered(a, bs, v, lit) && IsClosed(lit) && AllAgree(v, lit, Unnamed(a)) && x in OpVars(a)
    requires WhereParts(WithOptionals(a, bs), v.base, lit, meaning).Ok? && forall i :: 0 <= i < |pairs| ==> OldVar(x, pairs[i].key) !in ClauseVars(a, bs)
    requires CompileItem(MergeMap(x, L.Map(pairs)), WhereParts(WithOptionals(a, bs), v.base, lit, meaning).value, v.base, lit).Ok?
    ensures var updates := CompileItem(MergeMap(x, L.Map(pairs)), WhereParts(WithOptionals(a, bs), v.base, lit, meaning).value, v.base, lit).value;
            var nodes := iset t: Term | t.BNode? && Finds(v, a, x, t.id);
            SE.IsMerge(pairs, v.base, lit, nodes, Stored(v), RunAll(updates, Stored(v), supply))
  {
    hide GoodView, AllAgree, IsSimpleIn, AreCovered, Finds, WhereParts, CompileItem, SE.IsMerge, RunAll, Matched, OldVar, IsClosed, Stored, Avoids, OpVars, Binds;
    var context := WhereParts(WithOptionals(a, bs), v.base, lit, meaning).value;
    OptionalsKeepNodes(v, a, bs, lit, meaning);
    SimpleClauseOf(v, a, bs, lit);
    UnnamedVars(a);
    UnnamedParts(a, v, lit, meaning, {});
    MatchedNodes(v, Unnamed(a), lit, meaning, x);
    forall t: Term | t.BNode?
      ensures Finds(v, a, x, t.id) <==> Finds(v, Unnamed(a), x, t.id)
    {
      FindsUnnamed(v, a, lit, x, t.id);
    }
    StoredSubjects(v);
    BoundIsKnown(context, x);
    SE.MapMergeEffect(x, pairs, context, v.base, lit, Stored(v), supply);
    assert Matched(context, x, Stored(v)) == iset t: Term | t.BNode? && Finds(v, a, x, t.id);
  }

  lemma StoredSubjects(v: View)
    ensures NoLiteralSubjects(Stored(v))
  {
  }

  // ---------- The outer join ----------

  // A row of the MATCH.
  ghost predicate IsRow(v: View, a: O.Op, mu: Solution) {
    mu.Keys == OpVars(a) && BindsNodes(v, OpVars(a), mu) && O.Sat(v.m, v.graph, a, EnvOf(mu))
  }

  // The row together with nodes that satisfy the optional pattern.
  ghost predicate IsExtension(v: View, a: O.Op, b: O.Op, mu: Solution, nu: Solution) {
    && Extends(mu, nu) && nu.Keys == OpVars(a) + OpVars(b)
    && BindsNodes(v, OpVars(b), nu) && O.Sat(v.m, v.graph, b, EnvOf(nu))
  }

  ghost predicate AgreesAfter(v: View, lit: Serializer, a: O.Op, b: O.Op) {
    forall nu: Solution :: nu.Keys == OpVars(a) + OpVars(b) && BindsNodes(v, OpVars(a) + OpVars(b), nu) ==> TermsAgree(v, lit, b, nu, EnvOf(nu))
  }

  lemma FlatSolvesFrom(parts: seq<Part>, g: Store, mu: Solution, nu: Solution)
    requires (forall part :: part in parts ==> IsFlat(part)) && HasBoundFilters(parts, mu.Keys + BindVars(parts))
    ensures Solves(parts, g, mu, nu) <==> Extends(mu, nu) && nu.Keys == mu.Keys + BindVars(parts) && PartsHold(parts, g, nu)
  {
    hide Reaches, BindVars, Holds;
    FlatReaches(parts, g, mu, nu);
    if nu.Keys == mu.Keys + BindVars(parts) {
      forall part | part in parts
        ensures PartHolds(part, g, nu) <==> Matches(part, g, nu) && FilterHolds(part, g, nu)
      {
        if part.NotExists? {
          var alt := part.alternatives[0];
          assert alt == [alt[0]] && part.alternatives == [alt];
          SingleNotExists(part.alternatives[0][0], g, nu);
        }
      }
    }
  }

  lemma EnvStands(mu: Solution, xs: set<string>)
    requires xs <= mu.Keys
    ensures Stands(EnvOf(mu), mu, xs)
  {
  }

  lemma RowIff(v: View, a: O.Op, lit: Serializer, meaning: FilterMeaning, mu: Solution)
    requires GoodView(v) && IsSimple(a, v, lit) && AllAgree(v, lit, a)
    ensures WhereParts(a, v.base, lit, meaning).Ok?
    ensures IsSolution(WhereParts(a, v.base, lit, meaning).value, Stored(v), mu) <==> IsRow(v, a, mu)
  {
    hide Stored, GoodView, IsSimpleIn, WhereParts, O.Sat, IsSolution, TermsAgree;
    if mu.Keys == OpVars(a) {
      EnvStands(mu, OpVars(a));
    }
    WhereIsSat(v, a, lit, meaning, mu, EnvOf(mu));
  }

  lemma ExtensionIff(v: View, a: O.Op, b: O.Op, lit: Serializer, meaning: FilterMeaning, mu: Solution, nu: Solution)
    requires GoodView(v) && IsRow(v, a, mu) && IsSimpleIn(b, v, lit, OpVars(a)) && AgreesAfter(v, lit, a, b)
    ensures WhereParts(b, v.base, lit, meaning).Ok?
    ensures Solves(WhereParts(b, v.base, lit, meaning).value, Stored(v), mu, nu) <==> IsExtension(v, a, b, mu, nu)
  {
    hide Stored, GoodView, IsSimpleIn, WhereParts, O.Sat, TermsAgree, PartsHold, BindVars, IsFlat, OpVars, Solves, HasBoundFilters, EnvOf, Stands;
    var xs := OpVars(a);
    OpFlatIn(b, v, lit, meaning, xs);
    OpFiltersIn(b, v, lit, meaning, xs, OpVars(b) + xs);
    var body := WhereParts(b, v.base, lit, meaning).value;
    assert mu.Keys + BindVars(body) == xs + OpVars(b);
    FiltersWithin(body, OpVars(b) + xs, mu.Keys + BindVars(body));
    FlatSolvesFrom(body, Stored(v), mu, nu);
    if Extends(mu, nu) && nu.Keys == xs + OpVars(b) {
      assert BindsNodes(v, xs, nu);
      BodyIsSat(v, b, lit, meaning, nu, xs);
    }
  }

  lemma BodyIsSat(v: View, b: O.Op, lit: Serializer, meaning: FilterMeaning, nu: Solution, xs: set<string>)
    requires GoodView(v) && IsSimpleIn(b, v, lit, xs) && nu.Keys == xs + OpVars(b) && BindsNodes(v, xs, nu)
    requires BindsNodes(v, xs + OpVars(b), nu) ==> TermsAgree(v, lit, b, nu, EnvOf(nu))
    ensures WhereParts(b, v.base, lit, meaning).Ok?
    ensures PartsHold(WhereParts(b, v.base, lit, meaning).value, Stored(v), nu) <==> BindsNodes(v, OpVars(b), nu) && O.Sat(v.m, v.graph, b, EnvOf(nu))
  {
    hide Stored, GoodView, IsSimpleIn, WhereParts, O.Sat, TermsAgree, PartsHold, OpVars, EnvOf, Stands;
    EnvStands(nu, OpVars(b) + xs);
    OpHolds(v, b, lit, meaning, nu, EnvOf(nu), xs);
  }

  lemma FiltersWithin(parts: seq<Part>, xs: set<string>, ys: set<string>)
    requires HasBoundFilters(parts, xs) && xs <= ys
    ensures HasBoundFilters(parts, ys)
  {
  }

  // Over the store of a property graph, the solutions of MATCH a OPTIONAL MATCH b are the
  // rows of a, each extended by every way of satisfying b and left alone where there is none.
  lemma OptionalIsOuterJoin(v: View, a: O.Op, b: O.Op, lit: Serializer, meaning: FilterMeaning, nu: Solution)
    requires GoodView(v) && IsSimple(a, v, lit) && IsSimpleIn(b, v, lit, OpVars(a)) && AllAgree(v, lit, a) && AgreesAfter(v, lit, a, b)
    ensures WhereParts(O.LeftOuterJoin(a, b), v.base, lit, meaning).Ok?
    ensures IsSolution(WhereParts(O.LeftOuterJoin(a, b), v.base, lit, meaning).value, Stored(v), nu)
       <==> exists mu: Solution :: IsRow(v, a, mu)
              && (IsExtension(v, a, b, mu, nu) || (nu == mu && !exists xi: Solution :: IsExtension(v, a, b, mu, xi)))
  {
    hide Stored, GoodView, IsSimpleIn, WhereParts, IsSolution, Solves, IsRow, IsExtension, AllAgree, AgreesAfter, OpVars, IsFlat, IsSettled;
    RowIff(v, a, lit, meaning, nu);
    OpFlatIn(b, v, lit, meaning, OpVars(a));
    OptionalParts(v, a, b, lit, meaning);
    var l, body, g := WhereParts(a, v.base, lit, meaning).value, WhereParts(b, v.base, lit, meaning).value, Stored(v);
    forall mu: Solution
      ensures IsSolution(l, g, mu) <==> IsRow(v, a, mu)
    {
      RowIff(v, a, lit, meaning, mu);
    }
    forall mu: Solution, xi: Solution | IsRow(v, a, mu)
      ensures Solves(body, g, mu, xi) <==> IsExtension(v, a, b, mu, xi)
    {
      ExtensionIff(v, a, b, lit, meaning, mu, xi);
    }
    if body == [] {
      assert l + [] == l;
      NothingToSolve(g, nu);
      forall mu: Solution | Solves(body, g, mu, nu)
        ensures nu == mu
      {
        NothingSolved(g, mu, nu);
      }
    } else {
      SettledOf(v, a, b, lit, meaning);
      OptionalSolutions(l, body, g, nu);
      forall mu: Solution
        ensures Step(Optional(body), g, mu, nu) <==> Solves(body, g, mu, nu) || (nu == mu && !exists xi: Solution :: Solves(body, g, mu, xi))
      {
        OptionalStep(body, g, mu, nu);
      }
    }
  }

  lemma OptionalStep(body: seq<Part>, g: Store, mu: Solution, nu: Solution)
    ensures Step(Optional(body), g, mu, nu) <==> Solves(body, g, mu, nu) || (nu == mu && !exists xi: Solution :: Solves(body, g, mu, xi))
  {
    var q := Optional(body);
    if exists xi: Solution :: Solves(body, g, mu, xi) {
      var xi: Solution :| Solves(body, g, mu, xi);
      assert Solves(q.body, g, mu, xi);
    }
    if exists xi: Solution :: Solves(q.body, g, mu, xi) {
      var xi: Solution :| Solves(q.body, g, mu, xi);
      assert Solves(body, g, mu, xi);
    }
  }

  lemma NothingToSolve(g: Store, mu: Solution)
    ensures Solves([], g, mu, mu)
  {
  }

  lemma NothingSolved(g: Store, mu: Solution, nu: Solution)
    requires Solves([], g, mu, nu)
    ensures nu == mu
  {
  }

  lemma SettledOf(v: View, a: O.Op, b: O.Op, lit: Serializer, meaning: FilterMeaning)
    requires IsSimple(a, v, lit) && IsSimpleIn(b, v, lit, OpVars(a)) && WhereParts(a, v.base, lit, meaning).Ok? && WhereParts(b, v.base, lit, meaning).Ok?
    ensures IsSettled(WhereParts(a, v.base, lit, meaning).value, WhereParts(b, v.base, lit, meaning).value)
  {
    hide IsSimpleIn, WhereParts, BindVars, IsFlat;
    var l := WhereParts(a, v.base, lit, meaning).value;
    OpFlat(a, v, lit, meaning);
    OpFilters(a, v, lit, meaning, OpVars(a));
    VarsWithin(l, OpVars(a));
    NoFilter(l);
    forall part, y | part in l && part.NotExists? && y in PartVars(part)
      ensures Binds(l, y)
    {
      PartVarsIn(l, part);
      FlatIsSure(l, y);
    }
  }

  // ---------- SET on a variable that only the OPTIONAL MATCH binds ----------

  // Some row leaves x unbound.
  ghost predicate HasOpenRow(context: seq<Part>, x: string, g: Store) {
    exists mu: Solution :: IsSolution(context, g, mu) && x !in mu
  }

  ghost function Reached(context: seq<Part>, x: string, p: Term, g: Store): iset<Term> {
    Matched(context, x, g) + if HasOpenRow(context, x, g) then U.Havers(p, g) else iset{}
  }

  // No filter looks at x, and nothing at the variable for the old value.
  ghost predicate IsLoose(context: seq<Part>, x: string, old_: string) {
    && old_ !in PartsVars(context) && old_ != x
    && forall part :: part in context && (part.Filter? || part.NotExists?) ==> x !in PartVars(part)
  }

  lemma LooseStep(x: string, p: Term, old_: string, strict: bool, g: Store, mu: Solution, nu: Solution)
    requires old_ !in mu && old_ != x && Step(OldPart(x, p, old_, strict), g, mu, nu)
    ensures Extends(mu, nu) && nu.Keys <= mu.Keys + {x, old_}
  {
    hide Step;
    if x in mu {
      OldPartStep(x, p, old_, strict, g, mu, nu);
    } else {
      U.AnyStep(x, p, old_, strict, g, mu, nu);
    }
  }

  lemma LooseSolutions(context: seq<Part>, x: string, p: Term, old_: string, strict: bool, g: Store, nu: Solution)
    requires IsLoose(context, x, old_)
    ensures IsSolution(context + [OldPart(x, p, old_, strict)], g, nu)
       <==> exists mu: Solution :: IsSolution(context, g, mu) && old_ !in mu && Step(OldPart(x, p, old_, strict), g, mu, nu)
  {
    hide Step, OldPart, FilterHolds, Reaches;
    var q := OldPart(x, p, old_, strict);
    var all := context + [q];
    ReachesAppend(context, q, g, map[], nu);
    assert forall part :: part in all <==> part in context || part == q;
    U.LookupIsNoFilter(x, p, old_, strict, g, nu);
    forall mu: Solution | Reaches(context, g, map[], mu)
      ensures old_ !in mu
    {
      ReachesDomain(context, g, map[], mu);
    }
    forall mu: Solution | Reaches(context, g, map[], mu) && Step(q, g, mu, nu)
      ensures (forall part :: part in context ==> FilterHolds(part, g, nu)) <==> (forall part :: part in context ==> FilterHolds(part, g, mu))
    {
      LooseStep(x, p, old_, strict, g, mu, nu);
      LooseFilters(context, x, old_, g, mu, nu);
    }
  }

  lemma LooseFilters(context: seq<Part>, x: string, old_: string, g: Store, mu: Solution, nu: Solution)
    requires IsLoose(context, x, old_) && Extends(mu, nu) && nu.Keys <= mu.Keys + {x, old_}
    ensures (forall part :: part in context ==> FilterHolds(part, g, nu)) <==> (forall part :: part in context ==> FilterHolds(part, g, mu))
  {
    forall part | part in context
      ensures FilterHolds(part, g, nu) <==> FilterHolds(part, g, mu)
    {
      PartVarsIn(context, part);
      if part.Filter? || part.NotExists? {
        FilterSame(part, g, mu, nu);
      } else {
        NeitherFilters(part, g, mu);
        NeitherFilters(part, g, nu);
      }
    }
  }

  lemma NeitherFilters(part: Part, g: Store, mu: Solution)
    requires !part.Filter? && !part.NotExists?
    ensures FilterHolds(part, g, mu)
  {
  }

  lemma LooseDeletes(context: seq<Part>, x: string, w: Write, old_: string, g: Store, t: Triple)
    requires w.Put? && IsLoose(context, x, old_) && NoLiteralSubjects(g)
    ensures t in g ==> (Deletes(CompileWrite(x, w, old_, context), g, t) <==> t.s in Reached(context, x, w.property, g) && t.p == w.property)
  {
    hide IsSolution, Step, IsLoose;
    var u, q, del := CompileWrite(x, w, old_, context), OldPart(x, w.property, old_, w.strict), OldTriple(x, w.property, old_);
    assert u.pattern == context + [q] && u.delete == [del];
    NotX(context, x, old_);
    if t in g && Deletes(u, g, t) {
      var nu: Solution, tp :| IsSolution(u.pattern, g, nu) && tp in u.delete && InstTp(tp, nu) == Some(t);
      LooseSolutions(context, x, w.property, old_, w.strict, g, nu);
      var mu: Solution :| IsSolution(context, g, mu) && old_ !in mu && Step(q, g, mu, nu);
      LooseStep(x, w.property, old_, w.strict, g, mu, nu);
      assert nu[x] == t.s;
      if x in mu {
        assert t.s in Matched(context, x, g);
      } else {
        assert t.s in U.Havers(w.property, g);
      }
    }
    if t in g && t.s in Reached(context, x, w.property, g) && t.p == w.property {
      var mu, nu := RowFor(context, x, w.property, old_, w.strict, g, t.s, t.o);
      LooseSolutions(context, x, w.property, old_, w.strict, g, nu);
      assert IsSolution(u.pattern, g, nu) && del in u.delete && InstTp(del, nu) == Some(t);
    }
  }

  lemma NotX(context: seq<Part>, x: string, old_: string)
    requires IsLoose(context, x, old_)
    ensures old_ != x
  {
  }

  // A row in which x is the node s and the old value o.
  lemma RowFor(context: seq<Part>, x: string, p: Term, old_: string, strict: bool, g: Store, s: Term, o: Term) returns (mu: Solution, nu: Solution)
    requires IsLoose(context, x, old_) && s in Reached(context, x, p, g) && Triple(s, p, o) in g
    ensures IsSolution(context, g, mu) && old_ !in mu && Step(OldPart(x, p, old_, strict), g, mu, nu)
    ensures x in nu && nu[x] == s && old_ in nu && nu[old_] == o
  {
    hide IsSolution, Step;
    if s in Matched(context, x, g) {
      mu :| IsSolution(context, g, mu) && x in mu && !mu[x].Lit? && mu[x] == s;
      OldIsNew(context, x, old_, g, mu);
      nu := mu[old_ := o];
      OldPartStep(x, p, old_, strict, g, mu, nu);
    } else {
      mu :| IsSolution(context, g, mu) && x !in mu;
      OldIsNew(context, x, old_, g, mu);
      nu := mu[x := s][old_ := o];
      U.AnyStep(x, p, old_, strict, g, mu, nu);
    }
  }

  lemma OldIsNew(context: seq<Part>, x: string, old_: string, g: Store, mu: Solution)
    requires IsLoose(context, x, old_) && IsSolution(context, g, mu)
    ensures old_ !in mu
  {
    ReachesDomain(context, g, map[], mu);
  }

  lemma LooseInserts(context: seq<Part>, x: string, w: Write, old_: string, g: Store, supply: Supply, t: Triple)
    requires w.Put? && IsLoose(context, x, old_) && NoLiteralSubjects(g) && (w.strict ==> w.value.None?)
    ensures Inserts(CompileWrite(x, w, old_, context), g, supply, t)
       <==> t.s in Reached(context, x, w.property, g) && t.p == w.property && w.value == Some(t.o)
  {
    hide IsSolution, Step, IsLoose;
    var u, q := CompileWrite(x, w, old_, context), OldPart(x, w.property, old_, w.strict);
    assert u.pattern == context + [q];
    NotX(context, x, old_);
    if Inserts(u, g, supply, t) {
      var nu: Solution, tp :| IsSolution(u.pattern, g, nu) && tp in u.insert && InsertsBy(tp, nu, supply, t);
      LooseSolutions(context, x, w.property, old_, w.strict, g, nu);
      var mu: Solution :| IsSolution(context, g, mu) && old_ !in mu && Step(q, g, mu, nu);
      LooseStep(x, w.property, old_, w.strict, g, mu, nu);
      assert nu[x] == t.s;
      if x in mu {
        assert t.s in Matched(context, x, g);
      } else {
        U.AnyStep(x, w.property, old_, w.strict, g, mu, nu);
        var s: Term, o: Term :| Triple(s, w.property, o) in g && nu == mu[x := s][old_ := o];
        assert s in U.Havers(w.property, g);
      }
    }
    if t.s in Reached(context, x, w.property, g) && t.p == w.property && w.value == Some(t.o) {
      var nu := RowToWrite(context, x, w.property, old_, w.strict, g, t.s);
      assert IsSolution(u.pattern, g, nu) && u.insert[0] in u.insert && InsertsBy(u.insert[0], nu, supply, t);
    }
  }

  lemma RowToWrite(context: seq<Part>, x: string, p: Term, old_: string, strict: bool, g: Store, s: Term) returns (nu: Solution)
    requires IsLoose(context, x, old_) && s in Reached(context, x, p, g) && !strict && NoLiteralSubjects(g)
    ensures IsSolution(context + [OldPart(x, p, old_, strict)], g, nu) && x in nu && nu[x] == s && !s.Lit?
  {
    hide IsSolution, Step, IsLoose;
    if o: Term :| Triple(s, p, o) in g {
      var mu;
      mu, nu := RowFor(context, x, p, old_, strict, g, s, o);
      LooseSolutions(context, x, p, old_, strict, g, nu);
    } else {
      U.HaversHave(p, g);
      assert s in Matched(context, x, g);
      nu :| IsSolution(context, g, nu) && x in nu && !nu[x].Lit? && nu[x] == s;
      OldIsNew(context, x, old_, g, nu);
      OldPartStep(x, p, old_, strict, g, nu, nu);
      LooseSolutions(context, x, p, old_, strict, g, nu);
    }
  }

  // The update writes to the nodes the rows bind x to, and, as soon as one row leaves x
  // unbound, to everything that has the property.
  lemma LooseWriteHasEffect(context: seq<Part>, x: string, w: Write, old_: string, g: Store, supply: Supply)
    requires w.Put? && IsLoose(context, x, old_) && NoLiteralSubjects(g) && (w.strict ==> w.value.None?)
    ensures Run(CompileWrite(x, w, old_, context), g, supply) == Effect(w, Reached(context, x, w.property, g), g)
  {
    hide Deletes, Inserts, CompileWrite, HasOpenRow, IsLoose, Matched;
    var u := CompileWrite(x, w, old_, context);
    forall t: Triple
      ensures t in Run(u, g, supply) <==> t in Effect(w, Reached(context, x, w.property, g), g)
    {
      LooseDeletes(context, x, w, old_, g, t);
      LooseInserts(context, x, w, old_, g, supply, t);
    }
  }

  lemma LooseContext(v: View, a: O.Op, b: O.Op, lit: Serializer, meaning: FilterMeaning, x: string, old_: string)
    requires AreCovered(a, [b], v, lit) && x in OpVars(b) && x !in OpVars(a) && old_ !in OpVars(a) + OpVars(b) && old_ != x
    ensures WhereParts(O.LeftOuterJoin(a, b), v.base, lit, meaning).Ok?
    ensures var context := WhereParts(O.LeftOuterJoin(a, b), v.base, lit, meaning).value; context != [] && IsLoose(context, x, old_)
  {
    hide WhereParts, IsNamedIn, Matched, OpVars, Avoids, BindVars, IsFlat;
    var bs := [b];
    assert bs[..0] == [] && WithOptionals(a, bs[..0]) == a && ClauseVars(a, bs[..0]) == OpVars(a);
    assert WithOptionals(a, bs) == O.LeftOuterJoin(a, b) && ClauseVars(a, bs) == OpVars(a) + OpVars(b);
    OptionalsKeepNodes(v, a, bs, lit, meaning);
    BodyOf(v, b, lit, meaning, OpVars(a));
    OptionalParts(v, a, b, lit, meaning);
    var body := WhereParts(b, v.base, lit, meaning).value;
    BindVarsOfNothing();
    assert body != [];
  }

  lemma BindVarsOfNothing()
    ensures BindVars([]) == {}
  {
  }

  // MATCH a OPTIONAL MATCH b SET x.k = e, x being bound by b alone: over every store, it
  // works on the nodes that the rows give x exactly when no row leaves x unbound, or
  // everything else that has k has just the value written.
  lemma SetOverOptionalIff(v: View, a: O.Op, b: O.Op, lit: Serializer, meaning: FilterMeaning, x: string, key: string, e: L.Expr, g: Store, supply: Supply)
    requires AreCovered(a, [b], v, lit) && x in OpVars(b) && x !in OpVars(a) && OldVar(x, key) !in OpVars(a) + OpVars(b)
    requires (lit(e).Some? || e == L.Lit(L.Null)) && NoLiteralSubjects(g)
    ensures WhereParts(O.LeftOuterJoin(a, b), v.base, lit, meaning).Ok?
    ensures var context, w := WhereParts(O.LeftOuterJoin(a, b), v.base, lit, meaning).value, Put(PropIri(v.base, key), lit(e), false);
            var us := CompileItem(Property(x, key, e), context, v.base, lit);
            && us.Ok?
            && var h := RunAll(us.value, g, supply);
            && h == Effect(w, Reached(context, x, w.property, g), g)
            && (h == Effect(w, Matched(context, x, g), g)
                <==> (HasOpenRow(context, x, g) ==> forall n: Term :: n in U.Havers(w.property, g) && n !in Matched(context, x, g) ==> U.IsGiven(n, w, g)))
  {
    hide WhereParts, AreCovered, CompileWrite, Effect, Run, OldVar, IsLoose, Matched, HasOpenRow, OpVars, U.IsGiven, U.Havers;
    OldVarDiffers(x, key);
    LooseContext(v, a, b, lit, meaning, x, OldVar(x, key));
    var context, w := WhereParts(O.LeftOuterJoin(a, b), v.base, lit, meaning).value, Put(PropIri(v.base, key), lit(e), false);
    var us := CompileItem(Property(x, key, e), context, v.base, lit).value;
    assert us == [CompileWrite(x, w, OldVar(x, key), context)] && us[1..] == [];
    assert RunAll(us[1..], Run(us[0], g, supply), supply) == Run(us[0], g, supply);
    LooseWriteHasEffect(context, x, w, OldVar(x, key), g, supply);
    U.EffectsEqualIff(w, Reached(context, x, w.property, g), Matched(context, x, g), g);
  }

  lemma OldVarDiffers(x: string, key: string)
    ensures OldVar(x, key) != x
  {
    assert |OldVar(x, key)| > |x|;
  }
}

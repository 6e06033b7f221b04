/** Relationships of several types or of none, and renamed variables, in the
    WHERE clause of an update.

    Several types are joined, where Cypher asks for any of them; without a type
    an undirected relationship also leads to terms that are no nodes.
 */
module WhereExpands {
  import opened Prelude
  import opened Sparql
  import opened WriteSet
  import opened Where
  import opened WhereMeaning
  import opened WhereOptional
  import L = Lqa
  import O = Ops

  // ---------- Several types ----------

  lemma {:induction false} EdgePartsHold(v: View, from: string, to: string, types: seq<string>, dir: O.Direction, mu: Solution)
    requires GoodView(v) && (forall t :: t in types ==> GoodType(v, t)) && from in mu && to in mu
    ensures PartsHold(EdgeParts(from, to, types, dir, v.base), Stored(v), mu) <==> forall t :: t in types ==> EdgeBetween(v, mu[from], mu[to], t, dir)
  {
    hide GoodView, GoodType, Stored, EdgeBetween, PartsHold, PartHolds, EdgePart;
    if types == [] {
      NoParts(Stored(v), mu);
    } else {
      var first := EdgePart(from, Const(TypeIri(v.base, types[0])), to, dir);
      EdgePartHolds(v, from, to, types[0], dir, mu);
      EdgePartsHold(v, from, to, types[1..], dir, mu);
      OnePart(first, Stored(v), mu);
      PartsHoldAppend([first], EdgeParts(from, to, types[1..], dir, v.base), Stored(v), mu);
      assert forall t :: t in types <==> t == types[0] || t in types[1..];
    }
  }

  lemma {:induction false} EdgePartsFlat(from: string, to: string, types: seq<string>, dir: O.Direction, base: string)
    ensures var parts := EdgeParts(from, to, types, dir, base);
            IsFlatGroup(parts, {from, to}) && HasBoundFilters(parts, {}) && (types != [] ==> BindVars(parts) == {from, to})
  {
    hide IsFlatGroup, BindVars;
    if types == [] {
      NothingFlat();
      FlatWiden([], {}, {from, to});
    } else {
      var first := EdgePart(from, Const(TypeIri(base, types[0])), to, dir);
      EdgeFlat(from, Const(TypeIri(base, types[0])), to, dir);
      EdgePartsFlat(from, to, types[1..], dir, base);
      FlatAppend([first], EdgeParts(from, to, types[1..], dir, base), {from, to});
      FlatBinds(EdgeParts(from, to, types[1..], dir, base), {from, to});
    }
  }

  // The nodes are joined by every one of the types.
  ghost predicate JoinedByAll(v: View, from: string, to: string, types: seq<string>, dir: O.Direction, mu: Solution) {
    from in mu && to in mu && forall t :: t in types ==> EdgeBetween(v, mu[from], mu[to], t, dir)
  }

  ghost predicate JoinedByOne(v: View, from: string, to: string, types: seq<string>, dir: O.Direction, mu: Solution) {
    from in mu && to in mu && exists t :: t in types && EdgeBetween(v, mu[from], mu[to], t, dir)
  }

  lemma MoreParts(inner: seq<Part>, more: seq<Part>, xs: set<string>, ys: set<string>)
    requires IsFlatGroup(inner, xs) && BindVars(inner) == xs && HasBoundFilters(inner, xs)
    requires IsFlatGroup(more, xs + ys) && BindVars(more) <= xs + ys && ys <= BindVars(more) + xs && HasBoundFilters(more, {})
    ensures forall part :: part in inner + more ==> IsFlat(part)
    ensures BindVars(inner + more) == xs + ys && HasBoundFilters(inner + more, xs + ys)
  {
    FlatWiden(inner, xs, xs + ys);
    FlatAppend(inner, more, xs + ys);
  }

  // The solutions of the clause join the two nodes by every type.
  lemma SeveralTypes(v: View, inner: O.Op, from: string, to: string, types: seq<string>, dir: O.Direction, lit: Serializer, meaning: FilterMeaning, mu: Solution)
    requires GoodView(v) && IsSimple(inner, v, lit) && AllAgree(v, lit, inner) && from in OpVars(inner)
    requires types != [] && forall t :: t in types ==> GoodType(v, t)
    ensures var op := O.Expand(inner, from, None, to, types, dir, None, None);
            var parts := WhereParts(op, v.base, lit, meaning);
            && parts.Ok?
            && (IsSolution(parts.value, Stored(v), mu)
                <==> mu.Keys == OpVars(inner) + {to} && IsRow(v, inner, Restrict(mu, OpVars(inner))) && JoinedByAll(v, from, to, types, dir, mu))
  {
    hide Stored, GoodView, GoodType, IsSimpleIn, PartsHold, BindVars, IsFlatGroup, HasBoundFilters, EdgeBetween, WhereParts, IsFlat, IsRow, AllAgree;
    OpFlat(inner, v, lit, meaning);
    OpFilters(inner, v, lit, meaning, OpVars(inner));
    var a, edges := WhereParts(inner, v.base, lit, meaning).value, EdgeParts(from, to, types, dir, v.base);
    ExpandedParts(inner, from, to, types, dir, v.base, lit, meaning);
    EdgePartsFlat(from, to, types, dir, v.base);
    FlatWiden(edges, {from, to}, OpVars(inner) + {to});
    MoreParts(a, edges, OpVars(inner), {to});
    FlatSolves(a + edges, Stored(v), mu);
    if mu.Keys == OpVars(inner) + {to} {
      PartsHoldAppend(a, edges, Stored(v), mu);
      EdgePartsHold(v, from, to, types, dir, mu);
      InnerHolds(v, inner, lit, meaning, mu);
    }
  }

  lemma ExpandedParts(inner: O.Op, from: string, to: string, types: seq<string>, dir: O.Direction, base: string, lit: Serializer, meaning: FilterMeaning)
    requires WhereParts(inner, base, lit, meaning).Ok?
    ensures WhereParts(O.Expand(inner, from, None, to, types, dir, None, None), base, lit, meaning)
         == Ok(WhereParts(inner, base, lit, meaning).value + ExpandParts(from, to, types, dir, base))
    ensures types != [] ==> ExpandParts(from, to, types, dir, base) == EdgeParts(from, to, types, dir, base)
  {
  }

  // The part of a solution that concerns the variables xs.
  function Restrict(mu: Solution, xs: set<string>): Solution {
    map x | x in mu && x in xs :: mu[x]
  }

  lemma PartsHoldSame(parts: seq<Part>, g: Store, mu: Solution, nu: Solution)
    requires (forall part :: part in parts ==> IsFlat(part)) && BindVars(parts) <= mu.Keys && HasBoundFilters(parts, mu.Keys) && Extends(mu, nu)
    ensures PartsHold(parts, g, mu) <==> PartsHold(parts, g, nu)
  {
    forall part | part in parts
      ensures PartHolds(part, g, mu) <==> PartHolds(part, g, nu)
    {
      VarsOfPart(parts, part);
      match part {
        case Match(tp) => HoldsExtends(tp, g, mu, nu);
        case Either(l, r) =>
          HoldsExtends(l, g, mu, nu);
          HoldsExtends(r, g, mu, nu);
        case NotExists(alts) => HoldsExtends(alts[0][0], g, mu, nu);
      }
    }
  }

  lemma {:induction false} VarsOfPart(parts: seq<Part>, part: Part)
    requires part in parts
    ensures part.Match? ==> TpVars(part.tp) <= BindVars(parts)
    ensures part.Either? ==> TpVars(part.left) <= BindVars(parts)
  {
    if part != parts[0] {
      VarsOfPart(parts[1..], part);
    }
  }

  // The parts of the operators below hold of a row and whatever extends it.
  lemma InnerHolds(v: View, inner: O.Op, lit: Serializer, meaning: FilterMeaning, mu: Solution)
    requires GoodView(v) && IsSimple(inner, v, lit) && AllAgree(v, lit, inner) && OpVars(inner) <= mu.Keys
    ensures WhereParts(inner, v.base, lit, meaning).Ok?
    ensures PartsHold(WhereParts(inner, v.base, lit, meaning).value, Stored(v), mu) <==> IsRow(v, inner, Restrict(mu, OpVars(inner)))
  {
    hide Stored, GoodView, IsSimpleIn, PartsHold, WhereParts, OpVars, AllAgree, IsRow, BindVars, IsFlat, HasBoundFilters, IsSolution;
    var xi := Restrict(mu, OpVars(inner));
    assert xi.Keys == OpVars(inner);
    OpFlat(inner, v, lit, meaning);
    OpFilters(inner, v, lit, meaning, OpVars(inner));
    PartsHoldSame(WhereParts(inner, v.base, lit, meaning).value, Stored(v), xi, mu);
    SolutionKeys(v, inner, lit, meaning, xi);
    RowIff(v, inner, lit, meaning, xi);
  }

  // Joined by one type is what the operators ask for.
  lemma OneIsConnected(v: View, from: string, to: string, types: seq<string>, dir: O.Direction, mu: Solution, env: L.Env)
    requires O.WellFormed(v.graph) && types != [] && from in mu && to in mu && IsNodeTerm(v, mu[from]) && Stands(env, mu, {from, to})
    ensures JoinedByOne(v, from, to, types, dir, mu)
       <==> exists rel :: O.Connects(v.graph, L.Lookup(env, from), rel, L.Lookup(env, to), types, dir, None)
  {
    var a, b := L.Lookup(env, from), L.Lookup(env, to);
    if t :| t in types && EdgeBetween(v, mu[from], mu[to], t, dir) {
      var e :| e in v.graph.edges && e.typ == t
               && ((dir != O.Incoming && mu[from] == BNode(e.src) && mu[to] == BNode(e.dst)) || (dir != O.Outgoing && mu[to] == BNode(e.src) && mu[from] == BNode(e.dst)));
      assert O.Follows(e, a, b, dir, types);
      assert O.Connects(v.graph, a, L.VRel(e.id), b, types, dir, None);
    }
    if rel :| O.Connects(v.graph, a, rel, b, types, dir, None) {
      var e :| e in v.graph.edges && O.Follows(e, a, b, dir, types);
      assert EdgeBetween(v, mu[from], mu[to], e.typ, dir);
    }
  }

  // (a)-[:S|T]->(b) is right for writing exactly when nodes joined by one of the types are
  // joined by all of them.
  lemma SeveralTypesIff(v: View, inner: O.Op, from: string, to: string, types: seq<string>, dir: O.Direction, lit: Serializer, meaning: FilterMeaning)
    requires GoodView(v) && IsSimple(inner, v, lit) && AllAgree(v, lit, inner) && from in OpVars(inner)
    requires types != [] && forall t :: t in types ==> GoodType(v, t)
    ensures var op := O.Expand(inner, from, None, to, types, dir, None, None);
            var parts, xs := WhereParts(op, v.base, lit, meaning), OpVars(inner);
            && parts.Ok?
            && ((forall mu: Solution :: IsSolution(parts.value, Stored(v), mu)
                   <==> mu.Keys == xs + {to} && IsRow(v, inner, Restrict(mu, xs)) && JoinedByOne(v, from, to, types, dir, mu))
                <==> forall mu: Solution :: mu.Keys == xs + {to} && IsRow(v, inner, Restrict(mu, xs)) && JoinedByOne(v, from, to, types, dir, mu)
                       ==> JoinedByAll(v, from, to, types, dir, mu))
  {
    hide Stored, GoodView, GoodType, IsSimpleIn, AllAgree, IsRow, WhereParts, IsSolution, OpVars, EdgeBetween, Restrict;
    var parts := WhereParts(O.Expand(inner, from, None, to, types, dir, None, None), v.base, lit, meaning);
    SeveralTypes(v, inner, from, to, types, dir, lit, meaning, map[]);
    forall mu: Solution
      ensures IsSolution(parts.value, Stored(v), mu)
         <==> mu.Keys == OpVars(inner) + {to} && IsRow(v, inner, Restrict(mu, OpVars(inner))) && JoinedByAll(v, from, to, types, dir, mu)
    {
      SeveralTypes(v, inner, from, to, types, dir, lit, meaning, mu);
    }
    assert types[0] in types;
  }

  // ---------- No type ----------

  function PredVar(from: string, to: string): string {
    "__pred_" + from + "_" + to
  }

  // Whatever leads to a blank node is a relationship.
  lemma AnyEdgeStored(v: View, s: Term, p: Term, o: Term)
    requires GoodView(v) && o.BNode?
    ensures Triple(s, p, o) in Stored(v) <==> exists e :: e in v.graph.edges && p == TypeIri(v.base, e.typ) && s == BNode(e.src) && o == BNode(e.dst)
  {
    var t := Triple(s, p, o);
    if t in Stored(v) {
      assert IsEdge(v, t);
    }
    if e :| e in v.graph.edges && p == TypeIri(v.base, e.typ) && s == BNode(e.src) && o == BNode(e.dst) {
      assert IsEdge(v, t);
    }
  }

  // A relationship of the type that the variable for the predicate is bound to.
  ghost predicate JoinedSomehow(v: View, from: string, to: string, dir: O.Direction, mu: Solution) {
    && from in mu && to in mu && PredVar(from, to) in mu
    && exists e :: e in v.graph.edges && mu[PredVar(from, to)] == TypeIri(v.base, e.typ)
         && ((dir != O.Incoming && mu[from] == BNode(e.src) && mu[to] == BNode(e.dst)) || (dir != O.Outgoing && mu[to] == BNode(e.src) && mu[from] == BNode(e.dst)))
  }

  lemma UntypedFlat(from: string, to: string, dir: O.Direction, base: string)
    ensures var parts := ExpandParts(from, to, [], dir, base);
            IsFlatGroup(parts, {from, to, PredVar(from, to)}) && HasBoundFilters(parts, {}) && BindVars(parts) == {from, to, PredVar(from, to)}
  {
    var pred, parts := Var(PredVar(from, to)), ExpandParts(from, to, [], dir, base);
    assert TpVars(TP(Var(from), pred, Var(to))) == TpVars(TP(Var(to), pred, Var(from))) == {from, to, PredVar(from, to)};
    match dir {
      case Undirected =>
        assert parts[1..] == [] && BindVars(parts[1..]) == {};
      case _ =>
        assert parts[1..][1..] == [] && BindVars(parts[1..][1..]) == {};
        assert parts[1..] == [parts[1]] && BindVars(parts[1..]) == {from, to, PredVar(from, to)};
    }
  }

  lemma UntypedHolds(v: View, from: string, to: string, dir: O.Direction, mu: Solution)
    requires GoodView(v) && from in mu && to in mu && PredVar(from, to) in mu && IsNodeTerm(v, mu[from])
    ensures var holds := PartsHold(ExpandParts(from, to, [], dir, v.base), Stored(v), mu);
            && (dir != O.Undirected ==> (holds <==> JoinedSomehow(v, from, to, dir, mu)))
            && (dir == O.Undirected ==>
                  (holds <==> JoinedSomehow(v, from, to, dir, mu)
                              || (!mu[to].BNode? && Triple(mu[from], mu[PredVar(from, to)], mu[to]) in Stored(v))))
  {
    hide Stored, GoodView;
    var g, pred, parts := Stored(v), PredVar(from, to), ExpandParts(from, to, [], dir, v.base);
    var out, back := TP(Var(from), Var(pred), Var(to)), TP(Var(to), Var(pred), Var(from));
    assert Holds(out, g, mu) <==> Triple(mu[from], mu[pred], mu[to]) in g;
    assert Holds(back, g, mu) <==> Triple(mu[to], mu[pred], mu[from]) in g;
    AnyEdgeStored(v, mu[to], mu[pred], mu[from]);
    if mu[to].BNode? {
      AnyEdgeStored(v, mu[from], mu[pred], mu[to]);
    }
    EdgesJoinNodes(v);
    match dir {
      case Undirected => OnePart(parts[0], g, mu);
      case Outgoing =>
        SentinelHolds(v, to, mu);
        assert PartsHold(parts, g, mu) <==> PartHolds(parts[0], g, mu) && PartHolds(parts[1], g, mu);
      case Incoming =>
        SentinelHolds(v, from, mu);
        assert PartsHold(parts, g, mu) <==> PartHolds(parts[0], g, mu) && PartHolds(parts[1], g, mu);
    }
  }

  lemma EdgesJoinNodes(v: View)
    requires GoodView(v)
    ensures forall e :: e in v.graph.edges ==> e.src in v.graph.nodes && e.dst in v.graph.nodes
  {
  }

  lemma SentinelHolds(v: View, x: string, mu: Solution)
    requires GoodView(v) && x in mu
    ensures PartHolds(Sentinel(x, v.base), Stored(v), mu) <==> IsNodeTerm(v, mu[x])
  {
    hide Stored, GoodView;
    HoldsOf(x, NodeIri(v.base), NodeIri(v.base), Stored(v), mu);
    SentinelStored(v, mu[x]);
  }

  // The solutions of an expansion without a type.
  lemma Untyped(v: View, inner: O.Op, from: string, to: string, dir: O.Direction, lit: Serializer, meaning: FilterMeaning, mu: Solution)
    requires GoodView(v) && IsSimple(inner, v, lit) && AllAgree(v, lit, inner) && from in OpVars(inner)
    ensures var op := O.Expand(inner, from, None, to, [], dir, None, None);
            var parts, xs := WhereParts(op, v.base, lit, meaning), OpVars(inner);
            && parts.Ok?
            && (IsSolution(parts.value, Stored(v), mu)
                <==> mu.Keys == xs + {to, PredVar(from, to)} && IsRow(v, inner, Restrict(mu, xs))
                     && PartsHold(ExpandParts(from, to, [], dir, v.base), Stored(v), mu))
  {
    hide Stored, GoodView, IsSimpleIn, PartsHold, BindVars, IsFlatGroup, HasBoundFilters, WhereParts, IsFlat, IsRow, AllAgree, ExpandParts, OpVars, PredVar;
    OpFlat(inner, v, lit, meaning);
    OpFilters(inner, v, lit, meaning, OpVars(inner));
    var a, edges, ys := WhereParts(inner, v.base, lit, meaning).value, ExpandParts(from, to, [], dir, v.base), {to, PredVar(from, to)};
    ExpandedParts(inner, from, to, [], dir, v.base, lit, meaning);
    UntypedFlat(from, to, dir, v.base);
    FlatWiden(edges, {from, to, PredVar(from, to)}, OpVars(inner) + ys);
    MoreParts(a, edges, OpVars(inner), ys);
    FlatSolves(a + edges, Stored(v), mu);
    if mu.Keys == OpVars(inner) + ys {
      PartsHoldAppend(a, edges, Stored(v), mu);
      InnerHolds(v, inner, lit, meaning, mu);
    }
  }

  lemma RowNode(v: View, inner: O.Op, mu: Solution, x: string)
    requires x in OpVars(inner) && IsRow(v, inner, Restrict(mu, OpVars(inner)))
    ensures x in mu && IsNodeTerm(v, mu[x])
  {
    assert x in Restrict(mu, OpVars(inner));
  }

  // (a)-->(b) and (a)<--(b) are right: the solutions join nodes by some relationship.
  lemma UntypedDirected(v: View, inner: O.Op, from: string, to: string, dir: O.Direction, lit: Serializer, meaning: FilterMeaning, mu: Solution)
    requires GoodView(v) && IsSimple(inner, v, lit) && AllAgree(v, lit, inner) && from in OpVars(inner) && dir != O.Undirected
    ensures var op := O.Expand(inner, from, None, to, [], dir, None, None);
            var parts, xs := WhereParts(op, v.base, lit, meaning), OpVars(inner);
            && parts.Ok?
            && (IsSolution(parts.value, Stored(v), mu)
                <==> mu.Keys == xs + {to, PredVar(from, to)} && IsRow(v, inner, Restrict(mu, xs)) && JoinedSomehow(v, from, to, dir, mu))
  {
    hide Stored, GoodView, IsSimpleIn, PartsHold, WhereParts, IsRow, AllAgree, ExpandParts, OpVars, IsSolution, PredVar;
    Untyped(v, inner, from, to, dir, lit, meaning, mu);
    if mu.Keys == OpVars(inner) + {to, PredVar(from, to)} && IsRow(v, inner, Restrict(mu, OpVars(inner))) {
      RowNode(v, inner, mu, from);
      UntypedHolds(v, from, to, dir, mu);
    }
  }

  // (a)--(b) binds b to nodes only exactly when nothing is matched before it: every node has
  // a triple that leads to the term of the sentinel.
  lemma UntypedUndirectedIff(v: View, inner: O.Op, from: string, to: string, lit: Serializer, meaning: FilterMeaning)
    requires GoodView(v) && IsSimple(inner, v, lit) && AllAgree(v, lit, inner)
    requires from in OpVars(inner) && to !in OpVars(inner) && PredVar(from, to) !in OpVars(inner) + {to}
    ensures var op := O.Expand(inner, from, None, to, [], O.Undirected, None, None);
            var parts := WhereParts(op, v.base, lit, meaning);
            && parts.Ok?
            && ((forall mu: Solution :: IsSolution(parts.value, Stored(v), mu) ==> to in mu && IsNodeTerm(v, mu[to]))
                <==> forall mu: Solution :: !IsRow(v, inner, mu))
            && (forall mu: Solution :: to in mu && IsNodeTerm(v, mu[to]) ==>
                  (IsSolution(parts.value, Stored(v), mu)
                   <==> mu.Keys == OpVars(inner) + {to, PredVar(from, to)} && IsRow(v, inner, Restrict(mu, OpVars(inner)))
                        && JoinedSomehow(v, from, to, O.Undirected, mu)))
  {
    hide Stored, GoodView, IsSimpleIn, PartsHold, WhereParts, IsRow, AllAgree, ExpandParts, OpVars, IsSolution, PredVar, Restrict;
    var xs, pred := OpVars(inner), PredVar(from, to);
    var parts := WhereParts(O.Expand(inner, from, None, to, [], O.Undirected, None, None), v.base, lit, meaning);
    Untyped(v, inner, from, to, O.Undirected, lit, meaning, map[]);
    forall mu: Solution | to in mu && IsNodeTerm(v, mu[to])
      ensures IsSolution(parts.value, Stored(v), mu)
         <==> mu.Keys == xs + {to, pred} && IsRow(v, inner, Restrict(mu, xs)) && JoinedSomehow(v, from, to, O.Undirected, mu)
    {
      Untyped(v, inner, from, to, O.Undirected, lit, meaning, mu);
      if mu.Keys == xs + {to, pred} && IsRow(v, inner, Restrict(mu, xs)) {
        RowNode(v, inner, mu, from);
        UntypedHolds(v, from, to, O.Undirected, mu);
      }
    }
    forall mu: Solution | IsRow(v, inner, mu)
      ensures exists nu: Solution :: IsSolution(parts.value, Stored(v), nu) && to in nu && !IsNodeTerm(v, nu[to])
    {
      var nu := SentinelRow(v, inner, from, to, lit, meaning, mu);
    }
    forall nu: Solution | IsSolution(parts.value, Stored(v), nu)
      ensures IsRow(v, inner, Restrict(nu, xs))
    {
      Untyped(v, inner, from, to, O.Undirected, lit, meaning, nu);
    }
  }

  lemma SentinelRow(v: View, inner: O.Op, from: string, to: string, lit: Serializer, meaning: FilterMeaning, mu: Solution) returns (nu: Solution)
    requires GoodView(v) && IsSimple(inner, v, lit) && AllAgree(v, lit, inner) && IsRow(v, inner, mu)
    requires from in OpVars(inner) && to !in OpVars(inner) && PredVar(from, to) !in OpVars(inner) + {to}
    ensures var parts := WhereParts(O.Expand(inner, from, None, to, [], O.Undirected, None, None), v.base, lit, meaning);
            parts.Ok? && IsSolution(parts.value, Stored(v), nu) && to in nu && !IsNodeTerm(v, nu[to])
  {
    hide Stored, GoodView, IsSimpleIn, PartsHold, WhereParts, AllAgree, ExpandParts, OpVars, IsSolution, PredVar, O.Sat;
    var sentinel := NodeIri(v.base);
    nu := mu[to := sentinel][PredVar(from, to) := sentinel];
    assert Restrict(nu, OpVars(inner)) == mu;
    Untyped(v, inner, from, to, O.Undirected, lit, meaning, nu);
    UntypedHolds(v, from, to, O.Undirected, nu);
    SentinelStored(v, mu[from]);
  }

  // ---------- Renamed variables ----------

  predicate IsRename(item: O.ProjItem) {
    item.expr.Variable? && item.expr.name != item.alias
  }

  // The aliases are new: to the clause, to each other and to the variables renamed.
  ghost predicate HasNewAliases(items: seq<O.ProjItem>, context: seq<Part>) {
    && (forall i :: 0 <= i < |items| ==> items[i].expr.Variable?)
    && (forall i :: 0 <= i < |items| && IsRename(items[i]) ==> items[i].alias !in PartsVars(context))
    && (forall i, j :: 0 <= i < |items| && 0 <= j < |items| && IsRename(items[i]) ==> items[j].expr.name != items[i].alias)
    && (forall i, j :: 0 <= i < j < |items| && IsRename(items[i]) && IsRename(items[j]) ==> items[i].alias != items[j].alias)
  }

  // nu is mu with every alias bound as its variable is, or unbound if that is.
  ghost predicate IsRenamed(items: seq<O.ProjItem>, mu: Solution, nu: Solution)
    requires forall i :: 0 <= i < |items| ==> items[i].expr.Variable?
  {
    && Extends(mu, nu)
    && (forall i :: 0 <= i < |items| && IsRename(items[i]) ==>
          if items[i].expr.name in mu then items[i].alias in nu && nu[items[i].alias] == mu[items[i].expr.name] else items[i].alias !in nu)
    && forall y :: y in nu && y !in mu ==> exists i :: 0 <= i < |items| && IsRename(items[i]) && items[i].alias == y
  }

  lemma {:induction false} ReachesConcat(a: seq<Part>, b: seq<Part>, g: Store, mu: Solution, nu: Solution)
    ensures Reaches(a + b, g, mu, nu) <==> exists xi: Solution :: Reaches(a, g, mu, xi) && Reaches(b, g, xi, nu)
  {
    hide Step;
    if a == [] {
      assert a + b == b;
      assert Reaches(a, g, mu, mu);
    } else {
      assert (a + b)[0] == a[0] && (a + b)[1..] == a[1..] + b;
      if Reaches(a + b, g, mu, nu) {
        var om := ReachesSplit(a + b, g, mu, nu);
        ReachesConcat(a[1..], b, g, om, nu);
        var xi: Solution :| Reaches(a[1..], g, om, xi) && Reaches(b, g, xi, nu);
        assert Reaches(a, g, mu, xi);
      }
      forall xi: Solution | Reaches(a, g, mu, xi) && Reaches(b, g, xi, nu)
        ensures Reaches(a + b, g, mu, nu)
      {
        var om := ReachesSplit(a, g, mu, xi);
        ReachesConcat(a[1..], b, g, om, nu);
        assert Reaches(a[1..], g, om, xi) && Reaches(b, g, xi, nu);
        assert Reaches(a[1..] + b, g, om, nu);
        assert Step((a + b)[0], g, mu, om) && Reaches((a + b)[1..], g, om, nu);
      }
    }
  }

  // What the items ask of a row by itself.
  ghost predicate AreNewTo(items: seq<O.ProjItem>, mu: Solution) {
    && (forall i :: 0 <= i < |items| ==> items[i].expr.Variable?)
    && (forall i :: 0 <= i < |items| && IsRename(items[i]) ==> items[i].alias !in mu)
    && (forall i, j :: 0 <= i < |items| && 0 <= j < |items| && IsRename(items[i]) ==> items[j].expr.name != items[i].alias)
    && (forall i, j :: 0 <= i < j < |items| && IsRename(items[i]) && IsRename(items[j]) ==> items[i].alias != items[j].alias)
  }

  lemma {:induction false} RenamesReach(items: seq<O.ProjItem>, g: Store, mu: Solution, nu: Solution)
    requires AreNewTo(items, mu)
    ensures Reaches(RenameParts(items), g, mu, nu) <==> IsRenamed(items, mu, nu)
  {
    if items == [] {
      if IsRenamed(items, mu, nu) {
        assert nu == mu;
      }
    } else {
      var rest := items[1..];
      ShiftedItems(items);
      if IsRename(items[0]) {
        var src, alias := items[0].expr.name, items[0].alias;
        var xi := if src in mu then mu[alias := mu[src]] else mu;
        FirstRename(items, g, mu, xi, nu);
        RestIsNew(items, mu, xi);
        RenamesReach(rest, g, xi, nu);
        RenamedFirst(items, mu, xi, nu);
      } else {
        assert RenameParts(items) == RenameParts(rest);
        RestIsNew(items, mu, mu);
        RenamesReach(rest, g, mu, nu);
        KeptFirst(items, mu, nu);
      }
    }
  }

  lemma ShiftedItems(items: seq<O.ProjItem>)
    requires items != []
    ensures forall i {:trigger items[1..][i]} :: 0 <= i < |items[1..]| ==> items[1..][i] == items[i + 1]
  {
  }

  lemma FirstRename(items: seq<O.ProjItem>, g: Store, mu: Solution, xi: Solution, nu: Solution)
    requires items != [] && AreNewTo(items, mu) && IsRename(items[0])
    requires xi == if items[0].expr.name in mu then mu[items[0].alias := mu[items[0].expr.name]] else mu
    requires forall i :: 0 <= i < |items[1..]| ==> items[1..][i].expr.Variable?
    ensures Reaches(RenameParts(items), g, mu, nu) <==> Reaches(RenameParts(items[1..]), g, xi, nu)
  {
    var parts := RenameParts(items);
    var bind := Bind(items[0].expr.name, items[0].alias);
    assert parts == [bind] + RenameParts(items[1..]) && parts[1..] == RenameParts(items[1..]);
    assert forall om: Solution :: Step(bind, g, mu, om) <==> om == xi;
    if Reaches(parts, g, mu, nu) {
      var om := ReachesSplit(parts, g, mu, nu);
    }
    if Reaches(RenameParts(items[1..]), g, xi, nu) {
      assert Step(parts[0], g, mu, xi) && Reaches(parts[1..], g, xi, nu);
    }
  }

  lemma RestIsNew(items: seq<O.ProjItem>, mu: Solution, xi: Solution)
    requires items != [] && AreNewTo(items, mu)
    requires xi == mu || (IsRename(items[0]) && items[0].expr.name in mu && xi == mu[items[0].alias := mu[items[0].expr.name]])
    ensures AreNewTo(items[1..], xi)
  {
    var rest := items[1..];
    forall i | 0 <= i < |rest| && IsRename(rest[i])
      ensures rest[i].alias !in xi
      ensures forall j :: 0 <= j < |rest| ==> rest[j].expr.name != rest[i].alias
      ensures forall j :: i < j < |rest| && IsRename(rest[j]) ==> rest[i].alias != rest[j].alias
    {
      assert rest[i] == items[i + 1];
      forall j | 0 <= j < |rest|
        ensures rest[j].expr.name != rest[i].alias
        ensures i < j && IsRename(rest[j]) ==> rest[i].alias != rest[j].alias
      {
        assert rest[j] == items[j + 1];
      }
    }
  }

  lemma FirstAliasIsItsOwn(items: seq<O.ProjItem>, mu: Solution)
    requires items != [] && AreNewTo(items, mu) && IsRename(items[0])
    ensures forall k :: 0 <= k < |items[1..]| && IsRename(items[1..][k]) ==> items[1..][k].alias != items[0].alias
  {
    forall k | 0 <= k < |items[1..]| && IsRename(items[1..][k])
      ensures items[1..][k].alias != items[0].alias
    {
      assert items[1..][k] == items[k + 1];
    }
  }

  lemma RenamedFirst(items: seq<O.ProjItem>, mu: Solution, xi: Solution, nu: Solution)
    requires items != [] && AreNewTo(items, mu) && IsRename(items[0]) && AreNewTo(items[1..], xi)
    requires xi == if items[0].expr.name in mu then mu[items[0].alias := mu[items[0].expr.name]] else mu
    ensures IsRenamed(items, mu, nu) <==> IsRenamed(items[1..], xi, nu)
  {
    hide IsRenamed;
    if IsRenamed(items, mu, nu) {
      RenamedTail(items, mu, xi, nu);
    }
    if IsRenamed(items[1..], xi, nu) {
      RenamedWhole(items, mu, xi, nu);
    }
  }

  lemma RenamedTail(items: seq<O.ProjItem>, mu: Solution, xi: Solution, nu: Solution)
    requires items != [] && AreNewTo(items, mu) && IsRename(items[0]) && AreNewTo(items[1..], xi) && IsRenamed(items, mu, nu)
    requires xi == if items[0].expr.name in mu then mu[items[0].alias := mu[items[0].expr.name]] else mu
    ensures IsRenamed(items[1..], xi, nu)
  {
    var rest := items[1..];
    forall i | 0 <= i < |rest| && IsRename(rest[i])
      ensures if rest[i].expr.name in xi then rest[i].alias in nu && nu[rest[i].alias] == xi[rest[i].expr.name] else rest[i].alias !in nu
    {
      assert rest[i] == items[i + 1];
    }
    forall y | y in nu && y !in xi
      ensures exists i :: 0 <= i < |rest| && IsRename(rest[i]) && rest[i].alias == y
    {
      var i :| 0 <= i < |items| && IsRename(items[i]) && items[i].alias == y;
      assert i > 0 && rest[i - 1] == items[i];
    }
  }

  lemma RenamedWhole(items: seq<O.ProjItem>, mu: Solution, xi: Solution, nu: Solution)
    requires items != [] && AreNewTo(items, mu) && IsRename(items[0]) && AreNewTo(items[1..], xi) && IsRenamed(items[1..], xi, nu)
    requires xi == if items[0].expr.name in mu then mu[items[0].alias := mu[items[0].expr.name]] else mu
    ensures IsRenamed(items, mu, nu)
  {
    var rest, alias := items[1..], items[0].alias;
    FirstAliasIsItsOwn(items, mu);
    forall i | 0 <= i < |items| && IsRename(items[i])
      ensures if items[i].expr.name in mu then items[i].alias in nu && nu[items[i].alias] == mu[items[i].expr.name] else items[i].alias !in nu
    {
      if i > 0 {
        assert rest[i - 1] == items[i];
      }
    }
    forall y | y in nu && y !in mu
      ensures exists i :: 0 <= i < |items| && IsRename(items[i]) && items[i].alias == y
    {
      if y != alias {
        var i :| 0 <= i < |rest| && IsRename(rest[i]) && rest[i].alias == y;
        assert items[i + 1] == rest[i];
      }
    }
  }

  lemma KeptFirst(items: seq<O.ProjItem>, mu: Solution, nu: Solution)
    requires items != [] && AreNewTo(items, mu) && !IsRename(items[0]) && AreNewTo(items[1..], mu)
    ensures IsRenamed(items, mu, nu) <==> IsRenamed(items[1..], mu, nu)
  {
    var rest := items[1..];
    assert forall i {:trigger rest[i]} :: 0 <= i < |rest| ==> rest[i] == items[i + 1];
    forall i | 0 < i < |items|
      ensures items[i] == rest[i - 1]
    {
    }
    if IsRenamed(items, mu, nu) {
      forall y | y in nu && y !in mu
        ensures exists i :: 0 <= i < |rest| && IsRename(rest[i]) && rest[i].alias == y
      {
        var i :| 0 <= i < |items| && IsRename(items[i]) && items[i].alias == y;
        assert rest[i - 1] == items[i];
      }
    }
    if IsRenamed(rest, mu, nu) {
      forall i | 0 <= i < |items| && IsRename(items[i])
        ensures if items[i].expr.name in mu then items[i].alias in nu && nu[items[i].alias] == mu[items[i].expr.name] else items[i].alias !in nu
      {
        assert rest[i - 1] == items[i];
      }
    }
  }

  // WITH of variables, renamed or not, over any clause: every row gets the new names.
  lemma RenamedSolutions(inner: O.Op, items: seq<O.ProjItem>, distinct: bool, base: string, lit: Serializer, meaning: FilterMeaning, g: Store, nu: Solution)
    requires WhereParts(inner, base, lit, meaning).Ok? && HasNewAliases(items, WhereParts(inner, base, lit, meaning).value)
    ensures var context, parts := WhereParts(inner, base, lit, meaning).value, WhereParts(O.Projection(inner, items, distinct), base, lit, meaning);
            && parts.Ok?
            && (IsSolution(parts.value, g, nu) <==> exists mu: Solution :: IsSolution(context, g, mu) && IsRenamed(items, mu, nu))
  {
    hide IsRenamed, FilterHolds, WhereParts, Reaches, IsRename;
    var context, binds := WhereParts(inner, base, lit, meaning).value, RenameParts(items);
    ProjectedParts(inner, items, distinct, base, lit, meaning);
    ReachesConcat(context, binds, g, map[], nu);
    BindsDoNotFilter(items, g, nu);
    forall mu: Solution | Reaches(context, g, map[], mu)
      ensures Reaches(binds, g, mu, nu) <==> IsRenamed(items, mu, nu)
    {
      ReachesDomain(context, g, map[], mu);
      RenamesReach(items, g, mu, nu);
    }
    forall mu: Solution | IsRenamed(items, mu, nu)
      ensures (forall part :: part in context ==> FilterHolds(part, g, nu)) <==> (forall part :: part in context ==> FilterHolds(part, g, mu))
    {
      RenamedFilters(context, items, g, mu, nu);
    }
    assert forall part :: part in context + binds <==> part in context || part in binds;
    if IsSolution(context + binds, g, nu) {
      var mu: Solution :| Reaches(context, g, map[], mu) && Reaches(binds, g, mu, nu);
      assert IsSolution(context, g, mu);
    }
    forall mu: Solution | IsSolution(context, g, mu) && IsRenamed(items, mu, nu)
      ensures IsSolution(context + binds, g, nu)
    {
      assert Reaches(context, g, map[], mu) && Reaches(binds, g, mu, nu);
    }
  }

  lemma ProjectedParts(inner: O.Op, items: seq<O.ProjItem>, distinct: bool, base: string, lit: Serializer, meaning: FilterMeaning)
    requires WhereParts(inner, base, lit, meaning).Ok? && forall i :: 0 <= i < |items| ==> items[i].expr.Variable?
    ensures WhereParts(O.Projection(inner, items, distinct), base, lit, meaning) == Ok(WhereParts(inner, base, lit, meaning).value + RenameParts(items))
  {
  }

  lemma {:induction false} BindsDoNotFilter(items: seq<O.ProjItem>, g: Store, nu: Solution)
    requires forall i :: 0 <= i < |items| ==> items[i].expr.Variable?
    ensures forall part :: part in RenameParts(items) ==> FilterHolds(part, g, nu)
  {
    if items != [] {
      BindsDoNotFilter(items[1..], g, nu);
    }
  }

  lemma RenamedFilters(context: seq<Part>, items: seq<O.ProjItem>, g: Store, mu: Solution, nu: Solution)
    requires HasNewAliases(items, context) && IsRenamed(items, mu, nu)
    ensures (forall part :: part in context ==> FilterHolds(part, g, nu)) <==> (forall part :: part in context ==> FilterHolds(part, g, mu))
  {
    forall part | part in context
      ensures FilterHolds(part, g, nu) <==> FilterHolds(part, g, mu)
    {
      PartVarsIn(context, part);
      FilterSame(part, g, mu, nu);
    }
  }

  // So a write to the new name works on the nodes of the old one.
  lemma RenamedNodes(inner: O.Op, items: seq<O.ProjItem>, distinct: bool, base: string, lit: Serializer, meaning: FilterMeaning, g: Store, i: nat)
    requires WhereParts(inner, base, lit, meaning).Ok? && HasNewAliases(items, WhereParts(inner, base, lit, meaning).value)
    requires i < |items| && IsRename(items[i])
    ensures WhereParts(O.Projection(inner, items, distinct), base, lit, meaning).Ok?
    ensures Matched(WhereParts(O.Projection(inner, items, distinct), base, lit, meaning).value, items[i].alias, g)
         == Matched(WhereParts(inner, base, lit, meaning).value, items[i].expr.name, g)
  {
    hide IsSolution, WhereParts, IsRename, Extends;
    var context, src, alias := WhereParts(inner, base, lit, meaning).value, items[i].expr.name, items[i].alias;
    RenamedSolutions(inner, items, distinct, base, lit, meaning, g, map[]);
    var parts := WhereParts(O.Projection(inner, items, distinct), base, lit, meaning).value;
    forall n: Term
      ensures n in Matched(parts, alias, g) <==> n in Matched(context, src, g)
    {
      if n in Matched(parts, alias, g) {
        var nu: Solution :| IsSolution(parts, g, nu) && alias in nu && !nu[alias].Lit? && nu[alias] == n;
        RenamedSolutions(inner, items, distinct, base, lit, meaning, g, nu);
        var mu: Solution :| IsSolution(context, g, mu) && IsRenamed(items, mu, nu);
        assert mu[src] == n;
      }
      if n in Matched(context, src, g) {
        var mu: Solution :| IsSolution(context, g, mu) && src in mu && !mu[src].Lit? && mu[src] == n;
        var nu := Renamed(context, items, g, mu);
        RenamedSolutions(inner, items, distinct, base, lit, meaning, g, nu);
      }
    }
  }

  lemma Renamed(context: seq<Part>, items: seq<O.ProjItem>, g: Store, mu: Solution) returns (nu: Solution)
    requires HasNewAliases(items, context) && IsSolution(context, g, mu)
    ensures IsRenamed(items, mu, nu)
  {
    ReachesDomain(context, g, map[], mu);
    nu := AfterRenames(items, g, mu);
    RenamesReach(items, g, mu, nu);
  }

  lemma {:induction false} AfterRenames(items: seq<O.ProjItem>, g: Store, mu: Solution) returns (nu: Solution)
    requires AreNewTo(items, mu)
    ensures Reaches(RenameParts(items), g, mu, nu)
  {
    if items == [] {
      nu := mu;
    } else if IsRename(items[0]) {
      var src, alias := items[0].expr.name, items[0].alias;
      var xi := if src in mu then mu[alias := mu[src]] else mu;
      RestIsNew(items, mu, xi);
      nu := AfterRenames(items[1..], g, xi);
      FirstRename(items, g, mu, xi, nu);
    } else {
      RestIsNew(items, mu, mu);
      nu := AfterRenames(items[1..], g, mu);
      assert RenameParts(items) == RenameParts(items[1..]);
    }
  }
}

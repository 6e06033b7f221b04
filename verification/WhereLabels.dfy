/** NOT with a label check of several labels in the WHERE clause of a write.

    The compiler turns NOT x:A:B into one NOT EXISTS for each label, as if it read
    NOT x:A AND NOT x:B.
 */
module WhereLabels {
  import opened Prelude
  import opened Sparql
  import opened WriteSet
  import opened Where
  import opened WhereMeaning
  import opened WherePredicates
  import L = Lqa
  import O = Ops

  ghost predicate HasNone(v: View, n: nat, labels: seq<string>) {
    forall l :: l in labels ==> !v.m.hasLabel(L.VNode(n), l)
  }

  ghost predicate HasAll(v: View, n: nat, labels: seq<string>) {
    forall l :: l in labels ==> v.m.hasLabel(L.VNode(n), l)
  }

  lemma {:induction false} NoLabelPartsHold(v: View, x: string, labels: seq<string>, mu: Solution)
    requires GoodView(v) && x in mu && IsNodeTerm(v, mu[x])
    ensures PartsHold(NoLabelParts(x, labels, v.base), Stored(v), mu) <==> HasNone(v, mu[x].id, labels)
  {
    hide Stored, GoodView, PartsHold;
    if labels == [] {
      NothingHolds(Stored(v), mu);
    } else {
      NoLabelPartsHold(v, x, labels[1..], mu);
      var tp := LabelPattern(x, labels[0], v.base);
      OnePart(NotExists([[tp]]), Stored(v), mu);
      LabelStored(v, mu[x], labels[0]);
      HoldsOf(x, Iri(RDF_TYPE), Iri(v.base + labels[0]), Stored(v), mu);
      PartsHoldAppend([NotExists([[tp]])], NoLabelParts(x, labels[1..], v.base), Stored(v), mu);
      assert forall l :: l in labels <==> l == labels[0] || l in labels[1..];
    }
  }

  lemma NothingHolds(g: Store, mu: Solution)
    ensures PartsHold([], g, mu)
  {
  }

  lemma {:induction false} NoLabelsBindNothing(x: string, labels: seq<string>, base: string)
    ensures BindVars(NoLabelParts(x, labels, base)) == {}
  {
    if labels != [] {
      NoLabelsBindNothing(x, labels[1..], base);
    }
  }

  // Filters added to a group of patterns.
  lemma FiltersAdded(below: seq<Part>, own: seq<Part>, g: Store, mu: Solution)
    requires IsFlatGroup(below, mu.Keys) && IsFlatGroup(own, mu.Keys) && BindVars(below) == mu.Keys && BindVars(own) == {}
    requires HasBoundFilters(below, mu.Keys) && HasBoundFilters(own, mu.Keys)
    ensures (exists nu: Solution :: Extends(mu, nu) && IsSolution(below + own, g, nu)) <==> PartsHold(below, g, mu) && PartsHold(own, g, mu)
  {
    hide PartsHold, IsSolution, BindVars, IsFlat;
    FlatAppend(below, own, mu.Keys);
    PartsHoldAppend(below, own, g, mu);
    FlatSolves(below + own, g, mu);
    assert Extends(mu, mu);
    forall nu: Solution | Extends(mu, nu) && IsSolution(below + own, g, nu)
      ensures nu == mu
    {
      FlatSolves(below + own, g, nu);
    }
  }

  lemma NotLabelsParts(x: string, labels: seq<string>, inner: O.Op, base: string, lit: Serializer, meaning: FilterMeaning)
    requires WhereParts(inner, base, lit, meaning).Ok?
    ensures WhereParts(O.Selection(inner, L.Not(L.LabelCheck(L.Variable(x), labels))), base, lit, meaning)
         == Ok(WhereParts(inner, base, lit, meaning).value + NoLabelParts(x, labels, base))
  {
    hide NoLabelParts;
  }

  // A solution below passes exactly when its node has none of the labels.
  lemma NotLabelsKeeps(v: View, inner: O.Op, x: string, labels: seq<string>, lit: Serializer, meaning: FilterMeaning, mu: Solution)
    requires GoodView(v) && IsSimple(inner, v, lit) && x in OpVars(inner) && AssignsNodes(v, inner, mu)
    ensures Kept(v, O.Selection(inner, L.Not(L.LabelCheck(L.Variable(x), labels))), lit, meaning, mu)
       <==> Solved(v, inner, lit, meaning, mu) && HasNone(v, mu[x].id, labels)
  {
    hide Stored, GoodView, PartsHold, IsSimple, WhereParts, IsSolution, IsFlat, IsFlatGroup, HasBoundFilters, NoLabelParts, BindVars, HasNone;
    var xs := OpVars(inner);
    OpFlat(inner, v, lit, meaning);
    OpFilters(inner, v, lit, meaning, xs);
    LabelPartsFlat(x, labels, v.base);
    LabelFilters(x, labels, v.base, xs);
    NoLabelsBindNothing(x, labels, v.base);
    FlatWiden(NoLabelParts(x, labels, v.base), {x}, xs);
    NotLabelsParts(x, labels, inner, v.base, lit, meaning);
    FiltersAdded(WhereParts(inner, v.base, lit, meaning).value, NoLabelParts(x, labels, v.base), Stored(v), mu);
    SolutionKeys(v, inner, lit, meaning, mu);
    NoLabelPartsHold(v, x, labels, mu);
  }

  // WHERE NOT x:A:B is right exactly when no matched node has some of the labels without
  // having all of them.
  lemma NotLabelsIff(v: View, inner: O.Op, x: string, labels: seq<string>, lit: Serializer, meaning: FilterMeaning)
    requires GoodView(v) && IsSimple(inner, v, lit) && AllAgree(v, lit, inner) && x in OpVars(inner)
    ensures Right(v, O.Selection(inner, L.Not(L.LabelCheck(L.Variable(x), labels))), lit, meaning)
       <==> forall n :: Finds(v, inner, x, n) ==> (HasNone(v, n, labels) <==> !HasAll(v, n, labels))
  {
    hide GoodView, IsSimple, AllAgree, Right, Finds, L.Eval, HasNone, Kept, Solved, WhereParts;
    var p := L.Not(L.LabelCheck(L.Variable(x), labels));
    OpFlat(inner, v, lit, meaning);
    forall mu: Solution | AssignsNodes(v, inner, mu)
      ensures Kept(v, O.Selection(inner, p), lit, meaning, mu) <==> Solved(v, inner, lit, meaning, mu) && HasNone(v, mu[x].id, labels)
      ensures L.Eval(v.m, p, EnvOf(mu), []) == Some(L.VBool(true)) <==> !HasAll(v, mu[x].id, labels)
    {
      NotLabelsKeeps(v, inner, x, labels, lit, meaning, mu);
      assert L.Lookup(EnvOf(mu), x) == L.VNode(mu[x].id);
      EvalLabels(v.m, x, labels, mu[x].id, EnvOf(mu));
    }
    SelectionRightIff(v, inner, p, x, lit, meaning, (n: nat) => HasNone(v, n, labels), (n: nat) => !HasAll(v, n, labels));
  }

  // ---------- Which operators have a clause ----------

  // No path of variable length and no computed column anywhere in the tree.
  predicate IsExpressible(op: O.Op) {
    match op
    case Unit => true
    case Scan(_, _, _) => true
    case Expand(inner, _, _, _, _, _, range, _) => range == None && IsExpressible(inner)
    case Selection(inner, _) => IsExpressible(inner)
    case Projection(inner, items, _) => IsExpressible(inner) && forall item :: item in items ==> item.expr.Variable?
    case CartesianProduct(a, b) => IsExpressible(a) && IsExpressible(b)
    case LeftOuterJoin(a, b) => IsExpressible(a) && IsExpressible(b)
  }

  // A tree has a WHERE clause exactly when it is expressible, whatever its predicates are.
  lemma {:induction false} ExpressibleIff(op: O.Op, base: string, lit: Serializer, meaning: FilterMeaning)
    ensures WhereParts(op, base, lit, meaning).Ok? <==> IsExpressible(op)
  {
    hide PredicateParts, ExpandParts, LabelParts, RenameParts;
    match op {
      case Expand(inner, _, _, _, _, _, _, _) => ExpressibleIff(inner, base, lit, meaning);
      case Selection(inner, _) => ExpressibleIff(inner, base, lit, meaning);
      case Projection(inner, items, _) =>
        ExpressibleIff(inner, base, lit, meaning);
        assert (forall item :: item in items ==> item.expr.Variable?) <==> forall i :: 0 <= i < |items| ==> items[i].expr.Variable?;
      case CartesianProduct(a, b) =>
        ExpressibleIff(a, base, lit, meaning);
        ExpressibleIff(b, base, lit, meaning);
      case LeftOuterJoin(a, b) =>
        ExpressibleIff(a, base, lit, meaning);
        ExpressibleIff(b, base, lit, meaning);
      case _ =>
    }
  }
}

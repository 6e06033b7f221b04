/** Comparisons of two properties in the WHERE clause of a write.

    Each side is looked up by an OPTIONAL, under a variable whose name is made of the
    node's variable and the key, and a FILTER compares what was found.  Two properties
    may be given the same name; the filter then compares a value with itself.
 */
module WhereFilters {
  import opened Prelude
  import opened Sparql
  import opened WriteSet
  import opened Where
  import opened WhereMeaning
  import opened WherePredicates
  import P = WhereOptional
  import C = Constants
  import L = Lqa
  import O = Ops

  // ---------- The sides ----------

  // x.k under i minus signs.
  datatype Operand = Operand(x: string, k: string, minus: nat)

  function Negated(i: nat, e: L.Expr): L.Expr {
    if i == 0 then e else L.Unary(L.Neg, Negated(i - 1, e))
  }

  function ExprOf(a: Operand): L.Expr {
    Negated(a.minus, L.Property(L.Variable(a.x), a.k))
  }

  function Name(a: Operand): string {
    FilterVar(a.x, a.k)
  }

  function Look(a: Operand, base: string): Part {
    OldPart(a.x, PropIri(base, a.k), Name(a), false)
  }

  lemma {:induction false} SideOf(i: nat, x: string, k: string, base: string, lit: Serializer)
    ensures FilterSide(Negated(i, L.Property(L.Variable(x), k)), base, lit)
         == Some(Side([Look(Operand(x, k, i), base)], Var(FilterVar(x, k)), i))
  {
    if i > 0 {
      SideOf(i - 1, x, k, base, lit);
    }
  }

  lemma SideOfOperand(a: Operand, base: string, lit: Serializer)
    ensures FilterSide(ExprOf(a), base, lit) == Some(Side([Look(a, base)], Var(Name(a)), a.minus))
  {
    SideOf(a.minus, a.x, a.k, base, lit);
  }

  // The property of the node under the assignment, as it is stored.
  function Found(v: View, a: Operand, mu: Solution): Option<Term>
    requires a.x in mu && mu[a.x].BNode?
  {
    var value := PropertyOf(v, mu[a.x].id, a.k);
    if value.VNull? then None else v.repr(value)
  }

  // The lookup binds its variable to the property; once bound, it stays.
  function Looked(v: View, a: Operand, mu: Solution): Solution
    requires a.x in mu && mu[a.x].BNode?
  {
    if Name(a) in mu || Found(v, a, mu).None? then mu else mu[Name(a) := Found(v, a, mu).value]
  }

  lemma StepBound(t: TriplePattern, g: Store, mu: Solution, nu: Solution)
    requires TpVars(t) <= mu.Keys
    ensures Step(Optional([Match(t)]), g, mu, nu) <==> nu == mu
  {
    var body := [Match(t)];
    forall xi: Solution
      ensures Solves(body, g, mu, xi) <==> xi == mu && Holds(t, g, mu)
    {
      OneBgp(t, g, mu, xi);
    }
  }

  lemma OneBgp(t: TriplePattern, g: Store, mu: Solution, xi: Solution)
    requires TpVars(t) <= mu.Keys
    ensures Solves([Match(t)], g, mu, xi) <==> xi == mu && Holds(t, g, mu)
  {
    var body := [Match(t)];
    assert body[1..] == [];
    SingleBgp(t, g, mu, xi);
    assert Reaches(body, g, mu, xi) <==> BgpMatch([t], g, mu, xi) by {
      if BgpMatch([t], g, mu, xi) {
        assert Step(body[0], g, mu, xi) && Reaches(body[1..], g, xi, xi);
      }
    }
    if mu.Keys == xi.Keys && Extends(mu, xi) {
      assert mu == xi;
    }
  }

  lemma LookStep(v: View, a: Operand, mu: Solution, nu: Solution)
    requires GoodView(v) && GoodKey(v, a.k) && a.x in mu && IsNodeTerm(v, mu[a.x])
    ensures Step(Look(a, v.base), Stored(v), mu, nu) <==> nu == Looked(v, a, mu)
  {
    hide Stored, GoodView, Step, GoodKey;
    var p, fv, g := PropIri(v.base, a.k), Name(a), Stored(v);
    forall o: Term
      ensures Triple(mu[a.x], p, o) in g <==> Found(v, a, mu) == Some(o)
    {
      OnlyPropertyStored(v, mu[a.x].id, a.k, o);
    }
    if fv in mu {
      StepBound(OldTriple(a.x, p, fv), g, mu, nu);
    } else {
      OldPartStep(a.x, p, fv, false, g, mu, nu);
    }
  }

  // ---------- Two lookups and a filter ----------

  // What the filter gets to see.
  ghost predicate Accepts(v: View, meaning: FilterMeaning, op: L.CmpOp, a: Operand, b: Operand, mu: Solution)
    requires a.x in mu && mu[a.x].BNode? && b.x in mu && mu[b.x].BNode?
  {
    var s, t := Found(v, a, mu), Found(v, b, mu);
    if Name(a) != Name(b) then s.Some? && t.Some? && meaning(op, a.minus, s.value, b.minus, t.value)
    else
      var only := if s.Some? then s else t;
      only.Some? && meaning(op, a.minus, only.value, b.minus, only.value)
  }

  lemma FilterSees(v: View, meaning: FilterMeaning, op: L.CmpOp, a: Operand, b: Operand, filter: Part, g: Store, mu: Solution)
    requires a.x in mu && mu[a.x].BNode? && b.x in mu && mu[b.x].BNode? && Name(a) !in mu && Name(b) !in mu
    requires filter.Filter? && filter.l == Var(Name(a)) && filter.r == Var(Name(b))
    requires forall s, t :: filter.rel(s, t) == meaning(op, a.minus, s, b.minus, t)
    ensures FilterHolds(filter, g, Looked(v, b, Looked(v, a, mu))) <==> Accepts(v, meaning, op, a, b, mu)
  {
    hide PropertyOf;
    assert b.x != Name(a);
    assert Found(v, b, Looked(v, a, mu)) == Found(v, b, mu);
  }

  lemma PropertiesParts(inner: O.Op, base: string, op: L.CmpOp, a: Operand, b: Operand, lit: Serializer, meaning: FilterMeaning) returns (filter: Part)
    requires WhereParts(inner, base, lit, meaning).Ok? && op in {L.Eq, L.Ne, L.Lt, L.Le, L.Gt, L.Ge} && lit(ExprOf(a)).None? && lit(ExprOf(b)).None?
    ensures filter.Filter? && filter.l == Var(Name(a)) && filter.r == Var(Name(b))
    ensures forall s, t :: filter.rel(s, t) == meaning(op, a.minus, s, b.minus, t)
    ensures WhereParts(O.Selection(inner, L.Comparison(op, ExprOf(a), ExprOf(b))), base, lit, meaning)
         == Ok(((WhereParts(inner, base, lit, meaning).value + [Look(a, base)]) + [Look(b, base)]) + [filter])
  {
    var cmp := L.Comparison(op, ExprOf(a), ExprOf(b));
    SideOfOperand(a, base, lit);
    SideOfOperand(b, base, lit);
    hide FilterSide, ExprOf, Look, Name;
    filter := PredicateParts(cmp, base, lit, meaning)[2];
    assert PredicateParts(cmp, base, lit, meaning) == [Look(a, base)] + [Look(b, base)] + [filter];
    var context := WhereParts(inner, base, lit, meaning).value;
    assert context + ([Look(a, base)] + [Look(b, base)] + [filter]) == ((context + [Look(a, base)]) + [Look(b, base)]) + [filter];
  }

  // The filters of the group look at bound variables only.
  ghost predicate HasSureFilters(parts: seq<Part>) {
    forall part, y :: part in parts && (part.Filter? || part.NotExists?) && y in PartVars(part) ==> Binds(parts, y)
  }

  lemma LookSettled(l: seq<Part>, look: Part)
    requires look.Optional? && HasSureFilters(l)
    ensures P.IsSettled(l, look.body) && HasSureFilters(l + [look])
  {
    hide PartVars;
    forall y | Binds(l, y)
      ensures Binds(l + [look], y)
    {
      var i :| 0 <= i < |l| && y in SureVars(l[i]);
      assert (l + [look])[i] == l[i];
    }
  }

  lemma LooksSolve(v: View, context: seq<Part>, a: Operand, b: Operand, filter: Part, mu: Solution)
    requires GoodView(v) && GoodKey(v, a.k) && GoodKey(v, b.k) && HasSureFilters(context) && filter.Filter?
    requires BindsNodes(v, {a.x, b.x}, mu) && Name(a) !in mu && Name(b) !in mu
    requires forall xi: Solution :: IsSolution(context, Stored(v), xi) ==> xi.Keys == mu.Keys
    ensures var all := ((context + [Look(a, v.base)]) + [Look(b, v.base)]) + [filter];
            (exists nu: Solution :: Extends(mu, nu) && IsSolution(all, Stored(v), nu))
            <==> IsSolution(context, Stored(v), mu) && FilterHolds(filter, Stored(v), Looked(v, b, Looked(v, a, mu)))
  {
    hide GoodView, GoodKey, Stored, Step, IsSolution, FilterHolds, HasSureFilters, P.IsSettled, Found;
    var g, first, second := Stored(v), Look(a, v.base), Look(b, v.base);
    var one := context + [first];
    var two := one + [second];
    LookSettled(context, first);
    LookSettled(one, second);
    var last := Looked(v, b, Looked(v, a, mu));
    forall nu: Solution | Extends(mu, nu) && IsSolution(two + [filter], g, nu)
      ensures IsSolution(context, g, mu) && nu == last && FilterHolds(filter, g, nu)
    {
      SolutionsWithGuard(two, filter, g, nu);
      P.OptionalSolutions(one, second.body, g, nu);
      var xi: Solution :| IsSolution(one, g, xi) && Step(second, g, xi, nu);
      P.OptionalSolutions(context, first.body, g, xi);
      var om: Solution :| IsSolution(context, g, om) && Step(first, g, om, xi);
      LookExtends(a, v.base, g, om, xi);
      LookExtends(b, v.base, g, xi, nu);
      assert om == mu;
      LookStep(v, a, mu, xi);
      LookStep(v, b, xi, nu);
    }
    if IsSolution(context, g, mu) && FilterHolds(filter, g, last) {
      var xi := Looked(v, a, mu);
      LookStep(v, a, mu, xi);
      LookStep(v, b, xi, last);
      P.OptionalSolutions(context, first.body, g, xi);
      P.OptionalSolutions(one, second.body, g, last);
      SolutionsWithGuard(two, filter, g, last);
      assert Extends(mu, last);
    }
  }

  lemma LookExtends(a: Operand, base: string, g: Store, mu: Solution, nu: Solution)
    requires Step(Look(a, base), g, mu, nu)
    ensures Extends(mu, nu)
  {
    var body := Look(a, base).body;
    if Solves(body, g, mu, nu) {
      assert forall part :: part in body ==> IsFlat(part);
      P.BodyExtends(body, g, mu, nu);
    }
  }

  lemma SimpleFilters(v: View, op: O.Op, lit: Serializer, meaning: FilterMeaning)
    requires IsSimple(op, v, lit)
    ensures WhereParts(op, v.base, lit, meaning).Ok?
    ensures HasSureFilters(WhereParts(op, v.base, lit, meaning).value)
    ensures forall mu: Solution :: IsSolution(WhereParts(op, v.base, lit, meaning).value, Stored(v), mu) ==> mu.Keys == OpVars(op)
  {
    hide IsSimple, WhereParts, Stored, IsSolution, Binds, PartsHold;
    OpFlat(op, v, lit, meaning);
    OpFilters(op, v, lit, meaning, OpVars(op));
    var parts := WhereParts(op, v.base, lit, meaning).value;
    forall part, y | part in parts && (part.Filter? || part.NotExists?) && y in PartVars(part)
      ensures Binds(parts, y)
    {
      FlatIsSure(parts, y);
    }
    forall mu: Solution | IsSolution(parts, Stored(v), mu)
      ensures mu.Keys == OpVars(op)
    {
      SolutionKeys(v, op, lit, meaning, mu);
    }
  }

  // ---------- When it is right ----------

  lemma PropertiesKept(v: View, inner: O.Op, op: L.CmpOp, a: Operand, b: Operand, lit: Serializer, meaning: FilterMeaning, mu: Solution)
    requires GoodView(v) && IsSimple(inner, v, lit) && GoodKey(v, a.k) && GoodKey(v, b.k) && {a.x, b.x} <= OpVars(inner)
    requires Name(a) !in OpVars(inner) && Name(b) !in OpVars(inner) && op in {L.Eq, L.Ne, L.Lt, L.Le, L.Gt, L.Ge} && lit(ExprOf(a)).None? && lit(ExprOf(b)).None?
    requires AssignsNodes(v, inner, mu)
    ensures Kept(v, O.Selection(inner, L.Comparison(op, ExprOf(a), ExprOf(b))), lit, meaning, mu)
       <==> Solved(v, inner, lit, meaning, mu) && Accepts(v, meaning, op, a, b, mu)
  {
    hide GoodView, IsSimple, GoodKey, WhereParts, Stored, IsSolution, FilterHolds, HasSureFilters, Look, ExprOf, Name;
    SimpleFilters(v, inner, lit, meaning);
    var filter := PropertiesParts(inner, v.base, op, a, b, lit, meaning);
    LooksSolve(v, WhereParts(inner, v.base, lit, meaning).value, a, b, filter, mu);
    FilterSees(v, meaning, op, a, b, filter, Stored(v), mu);
  }

  // WHERE x.k op y.j, minus signs included, is right exactly when the filter accepts, of the
  // assignments that the operators below let through, those for which it is true.
  lemma PropertiesFilterIff(v: View, inner: O.Op, op: L.CmpOp, a: Operand, b: Operand, lit: Serializer, meaning: FilterMeaning)
    requires GoodView(v) && IsSimple(inner, v, lit) && AllAgree(v, lit, inner) && GoodKey(v, a.k) && GoodKey(v, b.k) && {a.x, b.x} <= OpVars(inner)
    requires Name(a) !in OpVars(inner) && Name(b) !in OpVars(inner) && op in {L.Eq, L.Ne, L.Lt, L.Le, L.Gt, L.Ge} && lit(ExprOf(a)).None? && lit(ExprOf(b)).None?
    ensures var p := L.Comparison(op, ExprOf(a), ExprOf(b));
            Right(v, O.Selection(inner, p), lit, meaning)
            <==> forall mu: Solution :: AssignsNodes(v, inner, mu) && O.Sat(v.m, v.graph, inner, EnvOf(mu)) ==>
                   (Accepts(v, meaning, op, a, b, mu) <==> L.Eval(v.m, p, EnvOf(mu), []) == Some(L.VBool(true)))
  {
    hide GoodView, IsSimple, AllAgree, GoodKey, Kept, L.Eval, O.Sat, WhereParts, IsSolution, Stored, Accepts, ExprOf, Name;
    var p := L.Comparison(op, ExprOf(a), ExprOf(b));
    var whole := O.Selection(inner, p);
    forall mu: Solution
      ensures AssignsNodes(v, whole, mu) <==> AssignsNodes(v, inner, mu)
      ensures AssignsNodes(v, inner, mu) ==>
                (Kept(v, whole, lit, meaning, mu) <==> O.Sat(v.m, v.graph, inner, EnvOf(mu)) && Accepts(v, meaning, op, a, b, mu))
      ensures O.Sat(v.m, v.graph, whole, EnvOf(mu)) <==> O.Sat(v.m, v.graph, inner, EnvOf(mu)) && L.Eval(v.m, p, EnvOf(mu), []) == Some(L.VBool(true))
    {
      SatSelection(v, inner, p, EnvOf(mu));
      if AssignsNodes(v, inner, mu) {
        PropertiesKept(v, inner, op, a, b, lit, meaning, mu);
        SolutionIsSat(v, inner, lit, meaning, mu);
      }
    }
  }

  // ---------- Two properties of one name ----------

  // a_b.c and a.b_c are looked up under the same variable.
  lemma Namesakes()
    ensures FilterVar("a_b", "c") == FilterVar("a", "b_c")
  {
  }

  // <> between two such properties never keeps anything, whatever their values are.
  lemma UnequalNamesakes(v: View, inner: O.Op, a: Operand, b: Operand, lit: Serializer, meaning: FilterMeaning, w: C.Writer, mu: Solution)
    requires GoodView(v) && IsSimple(inner, v, lit) && GoodKey(v, a.k) && GoodKey(v, b.k) && {a.x, b.x} <= OpVars(inner)
    requires Name(a) == Name(b) && Name(a) !in OpVars(inner) && lit(ExprOf(a)).None? && lit(ExprOf(b)).None?
    requires a.minus == b.minus == 0 && SparqlFilter(meaning, w) && C.DistinctTexts(w) && AssignsNodes(v, inner, mu)
    ensures !Kept(v, O.Selection(inner, L.Comparison(L.Ne, ExprOf(a), ExprOf(b))), lit, meaning, mu)
  {
    hide GoodView, IsSimple, GoodKey, Kept, Solved, ExprOf, Name, Found, C.SparqlUnequal;
    PropertiesKept(v, inner, L.Ne, a, b, lit, meaning, mu);
    var s, t := Found(v, a, mu), Found(v, b, mu);
    var only := if s.Some? then s else t;
    if only.Some? {
      NotUnequalToItself(only.value, w);
    }
  }

  lemma NotUnequalToItself(t: Term, w: C.Writer)
    requires C.DistinctTexts(w)
    ensures !C.SparqlUnequal(t, t, w)
  {
    forall r: real, q: real | C.Denotes(t, r, w) && C.Denotes(t, q, w)
      ensures r == q
    {
      if i: int, j: int :| t == Lit(Numeral(i), C.XSD_INTEGER) == Lit(Numeral(j), C.XSD_INTEGER) && r == i as real && q == j as real {
        NumeralInjective(i, j);
      }
    }
  }
}

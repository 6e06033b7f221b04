/** Compiling SET to SPARQL updates, and what the updates do to the store.

    The compiler emits one update per assignment, and every update solves the
    match context again, on the store its predecessors left.
 */
module WriteSet {
  import opened Prelude
  import opened Sparql
  import L = Lqa

  const RDF_TYPE: string := "http://www.w3.org/1999/02/22-rdf-syntax-ns#type"

  datatype SetItem =
    | Property(variable: string, key: string, value: L.Expr)
    | MergeMap(variable: string, value: L.Expr)
    | Label(variable: string, labels: seq<string>)

  datatype CompileError = KeyInWhere | ComplexMapValue | NotAMap | ComplexValue

  // The RDF term of a constant expression, None where there is none.
  type Serializer = L.Expr -> Option<Term>

  function PropIri(base: string, key: string): Term {
    Iri(base + key)
  }

  function NodeIri(base: string): Term {
    Iri(base + "__node")
  }

  function OldVar(x: string, key: string): string {
    "__" + x + "_" + key + "_old"
  }

  // Every node carries this triple.
  function Sentinel(x: string, base: string): Part {
    Match(TP(Var(x), Const(NodeIri(base)), Const(NodeIri(base))))
  }

  function ContextFor(x: string, context: seq<Part>, base: string): seq<Part> {
    if context == [] then [Sentinel(x, base)] else context
  }

  // ---------- One assignment ----------

  // Put replaces the values of a property by one value or none; AddType adds a label.
  datatype Write = Put(property: Term, value: Option<Term>, strict: bool) | AddType(label_: Term)

  function OldTriple(x: string, property: Term, old_: string): TriplePattern {
    TP(Var(x), Const(property), Var(old_))
  }

  // With strict, the rows without an old value are not solutions.
  function CompileWrite(x: string, w: Write, old_: string, context: seq<Part>): Update {
    match w
    case Put(p, v, strict) =>
      var t := OldTriple(x, p, old_);
      Update([t], if v.Some? then [TP(Var(x), Const(p), Const(v.value))] else [],
             context + [if strict then Match(t) else Optional([Match(t)])])
    case AddType(l) => Update([], [TP(Var(x), Const(Iri(RDF_TYPE)), Const(l))], context)
  }

  // ---------- Items ----------

  predicate TermMentions(t: Term, iri: string) {
    match t
    case Iri(i) => i == iri
    case BNode(_) => false
    case Lit(_, d) => d == iri
    case Quoted(s, p, o) => TermMentions(s, iri) || TermMentions(p, iri) || TermMentions(o, iri)
  }

  predicate VarTermMentions(vt: VarTerm, iri: string) {
    match vt
    case Const(t) => TermMentions(t, iri)
    case QuotedPat(s, p, o) => VarTermMentions(s, iri) || VarTermMentions(p, iri) || VarTermMentions(o, iri)
    case _ => false
  }

  predicate TpMentions(tp: TriplePattern, iri: string) {
    VarTermMentions(tp.s, iri) || VarTermMentions(tp.p, iri) || VarTermMentions(tp.o, iri)
  }

  // Does the text of the part contain the IRI, in any position?
  predicate Mentions(part: Part, iri: string) {
    match part
    case Match(tp) => TpMentions(tp, iri)
    case Either(l, r) => TpMentions(l, iri) || TpMentions(r, iri)
    case Optional(body) => exists i :: 0 <= i < |body| && Mentions(body[i], iri)
    case Filter(l, _, r) => VarTermMentions(l, iri) || VarTermMentions(r, iri)
    case NotExists(alts) => exists i, j :: 0 <= i < |alts| && 0 <= j < |alts[i]| && TpMentions(alts[i][j], iri)
    case Values(_, terms) => exists i :: 0 <= i < |terms| && TermMentions(terms[i], iri)
    case Bind(_, _) => false
  }

  predicate MapKeyInWhere(key: string, base: string, context: seq<Part>) {
    exists i :: 0 <= i < |context| && Mentions(context[i], base + key)
  }

  // null removes the property where it is, a constant replaces it, and nothing else is taken.
  function PairWrite(key: string, e: L.Expr, base: string, lit: Serializer): Option<Write> {
    if e == L.Lit(L.Null) then Some(Put(PropIri(base, key), None, true))
    else if lit(e).Some? then Some(Put(PropIri(base, key), lit(e), false))
    else None
  }

  function CompilePairs(x: string, pairs: seq<L.Entry>, context: seq<Part>, base: string, lit: Serializer): Result<seq<Update>, CompileError> {
    if pairs == [] then Ok([])
    else
      var key, e := pairs[0].key, pairs[0].value;
      if MapKeyInWhere(key, base, context) then Err(KeyInWhere)
      else
        var w := PairWrite(key, e, base, lit);
        if w.None? then Err(ComplexMapValue)
        else
          var rest :- CompilePairs(x, pairs[1..], context, base, lit);
          Ok([CompileWrite(x, w.value, OldVar(x, key), ContextFor(x, context, base))] + rest)
  }

  function CompileLabels(x: string, labels: seq<string>, context: seq<Part>, base: string): seq<Update> {
    if labels == [] then []
    else [CompileWrite(x, AddType(Iri(base + labels[0])), "", ContextFor(x, context, base))] + CompileLabels(x, labels[1..], context, base)
  }

  function CompileItem(item: SetItem, context: seq<Part>, base: string, lit: Serializer): Result<seq<Update>, CompileError> {
    match item
    case Property(x, key, e) =>
      var p := PropIri(base, key);
      if lit(e).Some? then Ok([CompileWrite(x, Put(p, lit(e), false), OldVar(x, key), ContextFor(x, context, base))])
      else if e == L.Lit(L.Null) then Ok([CompileWrite(x, Put(p, None, false), OldVar(x, key), ContextFor(x, context, base))])
      else Err(ComplexValue)
    case MergeMap(x, e) =>
      if e.Map? then CompilePairs(x, e.pairs, context, base, lit) else Err(NotAMap)
    case Label(x, labels) => Ok(CompileLabels(x, labels, context, base))
  }

  function CompileItems(items: seq<SetItem>, context: seq<Part>, base: string, lit: Serializer): Result<seq<Update>, CompileError> {
    if items == [] then Ok([])
    else
      var us :- CompileItem(items[0], context, base, lit);
      var rest :- CompileItems(items[1..], context, base, lit);
      Ok(us + rest)
  }

  method CompileSetItems(items: seq<SetItem>, context: seq<Part>, base: string, lit: Serializer, sofar: seq<Update>)
    returns (r: Result<seq<Update>, CompileError>)
    ensures var spec := CompileItems(items, context, base, lit);
            r == if spec.Ok? then Ok(sofar + spec.value) else spec
  {
    hide CompileItem;
    var updates := sofar;
    for i := 0 to |items|
      invariant var spec, rest := CompileItems(items, context, base, lit), CompileItems(items[i..], context, base, lit);
                if rest.Ok? then spec.Ok? && sofar + spec.value == updates + rest.value else spec == rest
    {
      assert items[i..][0] == items[i] && items[i..][1..] == items[i + 1..];
      ghost var rest := CompileItems(items[i + 1..], context, base, lit);
      var us := CompileSetItem(items[i], context, base, lit);
      if us.Err? {
        return us;
      }
      assert rest.Ok? ==> updates + (us.value + rest.value) == (updates + us.value) + rest.value;
      updates := updates + us.value;
    }
    assert items[|items|..] == [] && updates + [] == updates;
    return Ok(updates);
  }

  // The updates of one item; a property is tried as a constant before it is tried as null.
  method CompileSetItem(item: SetItem, context: seq<Part>, base: string, lit: Serializer) returns (r: Result<seq<Update>, CompileError>)
    ensures r == CompileItem(item, context, base, lit)
  {
    match item {
      case Property(x, key, e) =>
        var p := PropIri(base, key);
        if lit(e).Some? {
          return Ok([CompileWrite(x, Put(p, lit(e), false), OldVar(x, key), ContextFor(x, context, base))]);
        } else if e == L.Lit(L.Null) {
          return Ok([CompileWrite(x, Put(p, None, false), OldVar(x, key), ContextFor(x, context, base))]);
        }
        return Err(ComplexValue);
      case MergeMap(x, e) =>
        if !e.Map? {
          return Err(NotAMap);
        }
        r := CompileMapPairs(x, e.pairs, context, base, lit);
      case Label(x, labels) =>
        return Ok(CompileLabels(x, labels, context, base));
    }
  }

  // The pairs of a map, one update each, until a key or a value is refused.
  method CompileMapPairs(x: string, pairs: seq<L.Entry>, context: seq<Part>, base: string, lit: Serializer)
    returns (r: Result<seq<Update>, CompileError>)
    ensures r == CompilePairs(x, pairs, context, base, lit)
  {
    hide CompileWrite, ContextFor, OldVar, MapKeyInWhere, PairWrite;
    var updates := [];
    for i := 0 to |pairs|
      invariant var spec, rest := CompilePairs(x, pairs, context, base, lit), CompilePairs(x, pairs[i..], context, base, lit);
                if rest.Ok? then spec.Ok? && spec.value == updates + rest.value else spec == rest
    {
      assert pairs[i..][0] == pairs[i] && pairs[i..][1..] == pairs[i + 1..];
      ghost var rest := CompilePairs(x, pairs[i + 1..], context, base, lit);
      var key := pairs[i].key;
      if MapKeyInWhere(key, base, context) {
        return Err(KeyInWhere);
      }
      var w := PairWrite(key, pairs[i].value, base, lit);
      if w.None? {
        return Err(ComplexMapValue);
      }
      var u := CompileWrite(x, w.value, OldVar(x, key), ContextFor(x, context, base));
      assert rest.Ok? ==> updates + ([u] + rest.value) == (updates + [u]) + rest.value;
      updates := updates + [u];
    }
    assert pairs[|pairs|..] == [] && updates + [] == updates;
    return Ok(updates);
  }

  // ---------- Variables of a group ----------

  function PartVars(part: Part): set<string> {
    match part
    case Match(tp) => TpVars(tp)
    case Either(l, r) => TpVars(l) + TpVars(r)
    case Optional(body) => PartsVars(body)
    case Filter(l, _, r) => VarsOf(l) + VarsOf(r)
    case NotExists(alts) => set alt, x | alt in alts && x in AllVars(alt) :: x
    case Values(x, _) => {x}
    case Bind(src, alias) => {src, alias}
  }

  function PartsVars(parts: seq<Part>): set<string> {
    if parts == [] then {} else PartVars(parts[0]) + PartsVars(parts[1..])
  }

  // The variables that every solution of the part binds: both sides of a UNION must do so.
  function SureVars(part: Part): set<string> {
    match part
    case Match(tp) => TpVars(tp)
    case Either(l, r) => TpVars(l) * TpVars(r)
    case Values(x, _) => {x}
    case _ => {}
  }

  // x is bound in every solution of the group.
  predicate Binds(parts: seq<Part>, x: string) {
    exists i :: 0 <= i < |parts| && x in SureVars(parts[i])
  }

  lemma SureVarsAreVars(part: Part)
    ensures SureVars(part) <= PartVars(part)
  {
  }

  lemma SingleVars(tp: TriplePattern)
    ensures AllVars([tp]) == TpVars(tp)
  {
    assert tp in [tp];
  }

  lemma {:induction false} StepDomain(part: Part, g: Store, mu: Solution, nu: Solution)
    requires Step(part, g, mu, nu)
    ensures mu.Keys <= nu.Keys <= mu.Keys + PartVars(part)
    ensures SureVars(part) <= nu.Keys
    decreases part, 1
  {
    match part {
      case Match(tp) => SingleVars(tp);
      case Either(l, r) => SingleVars(l); SingleVars(r);
      case Optional(body) => if Solves(body, g, mu, nu) { ReachesDomain(body, g, mu, nu); }
      case _ =>
    }
  }

  lemma {:induction false} ReachesDomain(parts: seq<Part>, g: Store, mu: Solution, nu: Solution)
    requires Reaches(parts, g, mu, nu)
    ensures mu.Keys <= nu.Keys <= mu.Keys + PartsVars(parts)
    ensures forall x :: Binds(parts, x) ==> x in nu
    decreases parts, 0
  {
    if parts != [] {
      var xi: Solution :| Step(parts[0], g, mu, xi) && Reaches(parts[1..], g, xi, nu);
      StepDomain(parts[0], g, mu, xi);
      ReachesDomain(parts[1..], g, xi, nu);
      forall x | Binds(parts, x)
        ensures x in nu
      {
        var i :| 0 <= i < |parts| && x in SureVars(parts[i]);
        if i > 0 {
          assert parts[1..][i - 1] == parts[i];
          assert Binds(parts[1..], x);
        }
      }
    }
  }

  // ---------- A variable that a group does not know ----------

  lemma {:induction false} InstIgnores(vt: VarTerm, mu: Solution, x: string, t: Term)
    requires x !in VarsOf(vt)
    ensures Inst(vt, mu[x := t]) == Inst(vt, mu)
  {
    match vt {
      case QuotedPat(s, p, o) => InstIgnores(s, mu, x, t); InstIgnores(p, mu, x, t); InstIgnores(o, mu, x, t);
      case _ =>
    }
  }

  lemma HoldsIgnores(tp: TriplePattern, g: Store, mu: Solution, x: string, t: Term)
    requires x !in TpVars(tp)
    ensures Holds(tp, g, mu[x := t]) <==> Holds(tp, g, mu)
  {
    InstIgnores(tp.s, mu, x, t);
    InstIgnores(tp.p, mu, x, t);
    InstIgnores(tp.o, mu, x, t);
  }

  lemma BgpIgnores(tps: seq<TriplePattern>, g: Store, mu: Solution, mu': Solution, x: string, t: Term)
    requires x !in AllVars(tps) && x !in mu && mu' == mu[x := t]
    ensures (exists xi: Solution :: BgpMatch(tps, g, mu, xi)) <==> (exists xi: Solution :: BgpMatch(tps, g, mu', xi))
  {
    hide BgpMatch;
    forall xi: Solution | BgpMatch(tps, g, mu, xi)
      ensures exists xi': Solution :: BgpMatch(tps, g, mu', xi')
    {
      BgpWith(tps, g, mu, xi, x, t);
    }
    forall xi': Solution | BgpMatch(tps, g, mu', xi')
      ensures exists xi: Solution :: BgpMatch(tps, g, mu, xi)
    {
      BgpWithout(tps, g, mu, xi', x, t);
    }
  }

  lemma BgpWith(tps: seq<TriplePattern>, g: Store, mu: Solution, xi: Solution, x: string, t: Term)
    requires x !in AllVars(tps) && x !in mu && BgpMatch(tps, g, mu, xi)
    ensures BgpMatch(tps, g, mu[x := t], xi[x := t])
  {
    hide Holds;
    forall tp | tp in tps
      ensures Holds(tp, g, xi[x := t])
    {
      HoldsIgnores(tp, g, xi, x, t);
    }
  }

  lemma BgpWithout(tps: seq<TriplePattern>, g: Store, mu: Solution, xi: Solution, x: string, t: Term)
    requires x !in AllVars(tps) && x !in mu && BgpMatch(tps, g, mu[x := t], xi)
    ensures BgpMatch(tps, g, mu, xi - {x})
  {
    hide Holds;
    var rest := xi - {x};
    assert xi == rest[x := t];
    forall tp | tp in tps
      ensures Holds(tp, g, rest)
    {
      HoldsIgnores(tp, g, rest, x, t);
    }
  }

  lemma FilterIgnores(part: Part, g: Store, mu: Solution, mu': Solution, x: string, t: Term)
    requires x !in PartVars(part) && x !in mu && mu' == mu[x := t]
    ensures FilterHolds(part, g, mu') <==> FilterHolds(part, g, mu)
  {
    match part {
      case Filter(l, _, r) =>
        InstIgnores(l, mu, x, t);
        InstIgnores(r, mu, x, t);
      case NotExists(alts) =>
        forall alt | alt in alts
          ensures (exists xi: Solution :: BgpMatch(alt, g, mu, xi)) <==> (exists xi: Solution :: BgpMatch(alt, g, mu', xi))
        {
          BgpIgnores(alt, g, mu, mu', x, t);
        }
      case _ =>
    }
  }

  // ---------- A group and one more part ----------

  lemma ReachesSplit(parts: seq<Part>, g: Store, mu: Solution, nu: Solution) returns (xi: Solution)
    requires parts != [] && Reaches(parts, g, mu, nu)
    ensures Step(parts[0], g, mu, xi) && Reaches(parts[1..], g, xi, nu)
  {
    xi :| Step(parts[0], g, mu, xi) && Reaches(parts[1..], g, xi, nu);
  }

  lemma {:induction false} ReachesAppend(parts: seq<Part>, q: Part, g: Store, mu: Solution, nu: Solution)
    ensures Reaches(parts + [q], g, mu, nu) <==> exists xi: Solution :: Reaches(parts, g, mu, xi) && Step(q, g, xi, nu)
  {
    hide Step;
    var all := parts + [q];
    if parts == [] {
      assert all[0] == q && all[1..] == [];
      if Reaches(all, g, mu, nu) {
        var xi := ReachesSplit(all, g, mu, nu);
        assert Reaches(parts, g, mu, mu) && Step(q, g, mu, nu);
      }
      if Step(q, g, mu, nu) {
        assert Reaches(all[1..], g, nu, nu);
      }
    } else {
      assert all[0] == parts[0] && all[1..] == parts[1..] + [q];
      if Reaches(all, g, mu, nu) {
        var om := ReachesSplit(all, g, mu, nu);
        ReachesAppend(parts[1..], q, g, om, nu);
        var xi: Solution :| Reaches(parts[1..], g, om, xi) && Step(q, g, xi, nu);
        assert Reaches(parts, g, mu, xi);
      }
      forall xi: Solution | Reaches(parts, g, mu, xi) && Step(q, g, xi, nu)
        ensures Reaches(all, g, mu, nu)
      {
        var om := ReachesSplit(parts, g, mu, xi);
        ReachesAppend(parts[1..], q, g, om, nu);
        assert Reaches(parts[1..], g, om, xi) && Step(q, g, xi, nu);
        assert Reaches(parts[1..] + [q], g, om, nu);
        assert Step(all[0], g, mu, om) && Reaches(all[1..], g, om, nu);
      }
    }
  }

  // A filter at the end of a group keeps the solutions it holds of.
  lemma SolutionsWithGuard(context: seq<Part>, guard: Part, g: Store, mu: Solution)
    requires guard.NotExists? || guard.Filter?
    ensures IsSolution(context + [guard], g, mu) <==> IsSolution(context, g, mu) && FilterHolds(guard, g, mu)
  {
    ReachesAppend(context, guard, g, map[], mu);
    assert Step(guard, g, mu, mu);
    assert forall part :: part in context + [guard] <==> part in context || part == guard;
  }

  // ---------- What one update does ----------

  // The nodes the context binds x to.
  ghost function Matched(context: seq<Part>, x: string, g: Store): iset<Term> {
    iset mu: Solution | IsSolution(context, g, mu) && x in mu && !mu[x].Lit? :: mu[x]
  }

  ghost predicate NoLiteralSubjects(g: Store) {
    forall t: Triple :: t in g ==> !t.s.Lit?
  }

  ghost function Effect(w: Write, nodes: iset<Term>, g: Store): Store {
    match w
    case Put(p, v, _) => iset t: Triple | if t.s in nodes && t.p == p then v == Some(t.o) else t in g
    case AddType(l) => iset t: Triple | t in g || (t.s in nodes && t.p == Iri(RDF_TYPE) && t.o == l)
  }

  // x is bound by the context, and the variable for the old value is new to it.
  ghost predicate GoodVars(context: seq<Part>, x: string, old_: string) {
    Binds(context, x) && old_ !in PartsVars(context)
  }

  lemma {:induction false} PartVarsIn(parts: seq<Part>, part: Part)
    requires part in parts
    ensures PartVars(part) <= PartsVars(parts)
  {
    if part != parts[0] {
      PartVarsIn(parts[1..], part);
    }
  }

  lemma BoundIsKnown(context: seq<Part>, x: string)
    requires Binds(context, x)
    ensures x in PartsVars(context)
  {
    var i :| 0 <= i < |context| && x in SureVars(context[i]);
    PartVarsIn(context, context[i]);
    SureVarsAreVars(context[i]);
  }

  ghost predicate OldValue(x: string, p: Term, old_: string, g: Store, mu: Solution, nu: Solution)
    requires x in mu
  {
    exists o: Term :: Triple(mu[x], p, o) in g && nu == mu[old_ := o]
  }

  lemma StepMatchOld(x: string, p: Term, old_: string, g: Store, mu: Solution, nu: Solution)
    requires x in mu && old_ !in mu
    ensures Step(Match(OldTriple(x, p, old_)), g, mu, nu) <==> OldValue(x, p, old_, g, mu, nu)
  {
    var t := OldTriple(x, p, old_);
    SingleVars(t);
    assert TpVars(t) == {x, old_};
    if BgpMatch([t], g, mu, nu) {
      assert t in [t];
      assert nu == mu[old_ := nu[old_]];
      assert Triple(mu[x], p, nu[old_]) in g;
    }
    if OldValue(x, p, old_, g, mu, nu) {
      assert InstTp(t, nu) == Some(Triple(mu[x], p, nu[old_]));
    }
  }

  lemma StepOptionalOld(t: TriplePattern, g: Store, mu: Solution, nu: Solution)
    ensures Step(Optional([Match(t)]), g, mu, nu)
       <==> Step(Match(t), g, mu, nu) || (nu == mu && !exists xi: Solution :: Step(Match(t), g, mu, xi))
  {
    forall xi: Solution
      ensures Solves([Match(t)], g, mu, xi) <==> Step(Match(t), g, mu, xi)
    {
      SolvesSingle(Match(t), g, mu, xi);
    }
    if exists xi: Solution :: Solves([Match(t)], g, mu, xi) {
      var xi: Solution :| Solves([Match(t)], g, mu, xi);
      assert Step(Match(t), g, mu, xi);
    }
    if exists xi: Solution :: Step(Match(t), g, mu, xi) {
      var xi: Solution :| Step(Match(t), g, mu, xi);
      assert Solves([Match(t)], g, mu, xi);
    }
  }

  lemma SolvesSingle(q: Part, g: Store, mu: Solution, xi: Solution)
    requires q.Match?
    ensures Solves([q], g, mu, xi) <==> Step(q, g, mu, xi)
  {
    var parts := [q];
    assert parts[0] == q && parts[1..] == [];
    if Reaches(parts, g, mu, xi) {
      var om := ReachesSplit(parts, g, mu, xi);
    }
    if Step(q, g, mu, xi) {
      assert Reaches(parts[1..], g, xi, xi);
    }
  }

  // The part that looks up the old value, with or without OPTIONAL.
  function OldPart(x: string, p: Term, old_: string, strict: bool): Part {
    if strict then Match(OldTriple(x, p, old_)) else Optional([Match(OldTriple(x, p, old_))])
  }

  lemma OldPartStep(x: string, p: Term, old_: string, strict: bool, g: Store, mu: Solution, nu: Solution)
    requires x in mu && old_ !in mu
    ensures Step(OldPart(x, p, old_, strict), g, mu, nu)
       <==> OldValue(x, p, old_, g, mu, nu) || (!strict && nu == mu && !exists o: Term :: Triple(mu[x], p, o) in g)
  {
    var t := OldTriple(x, p, old_);
    StepMatchOld(x, p, old_, g, mu, nu);
    if !strict {
      StepOptionalOld(t, g, mu, nu);
      if exists xi: Solution :: Step(Match(t), g, mu, xi) {
        var xi: Solution :| Step(Match(t), g, mu, xi);
        StepMatchOld(x, p, old_, g, mu, xi);
      }
      if exists o: Term :: Triple(mu[x], p, o) in g {
        var o: Term :| Triple(mu[x], p, o) in g;
        StepMatchOld(x, p, old_, g, mu, mu[old_ := o]);
      }
    }
  }

  lemma SolutionDomain(context: seq<Part>, x: string, old_: string, g: Store, mu: Solution)
    requires GoodVars(context, x, old_) && Reaches(context, g, map[], mu)
    ensures x in mu && old_ !in mu && x != old_
  {
    ReachesDomain(context, g, map[], mu);
    BoundIsKnown(context, x);
  }

  lemma FiltersIgnoreOld(context: seq<Part>, x: string, p: Term, old_: string, g: Store, mu: Solution, nu: Solution)
    requires GoodVars(context, x, old_) && Reaches(context, g, map[], mu)
    requires nu == mu || (old_ in nu && nu == mu[old_ := nu[old_]])
    ensures (forall part :: part in context ==> FilterHolds(part, g, nu)) <==> (forall part :: part in context ==> FilterHolds(part, g, mu))
  {
    SolutionDomain(context, x, old_, g, mu);
    if nu != mu {
      forall part | part in context
        ensures FilterHolds(part, g, nu) <==> FilterHolds(part, g, mu)
      {
        PartVarsIn(context, part);
        FilterIgnores(part, g, mu, nu, old_, nu[old_]);
      }
    }
  }

  // The solutions of the whole WHERE clause, from those of the context.
  lemma WhereSolutions(context: seq<Part>, x: string, p: Term, old_: string, strict: bool, g: Store, nu: Solution)
    requires GoodVars(context, x, old_)
    ensures IsSolution(context + [OldPart(x, p, old_, strict)], g, nu)
       <==> exists mu: Solution :: IsSolution(context, g, mu) && Step(OldPart(x, p, old_, strict), g, mu, nu)
  {
    var q := OldPart(x, p, old_, strict);
    var all := context + [q];
    ReachesAppend(context, q, g, map[], nu);
    assert forall part :: part in all <==> part in context || part == q;
    assert FilterHolds(q, g, nu);
    if IsSolution(all, g, nu) {
      var mu: Solution :| Reaches(context, g, map[], mu) && Step(q, g, mu, nu);
      SolutionDomain(context, x, old_, g, mu);
      OldPartStep(x, p, old_, strict, g, mu, nu);
      FiltersIgnoreOld(context, x, p, old_, g, mu, nu);
      assert IsSolution(context, g, mu);
    }
    forall mu: Solution | IsSolution(context, g, mu) && Step(q, g, mu, nu)
      ensures IsSolution(all, g, nu)
    {
      SolutionDomain(context, x, old_, g, mu);
      OldPartStep(x, p, old_, strict, g, mu, nu);
      FiltersIgnoreOld(context, x, p, old_, g, mu, nu);
      assert Reaches(context, g, map[], mu);
    }
  }

  lemma PutDeletes(context: seq<Part>, x: string, w: Write, old_: string, g: Store, t: Triple)
    requires w.Put? && GoodVars(context, x, old_) && NoLiteralSubjects(g)
    ensures t in g ==> (Deletes(CompileWrite(x, w, old_, context), g, t) <==> t.s in Matched(context, x, g) && t.p == w.property)
  {
    var u := CompileWrite(x, w, old_, context);
    var q := OldPart(x, w.property, old_, w.strict);
    var del := OldTriple(x, w.property, old_);
    assert u.pattern == context + [q] && u.delete == [del];
    if Deletes(u, g, t) {
      var nu: Solution, tp :| IsSolution(u.pattern, g, nu) && tp in u.delete && InstTp(tp, nu) == Some(t);
      WhereSolutions(context, x, w.property, old_, w.strict, g, nu);
      var mu: Solution :| IsSolution(context, g, mu) && Step(q, g, mu, nu);
      SolutionDomain(context, x, old_, g, mu);
      OldPartStep(x, w.property, old_, w.strict, g, mu, nu);
      assert nu[x] == mu[x] == t.s;
      if t in g {
        assert t.s in Matched(context, x, g);
      }
    }
    if t in g && t.s in Matched(context, x, g) && t.p == w.property {
      var mu: Solution :| IsSolution(context, g, mu) && x in mu && !mu[x].Lit? && mu[x] == t.s;
      SolutionDomain(context, x, old_, g, mu);
      var nu := mu[old_ := t.o];
      OldPartStep(x, w.property, old_, w.strict, g, mu, nu);
      assert OldValue(x, w.property, old_, g, mu, nu);
      WhereSolutions(context, x, w.property, old_, w.strict, g, nu);
      assert IsSolution(u.pattern, g, nu) && del in u.delete && InstTp(del, nu) == Some(t);
    }
  }

  lemma PutInserts(context: seq<Part>, x: string, w: Write, old_: string, g: Store, supply: Supply, t: Triple)
    requires w.Put? && GoodVars(context, x, old_) && (w.strict ==> w.value.None?)
    ensures Inserts(CompileWrite(x, w, old_, context), g, supply, t)
       <==> t.s in Matched(context, x, g) && t.p == w.property && w.value == Some(t.o)
  {
    var u := CompileWrite(x, w, old_, context);
    var q := OldPart(x, w.property, old_, w.strict);
    assert u.pattern == context + [q];
    if Inserts(u, g, supply, t) {
      var nu: Solution, tp :| IsSolution(u.pattern, g, nu) && tp in u.insert && InsertsBy(tp, nu, supply, t);
      WhereSolutions(context, x, w.property, old_, w.strict, g, nu);
      var mu: Solution :| IsSolution(context, g, mu) && Step(q, g, mu, nu);
      SolutionDomain(context, x, old_, g, mu);
      OldPartStep(x, w.property, old_, w.strict, g, mu, nu);
      assert nu[x] == mu[x] == t.s;
    }
    if t.s in Matched(context, x, g) && t.p == w.property && w.value == Some(t.o) {
      var mu: Solution :| IsSolution(context, g, mu) && x in mu && !mu[x].Lit? && mu[x] == t.s;
      SolutionDomain(context, x, old_, g, mu);
      var nu := mu;
      if exists o: Term :: Triple(mu[x], w.property, o) in g {
        var o: Term :| Triple(mu[x], w.property, o) in g;
        nu := mu[old_ := o];
      }
      OldPartStep(x, w.property, old_, w.strict, g, mu, nu);
      WhereSolutions(context, x, w.property, old_, w.strict, g, nu);
      assert IsSolution(u.pattern, g, nu) && u.insert[0] in u.insert && InsertsBy(u.insert[0], nu, supply, t);
    }
  }

  // An update gives every matched node exactly the value written, or the label,
  // and touches nothing else.
  lemma WriteHasEffect(context: seq<Part>, x: string, w: Write, old_: string, g: Store, supply: Supply)
    requires GoodVars(context, x, old_) && NoLiteralSubjects(g)
    requires w.Put? && w.strict ==> w.value.None?
    ensures Run(CompileWrite(x, w, old_, context), g, supply) == Effect(w, Matched(context, x, g), g)
    ensures NoLiteralSubjects(Run(CompileWrite(x, w, old_, context), g, supply))
  {
    var u := CompileWrite(x, w, old_, context);
    forall t: Triple
      ensures t in Run(u, g, supply) <==> t in Effect(w, Matched(context, x, g), g)
      ensures t in Run(u, g, supply) ==> !t.s.Lit?
    {
      if w.Put? {
        PutDeletes(context, x, w, old_, g, t);
        PutInserts(context, x, w, old_, g, supply, t);
      } else {
        AddTypeInserts(context, x, w, old_, g, supply, t);
      }
    }
  }

  lemma AddTypeInserts(context: seq<Part>, x: string, w: Write, old_: string, g: Store, supply: Supply, t: Triple)
    requires w.AddType?
    ensures !Deletes(CompileWrite(x, w, old_, context), g, t)
    ensures Inserts(CompileWrite(x, w, old_, context), g, supply, t)
       <==> t.s in Matched(context, x, g) && t.p == Iri(RDF_TYPE) && t.o == w.label_
  {
    var u := CompileWrite(x, w, old_, context);
    if t.s in Matched(context, x, g) && t.p == Iri(RDF_TYPE) && t.o == w.label_ {
      var mu: Solution :| IsSolution(context, g, mu) && x in mu && !mu[x].Lit? && mu[x] == t.s;
      assert IsSolution(u.pattern, g, mu) && u.insert[0] in u.insert && InsertsBy(u.insert[0], mu, supply, t);
    }
  }
}

/** The WHERE clause of an update, from the operators below the write.

    Predicates that have no SPARQL form are skipped, so that the clause may
    match more than the operators do; the callers live with that.
 */
module Where {
  import opened Prelude
  import opened Sparql
  import opened Ops
  import opened WriteSet
  import L = Lqa

  datatype WhereError = VarLengthExpand | ComputedProjection

  // How FILTER compares two terms, each negated so many times.
  type FilterMeaning = (L.CmpOp, nat, Term, nat, Term) -> bool

  // One side of a comparison: the lookups it needs first, and its term.
  datatype Side = Side(parts: seq<Part>, term: VarTerm, negations: nat)

  function TypeIri(base: string, name: string): Term {
    Iri(base + name)
  }

  function LabelPattern(x: string, label_: string, base: string): TriplePattern {
    TP(Var(x), Const(Iri(RDF_TYPE)), Const(Iri(base + label_)))
  }

  function LabelParts(x: string, labels: seq<string>, base: string): seq<Part> {
    if labels == [] then [] else [Match(LabelPattern(x, labels[0], base))] + LabelParts(x, labels[1..], base)
  }

  function NoLabelParts(x: string, labels: seq<string>, base: string): seq<Part> {
    if labels == [] then [] else [NotExists([[LabelPattern(x, labels[0], base)]])] + NoLabelParts(x, labels[1..], base)
  }

  function EqToTriple(l: L.Expr, r: L.Expr, base: string, lit: Serializer): Option<TriplePattern> {
    if l.Property? && l.e.Variable? && lit(r).Some? then Some(TP(Var(l.e.name), Const(PropIri(base, l.key)), Const(lit(r).value)))
    else None
  }

  function FilterVar(x: string, key: string): string {
    "__" + x + "_" + key + "_flt"
  }

  function FilterSide(e: L.Expr, base: string, lit: Serializer): Option<Side> {
    match e
    case Lit(_) => if lit(e).Some? then Some(Side([], Const(lit(e).value), 0)) else None
    case Variable(x) => Some(Side([], Var(x), 0))
    case Property(b, key) =>
      if b.Variable? then
        var v := Var(FilterVar(b.name, key));
        Some(Side([Optional([Match(TP(Var(b.name), Const(PropIri(base, key)), v))])], v, 0))
      else None
    case Unary(op, e) =>
      if op == L.Neg then
        var s :- FilterSide(e, base, lit);
        Some(s.(negations := s.negations + 1))
      else None
    case _ => None
  }

  predicate Filterable(op: L.CmpOp) {
    op in {L.Eq, L.Ne, L.Lt, L.Le, L.Gt, L.Ge}
  }

  // Lookups pushed for one side stay even if the comparison has no filter.
  function FilterParts(op: L.CmpOp, l: L.Expr, r: L.Expr, base: string, lit: Serializer, meaning: FilterMeaning): seq<Part> {
    match FilterSide(l, base, lit)
    case None => []
    case Some(a) =>
      match FilterSide(r, base, lit)
      case None => a.parts
      case Some(b) =>
        a.parts + b.parts
        + if Filterable(op) then [Filter(a.term, (s, t) => meaning(op, a.negations, s, b.negations, t), b.term)] else []
  }

  function PredicateParts(e: L.Expr, base: string, lit: Serializer, meaning: FilterMeaning): seq<Part> {
    match e
    case Comparison(op, l, r) =>
      if op == L.Eq && EqToTriple(l, r, base, lit).Some? then [Match(EqToTriple(l, r, base, lit).value)]
      else if op == L.Eq && EqToTriple(r, l, base, lit).Some? then [Match(EqToTriple(r, l, base, lit).value)]
      else FilterParts(op, l, r, base, lit, meaning)
    case And(a, b) => PredicateParts(a, base, lit, meaning) + PredicateParts(b, base, lit, meaning)
    case LabelCheck(v, labels) => if v.Variable? then LabelParts(v.name, labels, base) else []
    case Not(c) => if c.LabelCheck? && c.e.Variable? then NoLabelParts(c.e.name, c.labels, base) else []
    case _ => []
  }

  function EdgePart(from: string, p: VarTerm, to: string, dir: Direction): Part {
    match dir
    case Outgoing => Match(TP(Var(from), p, Var(to)))
    case Incoming => Match(TP(Var(to), p, Var(from)))
    case Undirected => Either(TP(Var(from), p, Var(to)), TP(Var(to), p, Var(from)))
  }

  function EdgeParts(from: string, to: string, types: seq<string>, dir: Direction, base: string): seq<Part> {
    if types == [] then [] else [EdgePart(from, Const(TypeIri(base, types[0])), to, dir)] + EdgeParts(from, to, types[1..], dir, base)
  }

  // Without a type the far end, or the near end of an incoming step, must be a node.
  function ExpandParts(from: string, to: string, types: seq<string>, dir: Direction, base: string): seq<Part> {
    if types != [] then EdgeParts(from, to, types, dir, base)
    else
      var edge := EdgePart(from, Var("__pred_" + from + "_" + to), to, dir);
      match dir
      case Outgoing => [Sentinel(to, base), edge]
      case Incoming => [Sentinel(from, base), edge]
      case Undirected => [edge]
  }

  function RenameParts(items: seq<ProjItem>): seq<Part>
    requires forall i :: 0 <= i < |items| ==> items[i].expr.Variable?
  {
    if items == [] then []
    else (if items[0].expr.name == items[0].alias then [] else [Bind(items[0].expr.name, items[0].alias)]) + RenameParts(items[1..])
  }

  function WhereParts(op: Op, base: string, lit: Serializer, meaning: FilterMeaning): Result<seq<Part>, WhereError> {
    match op
    case Unit => Ok([])
    case Scan(x, first, extra) =>
      Ok([Sentinel(x, base)] + LabelParts(x, if first.Some? then [first.value] else [], base) + LabelParts(x, extra, base))
    case Expand(inner, from, _, to, types, dir, range, _) =>
      if range.Some? then Err(VarLengthExpand)
      else
        var parts :- WhereParts(inner, base, lit, meaning);
        Ok(parts + ExpandParts(from, to, types, dir, base))
    case Selection(inner, p) =>
      var parts :- WhereParts(inner, base, lit, meaning);
      Ok(parts + PredicateParts(p, base, lit, meaning))
    case Projection(inner, items, _) =>
      if forall i :: 0 <= i < |items| ==> items[i].expr.Variable? then
        var parts :- WhereParts(inner, base, lit, meaning);
        Ok(parts + RenameParts(items))
      else Err(ComputedProjection)
    case CartesianProduct(a, b) =>
      var l :- WhereParts(a, base, lit, meaning);
      var r :- WhereParts(b, base, lit, meaning);
      Ok(l + r)
    case LeftOuterJoin(a, b) =>
      var l :- WhereParts(a, base, lit, meaning);
      var r :- WhereParts(b, base, lit, meaning);
      Ok(l + if r == [] then [] else [Optional(r)])
  }
}

/** RDF graphs and the part of SPARQL 1.1 Update that the write compiler emits.

    A store is a set of triples.  The WHERE clause of an update is a group: a
    sequence of parts, evaluated left to right on solution mappings, whose
    filters apply to the group as a whole.  An update is the DELETE/INSERT
    operation of section 3.1.3 of SPARQL 1.1 Update: the group is solved once,
    against the graph as it was, then the deletions are made, then the
    insertions.
 */
module Sparql {
  import opened Prelude

  datatype Term =
    | Iri(iri: string)
    | BNode(id: nat)
    | Lit(lexical: string, datatypeIri: string)
    | Quoted(s: Term, p: Term, o: Term)

  datatype Triple = Triple(s: Term, p: Term, o: Term)

  type Store = iset<Triple>

  // A position of a triple pattern.  Blank occurs in INSERT templates only and
  // stands for a node made afresh for each solution.
  datatype VarTerm =
    | Var(name: string)
    | Const(term: Term)
    | Blank(id: nat)
    | QuotedPat(s: VarTerm, p: VarTerm, o: VarTerm)

  datatype TriplePattern = TP(s: VarTerm, p: VarTerm, o: VarTerm)

  // FILTER carries its comparison as a relation, so what is proved holds for
  // every meaning of the SPARQL operators.
  datatype Part =
    | Match(tp: TriplePattern)
    | Either(left: TriplePattern, right: TriplePattern)
    | Optional(body: seq<Part>)
    | Filter(l: VarTerm, rel: (Term, Term) -> bool, r: VarTerm)
    | NotExists(alternatives: seq<seq<TriplePattern>>)
    | Values(variable: string, terms: seq<Term>)
    | Bind(source: string, alias: string)

  datatype Update = Update(delete: seq<TriplePattern>, insert: seq<TriplePattern>, pattern: seq<Part>)

  type Solution = map<string, Term>

  // ---------- Instantiation ----------

  function VarsOf(vt: VarTerm): set<string> {
    match vt
    case Var(x) => {x}
    case Const(_) => {}
    case Blank(_) => {}
    case QuotedPat(s, p, o) => VarsOf(s) + VarsOf(p) + VarsOf(o)
  }

  function TpVars(tp: TriplePattern): set<string> {
    VarsOf(tp.s) + VarsOf(tp.p) + VarsOf(tp.o)
  }

  // An unbound variable, or a blank node where none is made, has no instance.
  function Inst(vt: VarTerm, mu: Solution): Option<Term> {
    match vt
    case Var(x) => if x in mu then Some(mu[x]) else None
    case Const(t) => Some(t)
    case Blank(_) => None
    case QuotedPat(s, p, o) =>
      var a, b, c := Inst(s, mu), Inst(p, mu), Inst(o, mu);
      if a.Some? && b.Some? && c.Some? then Some(Quoted(a.value, b.value, c.value)) else None
  }

  function InstTp(tp: TriplePattern, mu: Solution): Option<Triple> {
    var a, b, c := Inst(tp.s, mu), Inst(tp.p, mu), Inst(tp.o, mu);
    if a.Some? && b.Some? && c.Some? then Some(Triple(a.value, b.value, c.value)) else None
  }

  // ---------- Groups ----------

  ghost predicate Extends(mu: Solution, nu: Solution) {
    forall x :: x in mu ==> x in nu && nu[x] == mu[x]
  }

  function AllVars(tps: seq<TriplePattern>): set<string> {
    set tp, x | tp in tps && x in TpVars(tp) :: x
  }

  ghost predicate Holds(tp: TriplePattern, g: Store, nu: Solution) {
    InstTp(tp, nu).Some? && InstTp(tp, nu).value in g
  }

  // nu extends mu by a match of every pattern.
  ghost predicate BgpMatch(tps: seq<TriplePattern>, g: Store, mu: Solution, nu: Solution) {
    && Extends(mu, nu)
    && nu.Keys == mu.Keys + AllVars(tps)
    && forall tp :: tp in tps ==> Holds(tp, g, nu)
  }

  ghost predicate FilterHolds(part: Part, g: Store, mu: Solution) {
    match part
    case Filter(l, rel, r) => Inst(l, mu).Some? && Inst(r, mu).Some? && rel(Inst(l, mu).value, Inst(r, mu).value)
    case NotExists(alts) => forall alt, nu: Solution :: alt in alts ==> !BgpMatch(alt, g, mu, nu)
    case _ => true
  }

  // The effect of one part on the solution mu.
  ghost predicate Step(part: Part, g: Store, mu: Solution, nu: Solution)
    decreases part, 2
  {
    match part
    case Match(tp) => BgpMatch([tp], g, mu, nu)
    case Either(l, r) => BgpMatch([l], g, mu, nu) || BgpMatch([r], g, mu, nu)
    case Optional(body) =>
      Solves(body, g, mu, nu) || (nu == mu && !exists xi: Solution :: Solves(body, g, mu, xi))
    case Filter(_, _, _) => nu == mu
    case NotExists(_) => nu == mu
    case Values(x, ts) => exists t :: t in ts && (x in mu ==> mu[x] == t) && nu == mu[x := t]
    case Bind(src, alias) => if src in mu then nu == mu[alias := mu[src]] else nu == mu
  }

  ghost predicate Reaches(parts: seq<Part>, g: Store, mu: Solution, nu: Solution)
    decreases parts, 0
  {
    if parts == [] then nu == mu
    else exists xi: Solution :: Step(parts[0], g, mu, xi) && Reaches(parts[1..], g, xi, nu)
  }

  ghost predicate Solves(parts: seq<Part>, g: Store, mu: Solution, nu: Solution)
    decreases parts, 1
  {
    Reaches(parts, g, mu, nu) && forall part :: part in parts ==> FilterHolds(part, g, nu)
  }

  // nu is a solution of the group over g.
  ghost predicate IsSolution(parts: seq<Part>, g: Store, nu: Solution) {
    Solves(parts, g, map[], nu)
  }

  // ---------- Updates ----------

  // The nodes made for blank nodes of an INSERT template.
  type Supply = (nat, Solution) -> Term

  function InstNew(vt: VarTerm, mu: Solution, supply: Supply): Option<Term> {
    if vt.Blank? then Some(supply(vt.id, mu)) else Inst(vt, mu)
  }

  ghost predicate Deletes(u: Update, g: Store, t: Triple) {
    exists mu: Solution, tp :: IsSolution(u.pattern, g, mu) && tp in u.delete && InstTp(tp, mu) == Some(t)
  }

  // An instance whose subject would be a literal is not a triple and is skipped.
  ghost predicate InsertsBy(tp: TriplePattern, mu: Solution, supply: Supply, t: Triple) {
    && InstNew(tp.s, mu, supply) == Some(t.s)
    && InstNew(tp.p, mu, supply) == Some(t.p)
    && InstNew(tp.o, mu, supply) == Some(t.o)
    && !t.s.Lit?
  }

  ghost predicate Inserts(u: Update, g: Store, supply: Supply, t: Triple) {
    exists mu: Solution, tp :: IsSolution(u.pattern, g, mu) && tp in u.insert && InsertsBy(tp, mu, supply, t)
  }

  ghost function Run(u: Update, g: Store, supply: Supply): Store {
    iset t | (t in g && !Deletes(u, g, t)) || Inserts(u, g, supply, t)
  }

  // Updates run one after the other, each on the graph the previous one left.
  ghost function RunAll(us: seq<Update>, g: Store, supply: Supply): Store {
    if us == [] then g else RunAll(us[1..], Run(us[0], g, supply), supply)
  }

  // ---------- Which triples a group can see ----------

  // The triples of a predicate, or those with a given object besides.
  datatype Footprint = OfPredicate(p: Term) | OfPair(p: Term, o: Term)

  predicate Covers(w: Footprint, t: Triple) {
    t.p == w.p && (w.OfPair? ==> t.o == w.o)
  }

  // No instance of the pattern is covered.
  predicate Clear(tp: TriplePattern, w: Footprint) {
    && tp.p.Const?
    && (tp.p.term == w.p ==> w.OfPair? && tp.o.Const? && tp.o.term != w.o)
  }

  predicate TpAvoids(tp: TriplePattern, ws: set<Footprint>) {
    tp.p.Const? && forall w :: w in ws ==> Clear(tp, w)
  }

  // Every predicate of the part is fixed, and no pattern reaches into ws.
  predicate PartAvoids(part: Part, ws: set<Footprint>) {
    match part
    case Match(tp) => TpAvoids(tp, ws)
    case Either(l, r) => TpAvoids(l, ws) && TpAvoids(r, ws)
    case Optional(body) => forall i :: 0 <= i < |body| ==> PartAvoids(body[i], ws)
    case NotExists(alts) => forall i, j :: 0 <= i < |alts| && 0 <= j < |alts[i]| ==> TpAvoids(alts[i][j], ws)
    case _ => true
  }

  predicate Avoids(parts: seq<Part>, ws: set<Footprint>) {
    forall i :: 0 <= i < |parts| ==> PartAvoids(parts[i], ws)
  }

  ghost predicate SameOutside(g: Store, h: Store, ws: set<Footprint>) {
    forall t: Triple :: (forall w :: w in ws ==> !Covers(w, t)) ==> (t in g <==> t in h)
  }

  lemma FrameBgp(tps: seq<TriplePattern>, g: Store, h: Store, ws: set<Footprint>, mu: Solution, nu: Solution)
    requires forall i :: 0 <= i < |tps| ==> TpAvoids(tps[i], ws)
    requires SameOutside(g, h, ws)
    ensures BgpMatch(tps, g, mu, nu) <==> BgpMatch(tps, h, mu, nu)
  {
    forall tp | tp in tps
      ensures Holds(tp, g, nu) <==> Holds(tp, h, nu)
    {
      if InstTp(tp, nu).Some? {
        var t := InstTp(tp, nu).value;
        assert forall w :: w in ws ==> Clear(tp, w) && !Covers(w, t);
      }
    }
  }

  lemma FrameFilter(part: Part, g: Store, h: Store, ws: set<Footprint>, mu: Solution)
    requires PartAvoids(part, ws) && SameOutside(g, h, ws)
    ensures FilterHolds(part, g, mu) <==> FilterHolds(part, h, mu)
  {
    if part.NotExists? {
      forall alt, nu: Solution | alt in part.alternatives
        ensures BgpMatch(alt, g, mu, nu) <==> BgpMatch(alt, h, mu, nu)
      {
        FrameBgp(alt, g, h, ws, mu, nu);
      }
    }
  }

  lemma {:induction false} FrameStep(part: Part, g: Store, h: Store, ws: set<Footprint>, mu: Solution, nu: Solution)
    requires PartAvoids(part, ws) && SameOutside(g, h, ws)
    ensures Step(part, g, mu, nu) <==> Step(part, h, mu, nu)
    decreases part, 2
  {
    match part {
      case Match(tp) => FrameBgp([tp], g, h, ws, mu, nu);
      case Either(l, r) =>
        FrameBgp([l], g, h, ws, mu, nu);
        FrameBgp([r], g, h, ws, mu, nu);
      case Optional(body) =>
        forall xi: Solution
          ensures Solves(body, g, mu, xi) <==> Solves(body, h, mu, xi)
        {
          FrameSolves(body, g, h, ws, mu, xi);
        }
      case _ =>
    }
  }

  lemma {:induction false} FrameReaches(parts: seq<Part>, g: Store, h: Store, ws: set<Footprint>, mu: Solution, nu: Solution)
    requires Avoids(parts, ws) && SameOutside(g, h, ws)
    ensures Reaches(parts, g, mu, nu) <==> Reaches(parts, h, mu, nu)
    decreases parts, 0
  {
    if parts != [] {
      forall xi: Solution
        ensures Step(parts[0], g, mu, xi) && Reaches(parts[1..], g, xi, nu)
           <==> Step(parts[0], h, mu, xi) && Reaches(parts[1..], h, xi, nu)
      {
        FrameStep(parts[0], g, h, ws, mu, xi);
        FrameReaches(parts[1..], g, h, ws, xi, nu);
      }
    }
  }

  // A group cannot tell apart two graphs that differ only in predicates it does not mention.
  lemma {:induction false} FrameSolves(parts: seq<Part>, g: Store, h: Store, ws: set<Footprint>, mu: Solution, nu: Solution)
    requires Avoids(parts, ws) && SameOutside(g, h, ws)
    ensures Solves(parts, g, mu, nu) <==> Solves(parts, h, mu, nu)
    decreases parts, 1
  {
    FrameReaches(parts, g, h, ws, mu, nu);
    forall part | part in parts
      ensures FilterHolds(part, g, nu) <==> FilterHolds(part, h, nu)
    {
      FrameFilter(part, g, h, ws, nu);
    }
  }
}

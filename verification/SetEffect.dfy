/** What a whole SET clause does to the store.

    Every update solves the match context again.  When no assignment writes
    where the context looks, each of them still finds the nodes matched at the
    start, and the store ends as if all had been made at once.
 */
module SetEffect {
  import opened Prelude
  import opened Sparql
  import opened WriteSet
  import L = Lqa

  datatype Assignment = Assignment(x: string, write: Write, old_: string)

  function Emit(a: Assignment, context: seq<Part>): Update {
    CompileWrite(a.x, a.write, a.old_, context)
  }

  function EmitAll(assignments: seq<Assignment>, context: seq<Part>): seq<Update> {
    if assignments == [] then [] else [Emit(assignments[0], context)] + EmitAll(assignments[1..], context)
  }

  // Assignments made one by one to the nodes that the context matches in g0.
  ghost function Assigned(assignments: seq<Assignment>, context: seq<Part>, g0: Store, g: Store): Store {
    if assignments == [] then g
    else
      var a := assignments[0];
      Assigned(assignments[1..], context, g0, Effect(a.write, Matched(context, a.x, g0), g))
  }

  // Where an assignment writes.
  function Writes(w: Write): Footprint {
    match w
    case Put(p, _, _) => OfPredicate(p)
    case AddType(l) => OfPair(Iri(RDF_TYPE), l)
  }

  function AllWrites(assignments: seq<Assignment>): set<Footprint> {
    set a | a in assignments :: Writes(a.write)
  }

  ghost predicate WellFormed(a: Assignment, context: seq<Part>) {
    && GoodVars(context, a.x, a.old_)
    && (a.write.Put? && a.write.strict ==> a.write.value.None?)
  }

  lemma MatchedFrame(context: seq<Part>, x: string, g: Store, h: Store, ws: set<Footprint>)
    requires Avoids(context, ws) && SameOutside(g, h, ws)
    ensures Matched(context, x, g) == Matched(context, x, h)
  {
    forall mu: Solution
      ensures IsSolution(context, g, mu) <==> IsSolution(context, h, mu)
    {
      FrameSolves(context, g, h, ws, map[], mu);
    }
    forall n: Term
      ensures n in Matched(context, x, g) <==> n in Matched(context, x, h)
    {
      forall mu: Solution | IsSolution(context, g, mu) && x in mu && !mu[x].Lit? && mu[x] == n
        ensures n in Matched(context, x, h)
      {
        assert IsSolution(context, h, mu);
      }
      forall mu: Solution | IsSolution(context, h, mu) && x in mu && !mu[x].Lit? && mu[x] == n
        ensures n in Matched(context, x, g)
      {
        assert IsSolution(context, g, mu);
      }
    }
  }

  lemma EffectStaysInside(w: Write, nodes: iset<Term>, g0: Store, g: Store, ws: set<Footprint>)
    requires SameOutside(g0, g, ws) && Writes(w) in ws
    ensures SameOutside(g0, Effect(w, nodes, g), ws)
  {
    forall t: Triple | forall f :: f in ws ==> !Covers(f, t)
      ensures t in g0 <==> t in Effect(w, nodes, g)
    {
      assert !Covers(Writes(w), t);
    }
  }

  // The footprints that a later update could trip over: those of all but the last assignment.
  lemma {:induction false} AssignmentsRun(assignments: seq<Assignment>, context: seq<Part>, g0: Store, g: Store, supply: Supply, ws: set<Footprint>)
    requires forall a :: a in assignments ==> WellFormed(a, context)
    requires Avoids(context, ws) && SameOutside(g0, g, ws)
    requires assignments != [] ==> AllWrites(assignments[..|assignments| - 1]) <= ws
    requires NoLiteralSubjects(g)
    ensures RunAll(EmitAll(assignments, context), g, supply) == Assigned(assignments, context, g0, g)
  {
    if assignments != [] {
      hide CompileWrite, Matched, Run, Avoids, Effect, GoodVars;
      var a, rest := assignments[0], assignments[1..];
      MatchedFrame(context, a.x, g0, g, ws);
      assert WellFormed(a, context);
      WriteHasEffect(context, a.x, a.write, a.old_, g, supply);
      var h := Effect(a.write, Matched(context, a.x, g0), g);
      if rest == [] {
        assert EmitAll(assignments, context) == [Emit(a, context)] + EmitAll(rest, context);
      } else {
        var all, init := assignments[..|assignments| - 1], rest[..|rest| - 1];
        assert all[0] == a && Writes(a.write) in AllWrites(all);
        forall f | f in AllWrites(init)
          ensures f in ws
        {
          var b :| b in init && f == Writes(b.write);
          assert b in all;
          assert f in AllWrites(all);
        }
        EffectStaysInside(a.write, Matched(context, a.x, g0), g0, g, ws);
        AssignmentsRun(rest, context, g0, h, supply, ws);
      }
      assert EmitAll(assignments, context)[1..] == EmitAll(rest, context);
    }
  }

  // ---------- The assignments of a SET clause ----------

  // The term a map entry or a constant assignment stores; none removes the property.
  function Stored(e: L.Expr, lit: Serializer): Option<Term> {
    if e == L.Lit(L.Null) then None else lit(e)
  }

  function PairAssignments(x: string, pairs: seq<L.Entry>, base: string, lit: Serializer): seq<Assignment> {
    if pairs == [] then []
    else
      var key, e := pairs[0].key, pairs[0].value;
      var w := Put(PropIri(base, key), Stored(e, lit), e == L.Lit(L.Null));
      [Assignment(x, w, OldVar(x, key))] + PairAssignments(x, pairs[1..], base, lit)
  }

  function LabelAssignments(x: string, labels: seq<string>, base: string): seq<Assignment> {
    if labels == [] then []
    else [Assignment(x, AddType(Iri(base + labels[0])), "")] + LabelAssignments(x, labels[1..], base)
  }

  function ItemAssignments(item: SetItem, base: string, lit: Serializer): seq<Assignment> {
    match item
    case Property(x, key, e) => [Assignment(x, Put(PropIri(base, key), lit(e), false), OldVar(x, key))]
    case MergeMap(x, e) => if e.Map? then PairAssignments(x, e.pairs, base, lit) else []
    case Label(x, labels) => LabelAssignments(x, labels, base)
  }

  function ItemsAssignments(items: seq<SetItem>, base: string, lit: Serializer): seq<Assignment> {
    if items == [] then [] else ItemAssignments(items[0], base, lit) + ItemsAssignments(items[1..], base, lit)
  }

  lemma {:induction false} EmitAllAppend(bs: seq<Assignment>, cs: seq<Assignment>, context: seq<Part>)
    ensures EmitAll(bs + cs, context) == EmitAll(bs, context) + EmitAll(cs, context)
  {
    if bs == [] {
      assert bs + cs == cs;
    } else {
      assert (bs + cs)[1..] == bs[1..] + cs;
      EmitAllAppend(bs[1..], cs, context);
    }
  }

  lemma {:induction false} PairsEmitted(x: string, pairs: seq<L.Entry>, context: seq<Part>, base: string, lit: Serializer)
    requires context != [] && CompilePairs(x, pairs, context, base, lit).Ok?
    ensures CompilePairs(x, pairs, context, base, lit).value == EmitAll(PairAssignments(x, pairs, base, lit), context)
    ensures forall i :: 0 <= i < |pairs| ==> !MapKeyInWhere(pairs[i].key, base, context)
    ensures forall i :: 0 <= i < |pairs| && pairs[i].value != L.Lit(L.Null) ==> lit(pairs[i].value).Some?
  {
    hide CompileWrite, MapKeyInWhere;
    if pairs != [] {
      PairsEmitted(x, pairs[1..], context, base, lit);
      forall i | 0 < i < |pairs|
        ensures !MapKeyInWhere(pairs[i].key, base, context)
        ensures pairs[i].value != L.Lit(L.Null) ==> lit(pairs[i].value).Some?
      {
        assert pairs[1..][i - 1] == pairs[i];
      }
    }
  }

  lemma {:induction false} LabelsEmitted(x: string, labels: seq<string>, context: seq<Part>, base: string)
    requires context != []
    ensures CompileLabels(x, labels, context, base) == EmitAll(LabelAssignments(x, labels, base), context)
  {
    hide CompileWrite;
    if labels != [] {
      LabelsEmitted(x, labels[1..], context, base);
    }
  }

  lemma ItemEmitted(item: SetItem, context: seq<Part>, base: string, lit: Serializer)
    requires context != [] && CompileItem(item, context, base, lit).Ok?
    requires lit(L.Lit(L.Null)).None?
    ensures CompileItem(item, context, base, lit).value == EmitAll(ItemAssignments(item, base, lit), context)
  {
    hide CompileWrite;
    match item {
      case Property(_, _, _) =>
        var assignments := ItemAssignments(item, base, lit);
        assert assignments[1..] == [];
      case MergeMap(x, e) => PairsEmitted(x, e.pairs, context, base, lit);
      case Label(x, labels) => LabelsEmitted(x, labels, context, base);
    }
  }

  lemma {:induction false} ItemsEmitted(items: seq<SetItem>, context: seq<Part>, base: string, lit: Serializer)
    requires context != [] && CompileItems(items, context, base, lit).Ok?
    requires lit(L.Lit(L.Null)).None?
    ensures CompileItems(items, context, base, lit).value == EmitAll(ItemsAssignments(items, base, lit), context)
  {
    hide CompileItem, ItemAssignments;
    if items != [] {
      ItemEmitted(items[0], context, base, lit);
      ItemsEmitted(items[1..], context, base, lit);
      EmitAllAppend(ItemAssignments(items[0], base, lit), ItemsAssignments(items[1..], base, lit), context);
    }
  }

  // A SET clause assigns to the nodes matched at its start, whatever its items,
  // as long as no update but the last writes where the context looks.
  lemma SetClauseEffect(items: seq<SetItem>, context: seq<Part>, base: string, lit: Serializer, g: Store, supply: Supply)
    requires context != [] && CompileItems(items, context, base, lit).Ok?
    requires lit(L.Lit(L.Null)).None? && NoLiteralSubjects(g)
    requires var assignments := ItemsAssignments(items, base, lit);
             && (forall a :: a in assignments ==> WellFormed(a, context))
             && (assignments != [] ==> Avoids(context, AllWrites(assignments[..|assignments| - 1])))
    ensures RunAll(CompileItems(items, context, base, lit).value, g, supply)
         == Assigned(ItemsAssignments(items, base, lit), context, g, g)
  {
    hide CompileItems, ItemsAssignments, Avoids;
    var assignments := ItemsAssignments(items, base, lit);
    ItemsEmitted(items, context, base, lit);
    if assignments != [] {
      AssignmentsRun(assignments, context, g, g, supply, AllWrites(assignments[..|assignments| - 1]));
    }
  }

  // ---------- Merging a map ----------

  // A part with fixed predicates that does not mention an IRI cannot see its triples.
  lemma {:induction false} UnmentionedAvoids(part: Part, ws: set<Footprint>)
    requires PartAvoids(part, {})
    requires forall w :: w in ws ==> w.OfPredicate? && w.p.Iri? && !Mentions(part, w.p.iri)
    ensures PartAvoids(part, ws)
  {
    match part {
      case Match(tp) =>
        assert forall w :: w in ws ==> Clear(tp, w);
      case Either(l, r) =>
        assert forall w :: w in ws ==> Clear(l, w) && Clear(r, w);
      case Optional(body) =>
        forall i | 0 <= i < |body| ensures PartAvoids(body[i], ws) { UnmentionedAvoids(body[i], ws); }
      case NotExists(alts) =>
        forall i, j | 0 <= i < |alts| && 0 <= j < |alts[i]| ensures TpAvoids(alts[i][j], ws) {
          forall w | w in ws ensures Clear(alts[i][j], w) {
            assert !TpMentions(alts[i][j], w.p.iri);
          }
        }
      case _ =>
    }
  }

  // Entry i is the last one for its key.
  predicate Last(pairs: seq<L.Entry>, i: int)
    requires 0 <= i < |pairs|
  {
    forall j :: i < j < |pairs| ==> pairs[j].key != pairs[i].key
  }

  predicate IsKey(pairs: seq<L.Entry>, base: string, p: Term) {
    exists i :: 0 <= i < |pairs| && p == PropIri(base, pairs[i].key)
  }

  // h is g with exactly the merged properties on the nodes: the last entry of
  // a key decides its value, null leaves none, and nothing else changes.
  ghost predicate IsMerge(pairs: seq<L.Entry>, base: string, lit: Serializer, nodes: iset<Term>, g: Store, h: Store) {
    && (forall t: Triple :: t.s !in nodes || !IsKey(pairs, base, t.p) ==> (t in h <==> t in g))
    && forall n, i, o :: n in nodes && 0 <= i < |pairs| && Last(pairs, i) ==>
         (Triple(n, PropIri(base, pairs[i].key), o) in h <==> Stored(pairs[i].value, lit) == Some(o))
  }

  lemma {:induction false} PairsMerge(x: string, pairs: seq<L.Entry>, context: seq<Part>, base: string, lit: Serializer, g0: Store, g: Store)
    ensures IsMerge(pairs, base, lit, Matched(context, x, g0), g, Assigned(PairAssignments(x, pairs, base, lit), context, g0, g))
  {
    hide Matched;
    if pairs != [] {
      var nodes, rest := Matched(context, x, g0), pairs[1..];
      var assignments := PairAssignments(x, pairs, base, lit);
      var e := Effect(assignments[0].write, nodes, g);
      var h := Assigned(assignments, context, g0, g);
      assert assignments[1..] == PairAssignments(x, rest, base, lit);
      PairsMerge(x, rest, context, base, lit, g0, e);
      assert h == Assigned(PairAssignments(x, rest, base, lit), context, g0, e);
      forall t: Triple | t.s !in nodes || !IsKey(pairs, base, t.p)
        ensures t in h <==> t in g
      {
        assert pairs[0].key == pairs[0].key;
        if IsKey(rest, base, t.p) {
          var j :| 0 <= j < |rest| && t.p == PropIri(base, rest[j].key);
          assert pairs[j + 1] == rest[j];
        }
      }
      forall n, i, o | n in nodes && 0 <= i < |pairs| && Last(pairs, i)
        ensures Triple(n, PropIri(base, pairs[i].key), o) in h <==> Stored(pairs[i].value, lit) == Some(o)
      {
        var t := Triple(n, PropIri(base, pairs[i].key), o);
        if i > 0 {
          assert rest[i - 1] == pairs[i];
          assert forall j :: i - 1 < j < |rest| ==> rest[j] == pairs[j + 1];
          assert Last(rest, i - 1);
        } else if IsKey(rest, base, t.p) {
          var j :| 0 <= j < |rest| && t.p == PropIri(base, rest[j].key);
          assert pairs[j + 1] == rest[j];
          PropIriInjective(base, pairs[0].key, rest[j].key);
          assert false;
        }
      }
    }
  }

  lemma PropIriInjective(base: string, k: string, l: string)
    ensures PropIri(base, k) == PropIri(base, l) ==> k == l
  {
    if PropIri(base, k) == PropIri(base, l) {
      assert (base + k)[|base|..] == k && (base + l)[|base|..] == l;
    }
  }

  lemma {:induction false} PairAssignmentsShape(x: string, pairs: seq<L.Entry>, base: string, lit: Serializer)
    ensures |PairAssignments(x, pairs, base, lit)| == |pairs|
    ensures forall i :: 0 <= i < |pairs| ==>
              var w := Put(PropIri(base, pairs[i].key), Stored(pairs[i].value, lit), pairs[i].value == L.Lit(L.Null));
              PairAssignments(x, pairs, base, lit)[i] == Assignment(x, w, OldVar(x, pairs[i].key))
  {
    if pairs != [] {
      PairAssignmentsShape(x, pairs[1..], base, lit);
    }
  }

  // A compiled map merge leaves every matched node with exactly the merged
  // properties.  The compiler's refusal of keys that the context mentions is
  // what lets each update find the nodes again.
  lemma MapMergeEffect(x: string, pairs: seq<L.Entry>, context: seq<Part>, base: string, lit: Serializer, g: Store, supply: Supply)
    requires context != [] && Avoids(context, {}) && NoLiteralSubjects(g)
    requires Binds(context, x) && forall i :: 0 <= i < |pairs| ==> OldVar(x, pairs[i].key) !in PartsVars(context)
    requires CompileItem(MergeMap(x, L.Map(pairs)), context, base, lit).Ok?
    ensures IsMerge(pairs, base, lit, Matched(context, x, g), g,
                    RunAll(CompileItem(MergeMap(x, L.Map(pairs)), context, base, lit).value, g, supply))
  {
    hide Matched, IsMerge, Mentions, PartsVars, Binds, RunAll, PairAssignments;
    PairsEmitted(x, pairs, context, base, lit);
    PairAssignmentsShape(x, pairs, base, lit);
    var assignments := PairAssignments(x, pairs, base, lit);
    var ws := AllWrites(assignments);
    forall i | 0 <= i < |context|
      ensures PartAvoids(context[i], ws)
    {
      forall w | w in ws
        ensures w.OfPredicate? && w.p.Iri? && !Mentions(context[i], w.p.iri)
      {
        var a :| a in assignments && w == Writes(a.write);
        var k :| 0 <= k < |assignments| && assignments[k] == a;
        assert !MapKeyInWhere(pairs[k].key, base, context);
      }
      UnmentionedAvoids(context[i], ws);
    }
    forall a | a in assignments
      ensures WellFormed(a, context)
    {
      var k :| 0 <= k < |assignments| && assignments[k] == a;
    }
    AssignmentsRun(assignments, context, g, g, supply, ws);
    PairsMerge(x, pairs, context, base, lit, g, g);
  }
}

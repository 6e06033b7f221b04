/** When SET over a node pattern takes effect as if all at once.

    Every update of a SET clause matches the pattern again.  An update that
    overwrites a property of the pattern hides the nodes from all that follow,
    so what follows must be in force already.  For the patterns of a single
    node this is exact, over all stores.
 */
module SetExact {
  import opened Prelude
  import opened Sparql
  import opened WriteSet
  import opened SetEffect
  import opened WriteMerge
  import opened NodeMergeEffect
  import W = WhereMeaning
  import Q = Where
  import L = Lqa
  import O = Ops

  // ---------- The nodes of a pattern ----------

  ghost function Nodes(traits: seq<Trait>, g: Store): iset<Term> {
    iset n: Term | !n.Lit? && IsMatch(traits, n, g)
  }

  lemma {:induction false} TraitPartsAre(x: string, traits: seq<Trait>)
    ensures forall t :: t in traits ==> Match(TraitPattern(Var(x), t)) in TraitParts(x, traits)
    ensures forall part :: part in TraitParts(x, traits) ==> part.Match? && exists t :: t in traits && part.tp == TraitPattern(Var(x), t)
    ensures W.BindVars(TraitParts(x, traits)) == if traits == [] then {} else {x}
    ensures PartsVars(TraitParts(x, traits)) == if traits == [] then {} else {x}
  {
    if traits != [] {
      var rest := traits[1..];
      TraitPartsAre(x, rest);
      assert TraitParts(x, traits) == [Match(TraitPattern(Var(x), traits[0]))] + TraitParts(x, rest);
      assert TpVars(TraitPattern(Var(x), traits[0])) == {x};
      forall part | part in TraitParts(x, traits)
        ensures part.Match? && exists t :: t in traits && part.tp == TraitPattern(Var(x), t)
      {
        if part in TraitParts(x, rest) {
          var t :| t in rest && part.tp == TraitPattern(Var(x), t);
          assert t in traits;
        } else {
          assert traits[0] in traits;
        }
      }
    }
  }

  lemma PatternSolved(x: string, traits: seq<Trait>, g: Store, mu: Solution)
    requires traits != []
    ensures IsSolution(TraitParts(x, traits), g, mu) <==> mu.Keys == {x} && IsMatch(traits, mu[x], g)
  {
    hide IsSolution;
    var parts := TraitParts(x, traits);
    TraitPartsAre(x, traits);
    W.FlatSolves(parts, g, mu);
    if mu.Keys == {x} {
      forall t
        ensures W.PartHolds(Match(TraitPattern(Var(x), t)), g, mu) <==> Triple(mu[x], t.p, t.o) in g
      {
      }
    }
  }

  lemma MatchedByTraits(x: string, traits: seq<Trait>, g: Store)
    requires traits != []
    ensures Matched(TraitParts(x, traits), x, g) == Nodes(traits, g)
  {
    hide IsSolution, IsMatch;
    var parts := TraitParts(x, traits);
    forall n: Term
      ensures n in Matched(parts, x, g) <==> n in Nodes(traits, g)
    {
      if n in Matched(parts, x, g) {
        var mu: Solution :| IsSolution(parts, g, mu) && x in mu && !mu[x].Lit? && mu[x] == n;
        PatternSolved(x, traits, g, mu);
      }
      if n in Nodes(traits, g) {
        var mu: Solution := map[x := n];
        PatternSolved(x, traits, g, mu);
        assert IsSolution(parts, g, mu);
      }
    }
  }

  // ---------- One by one, and all at once ----------

  function WritesOf(assignments: seq<Assignment>): seq<Write> {
    if assignments == [] then [] else [assignments[0].write] + WritesOf(assignments[1..])
  }

  ghost function AtOnce(ws: seq<Write>, nodes: iset<Term>, g: Store): Store {
    if ws == [] then g else AtOnce(ws[1..], nodes, Effect(ws[0], nodes, g))
  }

  ghost function OneByOne(ws: seq<Write>, traits: seq<Trait>, g: Store): Store {
    if ws == [] then g else OneByOne(ws[1..], traits, Effect(ws[0], Nodes(traits, g), g))
  }

  lemma {:induction false} RunIsOneByOne(assignments: seq<Assignment>, x: string, traits: seq<Trait>, g: Store, supply: Supply)
    requires traits != [] && NoLiteralSubjects(g)
    requires forall a :: a in assignments ==> a.x == x && WellFormed(a, TraitParts(x, traits))
    ensures RunAll(EmitAll(assignments, TraitParts(x, traits)), g, supply) == OneByOne(WritesOf(assignments), traits, g)
  {
    if assignments != [] {
      hide CompileWrite, Matched, Run, Effect, GoodVars, Nodes, TraitParts;
      var a, rest, context := assignments[0], assignments[1..], TraitParts(x, traits);
      assert a in assignments && WellFormed(a, context);
      WriteHasEffect(context, x, a.write, a.old_, g, supply);
      MatchedByTraits(x, traits, g);
      RunIsOneByOne(rest, x, traits, Run(Emit(a, context), g, supply), supply);
      assert EmitAll(assignments, context)[1..] == EmitAll(rest, context);
      assert WritesOf(assignments)[1..] == WritesOf(rest);
    }
  }

  lemma {:induction false} AssignedIsAtOnce(assignments: seq<Assignment>, x: string, traits: seq<Trait>, g0: Store, g: Store)
    requires traits != [] && forall a :: a in assignments ==> a.x == x
    ensures Assigned(assignments, TraitParts(x, traits), g0, g) == AtOnce(WritesOf(assignments), Nodes(traits, g0), g)
  {
    if assignments != [] {
      hide Matched, Effect, Nodes, TraitParts;
      MatchedByTraits(x, traits, g0);
      AssignedIsAtOnce(assignments[1..], x, traits, g0, Effect(assignments[0].write, Nodes(traits, g0), g));
      assert assignments[0] in assignments;
      assert WritesOf(assignments)[1..] == WritesOf(assignments[1..]);
    }
  }

  // ---------- Losing the match ----------

  // The write takes away a property that the pattern asks for.
  predicate Breaks(w: Write, traits: seq<Trait>) {
    w.Put? && exists t :: t in traits && t.p == w.property && w.value != Some(t.o)
  }

  // The writes up to the first that does, and that one.
  function Done(ws: seq<Write>, traits: seq<Trait>): seq<Write> {
    if ws == [] then [] else [ws[0]] + if Breaks(ws[0], traits) then [] else Done(ws[1..], traits)
  }

  lemma NodesAfter(w: Write, traits: seq<Trait>, g: Store)
    ensures Nodes(traits, Effect(w, Nodes(traits, g), g)) == if Breaks(w, traits) then iset{} else Nodes(traits, g)
  {
    var h := Effect(w, Nodes(traits, g), g);
    forall n: Term
      ensures n in Nodes(traits, h) <==> !Breaks(w, traits) && n in Nodes(traits, g)
    {
      if !IsMatch(traits, n, g) {
        var t :| t in traits && Triple(n, t.p, t.o) !in g;
        assert Triple(n, t.p, t.o) !in h;
      }
      if n in Nodes(traits, g) && Breaks(w, traits) {
        var t :| t in traits && t.p == w.property && w.value != Some(t.o);
        assert Triple(n, t.p, t.o) !in h;
      }
    }
  }

  lemma {:induction false} NothingToDo(ws: seq<Write>, traits: seq<Trait>, g: Store)
    requires Nodes(traits, g) == iset{}
    ensures OneByOne(ws, traits, g) == g
  {
    if ws != [] {
      assert Effect(ws[0], iset{}, g) == g;
      NothingToDo(ws[1..], traits, g);
    }
  }

  lemma {:induction false} OneByOneIsDone(ws: seq<Write>, traits: seq<Trait>, g: Store)
    ensures OneByOne(ws, traits, g) == AtOnce(Done(ws, traits), Nodes(traits, g), g)
  {
    hide Nodes, Effect, Breaks;
    if ws != [] {
      var nodes, w := Nodes(traits, g), ws[0];
      var h := Effect(w, nodes, g);
      NodesAfter(w, traits, g);
      if Breaks(w, traits) {
        NothingToDo(ws[1..], traits, h);
        assert Done(ws, traits) == [w] && [w][1..] == [];
      } else {
        OneByOneIsDone(ws[1..], traits, h);
        assert Done(ws, traits)[1..] == Done(ws[1..], traits);
      }
    }
  }

  // ---------- One triple ----------

  // Whether the triple (q, o) of a matched node is there after the writes, b telling
  // whether it was there before.
  function After(ws: seq<Write>, q: Term, o: Term, b: bool): bool {
    if ws == [] then b
    else
      After(ws[1..], q, o,
            match ws[0]
            case Put(p, v, _) => if p == q then v == Some(o) else b
            case AddType(l) => b || (q == Iri(RDF_TYPE) && o == l))
  }

  lemma {:induction false} AtOnceIsAfter(ws: seq<Write>, nodes: iset<Term>, g: Store, t: Triple)
    ensures t in AtOnce(ws, nodes, g) <==> if t.s in nodes then After(ws, t.p, t.o, t in g) else t in g
  {
    if ws != [] {
      AtOnceIsAfter(ws[1..], nodes, Effect(ws[0], nodes, g), t);
    }
  }

  // The value that the writes leave in property q, None if they do not touch it.
  function Final(ws: seq<Write>, q: Term): Option<Option<Term>> {
    if ws == [] then None
    else if Final(ws[1..], q).Some? then Final(ws[1..], q)
    else if ws[0].Put? && ws[0].property == q then Some(ws[0].value)
    else None
  }

  predicate NoTypePut(ws: seq<Write>) {
    forall w :: w in ws && w.Put? ==> w.property != Iri(RDF_TYPE)
  }

  lemma {:induction false} AfterProperty(ws: seq<Write>, q: Term, o: Term, b: bool)
    requires q != Iri(RDF_TYPE)
    ensures After(ws, q, o, b) == if Final(ws, q).None? then b else Final(ws, q).value == Some(o)
  {
    if ws != [] {
      var b' := if ws[0].Put? && ws[0].property == q then ws[0].value == Some(o) else b;
      AfterProperty(ws[1..], q, o, b');
    }
  }

  lemma {:induction false} AfterLabel(ws: seq<Write>, o: Term, b: bool)
    requires NoTypePut(ws)
    ensures After(ws, Iri(RDF_TYPE), o, b) <==> b || AddType(o) in ws
  {
    if ws != [] {
      assert ws[0] in ws;
      AfterLabel(ws[1..], o, b || ws[0] == AddType(o));
      assert forall w :: w in ws <==> w == ws[0] || w in ws[1..];
    }
  }

  lemma {:induction false} FinalAppend(a: seq<Write>, b: seq<Write>, q: Term)
    ensures Final(a + b, q) == if Final(b, q).Some? then Final(b, q) else Final(a, q)
  {
    if a == [] {
      assert a + b == b;
    } else {
      assert (a + b)[1..] == a[1..] + b;
      FinalAppend(a[1..], b, q);
    }
  }

  lemma {:induction false} FinalSome(ws: seq<Write>, q: Term)
    ensures Final(ws, q).Some? <==> exists w :: w in ws && w.Put? && w.property == q
  {
    if ws != [] {
      FinalSome(ws[1..], q);
      assert forall w :: w in ws <==> w == ws[0] || w in ws[1..];
    }
  }

  lemma {:induction false} DoneIsPrefix(ws: seq<Write>, traits: seq<Trait>)
    ensures |Done(ws, traits)| <= |ws| && Done(ws, traits) == ws[..|Done(ws, traits)|]
  {
    if ws != [] && !Breaks(ws[0], traits) {
      DoneIsPrefix(ws[1..], traits);
    }
  }

  // ---------- The exact condition ----------

  // What w writes is in force already: its property has got its last value, or the label
  // has been added or is asked for by the pattern.
  predicate InForce(w: Write, ws: seq<Write>, done: seq<Write>, traits: seq<Trait>) {
    match w
    case Put(q, _, _) => Final(done, q) == Final(ws, q)
    case AddType(l) => AddType(l) in done || Trait(Iri(RDF_TYPE), l) in traits
  }

  // Every write after the match is lost is in force.
  predicate InTime(ws: seq<Write>, traits: seq<Trait>) {
    var done := Done(ws, traits);
    forall i :: 0 <= i < |ws| && |done| <= i ==> InForce(ws[i], ws, done, traits)
  }

  lemma InTimeAgrees(ws: seq<Write>, traits: seq<Trait>, q: Term, o: Term, b: bool)
    requires InTime(ws, traits) && NoTypePut(ws) && (Trait(q, o) in traits ==> b)
    ensures After(Done(ws, traits), q, o, b) == After(ws, q, o, b)
  {
    var done := Done(ws, traits);
    DoneIsPrefix(ws, traits);
    var rest := ws[|done|..];
    assert ws == done + rest;
    forall w | w in rest
      ensures InForce(w, ws, done, traits)
    {
      var i :| 0 <= i < |rest| && rest[i] == w;
      assert ws[|done| + i] == w;
    }
    if q == Iri(RDF_TYPE) {
      AfterLabel(done, o, b);
      AfterLabel(ws, o, b);
      if AddType(o) in rest {
        assert InForce(AddType(o), ws, done, traits);
      }
    } else {
      AfterProperty(done, q, o, b);
      AfterProperty(ws, q, o, b);
      FinalAppend(done, rest, q);
      FinalSome(rest, q);
      if Final(rest, q).Some? {
        var w :| w in rest && w.Put? && w.property == q;
        assert InForce(w, ws, done, traits);
      }
    }
  }

  // A store with one node, which matches the pattern, and possibly one triple more.
  ghost function Witness(traits: seq<Trait>, q: Term, o: Term, b: bool): Store {
    iset t: Triple | t.s == BNode(0) && (Trait(t.p, t.o) in traits || (b && t.p == q && t.o == o))
  }

  lemma WitnessTells(ws: seq<Write>, traits: seq<Trait>, q: Term, o: Term, b: bool)
    requires Trait(q, o) in traits ==> b
    requires After(Done(ws, traits), q, o, b) != After(ws, q, o, b)
    ensures var g := Witness(traits, q, o, b);
            && NoLiteralSubjects(g) && (forall t: Triple :: t in g ==> t.s == BNode(0))
            && OneByOne(ws, traits, g) != AtOnce(ws, Nodes(traits, g), g)
  {
    var g, t := Witness(traits, q, o, b), Triple(BNode(0), q, o);
    assert forall u: Trait :: Trait(u.p, u.o) == u;
    assert BNode(0) in Nodes(traits, g) && (t in g <==> b);
    OneByOneIsDone(ws, traits, g);
    AtOnceIsAfter(Done(ws, traits), Nodes(traits, g), g, t);
    AtOnceIsAfter(ws, Nodes(traits, g), g, t);
  }

  lemma NotInTime(ws: seq<Write>, traits: seq<Trait>) returns (g: Store)
    requires !InTime(ws, traits) && NoTypePut(ws)
    ensures NoLiteralSubjects(g) && OneByOne(ws, traits, g) != AtOnce(ws, Nodes(traits, g), g)
    ensures forall t: Triple :: t in g ==> t.s == BNode(0)
  {
    hide OneByOne, AtOnce, Nodes, Witness;
    var done := Done(ws, traits);
    DoneIsPrefix(ws, traits);
    var i :| 0 <= i < |ws| && |done| <= i && !InForce(ws[i], ws, done, traits);
    assert ws[i] in ws;
    assert NoTypePut(done);
    match ws[i] {
      case AddType(l) =>
        AfterLabel(done, l, false);
        AfterLabel(ws, l, false);
        g := Witness(traits, Iri(RDF_TYPE), l, false);
        WitnessTells(ws, traits, Iri(RDF_TYPE), l, false);
      case Put(q, _, _) =>
        FinalSome(ws, q);
        var v, d := Final(ws, q).value, Final(done, q);
        var o := if d.None? then (if v == Some(BNode(0)) then BNode(1) else BNode(0))
                 else if v.Some? then v.value else d.value.value;
        AfterProperty(done, q, o, true);
        AfterProperty(ws, q, o, true);
        g := Witness(traits, q, o, true);
        WitnessTells(ws, traits, q, o, true);
    }
  }

  // One by one is all at once, on every store, exactly when what comes after the loss of
  // the match is in force already.
  lemma WritesIff(ws: seq<Write>, traits: seq<Trait>)
    requires NoTypePut(ws)
    ensures (forall g: Store :: NoLiteralSubjects(g) ==> OneByOne(ws, traits, g) == AtOnce(ws, Nodes(traits, g), g)) <==> InTime(ws, traits)
  {
    if InTime(ws, traits) {
      hide InTime, NoTypePut, After, Done, AtOnce, OneByOne;
      forall g: Store | NoLiteralSubjects(g)
        ensures OneByOne(ws, traits, g) == AtOnce(ws, Nodes(traits, g), g)
      {
        OneByOneIsDone(ws, traits, g);
        forall t: Triple
          ensures t in AtOnce(Done(ws, traits), Nodes(traits, g), g) <==> t in AtOnce(ws, Nodes(traits, g), g)
        {
          AtOnceIsAfter(Done(ws, traits), Nodes(traits, g), g, t);
          AtOnceIsAfter(ws, Nodes(traits, g), g, t);
          if t.s in Nodes(traits, g) {
            assert Trait(t.p, t.o) in traits ==> t in g;
            InTimeAgrees(ws, traits, t.p, t.o, t in g);
          }
        }
      }
    } else {
      var g := NotInTime(ws, traits);
    }
  }

  // ---------- SET clauses ----------

  // The item is about x, and no key of it has the IRI of rdf:type.
  predicate IsAbout(item: SetItem, x: string, base: string) {
    && item.variable == x
    && match item
       case Property(_, key, _) => base + key != RDF_TYPE
       case MergeMap(_, e) => e.Map? ==> forall i :: 0 <= i < |e.pairs| ==> base + e.pairs[i].key != RDF_TYPE
       case Label(_, _) => true
  }

  // The assignments of an item are to its variable, under names of their own.
  predicate IsOurs(a: Assignment, x: string) {
    a.x == x && a.old_ != x && (a.write.Put? ==> a.write.property != Iri(RDF_TYPE)) && (a.write.Put? && a.write.strict ==> a.write.value.None?)
  }

  lemma {:induction false} PairsAreOurs(x: string, pairs: seq<L.Entry>, base: string, lit: Serializer)
    requires forall i :: 0 <= i < |pairs| ==> base + pairs[i].key != RDF_TYPE
    ensures forall a :: a in PairAssignments(x, pairs, base, lit) ==> IsOurs(a, x)
  {
    if pairs != [] {
      PairsAreOurs(x, pairs[1..], base, lit);
      OldVarIsNew(x, pairs[0].key);
    }
  }

  lemma OldVarIsNew(x: string, key: string)
    ensures OldVar(x, key) != x
  {
    assert |OldVar(x, key)| > |x|;
  }

  lemma {:induction false} LabelsAreOurs(x: string, labels: seq<string>, base: string)
    requires x != ""
    ensures forall a :: a in LabelAssignments(x, labels, base) ==> IsOurs(a, x)
  {
    if labels != [] {
      LabelsAreOurs(x, labels[1..], base);
    }
  }

  lemma {:induction false} ItemsAreOurs(items: seq<SetItem>, x: string, base: string, lit: Serializer)
    requires x != "" && forall item :: item in items ==> IsAbout(item, x, base)
    ensures forall a :: a in ItemsAssignments(items, base, lit) ==> IsOurs(a, x)
  {
    if items != [] {
      ItemsAreOurs(items[1..], x, base, lit);
      assert items[0] in items;
      match items[0] {
        case Property(_, key, _) => OldVarIsNew(x, key);
        case MergeMap(_, e) => if e.Map? { PairsAreOurs(x, e.pairs, base, lit); }
        case Label(_, labels) => LabelsAreOurs(x, labels, base);
      }
    }
  }

  lemma {:induction false} OurWrites(assignments: seq<Assignment>, x: string)
    requires forall a :: a in assignments ==> IsOurs(a, x)
    ensures NoTypePut(WritesOf(assignments))
  {
    if assignments != [] {
      OurWrites(assignments[1..], x);
      assert assignments[0] in assignments;
    }
  }

  // A SET clause over the pattern of one node gives every matched node all that it
  // assigns, on every store, exactly when no item that takes a property of the pattern
  // away is followed by one that is not in force already.
  lemma SetClauseIff(items: seq<SetItem>, x: string, traits: seq<Trait>, base: string, lit: Serializer, supply: Supply)
    requires x != "" && traits != [] && forall item :: item in items ==> IsAbout(item, x, base)
    requires CompileItems(items, TraitParts(x, traits), base, lit).Ok? && lit(L.Lit(L.Null)).None?
    ensures var context, assignments := TraitParts(x, traits), ItemsAssignments(items, base, lit);
            (forall g: Store :: NoLiteralSubjects(g) ==>
               RunAll(CompileItems(items, context, base, lit).value, g, supply) == Assigned(assignments, context, g, g))
            <==> InTime(WritesOf(assignments), traits)
  {
    hide CompileItems, ItemsAssignments, InTime, OneByOne, AtOnce, RunAll, Assigned, NoTypePut;
    var context, assignments := TraitParts(x, traits), ItemsAssignments(items, base, lit);
    ItemsAreOurs(items, x, base, lit);
    OurWrites(assignments, x);
    ItemsEmitted(items, context, base, lit);
    TraitPartsAre(x, traits);
    assert Binds(context, x) by {
      assert x in SureVars(context[0]);
    }
    assert forall a :: a in assignments ==> a.x == x && WellFormed(a, context);
    hide TraitParts, WellFormed, Binds;
    forall g: Store | NoLiteralSubjects(g)
      ensures RunAll(CompileItems(items, context, base, lit).value, g, supply) == OneByOne(WritesOf(assignments), traits, g)
      ensures Assigned(assignments, context, g, g) == AtOnce(WritesOf(assignments), Nodes(traits, g), g)
    {
      RunIsOneByOne(assignments, x, traits, g, supply);
      AssignedIsAtOnce(assignments, x, traits, g, g);
    }
    WritesIff(WritesOf(assignments), traits);
  }

  // ---------- A clause that loses its match ----------

  // MATCH (n {a: c}) SET n.a = e, n.b = f compiles, but once the first update has run the
  // second no longer finds the node.  The same keys in a map are refused.
  lemma PropertyUpdatesLoseTheMatch(base: string, n: Term, c: L.Expr, e: L.Expr, f: L.Expr, lit: Serializer, meaning: Q.FilterMeaning, supply: Supply)
    requires !n.Lit? && lit(c).Some? && lit(e).Some? && lit(f).Some? && lit(e) != lit(c) && lit(L.Lit(L.Null)).None?
    ensures var op := O.Selection(O.Scan("n", None, []), L.Comparison(L.Eq, L.Property(L.Variable("n"), "a"), c));
            var g := iset{Triple(n, NodeIri(base), NodeIri(base)), Triple(n, PropIri(base, "a"), lit(c).value)};
            && Q.WhereParts(op, base, lit, meaning).Ok?
            && var context := Q.WhereParts(op, base, lit, meaning).value;
               var us := CompileItems([Property("n", "a", e), Property("n", "b", f)], context, base, lit);
            && n in Matched(context, "n", g)
            && us.Ok? && Triple(n, PropIri(base, "b"), lit(f).value) !in RunAll(us.value, g, supply)
            && CompileItem(MergeMap("n", L.Map([L.Entry("a", e), L.Entry("b", f)])), context, base, lit) == Err(KeyInWhere)
  {
    var op := O.Selection(O.Scan("n", None, []), L.Comparison(L.Eq, L.Property(L.Variable("n"), "a"), c));
    var traits := [SentinelTrait(base), Trait(PropIri(base, "a"), lit(c).value)];
    var g := iset{Triple(n, NodeIri(base), NodeIri(base)), Triple(n, PropIri(base, "a"), lit(c).value)};
    var context, items := TraitParts("n", traits), [Property("n", "a", e), Property("n", "b", f)];
    MatchIsTraits(op, c, base, lit, meaning);
    MapIsRefused(traits, base, lit(c).value, e, f, lit);
    hide CompileItems, CompileItem, TraitParts, RunAll, Matched, Nodes, OneByOne, Q.WhereParts;
    SecondIsLost(base, n, lit(c).value, lit(e).value, lit(f).value);
    TwoItemsRun(traits, base, e, f, lit, g, supply);
    MatchedByTraits("n", traits, g);
  }

  lemma TwoItemsRun(traits: seq<Trait>, base: string, e: L.Expr, f: L.Expr, lit: Serializer, g: Store, supply: Supply)
    requires traits != [] && lit(e).Some? && lit(f).Some? && lit(L.Lit(L.Null)).None? && NoLiteralSubjects(g)
    ensures var us := CompileItems([Property("n", "a", e), Property("n", "b", f)], TraitParts("n", traits), base, lit);
            && us.Ok?
            && RunAll(us.value, g, supply) == OneByOne([Put(PropIri(base, "a"), lit(e), false), Put(PropIri(base, "b"), lit(f), false)], traits, g)
  {
    var context, items := TraitParts("n", traits), [Property("n", "a", e), Property("n", "b", f)];
    TwoItems(context, base, e, f, lit);
    ItemsEmitted(items, context, base, lit);
    TraitPartsAre("n", traits);
    OldVarIsNew("n", "a");
    OldVarIsNew("n", "b");
    NonEmptyBinds("n", traits);
    hide CompileItems, ItemsAssignments, CompileItem, TraitParts, RunAll, OldVar, OneByOne, Binds;
    RunIsOneByOne(ItemsAssignments(items, base, lit), "n", traits, g, supply);
  }

  lemma SecondIsLost(base: string, n: Term, before: Term, v: Term, u: Term)
    requires !n.Lit? && v != before
    ensures var a, b := PropIri(base, "a"), PropIri(base, "b");
            var traits, g := [SentinelTrait(base), Trait(a, before)], iset{Triple(n, NodeIri(base), NodeIri(base)), Triple(n, a, before)};
            && NoLiteralSubjects(g) && n in Nodes(traits, g)
            && Triple(n, b, u) !in OneByOne([Put(a, Some(v), false), Put(b, Some(u), false)], traits, g)
  {
    var a, b := PropIri(base, "a"), PropIri(base, "b");
    var traits, g := [SentinelTrait(base), Trait(a, before)], iset{Triple(n, NodeIri(base), NodeIri(base)), Triple(n, a, before)};
    var ws, t := [Put(a, Some(v), false), Put(b, Some(u), false)], Triple(n, b, u);
    assert traits[1] in traits && Breaks(ws[0], traits);
    assert Done(ws, traits) == [ws[0]];
    PropIriInjective(base, "a", "b");
    PropIriInjective(base, "__node", "b");
    hide Nodes, OneByOne, AtOnce, Done;
    OneByOneIsDone(ws, traits, g);
    AtOnceIsAfter([ws[0]], Nodes(traits, g), g, t);
    assert [ws[0]][1..] == [] && After([ws[0]], t.p, t.o, t in g) == (t in g);
    assert n in Nodes(traits, g) by {
      assert IsMatch(traits, n, g);
    }
  }

  lemma MapIsRefused(traits: seq<Trait>, base: string, before: Term, e: L.Expr, f: L.Expr, lit: Serializer)
    requires traits == [SentinelTrait(base), Trait(PropIri(base, "a"), before)]
    ensures CompileItem(MergeMap("n", L.Map([L.Entry("a", e), L.Entry("b", f)])), TraitParts("n", traits), base, lit) == Err(KeyInWhere)
  {
    var context := TraitParts("n", traits);
    assert traits[1..] == [traits[1]] && traits[1..][1..] == [];
    assert TraitParts("n", traits[1..]) == [Match(TraitPattern(Var("n"), traits[1]))] + [];
    assert context[1] == Match(TraitPattern(Var("n"), traits[1]));
    assert Mentions(context[1], base + "a");
    assert MapKeyInWhere("a", base, context);
  }

  lemma NonEmptyBinds(x: string, traits: seq<Trait>)
    requires traits != []
    ensures Binds(TraitParts(x, traits), x)
  {
    assert x in SureVars(TraitParts(x, traits)[0]);
  }

  lemma MatchIsTraits(op: O.Op, c: L.Expr, base: string, lit: Serializer, meaning: Q.FilterMeaning)
    requires lit(c).Some? && op == O.Selection(O.Scan("n", None, []), L.Comparison(L.Eq, L.Property(L.Variable("n"), "a"), c))
    ensures Q.WhereParts(op, base, lit, meaning) == Ok(TraitParts("n", [SentinelTrait(base), Trait(PropIri(base, "a"), lit(c).value)]))
  {
    NodePatternIsTraits(op, "n", base, lit, meaning);
    assert LabelTraits([], base) == [];
    assert NodeTraits(op, "n", base, lit) == [SentinelTrait(base)] + [] + [] + [Trait(PropIri(base, "a"), lit(c).value)];
    assert [SentinelTrait(base)] + [] + [] + [Trait(PropIri(base, "a"), lit(c).value)] == [SentinelTrait(base), Trait(PropIri(base, "a"), lit(c).value)];
  }

  lemma TwoItems(context: seq<Part>, base: string, e: L.Expr, f: L.Expr, lit: Serializer)
    requires lit(e).Some? && lit(f).Some?
    ensures var items := [Property("n", "a", e), Property("n", "b", f)];
            && CompileItems(items, context, base, lit).Ok?
            && ItemsAssignments(items, base, lit) == [Assignment("n", Put(PropIri(base, "a"), lit(e), false), OldVar("n", "a")),
                                                      Assignment("n", Put(PropIri(base, "b"), lit(f), false), OldVar("n", "b"))]
            && WritesOf(ItemsAssignments(items, base, lit)) == [Put(PropIri(base, "a"), lit(e), false), Put(PropIri(base, "b"), lit(f), false)]
  {
    var items := [Property("n", "a", e), Property("n", "b", f)];
    assert items[1..] == [items[1]] && items[1..][1..] == [];
    assert CompileItems(items[1..], context, base, lit).Ok?;
    var x, y := Assignment("n", Put(PropIri(base, "a"), lit(e), false), OldVar("n", "a")), Assignment("n", Put(PropIri(base, "b"), lit(f), false), OldVar("n", "b"));
    assert ItemsAssignments(items[1..], base, lit) == [y] + [];
    assert ItemsAssignments(items, base, lit) == [x] + ([y] + []);
    assert [x] + ([y] + []) == [x, y] && [x, y][1..] == [y] && [y][1..] == [];
    assert WritesOf([y]) == [y.write] + [];
    assert WritesOf([x, y]) == [x.write] + ([y.write] + []);
  }
}

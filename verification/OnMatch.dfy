/** What ON MATCH does.

    Its updates run after the INSERT, on whatever matches then.  So they reach
    the node or relationship that the INSERT has just made, where ON MATCH is
    meant for those found.  When that makes no difference is stated exactly.
 */
module OnMatch {
  import opened Prelude
  import opened Sparql
  import opened Text
  import opened WriteSet
  import opened WriteMerge
  import opened SetEffect
  import opened NodeMergeEffect
  import opened SetExact
  import R = RelMergeEffect
  import U = SetUnbound
  import Where
  import L = Lqa
  import O = Ops

  // ---------- Nodes ----------

  // MERGE as Cypher has it: ON MATCH for the nodes found, and else one new node.
  ghost function Merged(traits: seq<Trait>, ws: seq<Write>, made: seq<Trait>, b: Term, g: Store): Store {
    if SomeMatch(traits, g) then AtOnce(ws, Nodes(traits, g), g) else WithNode(g, b, made)
  }

  // The new node has already what w writes.
  predicate IsMadeSo(w: Write, done: seq<Write>, made: seq<Trait>) {
    match w
    case Put(q, _, _) =>
      var v := Final(done, q);
      v.Some? && (forall t :: t in made && t.p == q ==> v.value == Some(t.o)) && (v.value.Some? ==> Trait(q, v.value.value) in made)
    case AddType(l) => Trait(Iri(RDF_TYPE), l) in made
  }

  predicate AllMadeSo(done: seq<Write>, made: seq<Trait>) {
    forall w :: w in done ==> IsMadeSo(w, done, made)
  }

  // The writes leave a node with these traits as it is.
  ghost predicate LeaveAlone(done: seq<Write>, made: seq<Trait>) {
    forall q: Term, o: Term :: After(done, q, o, Trait(q, o) in made) <==> Trait(q, o) in made
  }

  lemma LeaveAloneIff(done: seq<Write>, made: seq<Trait>)
    requires NoTypePut(done)
    ensures LeaveAlone(done, made) <==> AllMadeSo(done, made)
  {
    hide After, Final;
    if LeaveAlone(done, made) {
      forall w | w in done
        ensures IsMadeSo(w, done, made)
      {
        WriteMadeSo(w, done, made);
      }
    }
    if AllMadeSo(done, made) {
      forall q: Term, o: Term
        ensures After(done, q, o, Trait(q, o) in made) <==> Trait(q, o) in made
      {
        MadeSoStays(done, made, q, o);
      }
    }
  }

  lemma WriteMadeSo(w: Write, done: seq<Write>, made: seq<Trait>)
    requires NoTypePut(done) && LeaveAlone(done, made) && w in done
    ensures IsMadeSo(w, done, made)
  {
    hide After, Final;
    match w {
      case Put(q, _, _) =>
        FinalSome(done, q);
        forall o: Term
          ensures Trait(q, o) in made <==> Final(done, q).value == Some(o)
        {
          AfterProperty(done, q, o, Trait(q, o) in made);
        }
        assert forall t: Trait :: t == Trait(t.p, t.o);
      case AddType(l) => AfterLabel(done, l, Trait(Iri(RDF_TYPE), l) in made);
    }
  }

  lemma MadeSoStays(done: seq<Write>, made: seq<Trait>, q: Term, o: Term)
    requires NoTypePut(done) && AllMadeSo(done, made)
    ensures After(done, q, o, Trait(q, o) in made) <==> Trait(q, o) in made
  {
    hide After, Final;
    if q == Iri(RDF_TYPE) {
      AfterLabel(done, o, Trait(q, o) in made);
      assert AddType(o) in done ==> IsMadeSo(AddType(o), done, made);
    } else {
      AfterProperty(done, q, o, Trait(q, o) in made);
      FinalSome(done, q);
      if Final(done, q).Some? {
        var w :| w in done && w.Put? && w.property == q;
        assert IsMadeSo(w, done, made);
        assert Trait(q, o).p == q;
      }
    }
  }

  // After the INSERT the pattern finds the new node, or nothing.
  lemma NodesOfNew(x: string, traits: seq<Trait>, onCreate: seq<SetItem>, id: nat, base: string, lit: Serializer, g: Store, b: Term)
    requires SentinelTrait(base) in traits && IsFresh(b, g) && !SomeMatch(traits, g) && IsName(x)
    ensures var h := WithNode(g, b, MadeTraits(x, traits, onCreate, id, base, lit));
            Nodes(traits, h) == if AllMade(traits, x, onCreate, base, lit) then iset{b} else iset{}
  {
    hide AllMade, MadeTraits, IsName, SentinelTrait;
    var h := WithNode(g, b, MadeTraits(x, traits, onCreate, id, base, lit));
    MatchAfter(x, traits, onCreate, id, base, lit, g, b);
    forall n: Term | IsMatch(traits, n, h)
      ensures n == b
    {
      assert n == b || IsMatch(traits, n, g);
    }
    assert forall n: Term :: IsMatch(traits, n, h) ==> SomeMatch(traits, h);
  }

  // ON MATCH changes nothing on the new node exactly when the pattern does not find it or
  // it has been made so.
  lemma NewIsLeftAloneIff(x: string, traits: seq<Trait>, onCreate: seq<SetItem>, ws: seq<Write>, id: nat, base: string, lit: Serializer, g: Store, b: Term)
    requires SentinelTrait(base) in traits && IsFresh(b, g) && !SomeMatch(traits, g) && IsName(x) && NoTypePut(ws)
    ensures var made := MadeTraits(x, traits, onCreate, id, base, lit);
            var h := WithNode(g, b, made);
            OneByOne(ws, traits, h) == h <==> (AllMade(traits, x, onCreate, base, lit) ==> AllMadeSo(Done(ws, traits), made))
  {
    hide AllMade, MadeTraits, IsName, SentinelTrait, SomeMatch, Nodes, OneByOne, AtOnce, Done, After;
    var made, done := MadeTraits(x, traits, onCreate, id, base, lit), Done(ws, traits);
    var h := WithNode(g, b, made);
    NodesOfNew(x, traits, onCreate, id, base, lit, g, b);
    OneByOneIsDone(ws, traits, h);
    DoneIsPrefix(ws, traits);
    LeaveAloneIff(done, made);
    forall t: Triple
      ensures t in AtOnce(done, Nodes(traits, h), h) <==> if t.s in Nodes(traits, h) then After(done, t.p, t.o, t in h) else t in h
      ensures t.s == b ==> (t in h <==> Trait(t.p, t.o) in made)
    {
      AtOnceIsAfter(done, Nodes(traits, h), h, t);
    }
    if AllMade(traits, x, onCreate, base, lit) && OneByOne(ws, traits, h) == h {
      forall q: Term, o: Term
        ensures After(done, q, o, Trait(q, o) in made) <==> Trait(q, o) in made
      {
        var t := Triple(b, q, o);
        assert t.s in Nodes(traits, h) && (t in h <==> Trait(q, o) in made);
      }
    }
  }

  function MatchWrites(onMatch: seq<SetItem>, base: string, lit: Serializer): seq<Write> {
    WritesOf(ItemsAssignments(onMatch, base, lit))
  }

  // A pattern with its ON MATCH, both about x.
  predicate IsPattern(x: string, traits: seq<Trait>, onMatch: seq<SetItem>, base: string, lit: Serializer) {
    && x != "" && SentinelTrait(base) in traits && lit(L.Lit(L.Null)).None?
    && forall item :: item in onMatch ==> IsAbout(item, x, base)
  }

  lemma PatternAssignments(x: string, traits: seq<Trait>, onMatch: seq<SetItem>, base: string, lit: Serializer)
    requires IsPattern(x, traits, onMatch, base, lit)
    ensures NoTypePut(MatchWrites(onMatch, base, lit))
    ensures forall a :: a in ItemsAssignments(onMatch, base, lit) ==> a.x == x && SetEffect.WellFormed(a, TraitParts(x, traits))
  {
    hide ItemsAssignments, TraitParts, IsAbout, NoTypePut;
    ItemsAreOurs(onMatch, x, base, lit);
    OurWrites(ItemsAssignments(onMatch, base, lit), x);
    TraitPartsAre(x, traits);
    NonEmptyBinds(x, traits);
  }

  // The compiled MERGE: at most one new node, and then ON MATCH for what matches.
  lemma OnMatchRuns(x: string, traits: seq<Trait>, onCreate: seq<SetItem>, onMatch: seq<SetItem>, id: nat, base: string, lit: Serializer,
                    g: Store, supply: Supply)
    requires IsPattern(x, traits, onMatch, base, lit) && CompileNodeMerge(x, traits, onCreate, onMatch, id, base, lit).Ok?
    requires NoLiteralSubjects(g) && IsFresh(supply(id, map[]), g)
    ensures var made := MadeTraits(x, traits, onCreate, id, base, lit);
            var found := if SomeMatch(traits, g) then g else WithNode(g, supply(id, map[]), made);
            RunAll(CompileNodeMerge(x, traits, onCreate, onMatch, id, base, lit).value, g, supply)
            == OneByOne(MatchWrites(onMatch, base, lit), traits, found)
  {
    hide ItemsAssignments, CompileItems, TraitParts, MadeTraits, SomeMatch, OneByOne, Run, NodeMerge, NoTypePut;
    var u, context, assignments := NodeMerge(x, traits, onCreate, id, base, lit), TraitParts(x, traits), ItemsAssignments(onMatch, base, lit);
    var sets := CompileItems(onMatch, context, base, lit).value;
    var all := [u] + sets;
    assert all[0] == u && all[1..] == sets;
    NodeMergeRuns(x, traits, onCreate, id, base, lit, g, supply);
    var h := Run(u, g, supply);
    assert NoLiteralSubjects(h);
    TraitPartsAre(x, traits);
    assert context != [];
    ItemsEmitted(onMatch, context, base, lit);
    PatternAssignments(x, traits, onMatch, base, lit);
    RunIsOneByOne(assignments, x, traits, h, supply);
  }

  // A fresh node for the store of a single node.
  function Another(): Supply {
    (id, mu) => BNode(1)
  }

  lemma {:induction false} NothingMatched(ws: seq<Write>, g: Store)
    ensures AtOnce(ws, iset{}, g) == g
  {
    if ws != [] {
      assert Effect(ws[0], iset{}, g) == g;
      NothingMatched(ws[1..], g);
    }
  }

  lemma MatchedNodesAre(traits: seq<Trait>, g: Store)
    requires traits != [] && NoLiteralSubjects(g)
    ensures SomeMatch(traits, g) <==> Nodes(traits, g) != iset{}
  {
    if SomeMatch(traits, g) {
      var n: Term :| IsMatch(traits, n, g);
      assert traits[0] in traits;
      assert n in Nodes(traits, g);
    }
    if Nodes(traits, g) != iset{} {
      var n: Term :| n in Nodes(traits, g);
    }
  }

  ghost predicate IsCypherMerge(x: string, traits: seq<Trait>, onCreate: seq<SetItem>, onMatch: seq<SetItem>, id: nat, base: string, lit: Serializer,
                                g: Store, supply: Supply)
    requires CompileNodeMerge(x, traits, onCreate, onMatch, id, base, lit).Ok?
  {
    RunAll(CompileNodeMerge(x, traits, onCreate, onMatch, id, base, lit).value, g, supply)
    == Merged(traits, MatchWrites(onMatch, base, lit), MadeTraits(x, traits, onCreate, id, base, lit), supply(id, map[]), g)
  }

  // On one store: with a match, when the assignments one by one do what all do at once;
  // without one, when they leave the new node alone.
  lemma OnMatchHereIff(x: string, traits: seq<Trait>, onCreate: seq<SetItem>, onMatch: seq<SetItem>, id: nat, base: string, lit: Serializer,
                       g: Store, supply: Supply)
    requires IsPattern(x, traits, onMatch, base, lit) && CompileNodeMerge(x, traits, onCreate, onMatch, id, base, lit).Ok? && IsName(x)
    requires NoLiteralSubjects(g) && IsFresh(supply(id, map[]), g)
    ensures var ws, made := MatchWrites(onMatch, base, lit), MadeTraits(x, traits, onCreate, id, base, lit);
            IsCypherMerge(x, traits, onCreate, onMatch, id, base, lit, g, supply)
            <==> if SomeMatch(traits, g) then OneByOne(ws, traits, g) == AtOnce(ws, Nodes(traits, g), g)
                 else AllMade(traits, x, onCreate, base, lit) ==> AllMadeSo(Done(ws, traits), made)
  {
    hide CompileNodeMerge, MatchWrites, MadeTraits, AllMade, AllMadeSo, SomeMatch, Nodes, OneByOne, AtOnce, RunAll, IsAbout, IsName, NoTypePut;
    OnMatchRuns(x, traits, onCreate, onMatch, id, base, lit, g, supply);
    PatternAssignments(x, traits, onMatch, base, lit);
    if !SomeMatch(traits, g) {
      NewIsLeftAloneIff(x, traits, onCreate, MatchWrites(onMatch, base, lit), id, base, lit, g, supply(id, map[]));
    }
  }

  // On every store: MERGE with ON MATCH does what Cypher asks for exactly when no item of
  // ON MATCH takes the match away from a later one, and the new node, if the pattern finds
  // it, has been made with all that ON MATCH writes.
  lemma OnMatchIff(x: string, traits: seq<Trait>, onCreate: seq<SetItem>, onMatch: seq<SetItem>, id: nat, base: string, lit: Serializer)
    requires IsPattern(x, traits, onMatch, base, lit) && CompileNodeMerge(x, traits, onCreate, onMatch, id, base, lit).Ok? && IsName(x)
    ensures var ws, made := MatchWrites(onMatch, base, lit), MadeTraits(x, traits, onCreate, id, base, lit);
            (forall g: Store, supply: Supply :: NoLiteralSubjects(g) && IsFresh(supply(id, map[]), g) ==>
               IsCypherMerge(x, traits, onCreate, onMatch, id, base, lit, g, supply))
            <==> InTime(ws, traits) && (AllMade(traits, x, onCreate, base, lit) ==> AllMadeSo(Done(ws, traits), made))
  {
    hide CompileNodeMerge, MatchWrites, MadeTraits, AllMade, AllMadeSo, SomeMatch, Nodes, OneByOne, AtOnce, IsCypherMerge, IsAbout, IsName, InTime,
         NoTypePut, Done;
    var ws := MatchWrites(onMatch, base, lit);
    PatternAssignments(x, traits, onMatch, base, lit);
    WritesIff(ws, traits);
    if InTime(ws, traits) && (AllMade(traits, x, onCreate, base, lit) ==> AllMadeSo(Done(ws, traits), MadeTraits(x, traits, onCreate, id, base, lit))) {
      forall g: Store, supply: Supply | NoLiteralSubjects(g) && IsFresh(supply(id, map[]), g)
        ensures IsCypherMerge(x, traits, onCreate, onMatch, id, base, lit, g, supply)
      {
        OnMatchHereIff(x, traits, onCreate, onMatch, id, base, lit, g, supply);
      }
    } else if !InTime(ws, traits) {
      var g := NotInTime(ws, traits);
      MatchedNodesAre(traits, g);
      NothingMatched(ws, g);
      if !SomeMatch(traits, g) {
        NothingToDo(ws, traits, g);
      }
      OnMatchHereIff(x, traits, onCreate, onMatch, id, base, lit, g, Another());
    } else {
      NoMatchInNothing(traits);
      OnMatchHereIff(x, traits, onCreate, onMatch, id, base, lit, iset{}, Another());
    }
  }

  lemma NoMatchInNothing(traits: seq<Trait>)
    requires traits != []
    ensures !SomeMatch(traits, iset{})
  {
    assert traits[0] in traits;
  }

  // ---------- Relationships between matched nodes ----------

  // The relationship has the properties of the pattern.
  ghost predicate HasProps(e: Term, props: seq<RelProp>, g: Store, mu: Solution) {
    forall p :: p in props ==> Inst(p.value, mu).Some? && Triple(e, p.iri, Inst(p.value, mu).value) in g
  }

  ghost predicate IsFoundEdge(e: Term, context: seq<Part>, from: string, to: string, typ: Term, dir: O.Direction, props: seq<RelProp>, g: Store) {
    exists mu: Solution :: IsSolution(context, g, mu) && U.IsEdgeOf(e, from, to, typ, dir, g, mu) && HasProps(e, props, g, mu)
  }

  // The relationships of the rows that need none made.
  ghost function FoundEdges(context: seq<Part>, from: string, to: string, typ: Term, dir: O.Direction, props: seq<RelProp>, g: Store): iset<Term> {
    iset e: Term | IsFoundEdge(e, context, from, to, typ, dir, props, g)
  }

  // ON MATCH SET r.k = e, r being the name of the relationship, writes after the MERGE to
  // every subject that has the property, if some row is joined then.  That is what Cypher
  // asks for exactly when whatever is reached but was not found, or was found but is not
  // reached, has just the value already.
  lemma RelOnMatchIff(from: string, r: string, to: string, typ: string, dir: O.Direction, props: seq<RelProp>, onCreate: seq<SetItem>,
                      key: string, e: L.Expr, context: seq<Part>, known: Created, base: string, lit: Serializer, g: Store, supply: Supply)
    requires Constrained(from, context) && Constrained(to, context) && (lit(e).Some? || e == L.Lit(L.Null))
    requires r !in PartsVars(context) + {from, to} && OldVar(r, key) !in PartsVars(context) + {from, to}
    requires NoLiteralSubjects(g) && R.BlankFree(props)
    ensures var us := CompileRelMerge(from, to, [typ], dir, props, onCreate, [Property(r, key, e)], context, known, base, lit);
            var t, w, src, dst := Where.TypeIri(base, typ), Put(PropIri(base, key), lit(e), false), Source(from, to, dir), Target(from, to, dir);
            var h := Run(RelMerge(Var(src), t, Var(dst), props, CreateProps(onCreate, base, lit), dir, context), g, supply);
            var reached := U.Reached(context + [Match(TP(Var(src), Const(t), Var(dst)))], w.property, h);
            var found := FoundEdges(context, from, to, t, dir, props, g);
            && us.Ok?
            && RunAll(us.value, g, supply) == Effect(w, reached, h)
            && (Effect(w, reached, h) == Effect(w, found, h)
                <==> forall n: Term :: (n in reached) != (n in found) ==> U.IsGiven(n, w, h))
  {
    hide Run, RelMerge, CompileWrite, Effect, IsSolution, Constrained, CreateProps, OldVar, FoundEdges, U.Reached, PartsVars;
    var extra, t := CreateProps(onCreate, base, lit), Where.TypeIri(base, typ);
    var src, dst := Source(from, to, dir), Target(from, to, dir);
    var item, w := Property(r, key, e), Put(PropIri(base, key), lit(e), false);
    var edge := TP(Var(src), Const(t), Var(dst));
    var context' := context + [Match(edge)];
    var u := RelMerge(Var(src), t, Var(dst), props, extra, dir, context);
    var s := CompileWrite(r, w, OldVar(r, key), context');
    var types, h := [typ], Run(u, g, supply);
    OneItem(item, context', w, base, lit);
    assert types[1..] == [] && MatchMerges(from, to, types[1..], dir, props, extra, [item], context, base, lit) == Ok([]);
    assert [u] + [s] + [] == [u, s];
    assert MatchMerges(from, to, types, dir, props, extra, [item], context, base, lit) == Ok([u, s]);
    assert [u, s][1..] == [s] && [s][1..] == [];
    assert RunAll([s], h, supply) == RunAll([], Run(s, h, supply), supply) == Run(s, h, supply);
    R.CreatedAreConstant(onCreate, base, lit);
    MergeKeepsSubjects(Var(src), t, Var(dst), props, extra, dir, context, g, supply);
    EdgeVars(context, edge, src, dst);
    OldVarIsNew(r, key);
    U.UnboundWriteHasEffect(context', r, w, OldVar(r, key), h, supply);
    U.EffectsEqualIff(w, U.Reached(context', w.property, h), FoundEdges(context, from, to, t, dir, props, g), h);
  }

  lemma OneItem(item: SetItem, context: seq<Part>, w: Write, base: string, lit: Serializer)
    requires item.Property? && context != [] && (lit(item.value).Some? || item.value == L.Lit(L.Null))
    requires w == Put(PropIri(base, item.key), lit(item.value), false)
    ensures CompileItems([item], context, base, lit) == Ok([CompileWrite(item.variable, w, OldVar(item.variable, item.key), context)])
  {
    hide CompileWrite;
    var items, u := [item], CompileWrite(item.variable, w, OldVar(item.variable, item.key), context);
    assert items[1..] == [] && CompileItems([], context, base, lit) == Ok([]);
    assert CompileItem(item, context, base, lit) == Ok([u]);
    assert [u] + [] == [u];
  }

  lemma EdgeVars(context: seq<Part>, edge: TriplePattern, src: string, dst: string)
    requires edge.s == Var(src) && edge.p.Const? && edge.o == Var(dst)
    ensures PartsVars(context + [Match(edge)]) == PartsVars(context) + {src, dst}
  {
    assert TpVars(edge) == {src, dst};
    PartsVarsAppend(context, Match(edge));
  }

  lemma {:induction false} PartsVarsAppend(context: seq<Part>, part: Part)
    ensures PartsVars(context + [part]) == PartsVars(context) + PartVars(part)
  {
    hide PartVars;
    if context == [] {
      assert context + [part] == [part] && [part][1..] == [];
    } else {
      assert (context + [part])[1..] == context[1..] + [part];
      PartsVarsAppend(context[1..], part);
    }
  }

  lemma MergeKeepsSubjects(src: VarTerm, typ: Term, dst: VarTerm, props: seq<RelProp>, created: seq<RelProp>, dir: O.Direction, context: seq<Part>,
                           g: Store, supply: Supply)
    requires R.NoBlanks(src, dst, props, created) && NoLiteralSubjects(g)
    ensures NoLiteralSubjects(Run(RelMerge(src, typ, dst, props, created, dir, context), g, supply))
  {
    hide Run, RelMerge, IsSolution, R.Found;
    forall t: Triple | t in Run(RelMerge(src, typ, dst, props, created, dir, context), g, supply)
      ensures !t.s.Lit?
    {
      R.RelMergeRuns(src, typ, dst, props, created, dir, context, g, supply, t);
    }
  }

  // ---------- Relationships between known nodes ----------

  // The pattern for the old value on the edge between two terms.
  function EdgeOld(s: Term, typ: Term, t: Term, p: Term): TriplePattern {
    TP(QuotedPat(Const(s), Const(typ), Const(t)), Const(p), Var(ON_MATCH_OLD))
  }

  lemma FixedEdge(s: Term, typ: Term, t: Term, nu: Solution)
    ensures var q := QuotedPat(Const(s), Const(typ), Const(t)); VarsOf(q) == {} && Inst(q, nu) == Some(Quoted(s, typ, t))
  {
    assert VarsOf(Const(s)) == {} && VarsOf(Const(typ)) == {} && VarsOf(Const(t)) == {};
    assert Inst(Const(s), nu) == Some(s) && Inst(Const(typ), nu) == Some(typ) && Inst(Const(t), nu) == Some(t);
  }

  lemma OldOnEdge(s: Term, typ: Term, t: Term, p: Term, g: Store, nu: Solution)
    ensures Step(Match(EdgeOld(s, typ, t, p)), g, map[], nu) <==> exists o: Term :: Triple(Quoted(s, typ, t), p, o) in g && nu == map[ON_MATCH_OLD := o]
  {
    var tp, q := EdgeOld(s, typ, t, p), QuotedPat(Const(s), Const(typ), Const(t));
    SingleVars(tp);
    FixedEdge(s, typ, t, nu);
    assert VarsOf(Const(p)) == {} && VarsOf(Var(ON_MATCH_OLD)) == {ON_MATCH_OLD};
    assert TpVars(tp) == {ON_MATCH_OLD};
    if BgpMatch([tp], g, map[], nu) {
      assert tp in [tp];
      assert nu == map[ON_MATCH_OLD := nu[ON_MATCH_OLD]];
    }
    forall o: Term | Triple(Quoted(s, typ, t), p, o) in g && nu == map[ON_MATCH_OLD := o]
      ensures BgpMatch([tp], g, map[], nu)
    {
      assert InstTp(tp, nu) == Some(Triple(Quoted(s, typ, t), p, o));
    }
  }

  lemma EdgeStep(s: Term, typ: Term, t: Term, g: Store, mu: Solution)
    ensures Step(Match(TP(Const(s), Const(typ), Const(t))), g, map[], mu) <==> Triple(s, typ, t) in g && mu == map[]
  {
    var edge := TP(Const(s), Const(typ), Const(t));
    SingleVars(edge);
    assert TpVars(edge) == {};
    assert edge in [edge];
  }

  ghost predicate HasValue(e: Term, p: Term, g: Store) {
    exists o: Term :: Triple(e, p, o) in g
  }

  lemma EdgeSolutions(s: Term, typ: Term, t: Term, p: Term, g: Store, nu: Solution)
    ensures var e := Quoted(s, typ, t);
            IsSolution([Match(TP(Const(s), Const(typ), Const(t))), Optional([Match(EdgeOld(s, typ, t, p))])], g, nu)
            <==> Triple(s, typ, t) in g
                 && ((exists o: Term :: Triple(e, p, o) in g && nu == map[ON_MATCH_OLD := o]) || (nu == map[] && !HasValue(e, p, g)))
  {
    hide Step;
    var edge, old_ := Match(TP(Const(s), Const(typ), Const(t))), EdgeOld(s, typ, t, p);
    var q := Optional([Match(old_)]);
    assert [edge] + [q] == [edge, q] && [edge][1..] == [];
    ReachesAppend([edge], q, g, map[], nu);
    forall mu: Solution
      ensures Reaches([edge], g, map[], mu) <==> Triple(s, typ, t) in g && mu == map[]
    {
      EdgeStep(s, typ, t, g, mu);
      if Triple(s, typ, t) in g && mu == map[] {
        assert Reaches([edge][1..], g, mu, mu);
      }
      if Reaches([edge], g, map[], mu) {
        var xi := ReachesSplit([edge], g, map[], mu);
        EdgeStep(s, typ, t, g, xi);
      }
    }
    StepOptionalOld(old_, g, map[], nu);
    forall xi: Solution
      ensures Step(Match(old_), g, map[], xi) ==> HasValue(Quoted(s, typ, t), p, g)
    {
      OldOnEdge(s, typ, t, p, g, xi);
    }
    OldOnEdge(s, typ, t, p, g, nu);
    if HasValue(Quoted(s, typ, t), p, g) {
      var o: Term :| Triple(Quoted(s, typ, t), p, o) in g;
      OldOnEdge(s, typ, t, p, g, map[ON_MATCH_OLD := o]);
    }
  }

  // The update writes to the edge if it is there, and to nothing else.
  lemma EdgeSetRuns(s: Term, typ: Term, t: Term, key: string, v: Term, base: string, g: Store, supply: Supply)
    ensures Run(EdgeSet(s, typ, t, key, v, base), g, supply)
         == Effect(Put(PropIri(base, key), Some(v), false), if Triple(s, typ, t) in g then iset{Quoted(s, typ, t)} else iset{}, g)
  {
    hide Deletes, Inserts, EdgeSet;
    var u, e, p := EdgeSet(s, typ, t, key, v, base), Quoted(s, typ, t), PropIri(base, key);
    var w, nodes := Put(p, Some(v), false), if Triple(s, typ, t) in g then iset{e} else iset{};
    forall x: Triple
      ensures x in Run(u, g, supply) <==> x in Effect(w, nodes, g)
    {
      EdgeDeletes(s, typ, t, key, v, base, g, x);
      EdgeInserts(s, typ, t, key, v, base, g, supply, x);
    }
  }

  lemma EdgeDeletes(s: Term, typ: Term, t: Term, key: string, v: Term, base: string, g: Store, x: Triple)
    ensures x in g ==> (Deletes(EdgeSet(s, typ, t, key, v, base), g, x)
                        <==> Triple(s, typ, t) in g && x.s == Quoted(s, typ, t) && x.p == PropIri(base, key))
  {
    hide IsSolution;
    var u, e, p := EdgeSet(s, typ, t, key, v, base), Quoted(s, typ, t), PropIri(base, key);
    var old_ := EdgeOld(s, typ, t, p);
    assert u.delete == [old_];
    forall nu: Solution
      ensures Inst(old_.s, nu) == Some(e)
    {
      FixedEdge(s, typ, t, nu);
    }
    if Deletes(u, g, x) {
      var nu: Solution, tp :| IsSolution(u.pattern, g, nu) && tp in u.delete && InstTp(tp, nu) == Some(x);
      EdgeSolutions(s, typ, t, p, g, nu);
    }
    if x in g && Triple(s, typ, t) in g && x.s == e && x.p == p {
      var nu: Solution := map[ON_MATCH_OLD := x.o];
      EdgeSolutions(s, typ, t, p, g, nu);
      assert Triple(e, p, x.o) in g;
      assert IsSolution(u.pattern, g, nu) && old_ in u.delete && InstTp(old_, nu) == Some(x);
    }
  }

  lemma EdgeInserts(s: Term, typ: Term, t: Term, key: string, v: Term, base: string, g: Store, supply: Supply, x: Triple)
    ensures Inserts(EdgeSet(s, typ, t, key, v, base), g, supply, x) <==> Triple(s, typ, t) in g && x == Triple(Quoted(s, typ, t), PropIri(base, key), v)
  {
    hide IsSolution;
    var u, e, p := EdgeSet(s, typ, t, key, v, base), Quoted(s, typ, t), PropIri(base, key);
    var new_ := TP(QuotedPat(Const(s), Const(typ), Const(t)), Const(p), Const(v));
    assert u.insert == [new_];
    forall nu: Solution
      ensures Inst(new_.s, nu) == Some(e)
    {
      FixedEdge(s, typ, t, nu);
    }
    if Inserts(u, g, supply, x) {
      var nu: Solution, tp :| IsSolution(u.pattern, g, nu) && tp in u.insert && InsertsBy(tp, nu, supply, x);
      EdgeSolutions(s, typ, t, p, g, nu);
    }
    if Triple(s, typ, t) in g && x == Triple(e, p, v) {
      var nu: Solution := map[];
      if HasValue(e, p, g) {
        var o: Term :| Triple(e, p, o) in g;
        nu := map[ON_MATCH_OLD := o];
      }
      EdgeSolutions(s, typ, t, p, g, nu);
      assert IsSolution(u.pattern, g, nu) && new_ in u.insert && InsertsBy(new_, nu, supply, x);
    }
  }

  // What the items write between known nodes.
  function EdgeWrites(items: seq<SetItem>, base: string, lit: Serializer): seq<Write> {
    if items == [] then []
    else
      (if items[0].Property? && lit(items[0].value).Some? then [Put(PropIri(base, items[0].key), lit(items[0].value), false)] else [])
      + EdgeWrites(items[1..], base, lit)
  }

  lemma {:induction false} EdgeSetsRun(s: Term, typ: Term, t: Term, items: seq<SetItem>, base: string, lit: Serializer, g: Store, supply: Supply)
    requires s.Iri? && Triple(s, typ, t) in g
    ensures RunAll(EdgeSets(s, typ, t, items, base, lit), g, supply) == AtOnce(EdgeWrites(items, base, lit), iset{Quoted(s, typ, t)}, g)
  {
    hide Run, EdgeSet;
    if items != [] {
      var rest, us := items[1..], EdgeSets(s, typ, t, items[1..], base, lit);
      if items[0].Property? && lit(items[0].value).Some? {
        var v := lit(items[0].value).value;
        var u, w := EdgeSet(s, typ, t, items[0].key, v, base), Put(PropIri(base, items[0].key), Some(v), false);
        var h := Effect(w, iset{Quoted(s, typ, t)}, g);
        EdgeSetRuns(s, typ, t, items[0].key, v, base, g, supply);
        EdgeSetsRun(s, typ, t, rest, base, lit, h, supply);
        assert EdgeSets(s, typ, t, items, base, lit) == [u] + us && ([u] + us)[1..] == us;
        assert EdgeWrites(items, base, lit) == [w] + EdgeWrites(rest, base, lit) && ([w] + EdgeWrites(rest, base, lit))[1..] == EdgeWrites(rest, base, lit);
      } else {
        EdgeSetsRun(s, typ, t, rest, base, lit, g, supply);
        assert [] + us == us && [] + EdgeWrites(rest, base, lit) == EdgeWrites(rest, base, lit);
      }
    }
  }

  // The relationship is there after the INSERT, made or found.
  lemma EdgeIsThere(s: Term, typ: Term, t: Term, props: seq<RelProp>, created: seq<RelProp>, g: Store, supply: Supply)
    requires !s.Lit? && R.BlankFree(props) && R.BlankFree(created)
    ensures Triple(s, typ, t) in Run(RelMerge(Const(s), typ, Const(t), props, created, O.Outgoing, []), g, supply)
  {
    hide Run, RelMerge, R.CanMatch;
    var edge, x := TP(Const(s), Const(typ), Const(t)), Triple(s, typ, t);
    R.RelMergeRuns(Const(s), typ, Const(t), props, created, O.Outgoing, [], g, supply, x);
    if R.Found(Const(s), typ, Const(t), props, O.Outgoing, g, map[]) {
      FoundHasEdge(s, typ, t, props, g);
    } else {
      assert IsSolution([], g, map[]) by {
        assert Reaches([], g, map[], map[]);
      }
      assert edge in R.Forward(Const(s), typ, Const(t), props) && InstTp(edge, map[]) == Some(x);
      assert R.Asks(Const(s), typ, Const(t), props, created, map[], x);
    }
  }

  lemma FoundHasEdge(s: Term, typ: Term, t: Term, props: seq<RelProp>, g: Store)
    requires R.Found(Const(s), typ, Const(t), props, O.Outgoing, g, map[])
    ensures Triple(s, typ, t) in g
  {
    var edge, tps := TP(Const(s), Const(typ), Const(t)), R.Forward(Const(s), typ, Const(t), props);
    assert tps[0] == edge;
    var nu: Solution :| BgpMatch(tps, g, map[], nu);
    assert Holds(edge, g, nu);
  }

  // What the writes leave in each property is there already.
  ghost predicate AllGiven(ws: seq<Write>, e: Term, g: Store) {
    forall w, o: Term :: w in ws && w.Put? ==> (Triple(e, w.property, o) in g <==> Final(ws, w.property) == Some(Some(o)))
  }

  predicate OnlyPuts(ws: seq<Write>) {
    forall w :: w in ws ==> w.Put? && w.property != Iri(RDF_TYPE)
  }

  lemma {:induction false} EdgeWritesPut(items: seq<SetItem>, base: string, lit: Serializer)
    requires forall item :: item in items && item.Property? ==> base + item.key != RDF_TYPE
    ensures OnlyPuts(EdgeWrites(items, base, lit))
  {
    if items != [] {
      EdgeWritesPut(items[1..], base, lit);
      assert items[0] in items;
    }
  }

  lemma WritesGivenIff(ws: seq<Write>, e: Term, g: Store)
    requires OnlyPuts(ws)
    ensures AtOnce(ws, iset{e}, g) == g <==> AllGiven(ws, e, g)
  {
    hide AtOnce, Final, After;
    var nodes := iset{e};
    forall t: Triple
      ensures t in AtOnce(ws, nodes, g) <==> if t.s == e && Final(ws, t.p).Some? then Final(ws, t.p).value == Some(t.o) else t in g
    {
      AtOnceIsAfter(ws, nodes, g, t);
      FinalSome(ws, t.p);
      if t.p != Iri(RDF_TYPE) {
        AfterProperty(ws, t.p, t.o, t in g);
      } else {
        AfterLabel(ws, t.o, t in g);
      }
    }
    if AtOnce(ws, nodes, g) == g {
      forall w, o: Term | w in ws && w.Put?
        ensures Triple(e, w.property, o) in g <==> Final(ws, w.property) == Some(Some(o))
      {
        FinalSome(ws, w.property);
        var t := Triple(e, w.property, o);
        assert t in AtOnce(ws, nodes, g) <==> t in g;
      }
    }
    if AllGiven(ws, e, g) {
      forall t: Triple
        ensures t in AtOnce(ws, nodes, g) <==> t in g
      {
        FinalSome(ws, t.p);
        if t.s == e && Final(ws, t.p).Some? {
          var w :| w in ws && w.Put? && w.property == t.p;
          assert Triple(e, w.property, t.o) == t;
        }
      }
    }
  }

  // Between nodes known by IRI, ON MATCH writes to the relationship and nothing else, but
  // whether the INSERT found it or made it: that is right exactly when it was found, or has
  // been made with what ON MATCH writes.
  lemma BoundOnMatchIff(s: Term, t: Term, typ: string, props: seq<RelProp>, created: seq<RelProp>, onMatch: seq<SetItem>, base: string, lit: Serializer,
                        g: Store, supply: Supply)
    requires s.Iri? && t.Iri? && R.BlankFree(props) && R.BlankFree(created)
    requires forall item :: item in onMatch && item.Property? ==> base + item.key != RDF_TYPE
    ensures var us, ws, iri := BoundMatchMerges(s, t, [typ], props, created, onMatch, base, lit), EdgeWrites(onMatch, base, lit), Where.TypeIri(base, typ);
            var e, h := Quoted(s, iri, t), Run(RelMerge(Const(s), iri, Const(t), props, created, O.Outgoing, []), g, supply);
            var found := R.Found(Const(s), iri, Const(t), props, O.Outgoing, g, map[]);
            && RunAll(us, g, supply) == AtOnce(ws, iset{e}, h)
            && (RunAll(us, g, supply) == (if found then AtOnce(ws, iset{e}, h) else h) <==> found || AllGiven(ws, e, h))
  {
    hide Run, RelMerge, R.Found, AllGiven, AtOnce, EdgeSets, EdgeWrites;
    var ws, iri := EdgeWrites(onMatch, base, lit), Where.TypeIri(base, typ);
    var u, sets := RelMerge(Const(s), iri, Const(t), props, created, O.Outgoing, []), EdgeSets(s, iri, t, onMatch, base, lit);
    var types, h := [typ], Run(u, g, supply);
    assert types[1..] == [] && BoundMatchMerges(s, t, types[1..], props, created, onMatch, base, lit) == [];
    assert BoundMatchMerges(s, t, types, props, created, onMatch, base, lit) == [u] + sets;
    assert ([u] + sets)[1..] == sets && RunAll([u] + sets, g, supply) == RunAll(sets, h, supply);
    EdgeIsThere(s, iri, t, props, created, g, supply);
    EdgeSetsRun(s, iri, t, onMatch, base, lit, h, supply);
    EdgeWritesPut(onMatch, base, lit);
    WritesGivenIff(ws, Quoted(s, iri, t), h);
  }
}

/** What a compiled relationship MERGE does to the store.

    One INSERT adds the relationship for every row that lacks it, where Cypher
    takes the rows one at a time.  A second run adds nothing.
 */
module RelMergeEffect {
  import opened Prelude
  import opened Sparql
  import opened Text
  import opened WriteSet
  import opened WriteMerge
  import Where
  import W = WhereMeaning
  import L = Lqa
  import O = Ops

  // ---------- The guard ----------

  ghost predicate AllHold(tps: seq<TriplePattern>, g: Store, mu: Solution) {
    forall tp :: tp in tps ==> Holds(tp, g, mu)
  }

  lemma BoundBgp(tps: seq<TriplePattern>, g: Store, mu: Solution)
    requires AllVars(tps) <= mu.Keys
    ensures (exists nu: Solution :: BgpMatch(tps, g, mu, nu)) <==> AllHold(tps, g, mu)
  {
    forall nu: Solution | BgpMatch(tps, g, mu, nu)
      ensures AllHold(tps, g, mu)
    {
      assert nu == mu;
    }
    if AllHold(tps, g, mu) {
      assert BgpMatch(tps, g, mu, mu);
    }
  }

  function Forward(src: VarTerm, typ: Term, dst: VarTerm, props: seq<RelProp>): seq<TriplePattern> {
    [TP(src, Const(typ), dst)] + RelPropPatterns(src, typ, dst, props)
  }

  function Backward(src: VarTerm, typ: Term, dst: VarTerm, props: seq<RelProp>): seq<TriplePattern> {
    [TP(dst, Const(typ), src)] + RelPropPatterns(src, typ, dst, props)
  }

  ghost predicate CanMatch(tps: seq<TriplePattern>, g: Store, mu: Solution) {
    exists nu: Solution :: BgpMatch(tps, g, mu, nu)
  }

  // The row has its relationship, as the guard sees it; what the row leaves unbound may
  // be anything.
  ghost predicate Found(src: VarTerm, typ: Term, dst: VarTerm, props: seq<RelProp>, dir: O.Direction, g: Store, mu: Solution) {
    || CanMatch(Forward(src, typ, dst, props), g, mu)
    || (dir == O.Undirected && CanMatch(Backward(src, typ, dst, props), g, mu))
  }

  lemma GuardIsFound(src: VarTerm, typ: Term, dst: VarTerm, props: seq<RelProp>, dir: O.Direction, g: Store, mu: Solution)
    ensures FilterHolds(RelGuard(src, typ, dst, props, dir), g, mu) <==> !Found(src, typ, dst, props, dir, g, mu)
  {
    hide BgpMatch;
    var forward, backward := Forward(src, typ, dst, props), Backward(src, typ, dst, props);
    assert RelGuard(src, typ, dst, props, dir) == NotExists(if dir == O.Undirected then [forward, backward] else [forward]);
  }

  lemma {:induction false} RelPropsAre(src: VarTerm, typ: Term, dst: VarTerm, props: seq<RelProp>, tp: TriplePattern)
    ensures tp in RelPropPatterns(src, typ, dst, props)
       <==> exists p :: p in props && tp == TP(QuotedPat(src, Const(typ), dst), Const(p.iri), p.value)
  {
    if props != [] {
      RelPropsAre(src, typ, dst, props[1..], tp);
      assert forall p :: p in props <==> p == props[0] || p in props[1..];
    }
  }

  // ---------- One run ----------

  predicate IsTemplate(tp: TriplePattern, src: VarTerm, typ: Term, dst: VarTerm, props: seq<RelProp>, created: seq<RelProp>) {
    tp in Forward(src, typ, dst, props) || tp in RelPropPatterns(src, typ, dst, created)
  }

  // The triples that the row mu asks for; a row that leaves an end unbound asks for none.
  ghost predicate Asks(src: VarTerm, typ: Term, dst: VarTerm, props: seq<RelProp>, created: seq<RelProp>, mu: Solution, t: Triple) {
    !t.s.Lit? && exists tp :: IsTemplate(tp, src, typ, dst, props, created) && InstTp(tp, mu) == Some(t)
  }

  // Some row of the context asks for the triple and lacks the relationship.
  ghost predicate Wanted(src: VarTerm, typ: Term, dst: VarTerm, props: seq<RelProp>, created: seq<RelProp>, dir: O.Direction,
                         context: seq<Part>, g: Store, t: Triple) {
    exists mu: Solution ::
      IsSolution(context, g, mu) && !Found(src, typ, dst, props, dir, g, mu) && Asks(src, typ, dst, props, created, mu, t)
  }

  predicate NoBlank(vt: VarTerm) {
    vt.Var? || vt.Const?
  }

  // MERGE patterns have no blank nodes.
  ghost predicate NoBlanks(src: VarTerm, dst: VarTerm, props: seq<RelProp>, created: seq<RelProp>) {
    NoBlank(src) && NoBlank(dst) && forall p :: p in props || p in created ==> NoBlank(p.value)
  }

  lemma TemplateInstance(tp: TriplePattern, src: VarTerm, typ: Term, dst: VarTerm, props: seq<RelProp>, created: seq<RelProp>,
                         mu: Solution, supply: Supply, t: Triple)
    requires NoBlanks(src, dst, props, created) && IsTemplate(tp, src, typ, dst, props, created)
    ensures InsertsBy(tp, mu, supply, t) <==> InstTp(tp, mu) == Some(t) && !t.s.Lit?
  {
    RelPropsAre(src, typ, dst, props, tp);
    RelPropsAre(src, typ, dst, created, tp);
  }

  lemma Solved(src: VarTerm, typ: Term, dst: VarTerm, props: seq<RelProp>, dir: O.Direction, context: seq<Part>, g: Store, mu: Solution)
    ensures IsSolution(context + [RelGuard(src, typ, dst, props, dir)], g, mu)
       <==> IsSolution(context, g, mu) && !Found(src, typ, dst, props, dir, g, mu)
  {
    hide Found, RelGuard, FilterHolds;
    SolutionsWithGuard(context, RelGuard(src, typ, dst, props, dir), g, mu);
    GuardIsFound(src, typ, dst, props, dir, g, mu);
  }

  // A relationship MERGE keeps every triple and adds what the rows without the
  // relationship ask for.
  lemma RelMergeRuns(src: VarTerm, typ: Term, dst: VarTerm, props: seq<RelProp>, created: seq<RelProp>, dir: O.Direction,
                     context: seq<Part>, g: Store, supply: Supply, t: Triple)
    requires NoBlanks(src, dst, props, created)
    ensures t in Run(RelMerge(src, typ, dst, props, created, dir, context), g, supply)
       <==> t in g || Wanted(src, typ, dst, props, created, dir, context, g, t)
  {
    hide NoBlanks, Found, RelGuard, IsSolution, InsertsBy, InstTp;
    var u := RelMerge(src, typ, dst, props, created, dir, context);
    assert !Deletes(u, g, t);
    assert forall tp :: tp in u.insert <==> IsTemplate(tp, src, typ, dst, props, created);
    if Inserts(u, g, supply, t) {
      var mu: Solution, tp :| IsSolution(u.pattern, g, mu) && tp in u.insert && InsertsBy(tp, mu, supply, t);
      TemplateInstance(tp, src, typ, dst, props, created, mu, supply, t);
      Solved(src, typ, dst, props, dir, context, g, mu);
      assert Asks(src, typ, dst, props, created, mu, t);
    }
    if Wanted(src, typ, dst, props, created, dir, context, g, t) {
      var mu: Solution :| IsSolution(context, g, mu) && !Found(src, typ, dst, props, dir, g, mu) && Asks(src, typ, dst, props, created, mu, t);
      var tp :| IsTemplate(tp, src, typ, dst, props, created) && InstTp(tp, mu) == Some(t);
      TemplateInstance(tp, src, typ, dst, props, created, mu, supply, t);
      Solved(src, typ, dst, props, dir, context, g, mu);
      assert tp in u.insert;
    }
  }

  // ---------- Every row ----------

  lemma MatchGrows(tps: seq<TriplePattern>, g: Store, h: Store, mu: Solution)
    requires g <= h && CanMatch(tps, g, mu)
    ensures CanMatch(tps, h, mu)
  {
    var nu: Solution :| BgpMatch(tps, g, mu, nu);
    assert BgpMatch(tps, h, mu, nu);
  }

  lemma FoundGrows(src: VarTerm, typ: Term, dst: VarTerm, props: seq<RelProp>, dir: O.Direction, g: Store, h: Store, mu: Solution)
    requires g <= h && Found(src, typ, dst, props, dir, g, mu)
    ensures Found(src, typ, dst, props, dir, h, mu)
  {
    hide Forward, Backward, CanMatch;
    if CanMatch(Forward(src, typ, dst, props), g, mu) {
      MatchGrows(Forward(src, typ, dst, props), g, h, mu);
    } else {
      MatchGrows(Backward(src, typ, dst, props), g, h, mu);
    }
  }

  lemma {:induction false} InstBinds(vt: VarTerm, mu: Solution)
    requires Inst(vt, mu).Some?
    ensures VarsOf(vt) <= mu.Keys
  {
    match vt {
      case QuotedPat(s, p, o) => InstBinds(s, mu); InstBinds(p, mu); InstBinds(o, mu);
      case _ =>
    }
  }

  lemma HoldingMatches(tps: seq<TriplePattern>, g: Store, mu: Solution)
    requires AllHold(tps, g, mu)
    ensures CanMatch(tps, g, mu)
  {
    forall tp, x | tp in tps && x in TpVars(tp)
      ensures x in mu
    {
      assert Holds(tp, g, mu);
      InstBinds(tp.s, mu);
      InstBinds(tp.p, mu);
      InstBinds(tp.o, mu);
    }
    assert BgpMatch(tps, g, mu, mu);
  }

  lemma TemplateIsMade(src: VarTerm, typ: Term, dst: VarTerm, props: seq<RelProp>, created: seq<RelProp>, dir: O.Direction,
                       context: seq<Part>, g: Store, supply: Supply, mu: Solution, tp: TriplePattern)
    requires NoBlanks(src, dst, props, created) && IsSolution(context, g, mu) && !Found(src, typ, dst, props, dir, g, mu)
    requires tp in Forward(src, typ, dst, props) && InstTp(tp, mu).Some? && !InstTp(tp, mu).value.s.Lit?
    ensures Holds(tp, Run(RelMerge(src, typ, dst, props, created, dir, context), g, supply), mu)
  {
    hide NoBlanks, Run, RelMerge, IsSolution, Found, Forward, InstTp;
    var t := InstTp(tp, mu).value;
    assert IsTemplate(tp, src, typ, dst, props, created);
    assert Asks(src, typ, dst, props, created, mu, t);
    RelMergeRuns(src, typ, dst, props, created, dir, context, g, supply, t);
  }

  lemma MergeGrows(src: VarTerm, typ: Term, dst: VarTerm, props: seq<RelProp>, created: seq<RelProp>, dir: O.Direction,
                   context: seq<Part>, g: Store, supply: Supply)
    requires NoBlanks(src, dst, props, created)
    ensures g <= Run(RelMerge(src, typ, dst, props, created, dir, context), g, supply)
  {
    hide Run, RelMerge, Wanted;
    forall t: Triple | t in g
      ensures t in Run(RelMerge(src, typ, dst, props, created, dir, context), g, supply)
    {
      RelMergeRuns(src, typ, dst, props, created, dir, context, g, supply, t);
    }
  }

  // Every row whose ends can carry the relationship has it afterwards.
  lemma RowIsFound(src: VarTerm, typ: Term, dst: VarTerm, props: seq<RelProp>, created: seq<RelProp>, dir: O.Direction,
                   context: seq<Part>, g: Store, supply: Supply, mu: Solution)
    requires NoBlanks(src, dst, props, created) && IsSolution(context, g, mu)
    requires forall tp :: tp in Forward(src, typ, dst, props) ==> InstTp(tp, mu).Some? && !InstTp(tp, mu).value.s.Lit?
    ensures Found(src, typ, dst, props, dir, Run(RelMerge(src, typ, dst, props, created, dir, context), g, supply), mu)
  {
    hide NoBlanks, Run, RelMerge, IsSolution, Forward, CanMatch, InstTp, Holds;
    var h := Run(RelMerge(src, typ, dst, props, created, dir, context), g, supply);
    if Found(src, typ, dst, props, dir, g, mu) {
      MergeGrows(src, typ, dst, props, created, dir, context, g, supply);
      FoundGrows(src, typ, dst, props, dir, g, h, mu);
    } else {
      forall tp | tp in Forward(src, typ, dst, props)
        ensures Holds(tp, h, mu)
      {
        TemplateIsMade(src, typ, dst, props, created, dir, context, g, supply, mu, tp);
      }
      HoldingMatches(Forward(src, typ, dst, props), h, mu);
    }
  }

  // ---------- The run repeated ----------

  // Where the update writes.
  function MergeFootprint(typ: Term, props: seq<RelProp>, created: seq<RelProp>): set<Footprint> {
    {OfPredicate(typ)} + set p | p in props + created :: OfPredicate(p.iri)
  }

  lemma AskedIsCovered(src: VarTerm, typ: Term, dst: VarTerm, props: seq<RelProp>, created: seq<RelProp>, mu: Solution, t: Triple)
    requires Asks(src, typ, dst, props, created, mu, t)
    ensures exists w :: w in MergeFootprint(typ, props, created) && Covers(w, t)
  {
    var tp :| IsTemplate(tp, src, typ, dst, props, created) && InstTp(tp, mu) == Some(t);
    if tp == TP(src, Const(typ), dst) {
      assert Covers(OfPredicate(typ), t);
    } else {
      RelPropsAre(src, typ, dst, props, tp);
      RelPropsAre(src, typ, dst, created, tp);
      var p :| p in props + created && tp == TP(QuotedPat(src, Const(typ), dst), Const(p.iri), p.value);
      assert Covers(OfPredicate(p.iri), t);
    }
  }

  lemma WantedIsCovered(src: VarTerm, typ: Term, dst: VarTerm, props: seq<RelProp>, created: seq<RelProp>, dir: O.Direction,
                        context: seq<Part>, g: Store, t: Triple)
    requires Wanted(src, typ, dst, props, created, dir, context, g, t)
    ensures exists w :: w in MergeFootprint(typ, props, created) && Covers(w, t)
  {
    hide IsSolution, Found, Asks, MergeFootprint, Covers;
    var mu: Solution :| IsSolution(context, g, mu) && !Found(src, typ, dst, props, dir, g, mu) && Asks(src, typ, dst, props, created, mu, t);
    AskedIsCovered(src, typ, dst, props, created, mu, t);
  }

  lemma MergeStaysInside(src: VarTerm, typ: Term, dst: VarTerm, props: seq<RelProp>, created: seq<RelProp>, dir: O.Direction,
                         context: seq<Part>, g: Store, supply: Supply, ws: set<Footprint>)
    requires NoBlanks(src, dst, props, created) && MergeFootprint(typ, props, created) <= ws
    ensures SameOutside(g, Run(RelMerge(src, typ, dst, props, created, dir, context), g, supply), ws)
  {
    hide NoBlanks, Run, RelMerge, Wanted, MergeFootprint, Covers;
    forall t: Triple | forall w :: w in ws ==> !Covers(w, t)
      ensures t in g <==> t in Run(RelMerge(src, typ, dst, props, created, dir, context), g, supply)
    {
      RelMergeRuns(src, typ, dst, props, created, dir, context, g, supply, t);
      if Wanted(src, typ, dst, props, created, dir, context, g, t) {
        WantedIsCovered(src, typ, dst, props, created, dir, context, g, t);
      }
    }
  }

  // What one run has done, no later run on a larger store does again.
  lemma DoneOnce(src: VarTerm, typ: Term, dst: VarTerm, props: seq<RelProp>, created: seq<RelProp>, dir: O.Direction,
                 context: seq<Part>, g: Store, h: Store, supply: Supply, again: Supply, ws: set<Footprint>)
    requires NoBlanks(src, dst, props, created) && Avoids(context, ws) && SameOutside(g, h, ws)
    requires Run(RelMerge(src, typ, dst, props, created, dir, context), g, supply) <= h
    ensures Run(RelMerge(src, typ, dst, props, created, dir, context), h, again) == h
  {
    hide NoBlanks, Run, RelMerge, IsSolution, Found, Asks, Avoids, SameOutside;
    MergeGrows(src, typ, dst, props, created, dir, context, g, supply);
    forall t: Triple
      ensures t in Run(RelMerge(src, typ, dst, props, created, dir, context), h, again) <==> t in h
    {
      RelMergeRuns(src, typ, dst, props, created, dir, context, h, again, t);
      if Wanted(src, typ, dst, props, created, dir, context, h, t) {
        var mu: Solution :| IsSolution(context, h, mu) && !Found(src, typ, dst, props, dir, h, mu) && Asks(src, typ, dst, props, created, mu, t);
        SolutionFrame(context, g, h, ws, mu);
        if Found(src, typ, dst, props, dir, g, mu) {
          FoundGrows(src, typ, dst, props, dir, g, h, mu);
        }
        assert Wanted(src, typ, dst, props, created, dir, context, g, t);
        RelMergeRuns(src, typ, dst, props, created, dir, context, g, supply, t);
      }
    }
  }

  lemma SolutionFrame(context: seq<Part>, g: Store, h: Store, ws: set<Footprint>, mu: Solution)
    requires Avoids(context, ws) && SameOutside(g, h, ws)
    ensures IsSolution(context, g, mu) <==> IsSolution(context, h, mu)
  {
    FrameSolves(context, g, h, ws, map[], mu);
  }

  // A second MERGE adds nothing, provided the context does not look at what the
  // first one wrote.
  lemma RelMergeIdempotent(src: VarTerm, typ: Term, dst: VarTerm, props: seq<RelProp>, created: seq<RelProp>, dir: O.Direction,
                           context: seq<Part>, g: Store, supply: Supply, again: Supply)
    requires NoBlanks(src, dst, props, created)
    requires Avoids(context, MergeFootprint(typ, props, created))
    ensures var u := RelMerge(src, typ, dst, props, created, dir, context);
            Run(u, Run(u, g, supply), again) == Run(u, g, supply)
  {
    hide NoBlanks, Run, RelMerge, Avoids, SameOutside, MergeFootprint;
    var h := Run(RelMerge(src, typ, dst, props, created, dir, context), g, supply);
    MergeStaysInside(src, typ, dst, props, created, dir, context, g, supply, MergeFootprint(typ, props, created));
    DoneOnce(src, typ, dst, props, created, dir, context, g, h, supply, again, MergeFootprint(typ, props, created));
  }

  // ---------- What the compiler emits ----------

  // One update for each type.
  function Merges(src: VarTerm, dst: VarTerm, types: seq<string>, props: seq<RelProp>, created: seq<RelProp>, dir: O.Direction,
                  context: seq<Part>, base: string): seq<Update> {
    if types == [] then []
    else [RelMerge(src, Where.TypeIri(base, types[0]), dst, props, created, dir, context)]
         + Merges(src, dst, types[1..], props, created, dir, context, base)
  }

  lemma {:induction false} RelMergesAre(from: string, to: string, types: seq<string>, dir: O.Direction, props: seq<RelProp>, created: seq<RelProp>,
                                        context: seq<Part>, base: string)
    ensures RelMerges(from, to, types, dir, props, created, context, base)
         == Merges(Var(Source(from, to, dir)), Var(Target(from, to, dir)), types, props, created, dir, context, base)
  {
    hide RelMerge;
    if types != [] {
      RelMergesAre(from, to, types[1..], dir, props, created, context, base);
    }
  }

  lemma {:induction false} BoundMergesAre(a: Term, b: Term, types: seq<string>, dir: O.Direction, props: seq<RelProp>, created: seq<RelProp>, base: string)
    ensures BoundMerges(a, b, types, dir, props, created, base)
         == Merges(Const(if dir == O.Incoming then b else a), Const(if dir == O.Incoming then a else b), types, props, created, O.Outgoing, [], base)
  {
    hide RelMerge;
    if types != [] {
      BoundMergesAre(a, b, types[1..], dir, props, created, base);
    }
  }

  function MergesFootprint(types: seq<string>, props: seq<RelProp>, created: seq<RelProp>, base: string): set<Footprint> {
    set i, w | 0 <= i < |types| && w in MergeFootprint(Where.TypeIri(base, types[i]), props, created) :: w
  }

  lemma {:induction false} MergesGrow(src: VarTerm, dst: VarTerm, types: seq<string>, props: seq<RelProp>, created: seq<RelProp>, dir: O.Direction,
                                      context: seq<Part>, base: string, g: Store, supply: Supply, ws: set<Footprint>)
    requires NoBlanks(src, dst, props, created) && MergesFootprint(types, props, created, base) <= ws
    ensures var h := RunAll(Merges(src, dst, types, props, created, dir, context, base), g, supply); g <= h && SameOutside(g, h, ws)
  {
    hide NoBlanks, Run, RelMerge, MergeFootprint, Covers;
    if types != [] {
      var typ, rest := Where.TypeIri(base, types[0]), types[1..];
      var u := RelMerge(src, typ, dst, props, created, dir, context);
      var g1 := Run(u, g, supply);
      RestIsWithin(types, props, created, base);
      MergeGrows(src, typ, dst, props, created, dir, context, g, supply);
      MergeStaysInside(src, typ, dst, props, created, dir, context, g, supply, ws);
      MergesGrow(src, dst, rest, props, created, dir, context, base, g1, supply, ws);
      assert Merges(src, dst, types, props, created, dir, context, base)[1..] == Merges(src, dst, rest, props, created, dir, context, base);
    }
  }

  lemma RestIsWithin(types: seq<string>, props: seq<RelProp>, created: seq<RelProp>, base: string)
    requires types != []
    ensures MergeFootprint(Where.TypeIri(base, types[0]), props, created) <= MergesFootprint(types, props, created, base)
    ensures MergesFootprint(types[1..], props, created, base) <= MergesFootprint(types, props, created, base)
  {
    hide MergeFootprint;
    forall w | w in MergesFootprint(types[1..], props, created, base)
      ensures w in MergesFootprint(types, props, created, base)
    {
      var i :| 0 <= i < |types[1..]| && w in MergeFootprint(Where.TypeIri(base, types[1..][i]), props, created);
      assert types[i + 1] == types[1..][i];
    }
  }

  lemma {:induction false} MergesAgain(src: VarTerm, dst: VarTerm, types: seq<string>, props: seq<RelProp>, created: seq<RelProp>, dir: O.Direction,
                                       context: seq<Part>, base: string, g: Store, h: Store, supply: Supply, again: Supply, ws: set<Footprint>)
    requires NoBlanks(src, dst, props, created) && MergesFootprint(types, props, created, base) <= ws
    requires Avoids(context, ws) && SameOutside(g, h, ws)
    requires RunAll(Merges(src, dst, types, props, created, dir, context, base), g, supply) <= h
    ensures RunAll(Merges(src, dst, types, props, created, dir, context, base), h, again) == h
  {
    hide NoBlanks, Run, RelMerge, MergeFootprint, Covers, Avoids;
    if types != [] {
      var typ, rest := Where.TypeIri(base, types[0]), types[1..];
      var u := RelMerge(src, typ, dst, props, created, dir, context);
      var g1 := Run(u, g, supply);
      RestIsWithin(types, props, created, base);
      MergeStaysInside(src, typ, dst, props, created, dir, context, g, supply, ws);
      MergesGrow(src, dst, rest, props, created, dir, context, base, g1, supply, ws);
      assert Merges(src, dst, types, props, created, dir, context, base)[1..] == Merges(src, dst, rest, props, created, dir, context, base);
      DoneOnce(src, typ, dst, props, created, dir, context, g, h, supply, again, ws);
      MergesAgain(src, dst, rest, props, created, dir, context, base, g1, h, supply, again, ws);
    }
  }

  predicate BlankFree(props: seq<RelProp>) {
    forall p :: p in props ==> NoBlank(p.value)
  }

  // ON CREATE keeps the constant properties, and nothing else.
  lemma {:induction false} CreatePropsAre(items: seq<SetItem>, base: string, lit: Serializer, p: RelProp)
    ensures p in CreateProps(items, base, lit)
       <==> exists item :: item in items && item.Property? && lit(item.value).Some? && p == RelProp(Iri(base + item.key), Const(lit(item.value).value))
  {
    if items != [] {
      CreatePropsAre(items[1..], base, lit, p);
      assert forall item :: item in items <==> item == items[0] || item in items[1..];
    }
  }

  // A row that lacks the relationship gets it with what ON CREATE sets.
  lemma OnCreateIsSet(x: string, y: string, typ: Term, props: seq<RelProp>, dir: O.Direction, context: seq<Part>, onCreate: seq<SetItem>, item: SetItem,
                      base: string, lit: Serializer, g: Store, supply: Supply, mu: Solution)
    requires BlankFree(props) && IsSolution(context, g, mu) && !Found(Var(x), typ, Var(y), props, dir, g, mu)
    requires x in mu && y in mu && !mu[x].Lit? && item in onCreate && item.Property? && lit(item.value).Some?
    ensures var h := Run(RelMerge(Var(x), typ, Var(y), props, CreateProps(onCreate, base, lit), dir, context), g, supply);
            Triple(mu[x], typ, mu[y]) in h && Triple(Quoted(mu[x], typ, mu[y]), Iri(base + item.key), lit(item.value).value) in h
  {
    hide Run, RelMerge, IsSolution, Found, CreateProps;
    var created, v := CreateProps(onCreate, base, lit), lit(item.value).value;
    var p, edge := RelProp(Iri(base + item.key), Const(v)), TP(Var(x), Const(typ), Var(y));
    CreatedAreConstant(onCreate, base, lit);
    CreatePropsAre(onCreate, base, lit, p);
    var tp := TP(QuotedPat(Var(x), Const(typ), Var(y)), Const(p.iri), p.value);
    RelPropsAre(Var(x), typ, Var(y), created, tp);
    assert Inst(Var(x), mu) == Some(mu[x]) && Inst(Var(y), mu) == Some(mu[y]) && Inst(Const(typ), mu) == Some(typ);
    assert Inst(tp.s, mu) == Some(Quoted(mu[x], typ, mu[y]));
    var s, t := Triple(mu[x], typ, mu[y]), Triple(Quoted(mu[x], typ, mu[y]), p.iri, v);
    assert IsTemplate(edge, Var(x), typ, Var(y), props, created) && InstTp(edge, mu) == Some(s);
    assert IsTemplate(tp, Var(x), typ, Var(y), props, created) && InstTp(tp, mu) == Some(t);
    assert Asks(Var(x), typ, Var(y), props, created, mu, s) && Asks(Var(x), typ, Var(y), props, created, mu, t);
    RelMergeRuns(Var(x), typ, Var(y), props, created, dir, context, g, supply, s);
    RelMergeRuns(Var(x), typ, Var(y), props, created, dir, context, g, supply, t);
  }

  lemma {:induction false} CreatedAreConstant(items: seq<SetItem>, base: string, lit: Serializer)
    ensures BlankFree(CreateProps(items, base, lit))
  {
    if items != [] {
      CreatedAreConstant(items[1..], base, lit);
    }
  }

  // Whatever relationship MERGE the compiler accepts, for any types, direction, properties
  // and ON CREATE, running its updates again adds nothing, if the context does not look
  // at what they write.
  lemma CompiledMergeIdempotent(from: string, to: string, types: seq<string>, dir: O.Direction, props: seq<RelProp>, onCreate: seq<SetItem>,
                                context: seq<Part>, known: Created, base: string, lit: Serializer, g: Store, supply: Supply, again: Supply)
    requires CompileRel(from, to, types, dir, props, onCreate, context, known, base, lit).Ok? && BlankFree(props)
    requires Avoids(context, MergesFootprint(types, props, CreateProps(onCreate, base, lit), base))
    ensures var us := CompileRel(from, to, types, dir, props, onCreate, context, known, base, lit).value;
            var h := RunAll(us, g, supply);
            g <= h && RunAll(us, h, again) == h
  {
    hide RelMerge, Constrained, Merges, RelMerges, BoundMerges, CreateProps, RunAll, MergesFootprint;
    var extra := CreateProps(onCreate, base, lit);
    var ws := MergesFootprint(types, props, extra, base);
    CreatedAreConstant(onCreate, base, lit);
    if Constrained(from, context) && Constrained(to, context) {
      var src, dst := Var(Source(from, to, dir)), Var(Target(from, to, dir));
      RelMergesAre(from, to, types, dir, props, extra, context, base);
      var h := RunAll(Merges(src, dst, types, props, extra, dir, context, base), g, supply);
      MergesGrow(src, dst, types, props, extra, dir, context, base, g, supply, ws);
      MergesAgain(src, dst, types, props, extra, dir, context, base, g, h, supply, again, ws);
    } else {
      var a, b := known[from], known[to];
      var src, dst := Const(if dir == O.Incoming then b else a), Const(if dir == O.Incoming then a else b);
      BoundMergesAre(a, b, types, dir, props, extra, base);
      var h := RunAll(Merges(src, dst, types, props, extra, O.Outgoing, [], base), g, supply);
      MergesGrow(src, dst, types, props, extra, O.Outgoing, [], base, g, supply, ws);
      MergesAgain(src, dst, types, props, extra, O.Outgoing, [], base, g, h, supply, again, ws);
    }
  }

  // ---------- Which ends the context binds ----------

  // x starts the name of a variable of the context, and is none of them itself.
  predicate IsMerePrefix(x: string, context: seq<Part>) {
    x !in PartsVars(context) && exists v :: v in PartsVars(context) && x < v
  }

  // A context without OPTIONAL, whose filters look at its own variables.
  ghost predicate IsPlainContext(context: seq<Part>) {
    W.IsFlatGroup(context, W.BindVars(context)) && W.HasBoundFilters(context, W.BindVars(context))
  }

  lemma NameInName(v: string, x: string)
    requires '?' !in v
    ensures Contains("?" + v, "?" + x) <==> x <= v
  {
    var s, w := "?" + v, "?" + x;
    assert s[0..] == s;
    PrefixTail('?', v, w);
    assert w[1..] == x;
    forall i | 0 < i <= |s|
      ensures !StartsWith(s[i..], w)
    {
      if i < |s| {
        assert s[i..][0] == v[i - 1];
      }
    }
  }

  lemma {:induction false} VarsOfParts(parts: seq<Part>, x: string)
    ensures x in PartsVars(parts) <==> exists i :: 0 <= i < |parts| && x in PartVars(parts[i])
  {
    if parts != [] {
      VarsOfParts(parts[1..], x);
      if i :| 0 <= i < |parts[1..]| && x in PartVars(parts[1..][i]) {
        assert parts[i + 1] == parts[1..][i];
      }
      if i :| 0 < i < |parts| && x in PartVars(parts[i]) {
        assert parts[1..][i - 1] == parts[i];
      }
    }
  }

  // The compiler's look at the text accepts every prefix of a variable.
  lemma ConstrainedIff(x: string, context: seq<Part>)
    requires forall v :: v in PartsVars(context) ==> '?' !in v
    ensures Constrained(x, context) <==> exists v :: v in PartsVars(context) && x <= v
  {
    if Constrained(x, context) {
      var i :| 0 <= i < |context| && PartNames(context[i], x);
      var v :| v in PartVars(context[i]) && Contains("?" + v, "?" + x);
      VarsOfParts(context, v);
      NameInName(v, x);
    }
    forall v | v in PartsVars(context) && x <= v
      ensures Constrained(x, context)
    {
      VarsOfParts(context, v);
      var i :| 0 <= i < |context| && v in PartVars(context[i]);
      NameInName(v, x);
      assert PartNames(context[i], x);
    }
  }

  lemma PrefixIsProper(x: string, v: string)
    requires x <= v
    ensures x == v || x < v
  {
    if |x| == |v| {
      assert v[..|x|] == v;
    }
  }

  // The clauses of nodes, typed relationships and predicates with a triple form are plain.
  lemma ClausesArePlain(v: W.View, op: O.Op, lit: Serializer, meaning: Where.FilterMeaning)
    requires W.IsSimple(op, v, lit)
    ensures Where.WhereParts(op, v.base, lit, meaning).Ok?
    ensures var context := Where.WhereParts(op, v.base, lit, meaning).value;
            IsPlainContext(context) && forall x :: x in W.OpVars(op) <==> Binds(context, x)
  {
    hide W.IsSimple, W.OpVars, Where.WhereParts;
    W.OpFlat(op, v, lit, meaning);
    W.OpFilters(op, v, lit, meaning, W.OpVars(op));
    var context := Where.WhereParts(op, v.base, lit, meaning).value;
    W.VarsWithin(context, W.OpVars(op));
    forall x
      ensures x in W.OpVars(op) <==> Binds(context, x)
    {
      if Binds(context, x) {
        BoundIsKnown(context, x);
      }
      if x in W.OpVars(op) {
        W.FlatIsSure(context, x);
      }
    }
  }

  // An end that the text check accepts is bound exactly when it is not merely a prefix.
  lemma AcceptedEndIff(x: string, context: seq<Part>)
    requires IsPlainContext(context) && Constrained(x, context)
    requires forall v :: v in PartsVars(context) ==> '?' !in v
    ensures Binds(context, x) <==> !IsMerePrefix(x, context)
  {
    hide Constrained;
    ConstrainedIff(x, context);
    W.VarsWithin(context, W.BindVars(context));
    if Binds(context, x) {
      BoundIsKnown(context, x);
    }
    if x in PartsVars(context) {
      W.FlatIsSure(context, x);
    } else {
      var v :| v in PartsVars(context) && x <= v;
      PrefixIsProper(x, v);
    }
  }

  lemma BoundInSolution(context: seq<Part>, x: string, g: Store, mu: Solution)
    requires Binds(context, x) && IsSolution(context, g, mu)
    ensures x in mu
  {
    ReachesDomain(context, g, map[], mu);
  }

  lemma UnknownInSolution(context: seq<Part>, x: string, g: Store, mu: Solution)
    requires x !in PartsVars(context) && IsSolution(context, g, mu)
    ensures x !in mu
  {
    ReachesDomain(context, g, map[], mu);
  }

  lemma UnboundAsksNothing(src: VarTerm, typ: Term, dst: VarTerm, props: seq<RelProp>, created: seq<RelProp>, mu: Solution, t: Triple)
    requires Inst(src, mu).None? || Inst(dst, mu).None?
    ensures !Asks(src, typ, dst, props, created, mu, t)
  {
    forall tp | IsTemplate(tp, src, typ, dst, props, created)
      ensures InstTp(tp, mu).None?
    {
      RelPropsAre(src, typ, dst, props, tp);
      RelPropsAre(src, typ, dst, created, tp);
    }
  }

  // An update with an end that no row binds leaves every store as it is.
  lemma UnboundMergeIsNothing(from: string, to: string, typ: Term, props: seq<RelProp>, created: seq<RelProp>, dir: O.Direction,
                              context: seq<Part>, g: Store, supply: Supply)
    requires BlankFree(props) && BlankFree(created) && (from !in PartsVars(context) || to !in PartsVars(context))
    ensures Run(RelMerge(Var(from), typ, Var(to), props, created, dir, context), g, supply) == g
  {
    hide Run, RelMerge, IsSolution, Found, Asks;
    forall t: Triple
      ensures t in Run(RelMerge(Var(from), typ, Var(to), props, created, dir, context), g, supply) <==> t in g
    {
      RelMergeRuns(Var(from), typ, Var(to), props, created, dir, context, g, supply, t);
      forall mu: Solution | IsSolution(context, g, mu)
        ensures !Asks(Var(from), typ, Var(to), props, created, mu, t)
      {
        if from !in PartsVars(context) {
          UnknownInSolution(context, from, g, mu);
        } else {
          UnknownInSolution(context, to, g, mu);
        }
        UnboundAsksNothing(Var(from), typ, Var(to), props, created, mu, t);
      }
    }
  }

  lemma {:induction false} UnboundMergesAreNothing(from: string, to: string, types: seq<string>, dir: O.Direction, props: seq<RelProp>, created: seq<RelProp>,
                                                   context: seq<Part>, base: string, g: Store, supply: Supply)
    requires BlankFree(props) && BlankFree(created) && (from !in PartsVars(context) || to !in PartsVars(context))
    ensures RunAll(RelMerges(from, to, types, dir, props, created, context, base), g, supply) == g
  {
    hide Run, RelMerge, PartsVars;
    if types != [] {
      var src, dst := Source(from, to, dir), Target(from, to, dir);
      UnboundMergeIsNothing(src, dst, Where.TypeIri(base, types[0]), props, created, dir, context, g, supply);
      UnboundMergesAreNothing(from, to, types[1..], dir, props, created, context, base, g, supply);
      assert RelMerges(from, to, types, dir, props, created, context, base)[1..] == RelMerges(from, to, types[1..], dir, props, created, context, base);
    }
  }

  // MATCH (ab) MERGE (ab)-[:T]->(a) is accepted, because the text of the context reads ?a,
  // and never makes anything.
  lemma PrefixMergesNothing(base: string, lit: Serializer, known: Created, g: Store, supply: Supply)
    ensures var r := CompileRel("ab", "a", ["T"], O.Outgoing, [], [], [Sentinel("ab", base)], known, base, lit);
            r.Ok? && |r.value| == 1 && Run(r.value[0], g, supply) == g
  {
    hide Run, RelMerge;
    var context := [Sentinel("ab", base)];
    assert PartsVars(context) == {"ab"} by {
      assert context[1..] == [];
    }
    ConstrainedIff("ab", context);
    ConstrainedIff("a", context);
    assert "a" <= "ab" && "ab" in PartsVars(context);
    var types := ["T"];
    assert types[1..] == [] && RelMerges("ab", "a", types[1..], O.Outgoing, [], [], context, base) == [];
    UnboundMergeIsNothing("ab", "a", Where.TypeIri(base, "T"), [], [], O.Outgoing, context, g, supply);
  }

  // The edge has the properties.
  ghost predicate Annotated(src: Term, typ: Term, dst: Term, props: seq<RelProp>, g: Store, mu: Solution) {
    forall p :: p in props ==> Inst(p.value, mu).Some? && Triple(Quoted(src, typ, dst), p.iri, Inst(p.value, mu).value) in g
  }

  // The row has both its ends and the relationship, in a direction that counts.
  ghost predicate Joined(from: string, to: string, typ: Term, dir: O.Direction, props: seq<RelProp>, g: Store, mu: Solution) {
    && from in mu && to in mu
    && ((dir != O.Incoming && Triple(mu[from], typ, mu[to]) in g) || (dir != O.Outgoing && Triple(mu[to], typ, mu[from]) in g))
    && Annotated(mu[Source(from, to, dir)], typ, mu[Target(from, to, dir)], props, g, mu)
  }

  ghost predicate JoinedByEach(from: string, to: string, types: seq<string>, dir: O.Direction, props: seq<RelProp>, base: string, g: Store, mu: Solution) {
    from in mu && to in mu && forall typ :: typ in types ==> Joined(from, to, Where.TypeIri(base, typ), dir, props, g, mu)
  }

  // The row gives every property a value.
  ghost predicate HasValues(props: seq<RelProp>, mu: Solution) {
    BlankFree(props) && forall p :: p in props ==> Inst(p.value, mu).Some?
  }

  lemma OwnPattern(src: VarTerm, typ: Term, dst: VarTerm, p: RelProp, mu: Solution)
    requires Inst(src, mu).Some? && Inst(dst, mu).Some? && Inst(p.value, mu).Some?
    ensures var tp := TP(QuotedPat(src, Const(typ), dst), Const(p.iri), p.value);
            && TpVars(tp) <= mu.Keys
            && InstTp(tp, mu) == Some(Triple(Quoted(Inst(src, mu).value, typ, Inst(dst, mu).value), p.iri, Inst(p.value, mu).value))
  {
    var edge := QuotedPat(src, Const(typ), dst);
    assert Inst(Const(typ), mu) == Some(typ) && Inst(Const(p.iri), mu) == Some(p.iri);
    assert Inst(edge, mu) == Some(Quoted(Inst(src, mu).value, typ, Inst(dst, mu).value));
    InstBinds(edge, mu);
    InstBinds(p.value, mu);
    InstBinds(Const(p.iri), mu);
  }

  lemma AnnotationsHold(src: VarTerm, typ: Term, dst: VarTerm, props: seq<RelProp>, mu: Solution, g: Store)
    requires Inst(src, mu).Some? && Inst(dst, mu).Some? && HasValues(props, mu)
    ensures AllVars(RelPropPatterns(src, typ, dst, props)) <= mu.Keys
    ensures AllHold(RelPropPatterns(src, typ, dst, props), g, mu) <==> Annotated(Inst(src, mu).value, typ, Inst(dst, mu).value, props, g, mu)
  {
    hide RelPropPatterns, TpVars, InstTp, Inst;
    var own := RelPropPatterns(src, typ, dst, props);
    forall tp | tp in own
      ensures exists p :: p in props && tp == TP(QuotedPat(src, Const(typ), dst), Const(p.iri), p.value)
      ensures TpVars(tp) <= mu.Keys
    {
      RelPropsAre(src, typ, dst, props, tp);
      var p :| p in props && tp == TP(QuotedPat(src, Const(typ), dst), Const(p.iri), p.value);
      OwnPattern(src, typ, dst, p, mu);
    }
    forall p | p in props
      ensures TP(QuotedPat(src, Const(typ), dst), Const(p.iri), p.value) in own
      ensures Holds(TP(QuotedPat(src, Const(typ), dst), Const(p.iri), p.value), g, mu)
         <==> Triple(Quoted(Inst(src, mu).value, typ, Inst(dst, mu).value), p.iri, Inst(p.value, mu).value) in g
    {
      OwnPattern(src, typ, dst, p, mu);
      RelPropsAre(src, typ, dst, props, TP(QuotedPat(src, Const(typ), dst), Const(p.iri), p.value));
    }
  }

  lemma EdgeWithProps(edge: TriplePattern, own: seq<TriplePattern>, g: Store, mu: Solution)
    requires TpVars(edge) <= mu.Keys && AllVars(own) <= mu.Keys
    ensures CanMatch([edge] + own, g, mu) <==> Holds(edge, g, mu) && AllHold(own, g, mu)
  {
    hide Holds, TpVars;
    var tps := [edge] + own;
    assert edge in tps && forall tp :: tp in tps <==> tp == edge || tp in own;
    forall tp, x | tp in tps && x in TpVars(tp)
      ensures x in mu
    {
      if tp in own {
        assert x in AllVars(own);
      }
    }
    BoundBgp(tps, g, mu);
  }

  // The guard sees the relationship exactly where the ends are joined.
  lemma FoundIsJoined(from: string, to: string, typ: Term, dir: O.Direction, props: seq<RelProp>, g: Store, mu: Solution)
    requires from in mu && to in mu && HasValues(props, mu)
    ensures Found(Var(Source(from, to, dir)), typ, Var(Target(from, to, dir)), props, dir, g, mu) <==> Joined(from, to, typ, dir, props, g, mu)
  {
    hide RelPropPatterns, AllHold, AllVars, Annotated, CanMatch, HasValues;
    var src, dst := Var(Source(from, to, dir)), Var(Target(from, to, dir));
    var own := RelPropPatterns(src, typ, dst, props);
    AnnotationsHold(src, typ, dst, props, mu, g);
    EdgeWithProps(TP(src, Const(typ), dst), own, g, mu);
    EdgeWithProps(TP(dst, Const(typ), src), own, g, mu);
  }

  lemma TypeIsFound(from: string, to: string, typ: Term, dir: O.Direction, props: seq<RelProp>, created: seq<RelProp>,
                         context: seq<Part>, g: Store, supply: Supply, mu: Solution)
    requires IsSolution(context, g, mu) && from in mu && to in mu && !mu[from].Lit? && !mu[to].Lit?
    requires HasValues(props, mu) && BlankFree(created)
    ensures var src, dst := Var(Source(from, to, dir)), Var(Target(from, to, dir));
            Found(src, typ, dst, props, dir, Run(RelMerge(src, typ, dst, props, created, dir, context), g, supply), mu)
  {
    hide Run, RelMerge, IsSolution, Found;
    var src, dst := Var(Source(from, to, dir)), Var(Target(from, to, dir));
    forall tp | tp in Forward(src, typ, dst, props)
      ensures InstTp(tp, mu).Some? && !InstTp(tp, mu).value.s.Lit?
    {
      if tp != TP(src, Const(typ), dst) {
        RelPropsAre(src, typ, dst, props, tp);
        var p :| p in props && tp == TP(QuotedPat(src, Const(typ), dst), Const(p.iri), p.value);
        OwnPattern(src, typ, dst, p, mu);
      }
    }
    RowIsFound(src, typ, dst, props, created, dir, context, g, supply, mu);
  }

  // The updates for the later types see the row too, unless the context looks at what
  // the earlier ones write.
  lemma {:induction false} MergesJoin(from: string, to: string, types: seq<string>, dir: O.Direction, props: seq<RelProp>, created: seq<RelProp>,
                                      context: seq<Part>, base: string, g: Store, supply: Supply, mu: Solution, ws: set<Footprint>)
    requires IsSolution(context, g, mu) && from in mu && to in mu && !mu[from].Lit? && !mu[to].Lit?
    requires HasValues(props, mu) && BlankFree(created)
    requires MergesFootprint(types, props, created, base) <= ws && (|types| > 1 ==> Avoids(context, ws))
    ensures var h := RunAll(RelMerges(from, to, types, dir, props, created, context, base), g, supply);
            JoinedByEach(from, to, types, dir, props, base, h, mu)
  {
    hide Run, RelMerge, IsSolution, Found, HasValues, Avoids, MergesFootprint, SameOutside, Joined;
    if types != [] {
      var typ, rest := Where.TypeIri(base, types[0]), types[1..];
      var src, dst := Var(Source(from, to, dir)), Var(Target(from, to, dir));
      var u := RelMerge(src, typ, dst, props, created, dir, context);
      var g1, us := Run(u, g, supply), RelMerges(from, to, rest, dir, props, created, context, base);
      var h := RunAll(us, g1, supply);
      assert RelMerges(from, to, types, dir, props, created, context, base) == [u] + us && ([u] + us)[1..] == us;
      RestIsWithin(types, props, created, base);
      NoneBlank(src, dst, props, created, mu);
      TypeIsFound(from, to, typ, dir, props, created, context, g, supply, mu);
      RelMergesAre(from, to, rest, dir, props, created, context, base);
      MergesGrow(src, dst, rest, props, created, dir, context, base, g1, supply, ws);
      FoundGrows(src, typ, dst, props, dir, g1, h, mu);
      FoundIsJoined(from, to, typ, dir, props, h, mu);
      if rest != [] {
        MergeStaysInside(src, typ, dst, props, created, dir, context, g, supply, ws);
        SolutionFrame(context, g, g1, ws, mu);
        MergesJoin(from, to, rest, dir, props, created, context, base, g1, supply, mu, ws);
      }
      assert forall t :: t in types <==> t == types[0] || t in rest;
    }
  }

  lemma NoneBlank(src: VarTerm, dst: VarTerm, props: seq<RelProp>, created: seq<RelProp>, mu: Solution)
    requires NoBlank(src) && NoBlank(dst) && HasValues(props, mu) && BlankFree(created)
    ensures NoBlanks(src, dst, props, created)
  {
  }

  // An accepted MERGE, for any types and properties, joins the ends of a row by each type
  // exactly when both names are bound and not merely prefixes; otherwise it leaves every
  // store as it is.
  lemma AcceptedMergeIff(from: string, to: string, types: seq<string>, dir: O.Direction, props: seq<RelProp>, onCreate: seq<SetItem>,
                         context: seq<Part>, known: Created, base: string, lit: Serializer, g: Store, supply: Supply, mu: Solution)
    requires IsPlainContext(context) && Constrained(from, context) && Constrained(to, context)
    requires forall v :: v in PartsVars(context) ==> '?' !in v
    requires IsSolution(context, g, mu) && HasValues(props, mu)
    requires (from in mu ==> !mu[from].Lit?) && (to in mu ==> !mu[to].Lit?)
    requires |types| > 1 ==> Avoids(context, MergesFootprint(types, props, CreateProps(onCreate, base, lit), base))
    ensures var r := CompileRel(from, to, types, dir, props, onCreate, context, known, base, lit);
            && r.Ok?
            && var bound := !IsMerePrefix(from, context) && !IsMerePrefix(to, context);
            && (bound <==> JoinedByEach(from, to, types, dir, props, base, RunAll(r.value, g, supply), mu))
            && (!bound ==> RunAll(r.value, g, supply) == g)
  {
    hide RunAll, RelMerges, IsSolution, Constrained, IsMerePrefix, CreateProps, Binds, MergesFootprint, Avoids, PartsVars, Joined;
    var extra := CreateProps(onCreate, base, lit);
    CreatedAreConstant(onCreate, base, lit);
    AcceptedEndIff(from, context);
    AcceptedEndIff(to, context);
    if !IsMerePrefix(from, context) && !IsMerePrefix(to, context) {
      BoundInSolution(context, from, g, mu);
      BoundInSolution(context, to, g, mu);
      MergesJoin(from, to, types, dir, props, extra, context, base, g, supply, mu, MergesFootprint(types, props, extra, base));
    } else {
      if IsMerePrefix(from, context) {
        MerePrefixIsUnknown(from, context);
        UnknownInSolution(context, from, g, mu);
      } else {
        MerePrefixIsUnknown(to, context);
        UnknownInSolution(context, to, g, mu);
      }
      UnboundMergesAreNothing(from, to, types, dir, props, extra, context, base, g, supply);
    }
  }

  lemma MerePrefixIsUnknown(x: string, context: seq<Part>)
    requires IsMerePrefix(x, context)
    ensures x !in PartsVars(context)
  {
  }
}

/** All rows of a relationship MERGE at once, or one at a time.

    Cypher lets every row see what the rows before it made; the compiled update
    judges all rows on the store as it was.  Where the two differ is stated
    exactly, for relationships with and without properties.
 */
module RowByRow {
  import opened Prelude
  import opened Sparql
  import opened WriteSet
  import opened WriteMerge
  import opened RelMergeEffect
  import Where
  import O = Ops

  datatype Ends = Ends(src: Term, dst: Term)
  datatype FixedProp = FixedProp(iri: Term, value: Term)

  function Flip(r: Ends): Ends {
    Ends(r.dst, r.src)
  }

  predicate AreNodes(r: Ends) {
    (r.src.BNode? || r.src.Iri?) && (r.dst.BNode? || r.dst.Iri?)
  }

  function EdgeOf(r: Ends, typ: Term): Triple {
    Triple(r.src, typ, r.dst)
  }

  function PropOf(r: Ends, typ: Term, p: FixedProp): Triple {
    Triple(Quoted(r.src, typ, r.dst), p.iri, p.value)
  }

  // The relationship with these properties leads from one end to the other.
  ghost predicate Has(r: Ends, typ: Term, props: seq<FixedProp>, g: Store) {
    EdgeOf(r, typ) in g && forall p :: p in props ==> PropOf(r, typ, p) in g
  }

  ghost predicate Lacks(r: Ends, typ: Term, props: seq<FixedProp>, dir: O.Direction, g: Store) {
    !Has(r, typ, props, g) && (dir == O.Undirected ==> !Has(Flip(r), typ, props, g))
  }

  // What the guard takes for lacking: with properties it looks from one end only.
  ghost predicate SeemsToLack(r: Ends, typ: Term, props: seq<FixedProp>, dir: O.Direction, g: Store) {
    !Has(r, typ, props, g) && (dir == O.Undirected && props == [] ==> !Has(Flip(r), typ, props, g))
  }

  // The triples made for a row, with those that ON CREATE adds.
  ghost predicate IsMadeFor(t: Triple, r: Ends, typ: Term, props: seq<FixedProp>, created: seq<FixedProp>) {
    t == EdgeOf(r, typ) || exists p :: (p in props || p in created) && t == PropOf(r, typ, p)
  }

  // What the single update does: every row is judged on the store as it was.
  ghost function AllAtOnce(rows: seq<Ends>, typ: Term, props: seq<FixedProp>, created: seq<FixedProp>, dir: O.Direction, g: Store): Store {
    iset t: Triple | t in g || exists r :: r in rows && SeemsToLack(r, typ, props, dir, g) && IsMadeFor(t, r, typ, props, created)
  }

  ghost function WithRow(r: Ends, typ: Term, props: seq<FixedProp>, created: seq<FixedProp>, dir: O.Direction, g: Store): Store {
    iset t: Triple | t in g || (Lacks(r, typ, props, dir, g) && IsMadeFor(t, r, typ, props, created))
  }

  // What Cypher does: every row sees what the rows before it made.
  ghost function OneByOne(rows: seq<Ends>, typ: Term, props: seq<FixedProp>, created: seq<FixedProp>, dir: O.Direction, g: Store): Store {
    if rows == [] then g
    else OneByOne(rows[1..], typ, props, created, dir, WithRow(rows[0], typ, props, created, dir, g))
  }

  // Two rows ask for the same relationship from opposite ends.
  ghost predicate Mirrored(rows: seq<Ends>, typ: Term, props: seq<FixedProp>, dir: O.Direction, g: Store) {
    dir == O.Undirected && exists r :: r in rows && r.src != r.dst && Flip(r) in rows && Lacks(r, typ, props, dir, g)
  }

  // A row has its relationship, with properties, from the other end alone.
  ghost predicate OneSided(rows: seq<Ends>, typ: Term, props: seq<FixedProp>, dir: O.Direction, g: Store) {
    dir == O.Undirected && props != [] && exists r :: r in rows && !Has(r, typ, props, g) && Has(Flip(r), typ, props, g)
  }

  // ---------- One row more ----------

  // A row that is made gives the relationship to its own ends and no others.
  lemma WithRowHas(r: Ends, q: Ends, typ: Term, props: seq<FixedProp>, created: seq<FixedProp>, dir: O.Direction, g: Store)
    requires AreNodes(r) && AreNodes(q)
    ensures var h := WithRow(r, typ, props, created, dir, g);
            Has(q, typ, props, h) <==> Has(q, typ, props, g) || (q == r && Lacks(r, typ, props, dir, g))
  {
    var h := WithRow(r, typ, props, created, dir, g);
    if q == r && Lacks(r, typ, props, dir, g) {
      forall p | p in props ensures PropOf(q, typ, p) in h {
        assert IsMadeFor(PropOf(q, typ, p), r, typ, props, created);
      }
    } else {
      assert EdgeOf(q, typ) in h <==> EdgeOf(q, typ) in g;
      forall p ensures PropOf(q, typ, p) in h <==> PropOf(q, typ, p) in g {
      }
    }
  }

  // One row at a time, a pair never gets the relationship from both ends.
  lemma {:induction false} OneEnd(rows: seq<Ends>, typ: Term, props: seq<FixedProp>, created: seq<FixedProp>, g: Store, r: Ends)
    requires AreNodes(r) && r.src != r.dst && forall q :: q in rows ==> AreNodes(q)
    requires !(Has(r, typ, props, g) && Has(Flip(r), typ, props, g))
    ensures var h := OneByOne(rows, typ, props, created, O.Undirected, g); !(Has(r, typ, props, h) && Has(Flip(r), typ, props, h))
    ensures g <= OneByOne(rows, typ, props, created, O.Undirected, g)
  {
    hide Has;
    if rows != [] {
      var q := rows[0];
      assert q in rows;
      WithRowHas(q, r, typ, props, created, O.Undirected, g);
      WithRowHas(q, Flip(r), typ, props, created, O.Undirected, g);
      OneEnd(rows[1..], typ, props, created, WithRow(q, typ, props, created, O.Undirected, g), r);
    }
  }

  lemma GrowingHas(r: Ends, typ: Term, props: seq<FixedProp>, g: Store, h: Store)
    requires g <= h && Has(r, typ, props, g)
    ensures Has(r, typ, props, h)
  {
  }

  // ---------- When they agree ----------

  // The first row leaves the rest with nothing mirrored or one-sided.
  lemma RestIsPlain(rows: seq<Ends>, typ: Term, props: seq<FixedProp>, created: seq<FixedProp>, dir: O.Direction, g: Store)
    requires rows != [] && forall q :: q in rows ==> AreNodes(q)
    requires !Mirrored(rows, typ, props, dir, g) && !OneSided(rows, typ, props, dir, g)
    ensures var h := WithRow(rows[0], typ, props, created, dir, g);
            !Mirrored(rows[1..], typ, props, dir, h) && !OneSided(rows[1..], typ, props, dir, h)
  {
    hide Has, WithRow, AreNodes;
    var r, rest := rows[0], rows[1..];
    var h := WithRow(r, typ, props, created, dir, g);
    assert forall q :: q in rows <==> q == r || q in rest;
    forall q | q in rest
      ensures Has(q, typ, props, h) <==> Has(q, typ, props, g) || (q == r && Lacks(r, typ, props, dir, g))
      ensures Has(Flip(q), typ, props, h) <==> Has(Flip(q), typ, props, g) || (Flip(q) == r && Lacks(r, typ, props, dir, g))
    {
      assert AreNodes(Flip(q)) by { FlipIsNodes(q); }
      WithRowHas(r, q, typ, props, created, dir, g);
      WithRowHas(r, Flip(q), typ, props, created, dir, g);
    }
    forall q | q in rest && dir == O.Undirected && Flip(q) == r && Lacks(r, typ, props, dir, g)
      ensures q == r
    {
      assert Flip(r) == q;
    }
  }

  lemma FlipIsNodes(q: Ends)
    requires AreNodes(q)
    ensures AreNodes(Flip(q)) && Flip(Flip(q)) == q
  {
  }

  lemma StepAgrees(rows: seq<Ends>, typ: Term, props: seq<FixedProp>, created: seq<FixedProp>, dir: O.Direction, g: Store, t: Triple)
    requires rows != [] && forall q :: q in rows ==> AreNodes(q)
    requires !Mirrored(rows, typ, props, dir, g) && !OneSided(rows, typ, props, dir, g)
    ensures t in AllAtOnce(rows[1..], typ, props, created, dir, WithRow(rows[0], typ, props, created, dir, g))
       <==> t in AllAtOnce(rows, typ, props, created, dir, g)
  {
    hide Has, AreNodes, IsMadeFor;
    var r, rest := rows[0], rows[1..];
    var h := WithRow(r, typ, props, created, dir, g);
    assert forall q :: q in rows <==> q == r || q in rest;
    forall q | q in rows
      ensures Has(q, typ, props, h) <==> Has(q, typ, props, g) || (q == r && Lacks(r, typ, props, dir, g))
      ensures Has(Flip(q), typ, props, h) <==> Has(Flip(q), typ, props, g) || (Flip(q) == r && Lacks(r, typ, props, dir, g))
    {
      FlipIsNodes(q);
      WithRowHas(r, q, typ, props, created, dir, g);
      WithRowHas(r, Flip(q), typ, props, created, dir, g);
    }
    assert SeemsToLack(r, typ, props, dir, g) <==> Lacks(r, typ, props, dir, g);
    forall q | q in rest
      ensures SeemsToLack(q, typ, props, dir, h) ==> SeemsToLack(q, typ, props, dir, g)
      ensures SeemsToLack(q, typ, props, dir, g) ==> SeemsToLack(q, typ, props, dir, h) || (q == r && Lacks(r, typ, props, dir, g))
    {
      if dir == O.Undirected && Flip(q) == r && Lacks(r, typ, props, dir, g) {
        assert Flip(r) == q;
      }
    }
    if t in AllAtOnce(rest, typ, props, created, dir, h) && t !in h {
      var q :| q in rest && SeemsToLack(q, typ, props, dir, h) && IsMadeFor(t, q, typ, props, created);
      assert q in rows;
    }
    if t in AllAtOnce(rows, typ, props, created, dir, g) && t !in g {
      var q :| q in rows && SeemsToLack(q, typ, props, dir, g) && IsMadeFor(t, q, typ, props, created);
      assert q == r ==> t in h;
    }
  }

  lemma {:induction false} PlainRowsAgree(rows: seq<Ends>, typ: Term, props: seq<FixedProp>, created: seq<FixedProp>, dir: O.Direction, g: Store)
    requires forall q :: q in rows ==> AreNodes(q)
    requires !Mirrored(rows, typ, props, dir, g) && !OneSided(rows, typ, props, dir, g)
    ensures OneByOne(rows, typ, props, created, dir, g) == AllAtOnce(rows, typ, props, created, dir, g)
  {
    if rows != [] {
      hide AllAtOnce, WithRow, Mirrored, OneSided, AreNodes;
      var h := WithRow(rows[0], typ, props, created, dir, g);
      RestIsPlain(rows, typ, props, created, dir, g);
      PlainRowsAgree(rows[1..], typ, props, created, dir, h);
      forall t: Triple
        ensures t in AllAtOnce(rows[1..], typ, props, created, dir, h) <==> t in AllAtOnce(rows, typ, props, created, dir, g)
      {
        StepAgrees(rows, typ, props, created, dir, g, t);
      }
    }
  }

  lemma AllAtOnceHas(rows: seq<Ends>, typ: Term, props: seq<FixedProp>, created: seq<FixedProp>, dir: O.Direction, g: Store, r: Ends)
    requires r in rows && SeemsToLack(r, typ, props, dir, g)
    ensures Has(r, typ, props, AllAtOnce(rows, typ, props, created, dir, g))
  {
    assert IsMadeFor(EdgeOf(r, typ), r, typ, props, created);
    forall p | p in props ensures IsMadeFor(PropOf(r, typ, p), r, typ, props, created) {
    }
  }

  // All at once is one by one exactly when no two rows that lack an undirected relationship
  // mirror each other, and none has it, with properties, from the other end alone.
  lemma RowByRowIff(rows: seq<Ends>, typ: Term, props: seq<FixedProp>, created: seq<FixedProp>, dir: O.Direction, g: Store)
    requires forall q :: q in rows ==> AreNodes(q)
    ensures OneByOne(rows, typ, props, created, dir, g) == AllAtOnce(rows, typ, props, created, dir, g)
       <==> !Mirrored(rows, typ, props, dir, g) && !OneSided(rows, typ, props, dir, g)
  {
    hide AllAtOnce, OneByOne, Has, AreNodes;
    if Mirrored(rows, typ, props, dir, g) {
      var r :| r in rows && r.src != r.dst && Flip(r) in rows && Lacks(r, typ, props, dir, g);
      FlipIsNodes(r);
      OneEnd(rows, typ, props, created, g, r);
      AllAtOnceHas(rows, typ, props, created, dir, g, r);
      AllAtOnceHas(rows, typ, props, created, dir, g, Flip(r));
    } else if OneSided(rows, typ, props, dir, g) {
      var r :| r in rows && !Has(r, typ, props, g) && Has(Flip(r), typ, props, g);
      FlipIsNodes(r);
      assert r.src == r.dst ==> Flip(r) == r;
      OneEnd(rows, typ, props, created, g, r);
      GrowingHas(Flip(r), typ, props, g, OneByOne(rows, typ, props, created, dir, g));
      AllAtOnceHas(rows, typ, props, created, dir, g, r);
    } else {
      PlainRowsAgree(rows, typ, props, created, dir, g);
    }
  }

  // ---------- The compiled update ----------

  function AsRelProps(ps: seq<FixedProp>): seq<RelProp> {
    if ps == [] then [] else [RelProp(ps[0].iri, Const(ps[0].value))] + AsRelProps(ps[1..])
  }

  lemma {:induction false} RelPropsOf(ps: seq<FixedProp>)
    ensures forall p :: p in ps ==> RelProp(p.iri, Const(p.value)) in AsRelProps(ps)
    ensures forall q :: q in AsRelProps(ps) ==> q.value.Const? && FixedProp(q.iri, q.value.term) in ps
  {
    if ps != [] {
      RelPropsOf(ps[1..]);
      assert forall p :: p in ps <==> p == ps[0] || p in ps[1..];
    }
  }

  // A quoted triple has properties only while it is in the store.
  ghost predicate QuotesExist(g: Store) {
    forall t: Triple :: t in g && t.s.Quoted? ==> Triple(t.s.s, t.s.p, t.s.o) in g
  }

  // r is the pair of ends that the row mu gives.
  predicate IsRow(r: Ends, src: VarTerm, dst: VarTerm, mu: Solution) {
    Inst(src, mu) == Some(r.src) && Inst(dst, mu) == Some(r.dst)
  }

  // rows lists the ends that the context matches.
  ghost predicate RowsOf(rows: seq<Ends>, src: VarTerm, dst: VarTerm, context: seq<Part>, g: Store) {
    forall r :: r in rows <==> exists mu: Solution :: IsSolution(context, g, mu) && IsRow(r, src, dst, mu)
  }

  lemma PropPatternIs(src: VarTerm, typ: Term, dst: VarTerm, p: FixedProp, mu: Solution, r: Ends)
    requires NoBlank(src) && NoBlank(dst) && IsRow(r, src, dst, mu)
    ensures var tp := TP(QuotedPat(src, Const(typ), dst), Const(p.iri), Const(p.value));
            InstTp(tp, mu) == Some(PropOf(r, typ, p)) && TpVars(tp) <= mu.Keys
  {
    var quoted := QuotedPat(src, Const(typ), dst);
    assert Inst(quoted, mu) == Some(Quoted(r.src, typ, r.dst));
    assert VarsOf(quoted) == VarsOf(src) + VarsOf(Const(typ)) + VarsOf(dst);
  }

  lemma PropPatternsHold(src: VarTerm, typ: Term, dst: VarTerm, ps: seq<FixedProp>, g: Store, mu: Solution, r: Ends)
    requires NoBlank(src) && NoBlank(dst) && IsRow(r, src, dst, mu)
    ensures AllHold(RelPropPatterns(src, typ, dst, AsRelProps(ps)), g, mu) <==> forall p :: p in ps ==> PropOf(r, typ, p) in g
    ensures AllVars(RelPropPatterns(src, typ, dst, AsRelProps(ps))) <= mu.Keys
  {
    var tps := RelPropPatterns(src, typ, dst, AsRelProps(ps));
    RelPropsOf(ps);
    forall tp | tp in tps
      ensures TpVars(tp) <= mu.Keys
      ensures exists p :: p in ps && InstTp(tp, mu) == Some(PropOf(r, typ, p))
    {
      RelPropsAre(src, typ, dst, AsRelProps(ps), tp);
      var q :| q in AsRelProps(ps) && tp == TP(QuotedPat(src, Const(typ), dst), Const(q.iri), q.value);
      PropPatternIs(src, typ, dst, FixedProp(q.iri, q.value.term), mu, r);
    }
    forall p | p in ps
      ensures exists tp :: tp in tps && InstTp(tp, mu) == Some(PropOf(r, typ, p))
    {
      var tp := TP(QuotedPat(src, Const(typ), dst), Const(p.iri), Const(p.value));
      RelPropsAre(src, typ, dst, AsRelProps(ps), tp);
      PropPatternIs(src, typ, dst, p, mu, r);
      assert tp in tps;
    }
  }

  // Forward and backward, the relationship and then the properties of the first.
  lemma PatternsHold(src: VarTerm, typ: Term, dst: VarTerm, ps: seq<FixedProp>, g: Store, mu: Solution, r: Ends)
    requires NoBlank(src) && NoBlank(dst) && IsRow(r, src, dst, mu)
    ensures CanMatch(Forward(src, typ, dst, AsRelProps(ps)), g, mu) <==> Has(r, typ, ps, g)
    ensures CanMatch(Backward(src, typ, dst, AsRelProps(ps)), g, mu)
       <==> EdgeOf(Flip(r), typ) in g && forall p :: p in ps ==> PropOf(r, typ, p) in g
  {
    var own := RelPropPatterns(src, typ, dst, AsRelProps(ps));
    PropPatternsHold(src, typ, dst, ps, g, mu, r);
    var forward, backward := Forward(src, typ, dst, AsRelProps(ps)), Backward(src, typ, dst, AsRelProps(ps));
    var e, f := TP(src, Const(typ), dst), TP(dst, Const(typ), src);
    assert forall tp :: (tp in forward <==> tp == e || tp in own) && (tp in backward <==> tp == f || tp in own);
    assert TpVars(e) <= mu.Keys && TpVars(f) <= mu.Keys;
    hide RelPropPatterns, AsRelProps, Forward, Backward;
    forall tps | tps == forward || tps == backward
      ensures CanMatch(tps, g, mu) <==> AllHold(tps, g, mu)
    {
      BoundBgp(tps, g, mu);
    }
    assert Holds(e, g, mu) <==> EdgeOf(r, typ) in g;
    assert Holds(f, g, mu) <==> EdgeOf(Flip(r), typ) in g;
    assert e in forward && f in backward;
  }

  // With properties the second direction of the guard is dead, because it asks for the
  // properties of the first edge.
  lemma GuardLooks(src: VarTerm, typ: Term, dst: VarTerm, ps: seq<FixedProp>, dir: O.Direction, g: Store, mu: Solution, r: Ends)
    requires NoBlank(src) && NoBlank(dst) && IsRow(r, src, dst, mu) && (ps != [] ==> QuotesExist(g))
    ensures Found(src, typ, dst, AsRelProps(ps), dir, g, mu) <==> !SeemsToLack(r, typ, ps, dir, g)
  {
    hide CanMatch;
    PatternsHold(src, typ, dst, ps, g, mu, r);
    if ps != [] && PropOf(r, typ, ps[0]) in g {
      assert EdgeOf(r, typ) in g;
    }
  }

  lemma AsksIsMade(src: VarTerm, typ: Term, dst: VarTerm, ps: seq<FixedProp>, cs: seq<FixedProp>, mu: Solution, r: Ends, t: Triple)
    requires NoBlank(src) && NoBlank(dst) && IsRow(r, src, dst, mu) && AreNodes(r)
    ensures Asks(src, typ, dst, AsRelProps(ps), AsRelProps(cs), mu, t) <==> IsMadeFor(t, r, typ, ps, cs)
  {
    var e := TP(src, Const(typ), dst);
    RelPropsOf(ps);
    RelPropsOf(cs);
    hide AsRelProps;
    assert InstTp(e, mu) == Some(EdgeOf(r, typ));
    if Asks(src, typ, dst, AsRelProps(ps), AsRelProps(cs), mu, t) {
      var tp :| IsTemplate(tp, src, typ, dst, AsRelProps(ps), AsRelProps(cs)) && InstTp(tp, mu) == Some(t);
      RelPropsAre(src, typ, dst, AsRelProps(ps), tp);
      RelPropsAre(src, typ, dst, AsRelProps(cs), tp);
      if tp != e {
        var q :| (q in AsRelProps(ps) || q in AsRelProps(cs)) && tp == TP(QuotedPat(src, Const(typ), dst), Const(q.iri), q.value);
        PropPatternIs(src, typ, dst, FixedProp(q.iri, q.value.term), mu, r);
      }
    }
    if t == EdgeOf(r, typ) {
      assert IsTemplate(e, src, typ, dst, AsRelProps(ps), AsRelProps(cs));
    }
    forall p | (p in ps || p in cs) && t == PropOf(r, typ, p)
      ensures Asks(src, typ, dst, AsRelProps(ps), AsRelProps(cs), mu, t)
    {
      var tp := TP(QuotedPat(src, Const(typ), dst), Const(p.iri), Const(p.value));
      RelPropsAre(src, typ, dst, AsRelProps(ps), tp);
      RelPropsAre(src, typ, dst, AsRelProps(cs), tp);
      PropPatternIs(src, typ, dst, p, mu, r);
      assert IsTemplate(tp, src, typ, dst, AsRelProps(ps), AsRelProps(cs));
    }
  }

  lemma WantedIsMade(src: VarTerm, typ: Term, dst: VarTerm, ps: seq<FixedProp>, cs: seq<FixedProp>, dir: O.Direction,
                     context: seq<Part>, g: Store, rows: seq<Ends>, t: Triple)
    requires NoBlank(src) && NoBlank(dst) && (ps != [] ==> QuotesExist(g))
    requires RowsOf(rows, src, dst, context, g) && forall r :: r in rows ==> AreNodes(r)
    requires Wanted(src, typ, dst, AsRelProps(ps), AsRelProps(cs), dir, context, g, t)
    ensures exists r :: r in rows && SeemsToLack(r, typ, ps, dir, g) && IsMadeFor(t, r, typ, ps, cs)
  {
    hide IsSolution, Found, SeemsToLack, IsMadeFor, Asks, AsRelProps, AreNodes, QuotesExist;
    var mu: Solution :| IsSolution(context, g, mu) && !Found(src, typ, dst, AsRelProps(ps), dir, g, mu) && Asks(src, typ, dst, AsRelProps(ps), AsRelProps(cs), mu, t);
    if Inst(src, mu).None? || Inst(dst, mu).None? {
      UnboundAsksNothing(src, typ, dst, AsRelProps(ps), AsRelProps(cs), mu, t);
    } else {
      var r := Ends(Inst(src, mu).value, Inst(dst, mu).value);
      assert IsRow(r, src, dst, mu) && r in rows;
      GuardLooks(src, typ, dst, ps, dir, g, mu, r);
      AsksIsMade(src, typ, dst, ps, cs, mu, r, t);
    }
  }

  lemma MadeIsWanted(src: VarTerm, typ: Term, dst: VarTerm, ps: seq<FixedProp>, cs: seq<FixedProp>, dir: O.Direction,
                     context: seq<Part>, g: Store, rows: seq<Ends>, r: Ends, t: Triple)
    requires NoBlank(src) && NoBlank(dst) && (ps != [] ==> QuotesExist(g))
    requires RowsOf(rows, src, dst, context, g) && AreNodes(r)
    requires r in rows && SeemsToLack(r, typ, ps, dir, g) && IsMadeFor(t, r, typ, ps, cs)
    ensures Wanted(src, typ, dst, AsRelProps(ps), AsRelProps(cs), dir, context, g, t)
  {
    hide IsSolution, Found, SeemsToLack, IsMadeFor, Asks, AsRelProps, AreNodes, QuotesExist, IsRow;
    var mu: Solution :| IsSolution(context, g, mu) && IsRow(r, src, dst, mu);
    GuardLooks(src, typ, dst, ps, dir, g, mu, r);
    AsksIsMade(src, typ, dst, ps, cs, mu, r, t);
  }

  lemma RunsAllAtOnce(src: VarTerm, typ: Term, dst: VarTerm, ps: seq<FixedProp>, cs: seq<FixedProp>, dir: O.Direction,
                      context: seq<Part>, g: Store, supply: Supply, rows: seq<Ends>)
    requires NoBlank(src) && NoBlank(dst) && (ps != [] ==> QuotesExist(g))
    requires RowsOf(rows, src, dst, context, g) && forall r :: r in rows ==> AreNodes(r)
    ensures Run(RelMerge(src, typ, dst, AsRelProps(ps), AsRelProps(cs), dir, context), g, supply) == AllAtOnce(rows, typ, ps, cs, dir, g)
  {
    hide Run, RelMerge, Wanted, SeemsToLack, IsMadeFor, AsRelProps, AreNodes, QuotesExist, RowsOf;
    RelPropsOf(ps);
    RelPropsOf(cs);
    forall t: Triple
      ensures t in Run(RelMerge(src, typ, dst, AsRelProps(ps), AsRelProps(cs), dir, context), g, supply) <==> t in AllAtOnce(rows, typ, ps, cs, dir, g)
    {
      RelMergeRuns(src, typ, dst, AsRelProps(ps), AsRelProps(cs), dir, context, g, supply, t);
      if Wanted(src, typ, dst, AsRelProps(ps), AsRelProps(cs), dir, context, g, t) {
        WantedIsMade(src, typ, dst, ps, cs, dir, context, g, rows, t);
      }
      forall r | r in rows && SeemsToLack(r, typ, ps, dir, g) && IsMadeFor(t, r, typ, ps, cs)
        ensures Wanted(src, typ, dst, AsRelProps(ps), AsRelProps(cs), dir, context, g, t)
      {
        MadeIsWanted(src, typ, dst, ps, cs, dir, context, g, rows, r, t);
      }
    }
  }

  // The compiled MERGE makes, for every matched pair, the relationship the pair seems to
  // lack; it is what Cypher makes row by row exactly when no missing pairs are mirrored
  // and no pair has its relationship, with properties, from the other end alone.
  lemma RelMergeIff(src: VarTerm, typ: Term, dst: VarTerm, ps: seq<FixedProp>, cs: seq<FixedProp>, dir: O.Direction,
                    context: seq<Part>, g: Store, supply: Supply, rows: seq<Ends>)
    requires NoBlank(src) && NoBlank(dst) && (ps != [] ==> QuotesExist(g))
    requires RowsOf(rows, src, dst, context, g) && forall r :: r in rows ==> AreNodes(r)
    ensures var h := Run(RelMerge(src, typ, dst, AsRelProps(ps), AsRelProps(cs), dir, context), g, supply);
            && h == AllAtOnce(rows, typ, ps, cs, dir, g)
            && (h == OneByOne(rows, typ, ps, cs, dir, g) <==> !Mirrored(rows, typ, ps, dir, g) && !OneSided(rows, typ, ps, dir, g))
  {
    hide Run, RelMerge, AllAtOnce, OneByOne, Mirrored, OneSided, RowsOf, QuotesExist;
    RunsAllAtOnce(src, typ, dst, ps, cs, dir, context, g, supply, rows);
    RowByRowIff(rows, typ, ps, cs, dir, g);
  }

  // What ON CREATE adds to a relationship.
  function CreatedOf(items: seq<SetItem>, base: string, lit: Serializer): seq<FixedProp> {
    if items == [] then []
    else
      (if items[0].Property? && lit(items[0].value).Some? then [FixedProp(PropIri(base, items[0].key), lit(items[0].value).value)] else [])
      + CreatedOf(items[1..], base, lit)
  }

  lemma {:induction false} CreatedAreFixed(items: seq<SetItem>, base: string, lit: Serializer)
    ensures CreateProps(items, base, lit) == AsRelProps(CreatedOf(items, base, lit))
  {
    if items != [] {
      var rest := CreatedOf(items[1..], base, lit);
      CreatedAreFixed(items[1..], base, lit);
      var here := if items[0].Property? && lit(items[0].value).Some? then [FixedProp(PropIri(base, items[0].key), lit(items[0].value).value)] else [];
      FixedAppend(here, rest);
    }
  }

  lemma {:induction false} FixedAppend(a: seq<FixedProp>, b: seq<FixedProp>)
    ensures AsRelProps(a + b) == AsRelProps(a) + AsRelProps(b)
  {
    if a == [] {
      assert a + b == b;
    } else {
      assert (a + b)[0] == a[0] && (a + b)[1..] == a[1..] + b;
      FixedAppend(a[1..], b);
    }
  }

  // The same of what the compiler emits: one MERGE between two variables that the text of
  // the context mentions.
  lemma CompiledMergeIff(from: string, to: string, typ: string, dir: O.Direction, ps: seq<FixedProp>, onCreate: seq<SetItem>, context: seq<Part>,
                         known: Created, base: string, lit: Serializer, g: Store, supply: Supply, rows: seq<Ends>)
    requires Constrained(from, context) && Constrained(to, context) && (ps != [] ==> QuotesExist(g))
    requires RowsOf(rows, Var(Source(from, to, dir)), Var(Target(from, to, dir)), context, g) && forall r :: r in rows ==> AreNodes(r)
    ensures var us := CompileRel(from, to, [typ], dir, AsRelProps(ps), onCreate, context, known, base, lit);
            && us.Ok?
            && var h, t, cs := RunAll(us.value, g, supply), Where.TypeIri(base, typ), CreatedOf(onCreate, base, lit);
            && h == AllAtOnce(rows, t, ps, cs, dir, g)
            && (h == OneByOne(rows, t, ps, cs, dir, g) <==> !Mirrored(rows, t, ps, dir, g) && !OneSided(rows, t, ps, dir, g))
  {
    hide Run, RelMerge, Constrained, AllAtOnce, OneByOne, Mirrored, OneSided, RowsOf, QuotesExist, AsRelProps, CreateProps, CreatedOf;
    var t, cs, types := Where.TypeIri(base, typ), CreatedOf(onCreate, base, lit), [typ];
    var src, dst := Source(from, to, dir), Target(from, to, dir);
    var u := RelMerge(Var(src), t, Var(dst), AsRelProps(ps), AsRelProps(cs), dir, context);
    CreatedAreFixed(onCreate, base, lit);
    assert types[1..] == [] && RelMerges(from, to, types[1..], dir, AsRelProps(ps), AsRelProps(cs), context, base) == [];
    assert RelMerges(from, to, types, dir, AsRelProps(ps), AsRelProps(cs), context, base) == [u];
    assert [u][1..] == [] && RunAll([u], g, supply) == RunAll([], Run(u, g, supply), supply) == Run(u, g, supply);
    RelMergeIff(Var(src), t, Var(dst), ps, cs, dir, context, g, supply, rows);
  }

  // ---------- Ends known by IRI ----------

  // Between two nodes known by IRI the guard looks one way only, so the update does what
  // Cypher does exactly when an undirected relationship is not there the other way alone.
  lemma BoundMergeIff(a: Term, b: Term, typ: string, dir: O.Direction, ps: seq<FixedProp>, cs: seq<FixedProp>, base: string, g: Store, supply: Supply)
    requires a.Iri? && b.Iri? && (ps != [] ==> QuotesExist(g))
    ensures var us := BoundMerges(a, b, [typ], dir, AsRelProps(ps), AsRelProps(cs), base);
            var t, r := Where.TypeIri(base, typ), if dir == O.Incoming then Ends(b, a) else Ends(a, b);
            && |us| == 1
            && var sameAsCypher := Run(us[0], g, supply) == OneByOne([r], t, ps, cs, dir, g);
               sameAsCypher <==> (dir == O.Undirected && Has(Flip(r), t, ps, g) ==> Has(r, t, ps, g))
  {
    hide Run, RelMerge, AsRelProps, IsSolution, QuotesExist, AllAtOnce, WithRow, Has, Lacks;
    var t, r := Where.TypeIri(base, typ), if dir == O.Incoming then Ends(b, a) else Ends(a, b);
    var types, rows := [typ], [r];
    assert types[1..] == [] && rows[1..] == [] && BoundMerges(a, b, types[1..], dir, AsRelProps(ps), AsRelProps(cs), base) == [];
    assert BoundMerges(a, b, types, dir, AsRelProps(ps), AsRelProps(cs), base)
        == [RelMerge(Const(r.src), t, Const(r.dst), AsRelProps(ps), AsRelProps(cs), O.Outgoing, [])];
    EmptySolved(g);
    assert RowsOf(rows, Const(r.src), Const(r.dst), [], g) by {
      assert IsRow(r, Const(r.src), Const(r.dst), map[]);
    }
    RunsAllAtOnce(Const(r.src), t, Const(r.dst), ps, cs, O.Outgoing, [], g, supply, rows);
    var row := WithRow(r, t, ps, cs, dir, g);
    assert OneByOne(rows[1..], t, ps, cs, dir, row) == row;
    assert OneByOne(rows, t, ps, cs, dir, g) == row;
    OneRowIff(r, t, ps, cs, dir, g);
  }

  lemma EmptySolved(g: Store)
    ensures IsSolution([], g, map[])
  {
    assert Reaches([], g, map[], map[]);
  }

  lemma OneRowIff(r: Ends, typ: Term, ps: seq<FixedProp>, cs: seq<FixedProp>, dir: O.Direction, g: Store)
    requires AreNodes(r)
    ensures AllAtOnce([r], typ, ps, cs, O.Outgoing, g) == WithRow(r, typ, ps, cs, dir, g)
       <==> (dir == O.Undirected && Has(Flip(r), typ, ps, g) ==> Has(r, typ, ps, g))
  {
    hide Has, IsMadeFor;
    var all, row := AllAtOnce([r], typ, ps, cs, O.Outgoing, g), WithRow(r, typ, ps, cs, dir, g);
    assert r in [r];
    if dir == O.Undirected && Has(Flip(r), typ, ps, g) && !Has(r, typ, ps, g) {
      AllAtOnceHas([r], typ, ps, cs, O.Outgoing, g, r);
      WithRowHas(r, r, typ, ps, cs, dir, g);
    } else {
      assert SeemsToLack(r, typ, ps, O.Outgoing, g) <==> Lacks(r, typ, ps, dir, g);
      forall t: Triple
        ensures t in all <==> t in row
      {
      }
    }
  }
}

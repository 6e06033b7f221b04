/** Which MERGE clauses the compiler accepts. */
module MergeAccepted {
  import opened Prelude
  import opened Sparql
  import opened Ops
  import opened WriteSet
  import opened Where
  import opened WriteMerge
  import opened SetAccepted
  import E = RelMergeEffect
  import L = Lqa

  // A variable of the context begins with the name.
  predicate BeginsVariable(x: string, context: seq<Part>) {
    exists v :: v in PartsVars(context) && x <= v
  }

  predicate IsStable(x: string, created: Created) {
    x in created && created[x].Iri?
  }

  // (from)-[:typ]->(to) in the direction of the pattern, from left to right without one.
  function EdgeOf(from: string, to: string, typ: string, dir: Direction, base: string): Part {
    match dir
    case Incoming => Match(TP(Var(to), Const(Iri(base + typ)), Var(from)))
    case _ => Match(TP(Var(from), Const(Iri(base + typ)), Var(to)))
  }

  ghost predicate Fit(items: seq<SetItem>, context: seq<Part>, base: string, lit: Serializer) {
    forall item :: item in items ==> IsAcceptable(item, context, base, lit)
  }

  lemma FitIff(items: seq<SetItem>, context: seq<Part>, base: string, lit: Serializer)
    ensures CompileItems(items, context, base, lit).Ok? <==> Fit(items, context, base, lit)
  {
    hide CompileItems, IsAcceptable;
    ClauseAcceptedIff(items, context, base, lit);
    assert forall item :: item in items <==> exists i :: 0 <= i < |items| && items[i] == item;
  }

  // Every item of ON MATCH can be compiled over the context and the edge, for each type.
  ghost predicate FitTypes(from: string, to: string, types: seq<string>, dir: Direction, onMatch: seq<SetItem>, context: seq<Part>, base: string, lit: Serializer) {
    forall typ :: typ in types ==> Fit(onMatch, context + [EdgeOf(from, to, typ, dir, base)], base, lit)
  }

  lemma EdgeIs(from: string, to: string, typ: string, dir: Direction, base: string)
    ensures EdgeOf(from, to, typ, dir, base) == Match(TP(Var(Source(from, to, dir)), Const(TypeIri(base, typ)), Var(Target(from, to, dir))))
  {
  }

  lemma {:induction false} MatchMergesIff(from: string, to: string, types: seq<string>, dir: Direction, props: seq<RelProp>, created: seq<RelProp>,
                                          onMatch: seq<SetItem>, context: seq<Part>, base: string, lit: Serializer)
    ensures MatchMerges(from, to, types, dir, props, created, onMatch, context, base, lit).Ok?
       <==> FitTypes(from, to, types, dir, onMatch, context, base, lit)
  {
    hide CompileItems, Fit, RelMerge, EdgeOf, Source, Target, TypeIri;
    if types != [] {
      EdgeIs(from, to, types[0], dir, base);
      FitIff(onMatch, context + [EdgeOf(from, to, types[0], dir, base)], base, lit);
      MatchMergesIff(from, to, types[1..], dir, props, created, onMatch, context, base, lit);
      assert forall typ :: typ in types <==> typ == types[0] || typ in types[1..];
    }
  }

  lemma BeginsIff(x: string, context: seq<Part>)
    requires forall v :: v in PartsVars(context) ==> '?' !in v
    ensures Constrained(x, context) <==> BeginsVariable(x, context)
  {
    hide Constrained, PartsVars;
    E.ConstrainedIff(x, context);
    if Constrained(x, context) {
      var v :| v in PartsVars(context) && x <= v;
    }
    if BeginsVariable(x, context) {
      var v :| v in PartsVars(context) && x <= v;
      assert exists v :: v in PartsVars(context) && x <= v;
    }
  }

  // A relationship MERGE is compiled exactly when both names begin variables of the context
  // and the items of ON MATCH fit, or else both ends are known by IRI.
  lemma RelMergeAcceptedIff(from: string, to: string, types: seq<string>, dir: Direction, props: seq<RelProp>, onCreate: seq<SetItem>, onMatch: seq<SetItem>,
                            context: seq<Part>, created: Created, base: string, lit: Serializer)
    requires forall v :: v in PartsVars(context) ==> '?' !in v
    ensures var r := CompileRelMerge(from, to, types, dir, props, onCreate, onMatch, context, created, base, lit);
            if BeginsVariable(from, context) && BeginsVariable(to, context) then r.Ok? <==> FitTypes(from, to, types, dir, onMatch, context, base, lit)
            else if IsStable(from, created) && IsStable(to, created) then r.Ok?
            else r == Err(UnboundNodes)
  {
    hide Constrained, MatchMerges, BoundMatchMerges, CreateProps, FitTypes, PartsVars, BeginsVariable;
    BeginsIff(from, context);
    BeginsIff(to, context);
    MatchMergesIff(from, to, types, dir, props, CreateProps(onCreate, base, lit), onMatch, context, base, lit);
  }

  // A node MERGE is compiled exactly when the items of ON MATCH fit its own pattern; what
  // ON CREATE asks for is never refused.
  lemma NodeMergeAcceptedIff(x: string, traits: seq<Trait>, onCreate: seq<SetItem>, onMatch: seq<SetItem>, id: nat, base: string, lit: Serializer)
    ensures CompileNodeMerge(x, traits, onCreate, onMatch, id, base, lit).Ok? <==> Fit(onMatch, TraitParts(x, traits), base, lit)
  {
    hide CompileItems, Fit, NodeMerge, TraitParts;
    FitIff(onMatch, TraitParts(x, traits), base, lit);
  }
}

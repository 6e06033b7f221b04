/** Compiling MERGE: one guarded INSERT per node pattern or relationship type. */
module WriteMerge {
  import opened Prelude
  import opened Sparql
  import opened Text
  import opened Ops
  import opened WriteSet
  import opened Where
  import L = Lqa

  datatype MergeError = WithOuterMatch | UnboundNodes | InItems(error: CompileError)

  // ---------- Node patterns ----------

  function BNodeText(id: nat): string {
    "_:__mn" + Decimal(id)
  }

  // The compiler rewrites the text of a pattern part, so literals and IRIs are rewritten too.
  function RewriteTerm(t: Term, x: string, id: nat): Term {
    match t
    case Iri(i) => Iri(Replace(i, "?" + x, BNodeText(id)))
    case BNode(_) => t
    case Lit(s, d) => Lit(Replace(s, "?" + x, BNodeText(id)), Replace(d, "?" + x, BNodeText(id)))
    case Quoted(s, p, o) => Quoted(RewriteTerm(s, x, id), RewriteTerm(p, x, id), RewriteTerm(o, x, id))
  }

  predicate TermHas(t: Term, w: string) {
    match t
    case Iri(i) => Contains(i, w)
    case BNode(_) => false
    case Lit(s, d) => Contains(s, w) || Contains(d, w)
    case Quoted(s, p, o) => TermHas(s, w) || TermHas(p, w) || TermHas(o, w)
  }

  // A property or label of the node to merge.
  datatype Trait = Trait(p: Term, o: Term)

  function RewriteTrait(t: Trait, x: string, id: nat): Trait {
    Trait(RewriteTerm(t.p, x, id), RewriteTerm(t.o, x, id))
  }

  predicate TraitHas(t: Trait, w: string) {
    TermHas(t.p, w) || TermHas(t.o, w)
  }

  function TraitPattern(vt: VarTerm, t: Trait): TriplePattern {
    TP(vt, Const(t.p), Const(t.o))
  }

  function TraitPatterns(vt: VarTerm, traits: seq<Trait>): seq<TriplePattern> {
    if traits == [] then [] else [TraitPattern(vt, traits[0])] + TraitPatterns(vt, traits[1..])
  }

  function SentinelTrait(base: string): Trait {
    Trait(NodeIri(base), NodeIri(base))
  }

  function TraitParts(x: string, traits: seq<Trait>): seq<Part> {
    if traits == [] then [] else [Match(TraitPattern(Var(x), traits[0]))] + TraitParts(x, traits[1..])
  }

  // Is the rewritten part inserted?  Parts that read OPTIONAL or FILTER anywhere are
  // not, nor is a second sentinel.
  predicate IsInserted(t: Trait, base: string) {
    !TraitHas(t, "OPTIONAL") && !TraitHas(t, "FILTER") && t != SentinelTrait(base)
  }

  function InsertedTraits(traits: seq<Trait>, x: string, id: nat, base: string): seq<Trait> {
    if traits == [] then []
    else
      var t := RewriteTrait(traits[0], x, id);
      (if IsInserted(t, base) then [t] else []) + InsertedTraits(traits[1..], x, id, base)
  }

  function LabelTraits(labels: seq<string>, base: string): seq<Trait> {
    if labels == [] then [] else [Trait(Iri(RDF_TYPE), Iri(base + labels[0]))] + LabelTraits(labels[1..], base)
  }

  // ON CREATE keeps constant properties and labels, and ignores the rest.
  function ItemTraits(item: SetItem, base: string, lit: Serializer): seq<Trait> {
    match item
    case Property(_, key, e) => if lit(e).Some? then [Trait(PropIri(base, key), lit(e).value)] else []
    case Label(_, labels) => LabelTraits(labels, base)
    case MergeMap(_, _) => []
  }

  function CreateTraits(items: seq<SetItem>, base: string, lit: Serializer): seq<Trait> {
    if items == [] then [] else ItemTraits(items[0], base, lit) + CreateTraits(items[1..], base, lit)
  }

  function NodeMerge(x: string, traits: seq<Trait>, onCreate: seq<SetItem>, id: nat, base: string, lit: Serializer): Update {
    Update([],
           TraitPatterns(Blank(id), [SentinelTrait(base)] + InsertedTraits(traits, x, id, base) + CreateTraits(onCreate, base, lit)),
           [NotExists([TraitPatterns(Var(x), traits)])])
  }

  // The guarded INSERT, and then the items of ON MATCH over the pattern.
  function CompileNodeMerge(x: string, traits: seq<Trait>, onCreate: seq<SetItem>, onMatch: seq<SetItem>, id: nat, base: string, lit: Serializer)
    : Result<seq<Update>, MergeError>
  {
    var sets := CompileItems(onMatch, TraitParts(x, traits), base, lit);
    if sets.Err? then Err(InItems(sets.error)) else Ok([NodeMerge(x, traits, onCreate, id, base, lit)] + sets.value)
  }

  // ---------- Relationship patterns ----------

  datatype RelProp = RelProp(iri: Term, value: VarTerm)

  predicate PartNames(part: Part, x: string) {
    exists v :: v in PartVars(part) && Contains("?" + v, "?" + x)
  }

  // Some part reads ?x.
  predicate Constrained(x: string, context: seq<Part>) {
    exists i :: 0 <= i < |context| && PartNames(context[i], x)
  }

  function RelPropPatterns(src: VarTerm, typ: Term, dst: VarTerm, props: seq<RelProp>): seq<TriplePattern> {
    if props == [] then []
    else [TP(QuotedPat(src, Const(typ), dst), Const(props[0].iri), props[0].value)] + RelPropPatterns(src, typ, dst, props[1..])
  }

  function CreateProps(items: seq<SetItem>, base: string, lit: Serializer): seq<RelProp> {
    if items == [] then []
    else
      (if items[0].Property? && lit(items[0].value).Some?
       then [RelProp(PropIri(base, items[0].key), Const(lit(items[0].value).value))] else [])
      + CreateProps(items[1..], base, lit)
  }

  // In the second alternative the properties are still those of the first edge.
  function RelGuard(src: VarTerm, typ: Term, dst: VarTerm, props: seq<RelProp>, dir: Direction): (guard: Part)
    ensures guard.NotExists?
  {
    var own := RelPropPatterns(src, typ, dst, props);
    var forward := [TP(src, Const(typ), dst)] + own;
    NotExists(if dir == Undirected then [forward, [TP(dst, Const(typ), src)] + own] else [forward])
  }

  function RelMerge(src: VarTerm, typ: Term, dst: VarTerm, props: seq<RelProp>, created: seq<RelProp>, dir: Direction, context: seq<Part>): Update {
    Update([],
           [TP(src, Const(typ), dst)] + RelPropPatterns(src, typ, dst, props) + RelPropPatterns(src, typ, dst, created),
           context + [RelGuard(src, typ, dst, props, dir)])
  }

  function Source(from: string, to: string, dir: Direction): string {
    if dir == Incoming then to else from
  }

  function Target(from: string, to: string, dir: Direction): string {
    if dir == Incoming then from else to
  }

  function RelMerges(from: string, to: string, types: seq<string>, dir: Direction, props: seq<RelProp>, created: seq<RelProp>,
                     context: seq<Part>, base: string): seq<Update> {
    if types == [] then []
    else
      [RelMerge(Var(Source(from, to, dir)), TypeIri(base, types[0]), Var(Target(from, to, dir)), props, created, dir, context)]
      + RelMerges(from, to, types[1..], dir, props, created, context, base)
  }

  // Both ends known by IRI: no context, and only the forward edge is looked for.
  function BoundMerges(a: Term, b: Term, types: seq<string>, dir: Direction, props: seq<RelProp>, created: seq<RelProp>, base: string): seq<Update> {
    if types == [] then []
    else
      var s, t := if dir == Incoming then b else a, if dir == Incoming then a else b;
      [RelMerge(Const(s), TypeIri(base, types[0]), Const(t), props, created, Outgoing, [])]
      + BoundMerges(a, b, types[1..], dir, props, created, base)
  }

  // Nodes created before the MERGE, by variable; only IRIs are stable.
  type Created = map<string, Term>

  function CompileRel(from: string, to: string, types: seq<string>, dir: Direction, props: seq<RelProp>, onCreate: seq<SetItem>,
                      context: seq<Part>, created: Created, base: string, lit: Serializer): Result<seq<Update>, MergeError> {
    var extra := CreateProps(onCreate, base, lit);
    if Constrained(from, context) && Constrained(to, context) then
      Ok(RelMerges(from, to, types, dir, props, extra, context, base))
    else if from in created && to in created && created[from].Iri? && created[to].Iri? then
      Ok(BoundMerges(created[from], created[to], types, dir, props, extra, base))
    else Err(UnboundNodes)
  }

  // ---------- ON MATCH ----------

  // For every type the INSERT, and then the items over the context and the edge.
  function MatchMerges(from: string, to: string, types: seq<string>, dir: Direction, props: seq<RelProp>, created: seq<RelProp>, onMatch: seq<SetItem>,
                       context: seq<Part>, base: string, lit: Serializer): Result<seq<Update>, MergeError> {
    if types == [] then Ok([])
    else
      var src, typ, dst := Var(Source(from, to, dir)), TypeIri(base, types[0]), Var(Target(from, to, dir));
      var sets := CompileItems(onMatch, context + [Match(TP(src, Const(typ), dst))], base, lit);
      if sets.Err? then Err(InItems(sets.error))
      else
        var rest :- MatchMerges(from, to, types[1..], dir, props, created, onMatch, context, base, lit);
        Ok([RelMerge(src, typ, dst, props, created, dir, context)] + sets.value + rest)
  }

  const ON_MATCH_OLD := "__on_match_old"

  // Of the items between known IRIs only constant properties are taken.
  function EdgeSet(s: Term, typ: Term, t: Term, key: string, v: Term, base: string): Update {
    var edge := QuotedPat(Const(s), Const(typ), Const(t));
    var old_ := TP(edge, Const(PropIri(base, key)), Var(ON_MATCH_OLD));
    Update([old_], [TP(edge, Const(PropIri(base, key)), Const(v))], [Match(TP(Const(s), Const(typ), Const(t))), Optional([Match(old_)])])
  }

  function EdgeItem(s: Term, typ: Term, t: Term, item: SetItem, base: string, lit: Serializer): seq<Update> {
    if item.Property? && lit(item.value).Some? then [EdgeSet(s, typ, t, item.key, lit(item.value).value, base)] else []
  }

  function EdgeSets(s: Term, typ: Term, t: Term, items: seq<SetItem>, base: string, lit: Serializer): seq<Update> {
    if items == [] then []
    else
      EdgeItem(s, typ, t, items[0], base, lit) + EdgeSets(s, typ, t, items[1..], base, lit)
  }

  function BoundMatchMerges(s: Term, t: Term, types: seq<string>, props: seq<RelProp>, created: seq<RelProp>, onMatch: seq<SetItem>,
                            base: string, lit: Serializer): seq<Update> {
    if types == [] then []
    else
      var typ := TypeIri(base, types[0]);
      [RelMerge(Const(s), typ, Const(t), props, created, Outgoing, [])] + EdgeSets(s, typ, t, onMatch, base, lit)
      + BoundMatchMerges(s, t, types[1..], props, created, onMatch, base, lit)
  }

  function CompileRelMerge(from: string, to: string, types: seq<string>, dir: Direction, props: seq<RelProp>, onCreate: seq<SetItem>,
                           onMatch: seq<SetItem>, context: seq<Part>, created: Created, base: string, lit: Serializer)
    : Result<seq<Update>, MergeError>
  {
    var extra := CreateProps(onCreate, base, lit);
    if Constrained(from, context) && Constrained(to, context) then
      MatchMerges(from, to, types, dir, props, extra, onMatch, context, base, lit)
    else if from in created && to in created && created[from].Iri? && created[to].Iri? then
      var a, b := created[from], created[to];
      Ok(BoundMatchMerges(if dir == Incoming then b else a, if dir == Incoming then a else b, types, props, extra, onMatch, base, lit))
    else Err(UnboundNodes)
  }

  lemma {:induction false} WithoutOnMatch(from: string, to: string, types: seq<string>, dir: Direction, props: seq<RelProp>, created: seq<RelProp>,
                                          context: seq<Part>, base: string, lit: Serializer)
    ensures MatchMerges(from, to, types, dir, props, created, [], context, base, lit) == Ok(RelMerges(from, to, types, dir, props, created, context, base))
  {
    hide RelMerge;
    if types != [] {
      WithoutOnMatch(from, to, types[1..], dir, props, created, context, base, lit);
      var u := RelMerge(Var(Source(from, to, dir)), TypeIri(base, types[0]), Var(Target(from, to, dir)), props, created, dir, context);
      assert [u] + [] == [u];
    }
  }

  lemma {:induction false} BoundWithoutOnMatch(a: Term, b: Term, types: seq<string>, dir: Direction, props: seq<RelProp>, created: seq<RelProp>,
                                               base: string, lit: Serializer)
    ensures BoundMatchMerges(if dir == Incoming then b else a, if dir == Incoming then a else b, types, props, created, [], base, lit)
         == BoundMerges(a, b, types, dir, props, created, base)
  {
    hide RelMerge;
    if types != [] {
      BoundWithoutOnMatch(a, b, types[1..], dir, props, created, base, lit);
    }
  }

  // CompileRel is the compiler without ON MATCH.
  lemma CompileRelIsRelMerge(from: string, to: string, types: seq<string>, dir: Direction, props: seq<RelProp>, onCreate: seq<SetItem>,
                             context: seq<Part>, created: Created, base: string, lit: Serializer)
    ensures CompileRelMerge(from, to, types, dir, props, onCreate, [], context, created, base, lit)
         == CompileRel(from, to, types, dir, props, onCreate, context, created, base, lit)
  {
    hide RelMerge, MatchMerges, BoundMatchMerges, RelMerges, BoundMerges, Constrained, CreateProps;
    var extra := CreateProps(onCreate, base, lit);
    WithoutOnMatch(from, to, types, dir, props, extra, context, base, lit);
    if from in created && to in created {
      BoundWithoutOnMatch(created[from], created[to], types, dir, props, extra, base, lit);
    }
  }

  // ---------- The compiler ----------

  class Merger {
    var counter: nat
    var out: seq<Update>

    constructor ()
      ensures counter == 0 && out == []
    {
      counter, out := 0, [];
    }

    // A pattern below other clauses is refused: the update would make a node for each row.
    // When an item of ON MATCH is refused, the INSERT has been pushed already.
    method CompileNode(x: string, traits: seq<Trait>, outer: seq<Part>, onCreate: seq<SetItem>, onMatch: seq<SetItem>, base: string, lit: Serializer)
      returns (r: Result<(), MergeError>)
      modifies this
      ensures outer != [] ==> r == Err(WithOuterMatch) && out == old(out) && counter == old(counter)
      ensures outer == [] ==>
                var spec := CompileNodeMerge(x, traits, onCreate, onMatch, old(counter), base, lit);
                && counter == old(counter) + 1
                && if spec.Ok? then r == Ok(()) && out == old(out) + spec.value
                   else r == Err(spec.error) && out == old(out) + [NodeMerge(x, traits, onCreate, old(counter), base, lit)]
    {
      hide TraitPatterns, InsertedTraits, CreateTraits, CompileItems, TraitParts;
      if outer != [] {
        return Err(WithOuterMatch);
      }
      var id := counter;
      counter := counter + 1;
      var inserted := InsertLoop(x, traits, id, base);
      var made := CreateLoop(onCreate, base, lit);
      var insert := TraitPatterns(Blank(id), [SentinelTrait(base)] + inserted + made);
      out := out + [Update([], insert, [NotExists([TraitPatterns(Var(x), traits)])])];
      var sets := CompileSetItems(onMatch, TraitParts(x, traits), base, lit, out);
      if sets.Err? {
        return Err(InItems(sets.error));
      }
      out := sets.value;
      return Ok(());
    }

    method InsertLoop(x: string, traits: seq<Trait>, id: nat, base: string) returns (inserted: seq<Trait>)
      ensures inserted == InsertedTraits(traits, x, id, base)
    {
      hide RewriteTrait, IsInserted;
      inserted := [];
      for i := 0 to |traits|
        invariant InsertedTraits(traits, x, id, base) == inserted + InsertedTraits(traits[i..], x, id, base)
      {
        assert traits[i..][0] == traits[i] && traits[i..][1..] == traits[i + 1..];
        var t := RewriteTrait(traits[i], x, id);
        if IsInserted(t, base) {
          inserted := inserted + [t];
        }
      }
      assert traits[|traits|..] == [];
    }

    method CreateLoop(items: seq<SetItem>, base: string, lit: Serializer) returns (made: seq<Trait>)
      ensures made == CreateTraits(items, base, lit)
    {
      hide ItemTraits;
      made := [];
      for i := 0 to |items|
        invariant CreateTraits(items, base, lit) == made + CreateTraits(items[i..], base, lit)
      {
        assert items[i..][0] == items[i] && items[i..][1..] == items[i + 1..];
        made := made + ItemTraits(items[i], base, lit);
      }
      assert items[|items|..] == [];
    }

    method CompileRelationship(from: string, to: string, types: seq<string>, dir: Direction, props: seq<RelProp>, onCreate: seq<SetItem>,
                               onMatch: seq<SetItem>, context: seq<Part>, created: Created, base: string, lit: Serializer)
      returns (r: Result<(), MergeError>)
      modifies this`out
      ensures var spec := CompileRelMerge(from, to, types, dir, props, onCreate, onMatch, context, created, base, lit);
              if spec.Ok? then r == Ok(()) && out == old(out) + spec.value
              else r == Err(spec.error) && (spec.error == UnboundNodes ==> out == old(out))
    {
      hide RelMerge, Constrained, CreateProps, CompileItems, MatchMerges, BoundMatchMerges;
      var extra := CreateProps(onCreate, base, lit);
      if !(Constrained(from, context) && Constrained(to, context)) {
        if from in created && to in created && created[from].Iri? && created[to].Iri? {
          var a, b := created[from], created[to];
          CompileBound(if dir == Incoming then b else a, if dir == Incoming then a else b, types, props, extra, onMatch, base, lit);
          return Ok(());
        }
        return Err(UnboundNodes);
      }
      r := CompileTypes(from, to, types, dir, props, extra, onMatch, context, base, lit);
    }

    method CompileTypes(from: string, to: string, types: seq<string>, dir: Direction, props: seq<RelProp>, extra: seq<RelProp>,
                        onMatch: seq<SetItem>, context: seq<Part>, base: string, lit: Serializer)
      returns (r: Result<(), MergeError>)
      modifies this`out
      ensures var spec := MatchMerges(from, to, types, dir, props, extra, onMatch, context, base, lit);
              if spec.Ok? then r == Ok(()) && out == old(out) + spec.value else r == Err(spec.error) && spec.error.InItems?
    {
      hide RelMerge, CompileItems;
      var src, dst := Var(Source(from, to, dir)), Var(Target(from, to, dir));
      for i := 0 to |types|
        invariant var spec := MatchMerges(from, to, types, dir, props, extra, onMatch, context, base, lit);
                  var rest := MatchMerges(from, to, types[i..], dir, props, extra, onMatch, context, base, lit);
                  if rest.Ok? then spec.Ok? && old(out) + spec.value == out + rest.value else spec == rest
      {
        assert types[i..][0] == types[i] && types[i..][1..] == types[i + 1..];
        ghost var rest := MatchMerges(from, to, types[i + 1..], dir, props, extra, onMatch, context, base, lit);
        var typ := TypeIri(base, types[i]);
        var u := RelMerge(src, typ, dst, props, extra, dir, context);
        ghost var before := out;
        out := out + [u];
        var sets := CompileSetItems(onMatch, context + [Match(TP(src, Const(typ), dst))], base, lit, out);
        if sets.Err? {
          return Err(InItems(sets.error));
        }
        ghost var made := CompileItems(onMatch, context + [Match(TP(src, Const(typ), dst))], base, lit).value;
        out := sets.value;
        assert rest.Ok? ==> before + ([u] + made + rest.value) == out + rest.value;
      }
      assert types[|types|..] == [] && out + [] == out;
      return Ok(());
    }

    method CompileBound(s: Term, t: Term, types: seq<string>, props: seq<RelProp>, extra: seq<RelProp>, onMatch: seq<SetItem>,
                        base: string, lit: Serializer)
      modifies this`out
      ensures out == old(out) + BoundMatchMerges(s, t, types, props, extra, onMatch, base, lit)
    {
      hide RelMerge, EdgeSets;
      for i := 0 to |types|
        invariant old(out) + BoundMatchMerges(s, t, types, props, extra, onMatch, base, lit)
               == out + BoundMatchMerges(s, t, types[i..], props, extra, onMatch, base, lit)
      {
        assert types[i..][0] == types[i] && types[i..][1..] == types[i + 1..];
        var typ := TypeIri(base, types[i]);
        var u := RelMerge(Const(s), typ, Const(t), props, extra, Outgoing, []);
        ghost var before, rest := out, BoundMatchMerges(s, t, types[i + 1..], props, extra, onMatch, base, lit);
        out := out + [u];
        EdgeLoop(s, typ, t, onMatch, base, lit);
        assert before + ([u] + EdgeSets(s, typ, t, onMatch, base, lit) + rest) == out + rest;
      }
      assert types[|types|..] == [] && out + [] == out;
    }

    method PushEdge(s: Term, typ: Term, t: Term, item: SetItem, base: string, lit: Serializer)
      modifies this`out
      ensures out == old(out) + EdgeItem(s, typ, t, item, base, lit)
    {
      hide EdgeSet;
      if item.Property? && lit(item.value).Some? {
        out := out + [EdgeSet(s, typ, t, item.key, lit(item.value).value, base)];
      }
    }

    method EdgeLoop(s: Term, typ: Term, t: Term, items: seq<SetItem>, base: string, lit: Serializer)
      modifies this`out
      ensures out == old(out) + EdgeSets(s, typ, t, items, base, lit)
    {
      hide EdgeItem;
      for i := 0 to |items|
        invariant old(out) + EdgeSets(s, typ, t, items, base, lit) == out + EdgeSets(s, typ, t, items[i..], base, lit)
      {
        assert items[i..][0] == items[i] && items[i..][1..] == items[i + 1..];
        ghost var before, rest := out, EdgeSets(s, typ, t, items[i + 1..], base, lit);
        PushEdge(s, typ, t, items[i], base, lit);
        assert before + (EdgeItem(s, typ, t, items[i], base, lit) + rest) == out + rest;
      }
      assert items[|items|..] == [] && out + [] == out;
    }
  }
}

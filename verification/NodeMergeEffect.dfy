/** What a compiled node MERGE does to the store.

    It leaves the store alone when a node matches and makes one node otherwise.
    Running it again does nothing, except for patterns whose own text trips up
    the compiler's rewriting; which those are is stated exactly.
 */
module NodeMergeEffect {
  import opened Prelude
  import opened Sparql
  import opened Text
  import opened Ops
  import opened WriteSet
  import opened Where
  import opened WriteMerge
  import L = Lqa

  ghost predicate IsMatch(traits: seq<Trait>, n: Term, g: Store) {
    forall t :: t in traits ==> Triple(n, t.p, t.o) in g
  }

  ghost predicate SomeMatch(traits: seq<Trait>, g: Store) {
    exists n: Term :: IsMatch(traits, n, g)
  }

  ghost predicate IsNodeIn(n: Term, g: Store, base: string) {
    Triple(n, NodeIri(base), NodeIri(base)) in g
  }

  // ---------- The guard ----------

  lemma {:induction false} PatternsOfTraits(vt: VarTerm, traits: seq<Trait>)
    ensures forall t :: t in traits ==> TraitPattern(vt, t) in TraitPatterns(vt, traits)
    ensures forall tp :: tp in TraitPatterns(vt, traits) ==>
              tp.s == vt && tp.p.Const? && tp.o.Const? && Trait(tp.p.term, tp.o.term) in traits
  {
    if traits != [] {
      PatternsOfTraits(vt, traits[1..]);
    }
  }

  lemma GuardIsSolved(x: string, traits: seq<Trait>, g: Store, mu: Solution)
    requires traits != []
    ensures IsSolution([NotExists([TraitPatterns(Var(x), traits)])], g, mu) <==> mu == map[] && !SomeMatch(traits, g)
  {
    var tps := TraitPatterns(Var(x), traits);
    var guard := NotExists([tps]);
    var parts := [guard];
    PatternsOfTraits(Var(x), traits);
    assert parts[0] == guard && parts[1..] == [];
    assert Reaches(parts, g, map[], mu) <==> mu == map[] by {
      if mu == map[] {
        assert Step(parts[0], g, map[], map[]) && Reaches(parts[1..], g, map[], mu);
      }
    }
    forall n: Term | IsMatch(traits, n, g)
      ensures !FilterHolds(guard, g, map[])
    {
      var nu: Solution := map[x := n];
      assert TraitPattern(Var(x), traits[0]) in tps;
      assert forall tp :: tp in tps ==> TpVars(tp) == {x};
      assert AllVars(tps) == {x};
      assert BgpMatch(tps, g, map[], nu);
      assert tps in guard.alternatives;
    }
    forall nu: Solution | BgpMatch(tps, g, map[], nu)
      ensures SomeMatch(traits, g)
    {
      assert TraitPattern(Var(x), traits[0]) in tps;
      assert IsMatch(traits, nu[x], g) by {
        forall t | t in traits
          ensures Triple(nu[x], t.p, t.o) in g
        {
          assert Holds(TraitPattern(Var(x), t), g, nu);
        }
      }
    }
    assert forall alt :: alt in guard.alternatives ==> alt == tps;
  }

  // ---------- One run ----------

  // The node made in this run: a blank node that the store does not use.
  ghost predicate IsFresh(b: Term, g: Store) {
    b.BNode? && forall t: Triple :: t in g ==> t.s != b
  }

  function MadeTraits(x: string, traits: seq<Trait>, onCreate: seq<SetItem>, id: nat, base: string, lit: Serializer): seq<Trait> {
    [SentinelTrait(base)] + InsertedTraits(traits, x, id, base) + CreateTraits(onCreate, base, lit)
  }

  ghost function WithNode(g: Store, b: Term, traits: seq<Trait>): Store {
    iset t: Triple | t in g || (t.s == b && Trait(t.p, t.o) in traits)
  }

  // ---------- What a new node is made with ----------

  // A part of the pattern, its variable replaced in the text, unless it then reads OPTIONAL
  // or FILTER, or is the sentinel.
  ghost predicate IsOfPattern(t: Trait, x: string, traits: seq<Trait>, id: nat, base: string) {
    && (exists u :: u in traits && RewriteTrait(u, x, id) == t)
    && !TermHas(t.p, "OPTIONAL") && !TermHas(t.o, "OPTIONAL") && !TermHas(t.p, "FILTER") && !TermHas(t.o, "FILTER")
    && t != Trait(Iri(base + "__node"), Iri(base + "__node"))
  }

  // A label, or a constant property, that some item of ON CREATE sets.
  ghost predicate IsOfItems(t: Trait, onCreate: seq<SetItem>, base: string, lit: Serializer) {
    || (exists item, l :: item in onCreate && item.Label? && l in item.labels && t == Trait(Iri(RDF_TYPE), Iri(base + l)))
    || (exists item :: item in onCreate && item.Property? && t.p == Iri(base + item.key) && lit(item.value) == Some(t.o))
  }

  ghost predicate IsOfNewNode(t: Trait, x: string, traits: seq<Trait>, onCreate: seq<SetItem>, id: nat, base: string, lit: Serializer) {
    || t == Trait(Iri(base + "__node"), Iri(base + "__node"))
    || IsOfPattern(t, x, traits, id, base)
    || IsOfItems(t, onCreate, base, lit)
  }

  lemma {:induction false} LabelTraitsAre(labels: seq<string>, base: string, t: Trait)
    ensures t in LabelTraits(labels, base) <==> exists l :: l in labels && t == Trait(Iri(RDF_TYPE), Iri(base + l))
  {
    if labels != [] {
      LabelTraitsAre(labels[1..], base, t);
      assert forall l :: l in labels <==> l == labels[0] || l in labels[1..];
    }
  }

  lemma {:induction false} CreateTraitsAre(items: seq<SetItem>, base: string, lit: Serializer, t: Trait)
    ensures t in CreateTraits(items, base, lit) <==> IsOfItems(t, items, base, lit)
  {
    if items != [] {
      CreateTraitsAre(items[1..], base, lit, t);
      assert forall item :: item in items <==> item == items[0] || item in items[1..];
      if items[0].Label? {
        LabelTraitsAre(items[0].labels, base, t);
      }
    }
  }

  lemma MadeTraitsAre(x: string, traits: seq<Trait>, onCreate: seq<SetItem>, id: nat, base: string, lit: Serializer, t: Trait)
    ensures t in MadeTraits(x, traits, onCreate, id, base, lit) <==> IsOfNewNode(t, x, traits, onCreate, id, base, lit)
  {
    hide RewriteTrait, TermHas, IsOfItems, CreateTraits, InsertedTraits;
    InsertedTraitsAre(traits, x, id, base);
    CreateTraitsAre(onCreate, base, lit, t);
  }

  // With a match the store stays as it is; without one it gains a single node, with the
  // sentinel, the parts of the pattern and what ON CREATE sets, and nothing else.
  lemma NodeMergeRuns(x: string, traits: seq<Trait>, onCreate: seq<SetItem>, id: nat, base: string, lit: Serializer, g: Store, supply: Supply)
    requires SentinelTrait(base) in traits && IsFresh(supply(id, map[]), g)
    ensures var b, h := supply(id, map[]), Run(NodeMerge(x, traits, onCreate, id, base, lit), g, supply);
            && (SomeMatch(traits, g) ==> h == g)
            && (!SomeMatch(traits, g) ==>
                 && h == WithNode(g, b, MadeTraits(x, traits, onCreate, id, base, lit))
                 && (forall t: Triple :: t in h <==> t in g || (t.s == b && IsOfNewNode(Trait(t.p, t.o), x, traits, onCreate, id, base, lit)))
                 && forall n: Term :: IsNodeIn(n, h, base) <==> IsNodeIn(n, g, base) || n == b)
  {
    hide SomeMatch, IsOfNewNode;
    var u := NodeMerge(x, traits, onCreate, id, base, lit);
    var b, made := supply(id, map[]), MadeTraits(x, traits, onCreate, id, base, lit);
    PatternsOfTraits(Blank(id), made);
    forall t: Triple
      ensures !Deletes(u, g, t)
      ensures Inserts(u, g, supply, t) <==> !SomeMatch(traits, g) && t.s == b && Trait(t.p, t.o) in made
    {
      if Inserts(u, g, supply, t) {
        var mu: Solution, tp :| IsSolution(u.pattern, g, mu) && tp in u.insert && InsertsBy(tp, mu, supply, t);
        GuardIsSolved(x, traits, g, mu);
      }
      if !SomeMatch(traits, g) && t.s == b && Trait(t.p, t.o) in made {
        GuardIsSolved(x, traits, g, map[]);
        assert InsertsBy(TraitPattern(Blank(id), Trait(t.p, t.o)), map[], supply, t);
      }
    }
    assert SentinelTrait(base) == made[0];
    forall t: Triple
      ensures Trait(t.p, t.o) in made <==> IsOfNewNode(Trait(t.p, t.o), x, traits, onCreate, id, base, lit)
    {
      MadeTraitsAre(x, traits, onCreate, id, base, lit, Trait(t.p, t.o));
    }
  }

  // ---------- Which patterns survive the rewriting ----------

  // The text neither names the variable nor reads like a part that is skipped.
  predicate IsClean(t: Trait, x: string, base: string) {
    t == SentinelTrait(base) || (!TraitHas(t, "?" + x) && !TraitHas(t, "OPTIONAL") && !TraitHas(t, "FILTER"))
  }

  lemma {:induction false} RewriteNothing(t: Term, x: string, id: nat)
    requires !TermHas(t, "?" + x)
    ensures RewriteTerm(t, x, id) == t
  {
    match t {
      case Iri(i) => ReplaceNothing(i, "?" + x, BNodeText(id));
      case BNode(_) =>
      case Lit(s, d) => ReplaceNothing(s, "?" + x, BNodeText(id)); ReplaceNothing(d, "?" + x, BNodeText(id));
      case Quoted(s, p, o) => RewriteNothing(s, x, id); RewriteNothing(p, x, id); RewriteNothing(o, x, id);
    }
  }

  lemma {:induction false} DecimalDigits(n: nat)
    ensures forall c :: c in Decimal(n) ==> '0' <= c <= '9'
  {
    if n >= 10 {
      DecimalDigits(n / 10);
    }
  }

  lemma {:induction false} RewriteLeavesNone(t: Term, x: string, id: nat)
    requires IsName(x)
    ensures !TermHas(RewriteTerm(t, x, id), "?" + x)
  {
    var to := BNodeText(id);
    DecimalDigits(id);
    assert to[0] == '_' && to[1] == ':' && '?' !in "_:__mn";
    match t {
      case Iri(i) => ReplaceLeavesNone(i, x, to);
      case BNode(_) =>
      case Lit(s, d) => ReplaceLeavesNone(s, x, to); ReplaceLeavesNone(d, x, to);
      case Quoted(s, p, o) => RewriteLeavesNone(s, x, id); RewriteLeavesNone(p, x, id); RewriteLeavesNone(o, x, id);
    }
  }

  lemma {:induction false} InsertedTraitsAre(traits: seq<Trait>, x: string, id: nat, base: string)
    ensures forall t :: t in InsertedTraits(traits, x, id, base)
              <==> IsInserted(t, base) && exists u :: u in traits && RewriteTrait(u, x, id) == t
  {
    hide RewriteTrait, IsInserted;
    if traits != [] {
      InsertedTraitsAre(traits[1..], x, id, base);
      assert forall u :: u in traits <==> u == traits[0] || u in traits[1..];
    }
  }

  // The new node gets the trait, from the pattern or from ON CREATE.
  predicate IsMade(t: Trait, x: string, onCreate: seq<SetItem>, base: string, lit: Serializer) {
    IsClean(t, x, base) || t in CreateTraits(onCreate, base, lit)
  }

  predicate AllMade(traits: seq<Trait>, x: string, onCreate: seq<SetItem>, base: string, lit: Serializer) {
    forall t :: t in traits ==> IsMade(t, x, onCreate, base, lit)
  }

  // A trait of the pattern ends up on the new node exactly when its text is clean or
  // ON CREATE sets it as well.
  lemma MadeIff(x: string, traits: seq<Trait>, onCreate: seq<SetItem>, id: nat, base: string, lit: Serializer, t: Trait)
    requires t in traits
    ensures IsMade(t, x, onCreate, base, lit) ==> t in MadeTraits(x, traits, onCreate, id, base, lit)
    ensures IsName(x) && t in MadeTraits(x, traits, onCreate, id, base, lit) ==> IsMade(t, x, onCreate, base, lit)
  {
    hide TermHas, RewriteTerm, CreateTraits;
    var made := MadeTraits(x, traits, onCreate, id, base, lit);
    InsertedTraitsAre(traits, x, id, base);
    if t == SentinelTrait(base) {
      assert made[0] == t;
    } else {
      if IsClean(t, x, base) {
        RewriteNothing(t.p, x, id);
        RewriteNothing(t.o, x, id);
        assert RewriteTrait(t, x, id) == t && IsInserted(t, base);
        assert t in InsertedTraits(traits, x, id, base);
      }
      if IsName(x) && t in InsertedTraits(traits, x, id, base) {
        var u :| u in traits && RewriteTrait(u, x, id) == t;
        RewriteLeavesNone(u.p, x, id);
        RewriteLeavesNone(u.o, x, id);
      }
    }
  }

  // ---------- After the run ----------

  lemma MatchAfter(x: string, traits: seq<Trait>, onCreate: seq<SetItem>, id: nat, base: string, lit: Serializer, g: Store, b: Term)
    requires SentinelTrait(base) in traits && IsFresh(b, g) && !SomeMatch(traits, g)
    ensures var h := WithNode(g, b, MadeTraits(x, traits, onCreate, id, base, lit));
            && (AllMade(traits, x, onCreate, base, lit) ==> IsMatch(traits, b, h))
            && (IsName(x) ==> (SomeMatch(traits, h) <==> AllMade(traits, x, onCreate, base, lit)))
  {
    hide IsMade, MadeTraits, SentinelTrait, IsName;
    var made := MadeTraits(x, traits, onCreate, id, base, lit);
    var h := WithNode(g, b, made);
    forall t | t in traits
      ensures IsMade(t, x, onCreate, base, lit) ==> t in made
      ensures IsName(x) && t in made ==> IsMade(t, x, onCreate, base, lit)
    {
      MadeIff(x, traits, onCreate, id, base, lit, t);
    }
    assert forall t: Trait :: Trait(t.p, t.o) == t;
    if AllMade(traits, x, onCreate, base, lit) {
      assert IsMatch(traits, b, h);
    }
    forall n: Term | IsMatch(traits, n, h)
      ensures n == b && forall t :: t in traits ==> t in made
    {
      assert n == b || IsMatch(traits, n, g);
      forall t | t in traits
        ensures t in made
      {
        assert Triple(b, t.p, t.o) in h && Triple(b, t.p, t.o) !in g;
      }
    }
  }

  // After MERGE there is a matching node, and a second MERGE, whatever fresh node it
  // would make, changes nothing.
  lemma NodeMergeIdempotent(x: string, traits: seq<Trait>, onCreate: seq<SetItem>, id: nat, base: string, lit: Serializer,
                            g: Store, supply: Supply, again: Supply)
    requires SentinelTrait(base) in traits && AllMade(traits, x, onCreate, base, lit) && IsFresh(supply(id, map[]), g)
    requires IsFresh(again(id, map[]), Run(NodeMerge(x, traits, onCreate, id, base, lit), g, supply))
    ensures var u := NodeMerge(x, traits, onCreate, id, base, lit);
            var h := Run(u, g, supply);
            SomeMatch(traits, h) && Run(u, h, again) == h
  {
    hide AllMade, IsFresh, Run, MadeTraits, NodeMerge;
    var h := Run(NodeMerge(x, traits, onCreate, id, base, lit), g, supply);
    NodeMergeRuns(x, traits, onCreate, id, base, lit, g, supply);
    if !SomeMatch(traits, g) {
      MatchAfter(x, traits, onCreate, id, base, lit, g, supply(id, map[]));
      assert IsMatch(traits, supply(id, map[]), h);
    }
    NodeMergeRuns(x, traits, onCreate, id, base, lit, h, again);
  }

  // MERGE is idempotent exactly when a node matched already, or every part of the pattern
  // is clean or repeated by ON CREATE: a label or value that contains ?x, OPTIONAL or
  // FILTER makes every run create another node.
  lemma NodeMergeIdempotentIff(x: string, traits: seq<Trait>, onCreate: seq<SetItem>, id: nat, base: string, lit: Serializer,
                               g: Store, supply: Supply, again: Supply)
    requires SentinelTrait(base) in traits && IsName(x) && IsFresh(supply(id, map[]), g)
    requires IsFresh(again(id, map[]), Run(NodeMerge(x, traits, onCreate, id, base, lit), g, supply))
    ensures var u := NodeMerge(x, traits, onCreate, id, base, lit);
            var h := Run(u, g, supply);
            Run(u, h, again) == h <==> SomeMatch(traits, g) || AllMade(traits, x, onCreate, base, lit)
  {
    hide AllMade, Run, MadeTraits, NodeMerge, SomeMatch, IsName;
    var u := NodeMerge(x, traits, onCreate, id, base, lit);
    var h := Run(u, g, supply);
    NodeMergeRuns(x, traits, onCreate, id, base, lit, g, supply);
    NodeMergeRuns(x, traits, onCreate, id, base, lit, h, again);
    if !SomeMatch(traits, g) {
      MatchAfter(x, traits, onCreate, id, base, lit, g, supply(id, map[]));
      if !SomeMatch(traits, h) {
        assert IsNodeIn(again(id, map[]), Run(u, h, again), base);
      }
    }
  }

  // ---------- Where the traits come from ----------

  // The pattern of a node with labels and constant properties.
  predicate IsNodePattern(op: Op, x: string, lit: Serializer) {
    match op
    case Scan(v, _, _) => v == x
    case Selection(inner, p) => IsNodePattern(inner, x, lit) && IsConstantPredicate(p, x, lit)
    case _ => false
  }

  predicate IsConstantPredicate(p: L.Expr, x: string, lit: Serializer) {
    match p
    case Comparison(op, l, r) => op == L.Eq && l == L.Property(L.Variable(x), if l.Property? then l.key else "") && lit(r).Some?
    case And(a, b) => IsConstantPredicate(a, x, lit) && IsConstantPredicate(b, x, lit)
    case LabelCheck(v, _) => v == L.Variable(x)
    case _ => false
  }

  lemma {:induction false} TraitPartsAppend(x: string, a: seq<Trait>, b: seq<Trait>)
    ensures TraitParts(x, a + b) == TraitParts(x, a) + TraitParts(x, b)
  {
    if a == [] {
      assert a + b == b;
    } else {
      assert (a + b)[1..] == a[1..] + b;
      TraitPartsAppend(x, a[1..], b);
    }
  }

  lemma {:induction false} LabelsAreTraits(x: string, labels: seq<string>, base: string)
    ensures LabelParts(x, labels, base) == TraitParts(x, LabelTraits(labels, base))
  {
    if labels != [] {
      LabelsAreTraits(x, labels[1..], base);
    }
  }

  function PredicateTraits(p: L.Expr, x: string, base: string, lit: Serializer): seq<Trait>
    requires IsConstantPredicate(p, x, lit)
  {
    match p
    case Comparison(_, l, r) => [Trait(PropIri(base, l.key), lit(r).value)]
    case And(a, b) => PredicateTraits(a, x, base, lit) + PredicateTraits(b, x, base, lit)
    case LabelCheck(_, labels) => LabelTraits(labels, base)
  }

  function NodeTraits(op: Op, x: string, base: string, lit: Serializer): seq<Trait>
    requires IsNodePattern(op, x, lit)
  {
    match op
    case Scan(_, first, extra) =>
      [SentinelTrait(base)] + LabelTraits(if first.Some? then [first.value] else [], base) + LabelTraits(extra, base)
    case Selection(inner, p) => NodeTraits(inner, x, base, lit) + PredicateTraits(p, x, base, lit)
  }

  lemma {:induction false} PredicateIsTraits(p: L.Expr, x: string, base: string, lit: Serializer, meaning: FilterMeaning)
    requires IsConstantPredicate(p, x, lit)
    ensures PredicateParts(p, base, lit, meaning) == TraitParts(x, PredicateTraits(p, x, base, lit))
  {
    match p {
      case Comparison(_, l, r) =>
        var traits := PredicateTraits(p, x, base, lit);
        assert traits[1..] == [];
      case And(a, b) =>
        PredicateIsTraits(a, x, base, lit, meaning);
        PredicateIsTraits(b, x, base, lit, meaning);
        TraitPartsAppend(x, PredicateTraits(a, x, base, lit), PredicateTraits(b, x, base, lit));
      case LabelCheck(_, labels) => LabelsAreTraits(x, labels, base);
    }
  }

  // The WHERE parts of a node pattern are triple patterns about its variable, and the
  // sentinel is among them, as the compiler takes for granted.
  lemma {:induction false} NodePatternIsTraits(op: Op, x: string, base: string, lit: Serializer, meaning: FilterMeaning)
    requires IsNodePattern(op, x, lit)
    ensures WhereParts(op, base, lit, meaning) == Ok(TraitParts(x, NodeTraits(op, x, base, lit)))
    ensures SentinelTrait(base) in NodeTraits(op, x, base, lit)
  {
    match op {
      case Scan(_, first, extra) =>
        var firsts := if first.Some? then [first.value] else [];
        LabelsAreTraits(x, firsts, base);
        LabelsAreTraits(x, extra, base);
        var a, b, c := [SentinelTrait(base)], LabelTraits(firsts, base), LabelTraits(extra, base);
        assert a[1..] == [];
        assert TraitParts(x, a) == [Sentinel(x, base)];
        TraitPartsAppend(x, a, b);
        TraitPartsAppend(x, a + b, c);
        assert (a + b + c)[0] == SentinelTrait(base);
      case Selection(inner, p) =>
        NodePatternIsTraits(inner, x, base, lit, meaning);
        PredicateIsTraits(p, x, base, lit, meaning);
        TraitPartsAppend(x, NodeTraits(inner, x, base, lit), PredicateTraits(p, x, base, lit));
    }
  }
}

/** Which SET clauses the compiler accepts. */
module SetAccepted {
  import opened Prelude
  import opened Sparql
  import opened WriteSet
  import L = Lqa

  // ---------- The IRIs of a part ----------

  function TermIris(t: Term): set<string> {
    match t
    case Iri(i) => {i}
    case BNode(_) => {}
    case Lit(_, d) => {d}
    case Quoted(s, p, o) => TermIris(s) + TermIris(p) + TermIris(o)
  }

  function VarTermIris(vt: VarTerm): set<string> {
    match vt
    case Const(t) => TermIris(t)
    case QuotedPat(s, p, o) => VarTermIris(s) + VarTermIris(p) + VarTermIris(o)
    case _ => {}
  }

  function TpIris(tp: TriplePattern): set<string> {
    VarTermIris(tp.s) + VarTermIris(tp.p) + VarTermIris(tp.o)
  }

  function PartIris(part: Part): set<string> {
    match part
    case Match(tp) => TpIris(tp)
    case Either(l, r) => TpIris(l) + TpIris(r)
    case Optional(body) => PartsIris(body)
    case Filter(l, _, r) => VarTermIris(l) + VarTermIris(r)
    case NotExists(alts) => set alt, tp, i | alt in alts && tp in alt && i in TpIris(tp) :: i
    case Values(_, terms) => set t, i | t in terms && i in TermIris(t) :: i
    case Bind(_, _) => {}
  }

  function PartsIris(parts: seq<Part>): set<string> {
    if parts == [] then {} else PartIris(parts[0]) + PartsIris(parts[1..])
  }

  lemma {:induction false} TermMentionsIff(t: Term, iri: string)
    ensures TermMentions(t, iri) <==> iri in TermIris(t)
  {
    match t {
      case Quoted(s, p, o) => TermMentionsIff(s, iri); TermMentionsIff(p, iri); TermMentionsIff(o, iri);
      case _ =>
    }
  }

  lemma {:induction false} VarTermMentionsIff(vt: VarTerm, iri: string)
    ensures VarTermMentions(vt, iri) <==> iri in VarTermIris(vt)
  {
    match vt {
      case Const(t) => TermMentionsIff(t, iri);
      case QuotedPat(s, p, o) => VarTermMentionsIff(s, iri); VarTermMentionsIff(p, iri); VarTermMentionsIff(o, iri);
      case _ =>
    }
  }

  lemma TpMentionsIff(tp: TriplePattern, iri: string)
    ensures TpMentions(tp, iri) <==> iri in TpIris(tp)
  {
    VarTermMentionsIff(tp.s, iri);
    VarTermMentionsIff(tp.p, iri);
    VarTermMentionsIff(tp.o, iri);
  }

  // A part mentions exactly its IRIs.
  lemma {:induction false} MentionsIff(part: Part, iri: string)
    ensures Mentions(part, iri) <==> iri in PartIris(part)
    decreases part, 1
  {
    hide TpMentions, TpIris;
    match part {
      case Match(tp) => TpMentionsIff(tp, iri);
      case Either(l, r) => TpMentionsIff(l, iri); TpMentionsIff(r, iri);
      case Optional(body) => PartsMentionIff(body, iri);
      case Filter(l, _, r) => VarTermMentionsIff(l, iri); VarTermMentionsIff(r, iri);
      case NotExists(alts) =>
        forall i, j | 0 <= i < |alts| && 0 <= j < |alts[i]|
          ensures TpMentions(alts[i][j], iri) <==> iri in TpIris(alts[i][j])
          ensures alts[i] in alts && alts[i][j] in alts[i]
        {
          TpMentionsIff(alts[i][j], iri);
        }
        if alt, tp :| alt in alts && tp in alt && iri in TpIris(tp) {
          var i :| 0 <= i < |alts| && alts[i] == alt;
          var j :| 0 <= j < |alt| && alt[j] == tp;
          assert TpMentions(part.alternatives[i][j], iri);
        }
      case Values(_, terms) =>
        forall i | 0 <= i < |terms|
          ensures TermMentions(terms[i], iri) <==> iri in TermIris(terms[i])
        {
          TermMentionsIff(terms[i], iri);
        }
      case Bind(_, _) =>
    }
  }

  lemma {:induction false} PartsMentionIff(parts: seq<Part>, iri: string)
    ensures (exists i :: 0 <= i < |parts| && Mentions(parts[i], iri)) <==> iri in PartsIris(parts)
    decreases parts, 0
  {
    hide Mentions, PartIris;
    if parts != [] {
      MentionsIff(parts[0], iri);
      PartsMentionIff(parts[1..], iri);
      assert forall i :: 0 < i < |parts| ==> parts[i] == parts[1..][i - 1];
      if i :| 0 <= i < |parts[1..]| && Mentions(parts[1..][i], iri) {
        assert Mentions(parts[i + 1], iri);
      }
    }
  }

  // ---------- Items ----------

  predicate IsStorable(e: L.Expr, lit: Serializer) {
    e == L.Lit(L.Null) || lit(e).Some?
  }

  // Constants and null; a map of such under keys whose IRIs the context does not contain;
  // labels always.
  predicate IsAcceptable(item: SetItem, context: seq<Part>, base: string, lit: Serializer) {
    match item
    case Property(_, _, e) => IsStorable(e, lit)
    case MergeMap(_, e) => e.Map? && forall i :: 0 <= i < |e.pairs| ==> base + e.pairs[i].key !in PartsIris(context) && IsStorable(e.pairs[i].value, lit)
    case Label(_, _) => true
  }

  lemma {:induction false} PairsAcceptedIff(x: string, pairs: seq<L.Entry>, context: seq<Part>, base: string, lit: Serializer)
    ensures CompilePairs(x, pairs, context, base, lit).Ok?
       <==> forall i :: 0 <= i < |pairs| ==> base + pairs[i].key !in PartsIris(context) && IsStorable(pairs[i].value, lit)
  {
    hide CompileWrite, PartsIris, Mentions;
    if pairs != [] {
      PartsMentionIff(context, base + pairs[0].key);
      PairsAcceptedIff(x, pairs[1..], context, base, lit);
      assert forall i :: 0 < i < |pairs| ==> pairs[i] == pairs[1..][i - 1];
    }
  }

  lemma ItemAcceptedIff(item: SetItem, context: seq<Part>, base: string, lit: Serializer)
    ensures CompileItem(item, context, base, lit).Ok? <==> IsAcceptable(item, context, base, lit)
  {
    hide CompileWrite, PartsIris, CompilePairs;
    if item.MergeMap? && item.value.Map? {
      PairsAcceptedIff(item.variable, item.value.pairs, context, base, lit);
    }
  }

  // A SET clause is compiled exactly when every item is acceptable; otherwise the first
  // item that is not decides the error.
  lemma {:induction false} ClauseAcceptedIff(items: seq<SetItem>, context: seq<Part>, base: string, lit: Serializer)
    ensures CompileItems(items, context, base, lit).Ok? <==> forall i :: 0 <= i < |items| ==> IsAcceptable(items[i], context, base, lit)
    ensures forall i :: 0 <= i < |items| && !IsAcceptable(items[i], context, base, lit) && (forall j :: 0 <= j < i ==> IsAcceptable(items[j], context, base, lit)) ==>
              CompileItem(items[i], context, base, lit).Err? && CompileItems(items, context, base, lit) == CompileItem(items[i], context, base, lit)
  {
    hide CompileItem, IsAcceptable;
    if items != [] {
      ItemAcceptedIff(items[0], context, base, lit);
      ClauseAcceptedIff(items[1..], context, base, lit);
      assert forall i :: 0 < i < |items| ==> items[i] == items[1..][i - 1];
      forall i | 0 <= i < |items| && !IsAcceptable(items[i], context, base, lit) && forall j :: 0 <= j < i ==> IsAcceptable(items[j], context, base, lit)
        ensures CompileItem(items[i], context, base, lit).Err? && CompileItems(items, context, base, lit) == CompileItem(items[i], context, base, lit)
      {
        if i > 0 {
          assert IsAcceptable(items[0], context, base, lit);
          assert forall j :: 0 <= j < i - 1 ==> items[1..][j] == items[j + 1];
        }
      }
    }
  }

  // What the error says.
  lemma ItemRefused(item: SetItem, context: seq<Part>, base: string, lit: Serializer)
    requires !IsAcceptable(item, context, base, lit)
    ensures var r := CompileItem(item, context, base, lit);
            && r.Err?
            && (r.error == ComplexValue <==> item.Property?)
            && (r.error == NotAMap <==> item.MergeMap? && !item.value.Map?)
            && (r.error == KeyInWhere ==> exists i :: 0 <= i < |item.value.pairs| && base + item.value.pairs[i].key in PartsIris(context))
            && (r.error == ComplexMapValue ==> exists i :: 0 <= i < |item.value.pairs| && !IsStorable(item.value.pairs[i].value, lit))
  {
    hide CompileWrite, PartsIris, CompilePairs;
    ItemAcceptedIff(item, context, base, lit);
    if item.MergeMap? && item.value.Map? {
      PairsRefused(item.variable, item.value.pairs, context, base, lit);
    }
  }

  lemma {:induction false} PairsRefused(x: string, pairs: seq<L.Entry>, context: seq<Part>, base: string, lit: Serializer)
    requires CompilePairs(x, pairs, context, base, lit).Err?
    ensures var error := CompilePairs(x, pairs, context, base, lit).error;
            && error in {KeyInWhere, ComplexMapValue}
            && (error == KeyInWhere ==> exists i :: 0 <= i < |pairs| && base + pairs[i].key in PartsIris(context))
            && (error == ComplexMapValue ==> exists i :: 0 <= i < |pairs| && !IsStorable(pairs[i].value, lit))
  {
    hide CompileWrite, PartsIris, Mentions;
    PartsMentionIff(context, base + pairs[0].key);
    if !MapKeyInWhere(pairs[0].key, base, context) && PairWrite(pairs[0].key, pairs[0].value, base, lit).Some? {
      PairsRefused(x, pairs[1..], context, base, lit);
      assert forall i :: 0 <= i < |pairs[1..]| ==> pairs[1..][i] == pairs[i + 1];
    } else {
      assert pairs[0] == pairs[0];
    }
  }
}

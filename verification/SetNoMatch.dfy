/** SET without a MATCH before it.

    Nothing binds the variable, and the compiler lets it range over all nodes: every
    assignment is made to every node of the store.
 */
module SetNoMatch {
  import opened Prelude
  import opened Sparql
  import opened WriteSet
  import opened SetEffect
  import opened SetExact
  import opened WriteMerge
  import L = Lqa

  // Every node of the store.
  ghost function AllNodes(base: string, g: Store): iset<Term> {
    iset n: Term | !n.Lit? && Triple(n, NodeIri(base), NodeIri(base)) in g
  }

  function NodePattern(base: string): seq<Trait> {
    [SentinelTrait(base)]
  }

  lemma NodesAreAll(x: string, base: string, g: Store)
    ensures Nodes(NodePattern(base), g) == AllNodes(base, g)
    ensures TraitParts(x, NodePattern(base)) == [Sentinel(x, base)]
  {
    var t := SentinelTrait(base);
    assert NodePattern(base)[1..] == [];
    assert forall n: Term :: n in Nodes(NodePattern(base), g) <==> n in AllNodes(base, g) by {
      assert t in NodePattern(base);
    }
  }

  // Each assignment over the pattern of its own variable.
  function EmitFree(assignments: seq<Assignment>, base: string): seq<Update> {
    if assignments == [] then []
    else [Emit(assignments[0], [Sentinel(assignments[0].x, base)])] + EmitFree(assignments[1..], base)
  }

  lemma {:induction false} EmitFreeAppend(bs: seq<Assignment>, cs: seq<Assignment>, base: string)
    ensures EmitFree(bs + cs, base) == EmitFree(bs, base) + EmitFree(cs, base)
  {
    hide Emit;
    if bs == [] {
      assert bs + cs == cs;
    } else {
      assert (bs + cs)[1..] == bs[1..] + cs;
      EmitFreeAppend(bs[1..], cs, base);
    }
  }

  lemma {:induction false} PairsEmittedFree(x: string, pairs: seq<L.Entry>, base: string, lit: Serializer)
    requires CompilePairs(x, pairs, [], base, lit).Ok?
    ensures CompilePairs(x, pairs, [], base, lit).value == EmitFree(PairAssignments(x, pairs, base, lit), base)
  {
    hide CompileWrite, Sentinel;
    if pairs != [] {
      PairsEmittedFree(x, pairs[1..], base, lit);
    }
  }

  lemma {:induction false} LabelsEmittedFree(x: string, labels: seq<string>, base: string)
    ensures CompileLabels(x, labels, [], base) == EmitFree(LabelAssignments(x, labels, base), base)
  {
    hide CompileWrite, Sentinel;
    if labels != [] {
      LabelsEmittedFree(x, labels[1..], base);
    }
  }

  lemma ItemEmittedFree(item: SetItem, base: string, lit: Serializer)
    requires CompileItem(item, [], base, lit).Ok? && lit(L.Lit(L.Null)).None?
    ensures CompileItem(item, [], base, lit).value == EmitFree(ItemAssignments(item, base, lit), base)
  {
    hide CompileWrite, Sentinel;
    match item {
      case Property(_, _, _) => assert ItemAssignments(item, base, lit)[1..] == [];
      case MergeMap(x, e) => PairsEmittedFree(x, e.pairs, base, lit);
      case Label(x, labels) => LabelsEmittedFree(x, labels, base);
    }
  }

  lemma {:induction false} ItemsEmittedFree(items: seq<SetItem>, base: string, lit: Serializer)
    requires CompileItems(items, [], base, lit).Ok? && lit(L.Lit(L.Null)).None?
    ensures CompileItems(items, [], base, lit).value == EmitFree(ItemsAssignments(items, base, lit), base)
  {
    hide CompileItem, ItemAssignments;
    if items != [] {
      ItemEmittedFree(items[0], base, lit);
      ItemsEmittedFree(items[1..], base, lit);
      EmitFreeAppend(ItemAssignments(items[0], base, lit), ItemsAssignments(items[1..], base, lit), base);
    }
  }

  ghost predicate AreOurs(assignments: seq<Assignment>) {
    forall a :: a in assignments ==> IsOurs(a, a.x)
  }

  lemma {:induction false} FreeIsOneByOne(assignments: seq<Assignment>, base: string, g: Store, supply: Supply)
    requires NoLiteralSubjects(g) && AreOurs(assignments)
    ensures RunAll(EmitFree(assignments, base), g, supply) == OneByOne(WritesOf(assignments), NodePattern(base), g)
  {
    if assignments != [] {
      hide CompileWrite, Matched, Run, Effect, Nodes, TraitParts, Sentinel, AllNodes;
      var a, rest := assignments[0], assignments[1..];
      var context := [Sentinel(a.x, base)];
      assert IsOurs(a, a.x) by { assert a in assignments; }
      NodesAreAll(a.x, base, g);
      OwnVariable(a.x, a.old_, base);
      WriteHasEffect(context, a.x, a.write, a.old_, g, supply);
      MatchedByTraits(a.x, NodePattern(base), g);
      FreeIsOneByOne(rest, base, Run(Emit(a, context), g, supply), supply);
      assert WritesOf(assignments)[1..] == WritesOf(rest);
    }
  }

  lemma OwnVariable(x: string, old_: string, base: string)
    requires old_ != x
    ensures GoodVars([Sentinel(x, base)], x, old_)
  {
    var context := [Sentinel(x, base)];
    assert context[1..] == [] && x in SureVars(context[0]);
  }

  lemma {:induction false} ItemsAreOwn(items: seq<SetItem>, base: string, lit: Serializer)
    requires forall item :: item in items ==> item.variable != "" && IsAbout(item, item.variable, base)
    ensures AreOurs(ItemsAssignments(items, base, lit))
  {
    if items != [] {
      ItemsAreOwn(items[1..], base, lit);
      assert items[0] in items;
      var one, rest := [items[0]], ItemsAssignments(items[1..], base, lit);
      ItemsAreOurs(one, items[0].variable, base, lit);
      assert one[1..] == [] && ItemsAssignments(one, base, lit) == ItemAssignments(items[0], base, lit);
      forall a | a in ItemAssignments(items[0], base, lit) + rest
        ensures IsOurs(a, a.x)
      {
        assert a in ItemsAssignments(one, base, lit) || a in rest;
      }
    }
  }

  lemma {:induction false} OwnWrites(assignments: seq<Assignment>)
    requires AreOurs(assignments)
    ensures NoTypePut(WritesOf(assignments))
  {
    if assignments != [] {
      OwnWrites(assignments[1..]);
      assert assignments[0] in assignments;
    }
  }

  // The clause, whatever variables its items name, gives every node of the store all that it
  // assigns, on every store, exactly when nothing that is not in force already follows an
  // item that takes the mark of a node away.
  lemma NoMatchIff(items: seq<SetItem>, base: string, lit: Serializer, supply: Supply)
    requires CompileItems(items, [], base, lit).Ok? && lit(L.Lit(L.Null)).None?
    requires forall item :: item in items ==> item.variable != "" && IsAbout(item, item.variable, base)
    ensures var ws := WritesOf(ItemsAssignments(items, base, lit));
            (forall g: Store :: NoLiteralSubjects(g) ==>
               RunAll(CompileItems(items, [], base, lit).value, g, supply) == AtOnce(ws, AllNodes(base, g), g))
            <==> InTime(ws, NodePattern(base))
  {
    hide CompileItems, ItemsAssignments, InTime, OneByOne, AtOnce, RunAll, NoTypePut, AreOurs, AllNodes, Nodes;
    var assignments := ItemsAssignments(items, base, lit);
    ItemsAreOwn(items, base, lit);
    OwnWrites(assignments);
    ItemsEmittedFree(items, base, lit);
    forall g: Store | NoLiteralSubjects(g)
      ensures RunAll(CompileItems(items, [], base, lit).value, g, supply) == OneByOne(WritesOf(assignments), NodePattern(base), g)
      ensures Nodes(NodePattern(base), g) == AllNodes(base, g)
    {
      FreeIsOneByOne(assignments, base, g, supply);
      NodesAreAll("", base, g);
    }
    WritesIff(WritesOf(assignments), NodePattern(base));
  }

  // No key of the items is that of the mark.
  predicate LeavesMark(item: SetItem) {
    match item
    case Property(_, key, _) => key != "__node"
    case MergeMap(_, e) => e.Map? ==> forall i :: 0 <= i < |e.pairs| ==> e.pairs[i].key != "__node"
    case Label(_, _) => true
  }

  ghost predicate NonePutsMark(ws: seq<Write>, base: string) {
    forall w :: w in ws && w.Put? ==> w.property != NodeIri(base)
  }

  lemma {:induction false} PairsLeaveMark(x: string, pairs: seq<L.Entry>, base: string, lit: Serializer)
    requires forall i :: 0 <= i < |pairs| ==> pairs[i].key != "__node"
    ensures NonePutsMark(WritesOf(PairAssignments(x, pairs, base, lit)), base)
  {
    if pairs != [] {
      PairsLeaveMark(x, pairs[1..], base, lit);
      PropIriInjective(base, pairs[0].key, "__node");
    }
  }

  lemma {:induction false} LabelsLeaveMark(x: string, labels: seq<string>, base: string)
    ensures NonePutsMark(WritesOf(LabelAssignments(x, labels, base)), base)
  {
    if labels != [] {
      LabelsLeaveMark(x, labels[1..], base);
    }
  }

  lemma {:induction false} WritesOfAppend(bs: seq<Assignment>, cs: seq<Assignment>)
    ensures WritesOf(bs + cs) == WritesOf(bs) + WritesOf(cs)
  {
    if bs == [] {
      assert bs + cs == cs;
    } else {
      assert (bs + cs)[1..] == bs[1..] + cs;
      WritesOfAppend(bs[1..], cs);
    }
  }

  lemma {:induction false} ItemsLeaveMark(items: seq<SetItem>, base: string, lit: Serializer)
    requires forall item :: item in items ==> LeavesMark(item)
    ensures NonePutsMark(WritesOf(ItemsAssignments(items, base, lit)), base)
  {
    if items != [] {
      ItemsLeaveMark(items[1..], base, lit);
      assert items[0] in items;
      match items[0] {
        case Property(_, key, _) => PropIriInjective(base, key, "__node");
        case MergeMap(x, e) => if e.Map? { PairsLeaveMark(x, e.pairs, base, lit); }
        case Label(x, labels) => LabelsLeaveMark(x, labels, base);
      }
      WritesOfAppend(ItemAssignments(items[0], base, lit), ItemsAssignments(items[1..], base, lit));
    }
  }

  // So it is for every clause that does not name the mark as a key.
  lemma NoMatchWritesAll(items: seq<SetItem>, base: string, lit: Serializer, g: Store, supply: Supply)
    requires CompileItems(items, [], base, lit).Ok? && lit(L.Lit(L.Null)).None? && NoLiteralSubjects(g)
    requires forall item :: item in items ==> item.variable != "" && IsAbout(item, item.variable, base) && LeavesMark(item)
    ensures RunAll(CompileItems(items, [], base, lit).value, g, supply)
         == AtOnce(WritesOf(ItemsAssignments(items, base, lit)), AllNodes(base, g), g)
  {
    hide CompileItems, ItemsAssignments, OneByOne, AtOnce, RunAll, AreOurs, AllNodes, Nodes;
    var assignments := ItemsAssignments(items, base, lit);
    ItemsAreOwn(items, base, lit);
    ItemsEmittedFree(items, base, lit);
    FreeIsOneByOne(assignments, base, g, supply);
    NodesAreAll("", base, g);
    ItemsLeaveMark(items, base, lit);
    OneByOneIsDone(WritesOf(assignments), NodePattern(base), g);
    AllDone(WritesOf(assignments), base);
  }

  lemma {:induction false} AllDone(ws: seq<Write>, base: string)
    requires NonePutsMark(ws, base)
    ensures Done(ws, NodePattern(base)) == ws
  {
    if ws != [] {
      assert ws[0] in ws;
      AllDone(ws[1..], base);
    }
  }
}

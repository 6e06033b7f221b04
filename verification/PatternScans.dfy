/** What the operator tree of a pattern list looks like: which variables are scanned, which
    are seen afterwards, and which name the path goes by. */
module PatternScans {
  import opened Prelude
  import opened Ops
  import opened Patterns
  import L = Lqa
  import E = LowerExpr

  // The variables of the scans in the tree.
  function Scans(op: Op): multiset<string> {
    match op
    case Unit => multiset{}
    case Scan(x, _, _) => multiset{x}
    case Expand(inner, _, _, _, _, _, _, _) => Scans(inner)
    case Selection(inner, _) => Scans(inner)
    case Projection(inner, _, _) => Scans(inner)
    case CartesianProduct(a, b) => Scans(a) + Scans(b)
    case LeftOuterJoin(a, b) => Scans(a) + Scans(b)
  }

  lemma {:induction false} LabelsScanNothing(op: Op, x: string, labels: seq<string>)
    ensures Scans(AddLabels(op, x, labels)) == Scans(op)
    decreases labels
  {
    if labels != [] {
      LabelsScanNothing(Selection(op, L.LabelCheck(L.Variable(x), [labels[0]])), x, labels[1..]);
    }
  }

  lemma {:induction false} PropsScanNothing(op: Op, x: string, props: seq<Prop>)
    requires AddProps(op, x, props).Ok?
    ensures Scans(AddProps(op, x, props).value) == Scans(op)
    decreases props
  {
    hide E.Lower;
    if props != [] {
      var v := E.Lower(props[0].value);
      PropsScanNothing(Selection(op, L.Comparison(L.Eq, L.Property(L.Variable(x), props[0].key), v.value)), x, props[1..]);
    }
  }

  // Each variable is scanned once at most, only if it was not seen before, and seen then.
  ghost predicate IsFresh(scans: multiset<string>, before: set<string>, after: set<string>) {
    before <= after && forall x :: scans[x] <= (if x in after && x !in before then 1 else 0)
  }

  function StateScans(st: State): multiset<string> {
    if st.op.Some? then Scans(st.op.value) else multiset{}
  }

  lemma NodeScans(n: Element, x: string, st: State)
    requires n.Node? && LowerNode(n, x, st).Ok?
    ensures Scans(LowerNode(n, x, st).value) == StateScans(st) + if st.afterRel || x in st.seen then multiset{} else multiset{x}
  {
    hide AddProps, AddLabels;
    var props := PropsOf(n.props);
    if st.afterRel || x in st.seen {
      LabelsScanNothing(OpOrUnit(st.op), x, n.labels);
      PropsScanNothing(AddLabels(OpOrUnit(st.op), x, n.labels), x, props);
    } else {
      PropsScanNothing(Scan(x, if n.labels == [] then None else Some(n.labels[0]), if |n.labels| > 1 then n.labels[1..] else []), x, props);
    }
  }

  lemma RelScans(r: Element, from: string, to: string, pathVar: Option<string>, st: State)
    requires r.Rel? && LowerRel(r, from, to, pathVar, st).Ok?
    ensures Scans(LowerRel(r, from, to, pathVar, st).value) == StateScans(st)
  {
    hide AddProps;
    var expand := Expand(OpOrUnit(st.op), from, r.variable, to, r.relTypes, LowerDirection(r.direction), LowerRange(r.range), pathVar);
    if r.variable.Some? {
      PropsScanNothing(expand, r.variable.value, PropsOf(r.props));
    }
  }

  lemma {:induction false} ElementsScan(es: seq<Element>, names: seq<string>, pathVar: Option<string>, st: State, before: set<string>)
    requires LowerElements(es, names, pathVar, st).Ok? && IsFresh(StateScans(st), before, st.seen)
    ensures var end := LowerElements(es, names, pathVar, st).value; IsFresh(StateScans(end), before, end.seen)
  {
    hide LowerNode, LowerRel;
    if es != [] {
      var e := es[0];
      if e.Node? {
        NodeScans(e, names[st.nodeIdx], st);
      } else {
        RelScans(e, st.lastSrc.value, names[st.nodeIdx], pathVar, st);
      }
      ElementsScan(es[1..], names, pathVar, LowerElement(e, names, pathVar, st).value, before);
    }
  }

  lemma OneScans(p: Pattern, counter: nat, seen: set<string>)
    requires LowerOne(p, counter, seen).Ok?
    ensures var r := LowerOne(p, counter, seen).value; IsFresh(Scans(r.0), seen, r.1)
  {
    ElementsScan(p.elements, Names(p.elements, counter), p.variable, Start(seen), seen);
  }

  lemma {:induction false} RestScans(ps: seq<Pattern>, acc: Op, counter: nat, seen: set<string>, before: set<string>)
    requires LowerRest(ps, acc, counter, seen).Ok? && IsFresh(Scans(acc), before, seen)
    ensures var r := LowerRest(ps, acc, counter, seen).value; IsFresh(Scans(r.0), before, r.1)
  {
    hide LowerOne;
    if ps != [] {
      var one := LowerOne(ps[0], counter, seen).value;
      OneScans(ps[0], counter, seen);
      RestScans(ps[1..], CartesianProduct(acc, one.0), counter + AnonCount(ps[0].elements), one.1, before);
    }
  }

  // No variable is scanned twice in the tree of a list of patterns, and none that clauses
  // before it have bound: what patterns share is joined, not multiplied.
  lemma ScannedOnce(ps: seq<Pattern>, counter: nat, seen: set<string>)
    requires LowerList(ps, counter, seen).Ok?
    ensures var r := LowerList(ps, counter, seen).value; IsFresh(Scans(r.0), seen, r.1)
  {
    OneScans(ps[0], counter, seen);
    var one := LowerOne(ps[0], counter, seen).value;
    RestScans(ps[1..], one.0, counter + AnonCount(ps[0].elements), one.1, seen);
  }

  // ---------- What is seen afterwards ----------

  lemma {:induction false} SeenAfter(es: seq<Element>, names: seq<string>, pathVar: Option<string>, st: State)
    requires LowerElements(es, names, pathVar, st).Ok?
    ensures var end := LowerElements(es, names, pathVar, st).value;
            && end.nodeIdx == st.nodeIdx + NodeCount(es)
            && (NodeCount(es) > 0 ==> end.nodeIdx <= |names|)
            && end.seen == st.seen + set i | st.nodeIdx <= i < end.nodeIdx && i < |names| :: names[i]
  {
    hide LowerNode, LowerRel;
    if es != [] {
      SeenAfter(es[1..], names, pathVar, LowerElement(es[0], names, pathVar, st).value);
    }
  }

  // The nodes of the pattern are seen afterwards, the generated names among them.
  lemma OneIsSeen(p: Pattern, counter: nat, seen: set<string>)
    requires LowerOne(p, counter, seen).Ok?
    ensures LowerOne(p, counter, seen).value.1 == seen + set x | x in Names(p.elements, counter)
  {
    var names := Names(p.elements, counter);
    SeenAfter(p.elements, names, p.variable, Start(seen));
    assert forall x :: x in names <==> exists i :: 0 <= i < |names| && names[i] == x;
  }

  // ---------- Path variables ----------

  // Every step in the tree belongs to the path.
  predicate Carries(op: Op, pathVar: Option<string>) {
    match op
    case Expand(inner, _, _, _, _, _, _, p) => p == pathVar && Carries(inner, pathVar)
    case Selection(inner, _) => Carries(inner, pathVar)
    case Projection(inner, _, _) => Carries(inner, pathVar)
    case CartesianProduct(a, b) => Carries(a, pathVar) && Carries(b, pathVar)
    case LeftOuterJoin(a, b) => Carries(a, pathVar) && Carries(b, pathVar)
    case _ => true
  }

  function Steps(op: Op): nat {
    match op
    case Expand(inner, _, _, _, _, _, _, _) => 1 + Steps(inner)
    case Selection(inner, _) => Steps(inner)
    case Projection(inner, _, _) => Steps(inner)
    case CartesianProduct(a, b) => Steps(a) + Steps(b)
    case LeftOuterJoin(a, b) => Steps(a) + Steps(b)
    case _ => 0
  }

  lemma {:induction false} LabelsStep(op: Op, x: string, labels: seq<string>, pathVar: Option<string>)
    ensures Steps(AddLabels(op, x, labels)) == Steps(op) && (Carries(AddLabels(op, x, labels), pathVar) <==> Carries(op, pathVar))
    decreases labels
  {
    if labels != [] {
      LabelsStep(Selection(op, L.LabelCheck(L.Variable(x), [labels[0]])), x, labels[1..], pathVar);
    }
  }

  lemma {:induction false} PropsStep(op: Op, x: string, props: seq<Prop>, pathVar: Option<string>)
    requires AddProps(op, x, props).Ok?
    ensures var r := AddProps(op, x, props).value; Steps(r) == Steps(op) && (Carries(r, pathVar) <==> Carries(op, pathVar))
    decreases props
  {
    hide E.Lower;
    if props != [] {
      var v := E.Lower(props[0].value);
      PropsStep(Selection(op, L.Comparison(L.Eq, L.Property(L.Variable(x), props[0].key), v.value)), x, props[1..], pathVar);
    }
  }

  lemma NodeStep(n: Element, x: string, st: State, pathVar: Option<string>)
    requires n.Node? && LowerNode(n, x, st).Ok?
    ensures var r := LowerNode(n, x, st).value; Steps(r) == Steps(OpOrUnit(st.op)) && (Carries(r, pathVar) <==> Carries(OpOrUnit(st.op), pathVar))
  {
    hide AddProps, AddLabels;
    var props := PropsOf(n.props);
    if st.afterRel || x in st.seen {
      LabelsStep(OpOrUnit(st.op), x, n.labels, pathVar);
      PropsStep(AddLabels(OpOrUnit(st.op), x, n.labels), x, props, pathVar);
    } else {
      PropsStep(Scan(x, if n.labels == [] then None else Some(n.labels[0]), if |n.labels| > 1 then n.labels[1..] else []), x, props, pathVar);
    }
  }

  lemma RelStep(r: Element, from: string, to: string, pathVar: Option<string>, st: State)
    requires r.Rel? && LowerRel(r, from, to, pathVar, st).Ok?
    ensures var op := LowerRel(r, from, to, pathVar, st).value;
            Steps(op) == 1 + Steps(OpOrUnit(st.op)) && (Carries(op, pathVar) <==> Carries(OpOrUnit(st.op), pathVar))
  {
    hide AddProps;
    var expand := Expand(OpOrUnit(st.op), from, r.variable, to, r.relTypes, LowerDirection(r.direction), LowerRange(r.range), pathVar);
    if r.variable.Some? {
      PropsStep(expand, r.variable.value, PropsOf(r.props), pathVar);
    }
  }

  lemma {:induction false} ElementsStep(es: seq<Element>, names: seq<string>, pathVar: Option<string>, st: State)
    requires LowerElements(es, names, pathVar, st).Ok? && Carries(OpOrUnit(st.op), pathVar)
    ensures var end := LowerElements(es, names, pathVar, st).value;
            Carries(OpOrUnit(end.op), pathVar) && Steps(OpOrUnit(end.op)) == Steps(OpOrUnit(st.op)) + |es| - NodeCount(es)
  {
    hide LowerNode, LowerRel;
    if es != [] {
      var e := es[0];
      if e.Node? {
        NodeStep(e, names[st.nodeIdx], st, pathVar);
      } else {
        RelStep(e, st.lastSrc.value, names[st.nodeIdx], pathVar, st);
      }
      ElementsStep(es[1..], names, pathVar, LowerElement(e, names, pathVar, st).value);
    }
  }

  // A pattern is lowered to one step for each relationship, and all of them carry the name
  // of the path.
  lemma PathIsCarried(p: Pattern, counter: nat, seen: set<string>)
    requires LowerOne(p, counter, seen).Ok?
    ensures var op := LowerOne(p, counter, seen).value.0;
            Carries(op, p.variable) && Steps(op) == |p.elements| - NodeCount(p.elements)
  {
    ElementsStep(p.elements, Names(p.elements, counter), p.variable, Start(seen));
  }
}

/** The lowering pass over patterns and RETURN/WITH items.

    The pass carries a counter for fresh names, the variables introduced so
    far and the variables known to hold literal lists.  Each method is tied to
    the function that says what it computes; Patterns and ReturnItems prove
    what that means.
 */
module AstLowerer {
  import opened Prelude
  import opened Ops
  import opened Patterns
  import R = ReturnItems
  import A = Aggregates
  import L = Lqa
  import E = LowerExpr

  lemma NamesFrom(es: seq<Element>, i: nat, c: nat)
    requires i < |es|
    ensures Names(es[i..], c) == NameOf(es[i], c) + Names(es[i + 1..], c + Anon(es[i]))
    ensures AnonCount(es[i..]) == Anon(es[i]) + AnonCount(es[i + 1..])
  {
    assert es[i..][0] == es[i] && es[i..][1..] == es[i + 1..];
  }

  lemma NoNames(c: nat)
    ensures Names([], c) == [] && AnonCount([]) == 0
  {
  }

  class Lowerer {
    var counter: nat
    var seenVars: set<string>
    var listConstMap: map<string, L.Expr>

    constructor ()
      ensures counter == 0 && seenVars == {} && listConstMap == map[]
    {
      counter, seenVars, listConstMap := 0, {}, map[];
    }

    method FreshAnon() returns (name: string)
      modifies this`counter
      ensures name == AnonName(old(counter)) && counter == old(counter) + 1
    {
      name := AnonName(counter);
      counter := counter + 1;
    }

    // Names every node position before any element is lowered.
    method AssignNames(es: seq<Element>) returns (names: seq<string>)
      modifies this`counter
      ensures names == Names(es, old(counter)) && counter == old(counter) + AnonCount(es)
    {
      hide AnonName, Names, AnonCount;
      names := [];
      assert es[0..] == es;
      for i := 0 to |es|
        invariant names + Names(es[i..], counter) == Names(es, old(counter))
        invariant counter + AnonCount(es[i..]) == old(counter) + AnonCount(es)
      {
        NamesFrom(es, i, counter);
        ghost var tail := Names(es[i + 1..], counter + Anon(es[i]));
        assert names + (NameOf(es[i], counter) + tail) == (names + NameOf(es[i], counter)) + tail;
        if es[i].Node? {
          var name;
          if es[i].variable.Some? {
            name := es[i].variable.value;
          } else {
            name := FreshAnon();
          }
          names := names + [name];
        } else {
          assert names + [] == names;
        }
      }
      assert es[|es|..] == [];
      NoNames(counter);
      assert names + [] == names;
    }

    // One Selection for each inline property.
    method ApplyPropPredicates(inner: Op, x: string, props: Option<seq<Prop>>) returns (r: Result<Op, PatternError>)
      ensures r == AddProps(inner, x, PropsOf(props))
    {
      var acc := inner;
      var list := PropsOf(props);
      for i := 0 to |list|
        invariant AddProps(inner, x, list) == AddProps(acc, x, list[i..])
      {
        assert list[i..][0] == list[i] && list[i..][1..] == list[i + 1..];
        var v := E.Lower(list[i].value);
        if v.Err? {
          return Err(InExpression(v.error));
        }
        acc := Selection(acc, L.Comparison(L.Eq, L.Property(L.Variable(x), list[i].key), v.value));
      }
      return Ok(acc);
    }

    method ApplyLabels(inner: Op, x: string, labels: seq<string>) returns (r: Op)
      ensures r == AddLabels(inner, x, labels)
    {
      r := inner;
      for i := 0 to |labels|
        invariant AddLabels(inner, x, labels) == AddLabels(r, x, labels[i..])
      {
        assert labels[i..][0] == labels[i] && labels[i..][1..] == labels[i + 1..];
        r := Selection(r, L.LabelCheck(L.Variable(x), [labels[i]]));
      }
    }

    // On an error the pass is abandoned; the names it has used stay used.
    method LowerPattern(p: Pattern) returns (r: Result<Op, PatternError>)
      modifies this`counter, this`seenVars
      ensures var spec := LowerOne(p, old(counter), old(seenVars));
              if spec.Ok? then r == Ok(spec.value.0) && seenVars == spec.value.1 else r == Err(spec.error)
      ensures old(seenVars) <= seenVars
      ensures counter == old(counter) + AnonCount(p.elements)
    {
      hide E.Lower, AddProps, AddLabels, Names, AnonCount, LowerDirection, LowerRange;
      var es := p.elements;
      var names := AssignNames(es);
      var op: Option<Op>, nodeIdx, lastSrc, afterRel := None, 0, None, false;
      for i := 0 to |es|
        invariant nodeIdx <= |names| && old(seenVars) <= seenVars && counter == old(counter) + AnonCount(es)
        invariant LowerElements(es, names, p.variable, Start(old(seenVars)))
               == LowerElements(es[i..], names, p.variable, State(op, nodeIdx, lastSrc, afterRel, seenVars))
      {
        assert es[i..][0] == es[i] && es[i..][1..] == es[i + 1..];
        ghost var before := State(op, nodeIdx, lastSrc, afterRel, seenVars);
        var e := es[i];
        if e.Node? {
          if nodeIdx >= |names| {
            return Err(MissingNode);
          }
          var x := names[nodeIdx];
          nodeIdx := nodeIdx + 1;
          var isSeen := x in seenVars;
          seenVars := seenVars + {x};
          if afterRel || isSeen {
            var acc := ApplyLabels(OpOrUnit(op), x, e.labels);
            var withProps := ApplyPropPredicates(acc, x, e.props);
            if withProps.Err? {
              return Err(withProps.error);
            }
            op := Some(withProps.value);
          } else {
            var scan := Scan(x, if e.labels == [] then None else Some(e.labels[0]), if |e.labels| > 1 then e.labels[1..] else []);
            var scanOp := ApplyPropPredicates(scan, x, e.props);
            if scanOp.Err? {
              return Err(scanOp.error);
            }
            op := Some(if op.None? then scanOp.value else CartesianProduct(op.value, scanOp.value));
          }
          afterRel := false;
          lastSrc := Some(x);
        } else {
          if lastSrc.None? {
            return Err(NoPrecedingNode);
          }
          if nodeIdx >= |names| {
            return Err(MissingNode);
          }
          var expand := Expand(OpOrUnit(op), lastSrc.value, e.variable, names[nodeIdx], e.relTypes,
                               LowerDirection(e.direction), LowerRange(e.range), p.variable);
          var expandOp := Ok(expand);
          if e.variable.Some? {
            expandOp := ApplyPropPredicates(expand, e.variable.value, e.props);
            if expandOp.Err? {
              return Err(expandOp.error);
            }
          }
          op := Some(expandOp.value);
          afterRel := true;
        }
        assert LowerElement(e, names, p.variable, before) == Ok(State(op, nodeIdx, lastSrc, afterRel, seenVars));
      }
      assert es[|es|..] == [];
      return Ok(OpOrUnit(op));
    }

    method LowerPatternList(ps: seq<Pattern>) returns (r: Result<Op, PatternError>)
      modifies this`counter, this`seenVars
      ensures var spec := LowerList(ps, old(counter), old(seenVars));
              if spec.Ok? then r == Ok(spec.value.0) && seenVars == spec.value.1 else r == Err(spec.error)
      ensures old(seenVars) <= seenVars
    {
      hide LowerOne;
      if ps == [] {
        return Err(EmptyList);
      }
      r := LowerPattern(ps[0]);
      if r.Err? {
        return;
      }
      for i := 1 to |ps|
        invariant r.Ok? && old(seenVars) <= seenVars
        invariant LowerList(ps, old(counter), old(seenVars)) == LowerRest(ps[i..], r.value, counter, seenVars)
      {
        assert ps[i..][0] == ps[i] && ps[i..][1..] == ps[i + 1..];
        var right := LowerPattern(ps[i]);
        if right.Err? {
          return right;
        }
        r := Ok(CartesianProduct(r.value, right.value));
      }
      assert ps[|ps|..] == [];
    }

    // The items, split into projections, aggregates and aliases computed after the grouping.
    method LowerReturnItems(items: R.Items)
      returns (r: Result<(seq<R.ProjItem>, seq<A.AggItem>, seq<string>), E.LowerError>)
      modifies this`listConstMap
      ensures var spec := R.LowerItems(items, old(listConstMap));
              if spec.Ok? then r == Ok((spec.value.proj, spec.value.aggs, spec.value.postGroup)) && listConstMap == spec.value.consts
              else r == Err(spec.error)
    {
      hide E.Lower, A.Extract, A.ContainsAggregate, R.IsSizeOfNonNulls, R.UserAlias, R.GenAlias, R.DummyAlias, R.DisplayName;
      if items.All? {
        return Ok(([R.ProjItem(L.Variable("*"), "*", None)], [], []));
      }
      var proj: seq<R.ProjItem>, aggs: seq<A.AggItem>, postGroup: seq<string>, gen := [], [], [], 0;
      var list := items.list;
      for i := 0 to |list|
        invariant R.LowerItems(items, old(listConstMap)) == R.AddItems(list[i..], R.Acc(proj, aggs, postGroup, gen, listConstMap))
      {
        assert list[i..][0] == list[i] && list[i..][1..] == list[i + 1..];
        ghost var before := R.Acc(proj, aggs, postGroup, gen, listConstMap);
        var item := list[i];
        var alias := R.GenAlias(gen);
        if R.UserAlias(item).Some? {
          alias := R.UserAlias(item).value;
        } else {
          gen := gen + 1;
        }
        var display := R.DisplayName(item, alias);
        var lowered := E.Lower(item.expression);
        if lowered.Err? {
          return Err(lowered.error);
        }
        var e := lowered.value;
        if R.IsSizeOfNonNulls(e) {
          aggs := aggs + [A.AggItem(L.Aggregate(L.CountStar, false, None), R.DummyAlias(gen))];
          gen := gen + 1;
          postGroup := postGroup + [alias];
          proj := proj + [R.ProjItem(L.Lit(L.Integer(0)), alias, display)];
        } else if e.Aggregate? {
          aggs := aggs + [A.AggItem(e, alias)];
          proj := proj + [R.ProjItem(L.Variable(alias), alias, display)];
        } else if A.ContainsAggregate(e) {
          var extracted;
          extracted, aggs, gen := A.ExtractNestedAggregates(e, aggs, gen);
          postGroup := postGroup + [alias];
          proj := proj + [R.ProjItem(extracted, alias, display)];
        } else {
          if e.List? {
            listConstMap := listConstMap[alias := e];
          }
          proj := proj + [R.ProjItem(e, alias, display)];
        }
        assert R.AddItem(item, before) == Ok(R.Acc(proj, aggs, postGroup, gen, listConstMap));
      }
      assert list[|list|..] == [];
      return Ok((proj, aggs, postGroup));
    }
  }
}

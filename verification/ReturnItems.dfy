/** Lowering of RETURN and WITH items: which item becomes a group key, which an
    aggregate output and which is computed after the grouping. */
module ReturnItems {
  import opened Prelude
  import opened Aggregates
  import L = Lqa
  import C = Cypher
  import E = LowerExpr

  datatype ReturnItem = Item(expression: C.Expression, alias: Option<string>)
  datatype Items = All | Explicit(list: seq<ReturnItem>)
  datatype ProjItem = ProjItem(expr: L.Expr, alias: string, displayName: Option<string>)

  // What the pass over the items has built so far.
  datatype Acc = Acc(proj: seq<ProjItem>, aggs: seq<AggItem>, postGroup: seq<string>, gen: nat, consts: map<string, L.Expr>)

  // ---------- Names ----------

  function GenAlias(n: nat): string {
    "_gen_" + Decimal(n)
  }

  function DummyAlias(n: nat): string {
    "_dummy_agg_" + Decimal(n)
  }

  // The column name Cypher gives an expression without AS, where there is one.
  function NaturalAlias(e: C.Expression): Option<string> {
    match e
    case Variable(x) => Some(x)
    case Property(a, k) =>
      var base :- NaturalAlias(a);
      Some(base + "." + k)
    case FunctionCall(f, _, es) =>
      var args :- NaturalAliases(es);
      Some(f + "(" + args + ")")
    case _ => None
  }

  function NaturalAliases(es: seq<C.Expression>): Option<string> {
    if es == [] then Some("")
    else
      var a :- NaturalAlias(es[0]);
      var rest :- NaturalAliases(es[1..]);
      Some(if |es| == 1 then a else a + ", " + rest)
  }

  function UserAlias(item: ReturnItem): Option<string> {
    if item.alias.Some? then item.alias
    else if item.expression.Variable? then Some(item.expression.name)
    else None
  }

  // The item goes by the name after AS, and without AS by that of its variable.
  predicate GoesBy(item: ReturnItem, name: string) {
    match item.alias
    case Some(a) => name == a
    case None => item.expression == C.Variable(name)
  }

  lemma UserAliasIff(item: ReturnItem, name: string)
    ensures UserAlias(item) == Some(name) <==> GoesBy(item, name)
  {
  }

  function DisplayName(item: ReturnItem, alias: string): Option<string> {
    var natural := if item.alias.Some? then item.alias else NaturalAlias(item.expression);
    if natural.Some? && natural.value != alias then natural else None
  }

  // ---------- One item ----------

  // size([x IN l WHERE x <> null])
  predicate IsSizeOfNonNulls(e: L.Expr) {
    && e.FunctionCall? && L.EqIgnoreAsciiCase(e.fname, "size") && |e.args| == 1
    && var a := e.args[0];
    && a.ListComprehension? && a.filter.Some? && a.projection.None?
    && (a.filter.value == L.Comparison(L.Ne, L.Variable(a.variable), L.Lit(L.Null))
        || a.filter.value == L.Comparison(L.Ne, L.Lit(L.Null), L.Variable(a.variable)))
  }

  datatype Kind = GroupKey | AggregateOutput | PostGroup

  function KindOf(e: L.Expr): Kind {
    if IsSizeOfNonNulls(e) then PostGroup
    else if e.Aggregate? then AggregateOutput
    else if ContainsAggregate(e) then PostGroup
    else GroupKey
  }

  function AddItem(item: ReturnItem, acc: Acc): Result<Acc, E.LowerError> {
    var user := UserAlias(item);
    var alias := if user.Some? then user.value else GenAlias(acc.gen);
    var gen := if user.Some? then acc.gen else acc.gen + 1;
    var display := DisplayName(item, alias);
    var e :- E.Lower(item.expression);
    if IsSizeOfNonNulls(e) then
      Ok(Acc(acc.proj + [ProjItem(L.Lit(L.Integer(0)), alias, display)],
             acc.aggs + [AggItem(L.Aggregate(L.CountStar, false, None), DummyAlias(gen))],
             acc.postGroup + [alias], gen + 1, acc.consts))
    else if e.Aggregate? then
      Ok(Acc(acc.proj + [ProjItem(L.Variable(alias), alias, display)], acc.aggs + [AggItem(e, alias)], acc.postGroup, gen, acc.consts))
    else if ContainsAggregate(e) then
      var x := Extract(e, gen);
      Ok(Acc(acc.proj + [ProjItem(x.result, alias, display)], acc.aggs + x.aggs, acc.postGroup + [alias], x.next, acc.consts))
    else
      Ok(Acc(acc.proj + [ProjItem(e, alias, display)], acc.aggs, acc.postGroup, gen, if e.List? then acc.consts[alias := e] else acc.consts))
  }

  function AddItems(list: seq<ReturnItem>, acc: Acc): Result<Acc, E.LowerError> {
    if list == [] then Ok(acc)
    else
      var next :- AddItem(list[0], acc);
      AddItems(list[1..], next)
  }

  function LowerItems(items: Items, consts: map<string, L.Expr>): Result<Acc, E.LowerError> {
    match items
    case All => Ok(Acc([ProjItem(L.Variable("*"), "*", None)], [], [], 0, consts))
    case Explicit(list) => AddItems(list, Acc([], [], [], 0, consts))
  }

  function AggAliases(aggs: seq<AggItem>): (r: seq<string>)
    ensures |r| == |aggs| && forall i :: 0 <= i < |aggs| ==> r[i] == aggs[i].alias
  {
    seq(|aggs|, i requires 0 <= i < |aggs| => aggs[i].alias)
  }

  // The GROUP BY keys: item aliases that are neither aggregate outputs nor computed after the grouping.
  function ProjColsKeys(items: seq<ProjItem>, aggAliases: seq<string>, postGroup: seq<string>): (r: seq<string>)
    ensures forall a :: a in r <==> a != "*" && a !in aggAliases && a !in postGroup && exists i :: 0 <= i < |items| && items[i].alias == a
  {
    if items == [] then []
    else
      var a := items[0].alias;
      var rest := ProjColsKeys(items[1..], aggAliases, postGroup);
      assert forall i :: 0 < i < |items| ==> items[i] == items[1..][i - 1];
      if a != "*" && a !in aggAliases && a !in postGroup then [a] + rest else rest
  }

  // ---------- Values are preserved ----------

  // The pass only appends.
  lemma {:induction false} AddItemsAppends(list: seq<ReturnItem>, acc: Acc)
    requires AddItems(list, acc).Ok?
    ensures var r := AddItems(list, acc).value;
            && |r.proj| == |acc.proj| + |list| && acc.proj <= r.proj && acc.aggs <= r.aggs
            && forall i :: 0 <= i < |list| ==> E.Lower(list[i].expression).Ok?
  {
    if list != [] {
      var next := AddItem(list[0], acc).value;
      AddItemsAppends(list[1..], next);
      assert forall i :: 0 < i < |list| ==> list[i] == list[1..][i - 1];
    }
  }

  lemma BoundWithin(m: L.Meaning, aggs: seq<AggItem>, prefix: seq<AggItem>, env: L.Env, group: seq<L.Env>)
    requires Bound(m, aggs, env, group) && prefix <= aggs
    ensures Bound(m, prefix, env, group)
  {
    assert forall i :: 0 <= i < |prefix| ==> prefix[i] == aggs[i];
  }

  lemma AddItemPreserves(m: L.Meaning, item: ReturnItem, acc: Acc, env: L.Env, env': L.Env, group: seq<L.Env>)
    requires AddItem(item, acc).Ok? && E.Lower(item.expression).Ok?
    requires var e := E.Lower(item.expression).value;
             !IsSizeOfNonNulls(e) && NoCapture(e) && L.Agree(L.Outer(e), env, env')
    requires Bound(m, AddItem(item, acc).value.aggs, env', group)
    ensures L.Eval(m, AddItem(item, acc).value.proj[|acc.proj|].expr, env', group)
         == L.Eval(m, E.Lower(item.expression).value, env, group)
  {
    hide E.Lower, L.Eval;
    var e := E.Lower(item.expression).value;
    var next := AddItem(item, acc).value;
    if e.Aggregate? {
      BoundSplit(m, acc.aggs, [next.aggs[|acc.aggs|]], env', group);
      L.EvalAggregate(m, e, env, map[], group);
      L.EvalVariable(m, next.aggs[|acc.aggs|].alias, env', group);
    } else if ContainsAggregate(e) {
      var gen := if UserAlias(item).Some? then acc.gen else acc.gen + 1;
      BoundSplit(m, acc.aggs, Extract(e, gen).aggs, env', group);
      ExtractPreserves(m, e, gen, env, env', group);
    } else {
      L.OuterCoincidence(m, e, env, env', group, group);
    }
  }

  lemma {:induction false} AddItemsPreserves(m: L.Meaning, list: seq<ReturnItem>, acc: Acc, i: nat, env: L.Env, env': L.Env, group: seq<L.Env>)
    requires AddItems(list, acc).Ok? && i < |list| && E.Lower(list[i].expression).Ok?
    requires var e := E.Lower(list[i].expression).value;
             !IsSizeOfNonNulls(e) && NoCapture(e) && L.Agree(L.Outer(e), env, env')
    requires Bound(m, AddItems(list, acc).value.aggs, env', group)
    ensures |AddItems(list, acc).value.proj| == |acc.proj| + |list|
    ensures L.Eval(m, AddItems(list, acc).value.proj[|acc.proj| + i].expr, env', group)
         == L.Eval(m, E.Lower(list[i].expression).value, env, group)
  {
    hide E.Lower, L.Eval, AddItem, NoCapture, L.Outer, Bound;
    AddItemsAppends(list, acc);
    var next := AddItem(list[0], acc).value;
    AddItemsAppends(list[1..], next);
    var r := AddItems(list, acc).value;
    if i > 0 {
      assert list[1..][i - 1] == list[i];
      AddItemsPreserves(m, list[1..], next, i - 1, env, env', group);
    } else {
      BoundWithin(m, r.aggs, next.aggs, env', group);
      AddItemPreserves(m, list[0], acc, env, env', group);
    }
  }

  // Every item keeps the value it has in Cypher, once the aggregate outputs
  // are bound: env' is env with each of them given the value over the group.
  lemma ItemsKeepTheirValues(m: L.Meaning, list: seq<ReturnItem>, consts: map<string, L.Expr>, i: nat, env: L.Env, env': L.Env, group: seq<L.Env>)
    requires LowerItems(Explicit(list), consts).Ok? && i < |list|
    requires C.WellFormed(list[i].expression) && E.Lower(list[i].expression).Ok?
    requires var e := E.Lower(list[i].expression).value;
             !IsSizeOfNonNulls(e) && NoCapture(e) && L.Agree(L.Outer(e), env, env')
    requires Bound(m, LowerItems(Explicit(list), consts).value.aggs, env', group)
    ensures |LowerItems(Explicit(list), consts).value.proj| == |list|
    ensures C.Eval(m, list[i].expression, env, group).Some? ==>
              L.Eval(m, LowerItems(Explicit(list), consts).value.proj[i].expr, env', group) == C.Eval(m, list[i].expression, env, group)
  {
    AddItemsPreserves(m, list, Acc([], [], [], 0, consts), i, env, env', group);
    E.LoweringPreservesValues(m, list[i].expression, env, group);
  }

  // size() of a list is its length, and of Null is Null.
  ghost predicate MeasuresLists(m: L.Meaning) {
    forall name: string, distinct: bool, v: L.Value :: L.EqIgnoreAsciiCase(name, "size") ==>
      && (v.VList? ==> m.func(name, distinct, [v]) == Some(L.VInt(|v.items|)))
      && (v.VNull? ==> m.func(name, distinct, [v]) == Some(L.VNull))
  }

  lemma SizeIsNoKnownCall(m: L.Meaning, name: string, distinct: bool, v: Option<L.Value>)
    requires L.EqIgnoreAsciiCase(name, "size")
    ensures v.Some? ==> L.CallV(m, name, distinct, [v.value]) == m.func(name, distinct, [v.value])
  {
  }

  // Folding size([x IN l WHERE x <> null]) to 0 is right exactly when l is a list.
  lemma SizeFoldExact(m: L.Meaning, e: L.Expr, env: L.Env, group: seq<L.Env>)
    requires IsSizeOfNonNulls(e)
    requires MeasuresLists(m)
    ensures L.Eval(m, e, env, group) == Some(L.VInt(0))
       <==> L.Eval(m, e.args[0].list, env, group).Some? && L.Eval(m, e.args[0].list, env, group).value.VList?
  {
    var a := e.args[0];
    var vl := L.Eval(m, a.list, env, group);
    assert e.args == [a];
    if vl.Some? && vl.value.VList? {
      NothingKept(m, a, vl.value.items, env, group);
    }
    hide L.Eval, L.EvalAll, L.Comprehend;
    L.EvalCall(m, e.fname, e.distinct, e.args, env, group);
    EvalSingle(m, a, env, group);
    L.EvalComprehension(m, a, env, group);
    SizeIsNoKnownCall(m, e.fname, e.distinct, L.Eval(m, a, env, group));
  }

  lemma EvalSingle(m: L.Meaning, a: L.Expr, env: L.Env, group: seq<L.Env>)
    ensures L.EvalAll(m, [a], env, group) == var v := L.Eval(m, a, env, group); if v.None? then None else Some([v.value])
  {
    assert [a][1..] == [];
    assert L.EvalAll(m, [], env, group) == Some([]);
    var v := L.Eval(m, a, env, group);
    assert v.Some? ==> [v.value] + [] == [v.value];
  }

  lemma {:induction false} NothingKept(m: L.Meaning, a: L.Expr, vs: seq<L.Value>, env: L.Env, group: seq<L.Env>)
    requires IsSizeOfNonNulls(L.FunctionCall("size", false, [a]))
    ensures L.Comprehend(m, a, vs, env, group) == Some([])
  {
    if vs != [] {
      NothingKept(m, a, vs[1..], env, group);
      var env', group' := L.Bind(env, a.variable, vs[0]), L.BindAll(group, a.variable, vs[0]);
      assert L.Eval(m, L.Lit(L.Null), env', group') == Some(L.VNull);
      assert L.Eval(m, a.filter.value, env', group') == Some(L.VNull);
    }
  }

  // ---------- Aliases ----------

  ghost predicate Generated(name: string, below: nat) {
    exists n: nat :: n < below && (name == GenAlias(n) || name == AggAlias(n) || name == DummyAlias(n))
  }

  lemma GeneratedDistinct(a: nat, b: nat)
    ensures GenAlias(a) != AggAlias(b) && GenAlias(a) != DummyAlias(b) && AggAlias(a) != DummyAlias(b)
    ensures GenAlias(a) == GenAlias(b) ==> a == b
    ensures DummyAlias(a) == DummyAlias(b) ==> a == b
  {
    assert GenAlias(a)[1] == 'g' && AggAlias(a)[1] == 'a' && DummyAlias(b)[1] == 'd' && AggAlias(b)[1] == 'a';
    assert GenAlias(a)[5..] == Decimal(a) && GenAlias(b)[5..] == Decimal(b);
    assert DummyAlias(a)[11..] == Decimal(a) && DummyAlias(b)[11..] == Decimal(b);
    DecimalInjective(a, b);
  }

  lemma NotGenerated(n: nat, below: nat)
    requires below <= n
    ensures !Generated(GenAlias(n), below) && !Generated(AggAlias(n), below) && !Generated(DummyAlias(n), below)
  {
    forall k: nat | k < below
      ensures GenAlias(n) != GenAlias(k) && GenAlias(n) != AggAlias(k) && GenAlias(n) != DummyAlias(k)
      ensures AggAlias(n) != GenAlias(k) && AggAlias(n) != AggAlias(k) && AggAlias(n) != DummyAlias(k)
      ensures DummyAlias(n) != GenAlias(k) && DummyAlias(n) != AggAlias(k) && DummyAlias(n) != DummyAlias(k)
    {
      GeneratedDistinct(n, k);
      GeneratedDistinct(k, n);
      AggAliasInjective(n, k);
    }
  }

  // Aliases given by the user are distinct and look like no generated name.
  ghost predicate GoodUserAliases(list: seq<ReturnItem>) {
    && (forall i, n: nat :: 0 <= i < |list| && UserAlias(list[i]).Some? ==> !Generated(UserAlias(list[i]).value, n))
    && (forall i, j :: 0 <= i < j < |list| && UserAlias(list[i]).Some? ==> UserAlias(list[i]) != UserAlias(list[j]))
  }

  ghost predicate UserMade(name: string, list: seq<ReturnItem>) {
    exists i :: 0 <= i < |list| && UserAlias(list[i]) == Some(name)
  }

  // Every name in acc was made by the user or generated with a number below acc.gen.
  ghost predicate KnownNames(acc: Acc, list: seq<ReturnItem>) {
    && (forall i :: 0 <= i < |acc.proj| ==> UserMade(acc.proj[i].alias, list) || Generated(acc.proj[i].alias, acc.gen))
    && (forall i :: 0 <= i < |acc.aggs| ==> UserMade(acc.aggs[i].alias, list) || Generated(acc.aggs[i].alias, acc.gen))
    && (forall a :: a in acc.postGroup ==> UserMade(a, list) || Generated(a, acc.gen))
  }

  ghost predicate DistinctNames(acc: Acc) {
    && (forall i, j :: 0 <= i < j < |acc.proj| ==> acc.proj[i].alias != acc.proj[j].alias)
    && (forall i, j :: 0 <= i < j < |acc.aggs| ==> acc.aggs[i].alias != acc.aggs[j].alias)
  }

  // An alias is an aggregate output, or computed after the grouping, exactly when its item is of that kind.
  ghost predicate Split(acc: Acc, list: seq<ReturnItem>) {
    && |acc.proj| == |list|
    && (forall i :: 0 <= i < |list| ==> E.Lower(list[i].expression).Ok?)
    && (forall i :: 0 <= i < |list| ==>
          && (acc.proj[i].alias in AggAliases(acc.aggs) <==> KindOf(E.Lower(list[i].expression).value) == AggregateOutput)
          && (acc.proj[i].alias in acc.postGroup <==> KindOf(E.Lower(list[i].expression).value) == PostGroup))
  }

  ghost predicate Used(name: string, acc: Acc) {
    || (exists i :: 0 <= i < |acc.proj| && acc.proj[i].alias == name)
    || (exists i :: 0 <= i < |acc.aggs| && acc.aggs[i].alias == name)
    || name in acc.postGroup
  }

  function ItemAlias(item: ReturnItem, acc: Acc): string {
    if UserAlias(item).Some? then UserAlias(item).value else GenAlias(acc.gen)
  }

  function GenAfterAlias(item: ReturnItem, acc: Acc): nat {
    if UserAlias(item).Some? then acc.gen else acc.gen + 1
  }

  lemma UserIsNotGenerated(name: string, list: seq<ReturnItem>, n: nat)
    requires GoodUserAliases(list) && UserMade(name, list)
    ensures !Generated(name, n)
  {
  }

  lemma GeneratedIsUnused(n: nat, acc: Acc, list: seq<ReturnItem>)
    requires KnownNames(acc, list) && GoodUserAliases(list) && acc.gen <= n
    ensures !Used(GenAlias(n), acc) && !Used(AggAlias(n), acc) && !Used(DummyAlias(n), acc)
  {
    NotGenerated(n, acc.gen);
    assert Generated(GenAlias(n), n + 1) && Generated(AggAlias(n), n + 1) && Generated(DummyAlias(n), n + 1);
    assert !UserMade(GenAlias(n), list) && !UserMade(AggAlias(n), list) && !UserMade(DummyAlias(n), list) by {
      if UserMade(GenAlias(n), list) { UserIsNotGenerated(GenAlias(n), list, n + 1); }
      if UserMade(AggAlias(n), list) { UserIsNotGenerated(AggAlias(n), list, n + 1); }
      if UserMade(DummyAlias(n), list) { UserIsNotGenerated(DummyAlias(n), list, n + 1); }
    }
  }

  lemma GoodPrefix(list: seq<ReturnItem>, item: ReturnItem)
    requires GoodUserAliases(list + [item])
    ensures GoodUserAliases(list)
    ensures UserAlias(item).Some? ==> !UserMade(UserAlias(item).value, list) && forall n: nat :: !Generated(UserAlias(item).value, n)
  {
    var all := list + [item];
    assert all[|list|] == item;
    assert forall i :: 0 <= i < |list| ==> all[i] == list[i];
    forall i, n: nat | 0 <= i < |list| && UserAlias(list[i]).Some?
      ensures !Generated(UserAlias(list[i]).value, n)
    {
      assert UserAlias(all[i]).Some?;
    }
  }

  lemma ItemAliasIsUnused(item: ReturnItem, acc: Acc, list: seq<ReturnItem>)
    requires KnownNames(acc, list) && GoodUserAliases(list + [item])
    ensures !Used(ItemAlias(item, acc), acc)
  {
    GoodPrefix(list, item);
    GeneratedIsUnused(acc.gen, acc, list);
  }

  // The aggregates an item adds: its own, under its alias, or extracted ones under generated names.
  lemma AddedAggregates(item: ReturnItem, acc: Acc)
    requires AddItem(item, acc).Ok?
    ensures var next := AddItem(item, acc).value; var gen := GenAfterAlias(item, acc); var kind := KindOf(E.Lower(item.expression).value);
            && acc.aggs <= next.aggs && next.gen >= gen
            && (kind == GroupKey ==> next.aggs == acc.aggs)
            && (kind == AggregateOutput ==> |next.aggs| == |acc.aggs| + 1 && next.aggs[|acc.aggs|].alias == ItemAlias(item, acc))
            && (kind == PostGroup ==> forall i :: |acc.aggs| <= i < |next.aggs| ==>
                  && gen + i - |acc.aggs| < next.gen
                  && (next.aggs[i].alias == AggAlias(gen + i - |acc.aggs|)
                      || (next.aggs[i].alias == DummyAlias(gen) && |next.aggs| == |acc.aggs| + 1)))
  {
    ExtractAliases(E.Lower(item.expression).value, GenAfterAlias(item, acc));
  }

  // An item adds one projection under its alias, which may also be computed after the grouping.
  lemma AddedProjection(item: ReturnItem, acc: Acc)
    requires AddItem(item, acc).Ok?
    ensures var next, a := AddItem(item, acc).value, ItemAlias(item, acc);
            && |next.proj| == |acc.proj| + 1 && acc.proj <= next.proj && next.proj[|acc.proj|].alias == a
            && (next.postGroup == acc.postGroup || next.postGroup == acc.postGroup + [a])
  {
    hide E.Lower, Extract;
  }

  lemma GeneratedBelow(n: nat, gen: nat)
    requires n < gen
    ensures Generated(AggAlias(n), gen) && Generated(DummyAlias(n), gen)
  {
  }

  lemma AliasDiffers(item: ReturnItem, acc: Acc, list: seq<ReturnItem>, n: nat)
    requires GoodUserAliases(list + [item]) && GenAfterAlias(item, acc) <= n
    ensures AggAlias(n) != ItemAlias(item, acc) && DummyAlias(n) != ItemAlias(item, acc)
  {
    hide AggAlias, DummyAlias, GenAlias;
    GeneratedDistinct(acc.gen, n);
    GeneratedBelow(n, n + 1);
    if UserAlias(item).Some? {
      assert (list + [item])[|list|] == item;
    }
  }

  // The alias of one aggregate that an item adds.
  lemma AddedAlias(item: ReturnItem, acc: Acc, i: nat)
    requires AddItem(item, acc).Ok? && |acc.aggs| <= i < |AddItem(item, acc).value.aggs|
    ensures E.Lower(item.expression).Ok?
    ensures var next := AddItem(item, acc).value; var a := next.aggs[i].alias; var n := GenAfterAlias(item, acc) + i - |acc.aggs|;
            var one := |next.aggs| == |acc.aggs| + 1;
            if KindOf(E.Lower(item.expression).value) == AggregateOutput then one && a == ItemAlias(item, acc)
            else n < next.gen && (a == AggAlias(n) || (one && a == DummyAlias(n)))
  {
    AddedAggregates(item, acc);
    assert E.Lower(item.expression).Ok?;
    hide AddItem, E.Lower, Extract, AggAlias, DummyAlias, ItemAlias, GenAlias;
  }

  lemma AddedAreDistinct(item: ReturnItem, acc: Acc, i: nat, j: nat)
    requires AddItem(item, acc).Ok? && |acc.aggs| <= i < |AddItem(item, acc).value.aggs| && |acc.aggs| <= j < |AddItem(item, acc).value.aggs|
    ensures i != j ==> AddItem(item, acc).value.aggs[i].alias != AddItem(item, acc).value.aggs[j].alias
  {
    hide AddItem, E.Lower, KindOf, AggAlias, DummyAlias, ItemAlias;
    AddedAlias(item, acc, i);
    AddedAlias(item, acc, j);
    var gen := GenAfterAlias(item, acc);
    AggAliasInjective(gen + i - |acc.aggs|, gen + j - |acc.aggs|);
  }

  // No aggregate an item adds has a name used before, nor that of another.
  lemma AddedAggregatesAreUnused(item: ReturnItem, acc: Acc, list: seq<ReturnItem>, i: nat)
    requires AddItem(item, acc).Ok? && |acc.aggs| <= i < |AddItem(item, acc).value.aggs|
    requires KnownNames(acc, list) && GoodUserAliases(list + [item])
    ensures E.Lower(item.expression).Ok?
    ensures var next := AddItem(item, acc).value; var a := next.aggs[i].alias;
            && !Used(a, acc)
            && (KindOf(E.Lower(item.expression).value) != AggregateOutput ==> a != ItemAlias(item, acc))
            && (KindOf(E.Lower(item.expression).value) != AggregateOutput ==> Generated(a, next.gen))
            && forall j :: |acc.aggs| <= j < |next.aggs| && j != i ==> next.aggs[j].alias != a
  {
    hide AddItem, E.Lower, KindOf, Used, Generated, KnownNames, GoodUserAliases, AggAlias, DummyAlias, ItemAlias;
    var next := AddItem(item, acc).value;
    AddedAlias(item, acc, i);
    ItemAliasIsUnused(item, acc, list);
    if KindOf(E.Lower(item.expression).value) != AggregateOutput {
      var n := GenAfterAlias(item, acc) + i - |acc.aggs|;
      GoodPrefix(list, item);
      GeneratedIsUnused(n, acc, list);
      GeneratedBelow(n, next.gen);
      AliasDiffers(item, acc, list, n);
    }
    forall j | |acc.aggs| <= j < |next.aggs| && j != i
      ensures next.aggs[j].alias != next.aggs[i].alias
    {
      AddedAreDistinct(item, acc, i, j);
    }
  }

  lemma MoreNames(name: string, list: seq<ReturnItem>, item: ReturnItem, gen: nat, gen': nat)
    requires gen <= gen' && (UserMade(name, list) || Generated(name, gen))
    ensures UserMade(name, list + [item]) || Generated(name, gen')
  {
    if UserMade(name, list) {
      var i :| 0 <= i < |list| && UserAlias(list[i]) == Some(name);
      assert (list + [item])[i] == list[i];
    }
  }

  lemma AddItemKnown(item: ReturnItem, acc: Acc, list: seq<ReturnItem>)
    requires AddItem(item, acc).Ok?
    requires KnownNames(acc, list) && GoodUserAliases(list + [item])
    ensures KnownNames(AddItem(item, acc).value, list + [item])
  {
    hide AddItem, E.Lower, KindOf, Generated, UserMade, GoodUserAliases, Used;
    var next, all := AddItem(item, acc).value, list + [item];
    AddedAggregates(item, acc);
    AddedProjection(item, acc);
    ItemAliasIsKnown(item, acc, list, next.gen);
    forall name | UserMade(name, list) || Generated(name, acc.gen)
      ensures UserMade(name, all) || Generated(name, next.gen)
    {
      MoreNames(name, list, item, acc.gen, next.gen);
    }
    forall i | |acc.aggs| <= i < |next.aggs|
      ensures UserMade(next.aggs[i].alias, all) || Generated(next.aggs[i].alias, next.gen)
    {
      AddedAlias(item, acc, i);
      AddedAggregatesAreUnused(item, acc, list, i);
    }
  }

  lemma AddItemDistinct(item: ReturnItem, acc: Acc, list: seq<ReturnItem>)
    requires AddItem(item, acc).Ok?
    requires KnownNames(acc, list) && DistinctNames(acc) && GoodUserAliases(list + [item])
    ensures DistinctNames(AddItem(item, acc).value)
  {
    hide AddItem, E.Lower, KindOf, Generated, UserMade, GoodUserAliases, KnownNames;
    var next := AddItem(item, acc).value;
    ItemAliasIsUnused(item, acc, list);
    AddedAggregates(item, acc);
    AddedProjection(item, acc);
    forall i | |acc.aggs| <= i < |next.aggs|
      ensures !Used(next.aggs[i].alias, acc)
      ensures forall j :: |acc.aggs| <= j < |next.aggs| && j != i ==> next.aggs[j].alias != next.aggs[i].alias
    {
      AddedAggregatesAreUnused(item, acc, list, i);
    }
  }

  lemma AddItemNames(item: ReturnItem, acc: Acc, list: seq<ReturnItem>)
    requires AddItem(item, acc).Ok?
    requires KnownNames(acc, list) && DistinctNames(acc) && GoodUserAliases(list + [item])
    ensures KnownNames(AddItem(item, acc).value, list + [item]) && DistinctNames(AddItem(item, acc).value)
  {
    hide AddItem, KnownNames, DistinctNames, GoodUserAliases;
    AddItemKnown(item, acc, list);
    AddItemDistinct(item, acc, list);
  }

  lemma ItemAliasIsKnown(item: ReturnItem, acc: Acc, list: seq<ReturnItem>, gen: nat)
    requires gen >= GenAfterAlias(item, acc)
    ensures UserMade(ItemAlias(item, acc), list + [item]) || Generated(ItemAlias(item, acc), gen)
  {
    if UserAlias(item).Some? {
      assert (list + [item])[|list|] == item;
    }
  }

  lemma AddItemSplits(item: ReturnItem, acc: Acc, list: seq<ReturnItem>)
    requires AddItem(item, acc).Ok? && Split(acc, list)
    requires KnownNames(acc, list) && DistinctNames(acc) && GoodUserAliases(list + [item])
    ensures Split(AddItem(item, acc).value, list + [item])
  {
    hide E.Lower;
    var next, all := AddItem(item, acc).value, list + [item];
    ItemAliasIsUnused(item, acc, list);
    AddedAggregates(item, acc);
    forall i | |acc.aggs| <= i < |next.aggs|
      ensures !Used(next.aggs[i].alias, acc)
      ensures KindOf(E.Lower(item.expression).value) != AggregateOutput ==> next.aggs[i].alias != ItemAlias(item, acc)
    {
      AddedAggregatesAreUnused(item, acc, list, i);
    }
    forall i | 0 <= i < |all|
      ensures next.proj[i].alias in AggAliases(next.aggs) <==> KindOf(E.Lower(all[i].expression).value) == AggregateOutput
      ensures next.proj[i].alias in next.postGroup <==> KindOf(E.Lower(all[i].expression).value) == PostGroup
    {
      var a := next.proj[i].alias;
      if a in AggAliases(next.aggs) {
        var k :| 0 <= k < |next.aggs| && AggAliases(next.aggs)[k] == a;
        if i < |list| {
          assert Used(a, acc);
          assert k < |acc.aggs|;
          assert AggAliases(acc.aggs)[k] == a;
        }
      }
      if i < |list| {
        assert next.proj[i] == acc.proj[i];
        if a in AggAliases(acc.aggs) {
          var k :| 0 <= k < |acc.aggs| && AggAliases(acc.aggs)[k] == a;
          assert AggAliases(next.aggs)[k] == a;
        }
      } else if KindOf(E.Lower(item.expression).value) == AggregateOutput {
        assert AggAliases(next.aggs)[|acc.aggs|] == a;
      }
    }
  }

  lemma {:induction false} AddItemsSplit(list: seq<ReturnItem>, acc: Acc, done: seq<ReturnItem>)
    requires AddItems(list, acc).Ok? && Split(acc, done)
    requires KnownNames(acc, done) && DistinctNames(acc) && GoodUserAliases(done + list)
    ensures Split(AddItems(list, acc).value, done + list) && DistinctNames(AddItems(list, acc).value)
  {
    if list == [] {
      assert done + list == done;
    } else {
      assert done + list == (done + [list[0]]) + list[1..];
      GoodInit(done + [list[0]], list[1..]);
      AddItemNames(list[0], acc, done);
      AddItemSplits(list[0], acc, done);
      AddItemsSplit(list[1..], AddItem(list[0], acc).value, done + [list[0]]);
    }
  }

  lemma GoodInit(a: seq<ReturnItem>, b: seq<ReturnItem>)
    requires GoodUserAliases(a + b)
    ensures GoodUserAliases(a)
  {
    assert forall i :: 0 <= i < |a| ==> (a + b)[i] == a[i];
    forall i, n: nat | 0 <= i < |a| && UserAlias(a[i]).Some?
      ensures !Generated(UserAlias(a[i]).value, n)
    {
      assert UserAlias((a + b)[i]).Some?;
    }
  }

  // The output names are pairwise distinct, and each item is a group key, an
  // aggregate output or computed after the grouping by the kind of its expression.
  lemma AliasesSplit(list: seq<ReturnItem>, consts: map<string, L.Expr>)
    requires LowerItems(Explicit(list), consts).Ok? && GoodUserAliases(list)
    requires forall i :: 0 <= i < |list| ==> UserAlias(list[i]) != Some("*")
    ensures var acc := LowerItems(Explicit(list), consts).value; var keys := ProjColsKeys(acc.proj, AggAliases(acc.aggs), acc.postGroup);
            && DistinctNames(acc) && Split(acc, list)
            && forall i :: 0 <= i < |list| ==> (acc.proj[i].alias in keys <==> KindOf(E.Lower(list[i].expression).value) == GroupKey)
  {
    hide E.Lower, KindOf, Split, NoStars, DistinctNames, GoodUserAliases, UserAlias, ProjColsKeys, AggAliases, LowerItems;
    ItemsSplit(list, consts);
    KeysOfSplit(LowerItems(Explicit(list), consts).value, list);
  }

  predicate NoStars(acc: Acc, n: nat) {
    forall i :: 0 <= i < n ==> i < |acc.proj| && acc.proj[i].alias != "*"
  }

  lemma ItemsSplit(list: seq<ReturnItem>, consts: map<string, L.Expr>)
    requires LowerItems(Explicit(list), consts).Ok? && GoodUserAliases(list)
    requires forall i :: 0 <= i < |list| ==> UserAlias(list[i]) != Some("*")
    ensures var acc := LowerItems(Explicit(list), consts).value;
            && DistinctNames(acc) && Split(acc, list)
            && NoStars(acc, |list|)
  {
    hide E.Lower, AddItem, AddItems, KindOf, Split, KnownNames, DistinctNames, GoodUserAliases, UserAlias, AggAliases;
    var start := Acc([], [], [], 0, consts);
    StartSplits(consts);
    assert [] + list == list;
    AddItemsSplit(list, start, []);
    forall i | 0 <= i < |list|
      ensures var acc := AddItems(list, start).value; i < |acc.proj| && acc.proj[i].alias != "*"
    {
      AliasIsNotStar(list, start, i);
    }
  }

  lemma StartSplits(consts: map<string, L.Expr>)
    ensures var start := Acc([], [], [], 0, consts); Split(start, []) && KnownNames(start, []) && DistinctNames(start)
  {
  }

  lemma KeysOfSplit(acc: Acc, list: seq<ReturnItem>)
    requires Split(acc, list) && NoStars(acc, |list|)
    ensures forall i :: 0 <= i < |list| ==>
              (acc.proj[i].alias in ProjColsKeys(acc.proj, AggAliases(acc.aggs), acc.postGroup) <==> KindOf(E.Lower(list[i].expression).value) == GroupKey)
  {
    hide E.Lower, KindOf, AggAliases, ProjColsKeys;
  }

  lemma {:induction false} AliasIsNotStar(list: seq<ReturnItem>, acc: Acc, i: nat)
    requires AddItems(list, acc).Ok? && i < |list| && UserAlias(list[i]) != Some("*")
    ensures |AddItems(list, acc).value.proj| == |acc.proj| + |list| && AddItems(list, acc).value.proj[|acc.proj| + i].alias != "*"
  {
    AddItemsAppends(list, acc);
    var next := AddItem(list[0], acc).value;
    AddItemsAppends(list[1..], next);
    if i > 0 {
      assert list[1..][i - 1] == list[i];
      AliasIsNotStar(list[1..], next, i - 1);
    } else {
      assert |GenAlias(acc.gen)| >= 5;
    }
  }
}

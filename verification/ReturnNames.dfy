/** The names of RETURN and WITH items: the variables they bind and the columns shown. */
module ReturnNames {
  import opened Prelude
  import opened Aggregates
  import opened ReturnItems
  import L = Lqa
  import C = Cypher
  import E = LowerExpr

  // ---------- The text of an expression ----------

  function Join(ts: seq<string>): string {
    if ts == [] then ""
    else if |ts| == 1 then ts[0]
    else Join(ts[..|ts| - 1]) + ", " + ts[|ts| - 1]
  }

  // s is how the variable, property or call reads.
  ghost predicate Reads(e: C.Expression, s: string) {
    match e
    case Variable(x) => s == x
    case Property(a, k) => exists b :: Reads(a, b) && s == b + "." + k
    case FunctionCall(f, _, es) => exists ts :: ReadsAll(es, ts) && s == f + "(" + Join(ts) + ")"
    case _ => false
  }

  ghost predicate ReadsAll(es: seq<C.Expression>, ts: seq<string>) {
    |ts| == |es| && forall i :: 0 <= i < |es| ==> Reads(es[i], ts[i])
  }

  lemma {:induction false} JoinFirst(t: string, ts: seq<string>)
    requires ts != []
    ensures Join([t] + ts) == t + ", " + Join(ts)
  {
    var all := [t] + ts;
    assert all[|all| - 1] == ts[|ts| - 1];
    if |ts| == 1 {
      assert all[..1] == [t];
    } else {
      assert all[..|all| - 1] == [t] + ts[..|ts| - 1];
      JoinFirst(t, ts[..|ts| - 1]);
    }
  }

  lemma {:induction false} NaturalIff(e: C.Expression, s: string)
    ensures NaturalAlias(e) == Some(s) <==> Reads(e, s)
    decreases e, 1
  {
    match e {
      case Property(a, k) =>
        forall b
          ensures NaturalAlias(a) == Some(b) <==> Reads(a, b)
        {
          NaturalIff(a, b);
        }
      case FunctionCall(f, d, es) =>
        NaturalCallIff(f, d, es, s);
      case _ =>
    }
  }

  lemma {:induction false} NaturalCallIff(f: string, d: bool, es: seq<C.Expression>, s: string)
    ensures NaturalAlias(C.FunctionCall(f, d, es)) == Some(s) <==> Reads(C.FunctionCall(f, d, es), s)
    decreases C.FunctionCall(f, d, es), 0
  {
    hide Reads, NaturalAlias, ReadsAll;
    CallText(f, d, es, s);
    forall ts | ReadsAll(es, ts)
      ensures NaturalAliases(es) == Some(Join(ts))
    {
      NaturalAllIff(es, ts);
    }
    if NaturalAliases(es).Some? {
      var ts := NaturalTexts(es);
      NaturalAllIff(es, ts);
    }
  }

  lemma CallText(f: string, d: bool, es: seq<C.Expression>, s: string)
    ensures Reads(C.FunctionCall(f, d, es), s) <==> exists ts :: ReadsAll(es, ts) && s == f + "(" + Join(ts) + ")"
    ensures NaturalAlias(C.FunctionCall(f, d, es)) == if NaturalAliases(es).None? then None else Some(f + "(" + NaturalAliases(es).value + ")")
  {
    var e := C.FunctionCall(f, d, es);
    if Reads(e, s) {
      var ts :| ReadsAll(e.args, ts) && s == e.fname + "(" + Join(ts) + ")";
      assert ReadsAll(es, ts);
    }
    forall ts | ReadsAll(es, ts) && s == f + "(" + Join(ts) + ")"
      ensures Reads(e, s)
    {
      assert ReadsAll(e.args, ts);
    }
  }

  lemma {:induction false} NaturalTexts(es: seq<C.Expression>) returns (ts: seq<string>)
    requires NaturalAliases(es).Some?
    ensures ReadsAll(es, ts)
    decreases es, 0
  {
    hide Reads;
    if es == [] {
      ts := [];
    } else {
      var t := NaturalAlias(es[0]).value;
      NaturalIff(es[0], t);
      var rest := NaturalTexts(es[1..]);
      ts := [t] + rest;
      assert forall i :: 0 < i < |es| ==> es[i] == es[1..][i - 1] && ts[i] == rest[i - 1];
    }
  }

  lemma {:induction false} NaturalAllIff(es: seq<C.Expression>, ts: seq<string>)
    requires ReadsAll(es, ts)
    ensures NaturalAliases(es) == Some(Join(ts))
    decreases es, 0
  {
    hide Reads;
    if es != [] {
      NaturalIff(es[0], ts[0]);
      assert forall i :: 0 <= i < |ts[1..]| ==> es[1..][i] == es[i + 1] && ts[1..][i] == ts[i + 1];
      NaturalAllIff(es[1..], ts[1..]);
      assert ts == [ts[0]] + ts[1..];
      if |es| > 1 {
        JoinFirst(ts[0], ts[1..]);
      }
    }
  }

  // ---------- The names of the items ----------

  // The variable an item binds: the name after AS, that of its variable, or a generated one.
  ghost predicate Binds(item: ReturnItem, alias: string) {
    match item.alias
    case Some(a) => alias == a
    case None => if item.expression.Variable? then alias == item.expression.name else exists n: nat :: alias == "_gen_" + Decimal(n)
  }

  function Column(p: ProjItem): string {
    if p.displayName.Some? then p.displayName.value else p.alias
  }

  // The column shown: the text after AS, that of the expression, or the generated name.
  ghost predicate Shows(item: ReturnItem, p: ProjItem) {
    match item.alias
    case Some(a) => Column(p) == a
    case None =>
      && (forall s :: Reads(item.expression, s) ==> Column(p) == s)
      && ((exists s :: Reads(item.expression, s)) || Column(p) == p.alias)
  }

  // A name to show is recorded only where it is not the alias.
  ghost predicate IsNamed(item: ReturnItem, p: ProjItem) {
    Binds(item, p.alias) && Shows(item, p) && p.displayName != Some(p.alias)
  }

  lemma ItemIsNamed(item: ReturnItem, acc: Acc)
    requires AddItem(item, acc).Ok?
    ensures var next := AddItem(item, acc).value;
            && |next.proj| == |acc.proj| + 1 && acc.proj <= next.proj
            && IsNamed(item, next.proj[|acc.proj|])
  {
    hide E.Lower, Extract, Reads, NaturalAlias;
    var p := AddItem(item, acc).value.proj[|acc.proj|];
    forall s
      ensures NaturalAlias(item.expression) == Some(s) <==> Reads(item.expression, s)
    {
      NaturalIff(item.expression, s);
    }
    VariableText(item.expression);
    assert p.alias == ItemAlias(item, acc) && p.displayName == DisplayName(item, p.alias);
  }

  lemma VariableText(e: C.Expression)
    ensures e.Variable? ==> NaturalAlias(e) == Some(e.name)
  {
  }

  // Every item of RETURN and WITH binds and shows what it is written as.
  lemma {:induction false} ItemsAreNamed(list: seq<ReturnItem>, acc: Acc)
    requires AddItems(list, acc).Ok?
    ensures var r := AddItems(list, acc).value;
            && |r.proj| == |acc.proj| + |list| && acc.proj <= r.proj
            && forall i :: 0 <= i < |list| ==> IsNamed(list[i], r.proj[|acc.proj| + i])
  {
    hide AddItem, IsNamed;
    if list != [] {
      var next := AddItem(list[0], acc).value;
      ItemIsNamed(list[0], acc);
      ItemsAreNamed(list[1..], next);
      var r := AddItems(list, acc).value;
      forall i | 0 <= i < |list|
        ensures IsNamed(list[i], r.proj[|acc.proj| + i])
      {
        if i > 0 {
          assert list[i] == list[1..][i - 1];
        } else {
          assert r.proj[|acc.proj|] == next.proj[|acc.proj|];
        }
      }
    }
  }

  // RETURN * is one item of that name; the items of a list are named one by one.
  lemma NamesOfItems(items: Items, consts: map<string, L.Expr>)
    requires LowerItems(items, consts).Ok?
    ensures var proj := LowerItems(items, consts).value.proj;
            match items
            case All => |proj| == 1 && proj[0] == ProjItem(L.Variable("*"), "*", None)
            case Explicit(list) => |proj| == |list| && forall i :: 0 <= i < |list| ==> IsNamed(list[i], proj[i])
  {
    hide AddItems, IsNamed;
    if items.Explicit? {
      ItemsAreNamed(items.list, Acc([], [], [], 0, consts));
    }
  }

  // ---------- Items that are folded ----------

  // size([x IN l WHERE x <> null]), or with the sides of the test the other way around.
  function SizeTest(name: string, d: bool, x: string, l: L.Expr, swapped: bool): L.Expr {
    var test := if swapped then L.Comparison(L.Ne, L.Lit(L.Null), L.Variable(x)) else L.Comparison(L.Ne, L.Variable(x), L.Lit(L.Null));
    L.FunctionCall(name, d, [L.ListComprehension(x, l, Some(test), None)])
  }

  // No other expression is folded.
  lemma SizeTestIff(e: L.Expr)
    ensures IsSizeOfNonNulls(e) <==> exists name, d, x, l, swapped :: L.EqIgnoreAsciiCase(name, "size") && e == SizeTest(name, d, x, l, swapped)
  {
    if IsSizeOfNonNulls(e) {
      var a := e.args[0];
      var swapped := a.filter.value == L.Comparison(L.Ne, L.Lit(L.Null), L.Variable(a.variable));
      assert e.args == [a];
      assert e == SizeTest(e.fname, e.distinct, a.variable, a.list, swapped);
    }
  }

  // Such an item becomes 0, and count(*) keeps the row of an empty group.
  lemma SizeIsFolded(item: ReturnItem, name: string, d: bool, x: string, l: L.Expr, swapped: bool, acc: Acc)
    requires L.EqIgnoreAsciiCase(name, "size")
    requires E.Lower(item.expression) == Ok(SizeTest(name, d, x, l, swapped))
    ensures AddItem(item, acc).Ok?
    ensures var next := AddItem(item, acc).value;
            && |next.proj| == |acc.proj| + 1 && next.proj[|acc.proj|].expr == L.Lit(L.Integer(0))
            && next.postGroup == acc.postGroup + [next.proj[|acc.proj|].alias]
            && exists n: nat :: next.aggs == acc.aggs + [AggItem(L.Aggregate(L.CountStar, false, None), "_dummy_agg_" + Decimal(n))]
  {
    hide E.Lower;
    var gen := GenAfterAlias(item, acc);
    assert AddItem(item, acc).value.aggs == acc.aggs + [AggItem(L.Aggregate(L.CountStar, false, None), "_dummy_agg_" + Decimal(gen))];
  }

  // ---------- Literal lists ----------

  predicate IsLiteralList(item: ReturnItem) {
    E.Lower(item.expression).Ok? && E.Lower(item.expression).value.List? && !ContainsAggregate(E.Lower(item.expression).value)
  }

  // Item i is the last literal list of its name.
  ghost predicate IsLastList(list: seq<ReturnItem>, proj: seq<ProjItem>, i: int)
    requires |proj| == |list|
  {
    0 <= i < |list| && IsLiteralList(list[i]) && forall j :: i < j < |list| && IsLiteralList(list[j]) ==> proj[j].alias != proj[i].alias
  }

  ghost predicate HasNoList(list: seq<ReturnItem>, proj: seq<ProjItem>, a: string)
    requires |proj| == |list|
  {
    forall i :: 0 <= i < |list| && IsLiteralList(list[i]) ==> proj[i].alias != a
  }

  // What is known of literal lists: that of the last item of the name, and else what was known.
  ghost predicate Records(list: seq<ReturnItem>, proj: seq<ProjItem>, before: map<string, L.Expr>, after: map<string, L.Expr>)
    requires |proj| == |list|
  {
    && (forall i :: 0 <= i < |list| && IsLastList(list, proj, i) ==> proj[i].alias in after && E.Lower(list[i].expression) == Ok(after[proj[i].alias]))
    && (forall a :: HasNoList(list, proj, a) ==> (a in after <==> a in before) && (a in before ==> after[a] == before[a]))
  }

  lemma {:induction false} ListsAreRecorded(list: seq<ReturnItem>, acc: Acc)
    requires AddItems(list, acc).Ok?
    ensures var r := AddItems(list, acc).value;
            |r.proj| == |acc.proj| + |list| && Records(list, r.proj[|acc.proj|..], acc.consts, r.consts)
  {
    hide AddItem, IsLiteralList, E.Lower, Records;
    AddItemsAppends(list, acc);
    if list == [] {
      NothingRecorded(acc.consts);
      assert acc.proj[|acc.proj|..] == [];
    }
    if list != [] {
      var next, rest := AddItem(list[0], acc).value, list[1..];
      var r := AddItems(list, acc).value;
      ListIsRecorded(list[0], acc);
      ListsAreRecorded(rest, next);
      assert E.Lower(list[0].expression).Ok?;
      AddItemsAppends(rest, next);
      var proj, later := r.proj[|acc.proj|..], r.proj[|next.proj|..];
      assert proj == [r.proj[|acc.proj|]] + later && r.proj[|acc.proj|] == next.proj[|acc.proj|];
      assert proj[1..] == later;
      RecordsFirst(list, proj, acc.consts, next.consts, r.consts);
    }
  }

  lemma RecordsFirst(list: seq<ReturnItem>, proj: seq<ProjItem>, before: map<string, L.Expr>, between: map<string, L.Expr>, after: map<string, L.Expr>)
    requires list != [] && |proj| == |list| && E.Lower(list[0].expression).Ok?
    requires between == if IsLiteralList(list[0]) then before[proj[0].alias := E.Lower(list[0].expression).value] else before
    requires Records(list[1..], proj[1..], between, after)
    ensures Records(list, proj, before, after)
  {
    hide IsLiteralList, E.Lower, IsLastList, HasNoList;
    forall i | 0 <= i < |list| && IsLastList(list, proj, i)
      ensures proj[i].alias in after && E.Lower(list[i].expression) == Ok(after[proj[i].alias])
    {
      LastInTail(list, proj, i);
    }
    forall a | HasNoList(list, proj, a)
      ensures (a in after <==> a in before) && (a in before ==> after[a] == before[a])
    {
      NoneInTail(list, proj, a);
    }
  }

  lemma LastInTail(list: seq<ReturnItem>, proj: seq<ProjItem>, i: int)
    requires |proj| == |list| && IsLastList(list, proj, i)
    ensures 0 <= i < |list| && IsLiteralList(list[i])
    ensures i > 0 ==> IsLastList(list[1..], proj[1..], i - 1) && list[1..][i - 1] == list[i] && proj[1..][i - 1] == proj[i]
    ensures i == 0 ==> HasNoList(list[1..], proj[1..], proj[0].alias)
  {
    hide IsLiteralList;
    forall j | i <= j < |list[1..]| && IsLiteralList(list[1..][j])
      ensures proj[1..][j].alias != proj[i].alias
    {
      assert list[1..][j] == list[j + 1];
    }
  }

  lemma NoneInTail(list: seq<ReturnItem>, proj: seq<ProjItem>, a: string)
    requires list != [] && |proj| == |list| && HasNoList(list, proj, a)
    ensures HasNoList(list[1..], proj[1..], a)
    ensures IsLiteralList(list[0]) ==> proj[0].alias != a
  {
    hide IsLiteralList;
    forall j | 0 <= j < |list[1..]| && IsLiteralList(list[1..][j])
      ensures proj[1..][j].alias != a
    {
      assert list[1..][j] == list[j + 1];
    }
  }

  lemma NothingRecorded(consts: map<string, L.Expr>)
    ensures Records([], [], consts, consts)
  {
  }

  lemma ListIsRecorded(item: ReturnItem, acc: Acc)
    requires AddItem(item, acc).Ok?
    ensures var next := AddItem(item, acc).value;
            && |next.proj| == |acc.proj| + 1 && acc.proj <= next.proj && E.Lower(item.expression).Ok?
            && next.consts == if IsLiteralList(item) then acc.consts[next.proj[|acc.proj|].alias := E.Lower(item.expression).value] else acc.consts
  {
    hide E.Lower, Extract;
  }
}

/** Building comparison expressions from parse trees.

    The grammar nests a chain to the right: a < b <= c is a followed by a suffix
    whose right-hand side is the comparison b <= c.  The builder turns it into a
    conjunction in which b is shared.
 */
module ComparisonChain {
  import opened Prelude
  import L = Lqa
  import C = Cypher

  // Operands are the expressions already built for them.
  datatype CompExpr = CompExpr(first: C.Expression, suffixes: seq<Suffix>)

  datatype Suffix =
    | Compare(op: L.CmpOp, rhs: CompExpr)
    | Keyword(cmp: L.CmpOp, operand: C.Expression)
    | NotIn(operand: C.Expression)
    | IsNull
    | IsNotNull

  // ---------- What is built ----------

  predicate HasCompareSuffix(c: CompExpr) {
    exists i :: 0 <= i < |c.suffixes| && c.suffixes[i].Compare?
  }

  function Build(c: CompExpr): C.Expression
    decreases c, 1
  {
    BuildSuffixes(c.first, c.suffixes)
  }

  function BuildSuffixes(lhs: C.Expression, suffixes: seq<Suffix>): C.Expression
    decreases suffixes, 0
  {
    if suffixes == [] then lhs
    else
      assert suffixes decreases to suffixes[0];
      BuildSuffixes(BuildSuffix(lhs, suffixes[0]), suffixes[1..])
  }

  function BuildSuffix(lhs: C.Expression, s: Suffix): C.Expression
    decreases s, 2
  {
    match s
    case Compare(op, rhs) =>
      if HasCompareSuffix(rhs) then C.And(C.Comparison(lhs, op, rhs.first), Build(rhs))
      else C.Comparison(lhs, op, Build(rhs))
    case Keyword(op, e) => C.Comparison(lhs, op, e)
    case NotIn(e) => C.Not(C.Comparison(lhs, L.In, e))
    case IsNull => C.IsNull(lhs)
    case IsNotNull => C.IsNotNull(lhs)
  }

  // ---------- The builder ----------

  method BuildComparisonExpr(c: CompExpr) returns (e: C.Expression)
    ensures e == Build(c)
    decreases c, 1
  {
    var current := c.first;
    for i := 0 to |c.suffixes|
      invariant Build(c) == BuildSuffixes(current, c.suffixes[i..])
    {
      assert c.suffixes[i..][0] == c.suffixes[i] && c.suffixes[i..][1..] == c.suffixes[i + 1..];
      assert c.suffixes decreases to c.suffixes[i];
      current := BuildComparisonSuffix(current, c.suffixes[i]);
    }
    return current;
  }

  method BuildComparisonSuffix(lhs: C.Expression, s: Suffix) returns (e: C.Expression)
    ensures e == BuildSuffix(lhs, s)
    decreases s, 2
  {
    match s {
      case Compare(op, rhs) =>
        if HasCompareSuffix(rhs) {
          var mid := rhs.first;
          var current := mid;
          for i := 0 to |rhs.suffixes|
            invariant Build(rhs) == BuildSuffixes(current, rhs.suffixes[i..])
          {
            assert rhs.suffixes[i..][0] == rhs.suffixes[i] && rhs.suffixes[i..][1..] == rhs.suffixes[i + 1..];
            assert s decreases to rhs.suffixes[i];
            current := BuildComparisonSuffix(current, rhs.suffixes[i]);
          }
          return C.And(C.Comparison(lhs, op, mid), current);
        }
        var built := BuildComparisonExpr(rhs);
        return C.Comparison(lhs, op, built);
      case Keyword(op, operand) => return C.Comparison(lhs, op, operand);
      case NotIn(operand) => return C.Not(C.Comparison(lhs, L.In, operand));
      case IsNull => return C.IsNull(lhs);
      case IsNotNull => return C.IsNotNull(lhs);
    }
  }

  // ---------- Chains ----------

  // op and the operand after it.
  datatype Link = Link(op: L.CmpOp, operand: C.Expression)

  // The parse tree of first op1 e1 op2 e2 ...
  function ChainTree(first: C.Expression, links: seq<Link>): CompExpr
    decreases links
  {
    CompExpr(first, if links == [] then [] else [Compare(links[0].op, ChainTree(links[0].operand, links[1..]))])
  }

  function Operand(first: C.Expression, links: seq<Link>, i: nat): C.Expression
    requires i <= |links|
  {
    if i == 0 then first else links[i - 1].operand
  }

  // The truth of the comparison between operands i and i + 1, from their values.
  function Adjacent(m: L.Meaning, values: seq<L.Value>, links: seq<Link>, i: nat): L.Value
    requires i < |links| && |values| == |links| + 1
  {
    L.CompareV(m, links[i].op, values[i], values[i + 1])
  }

  ghost predicate Values(m: L.Meaning, env: L.Env, group: seq<L.Env>, first: C.Expression, links: seq<Link>, values: seq<L.Value>) {
    |values| == |links| + 1 && forall i :: 0 <= i < |values| ==> C.Eval(m, Operand(first, links, i), env, group) == Some(values[i])
  }

  // False if some comparison is false, else Null if some is Null, else true.
  ghost predicate IsConjunction(m: L.Meaning, values: seq<L.Value>, links: seq<Link>, v: L.Value)
    requires |values| == |links| + 1
  {
    var someFalse := exists i :: 0 <= i < |links| && Adjacent(m, values, links, i) == L.VBool(false);
    var someNull := exists i :: 0 <= i < |links| && Adjacent(m, values, links, i) == L.VNull;
    v == if someFalse then L.VBool(false) else if someNull then L.VNull else L.VBool(true)
  }

  lemma BuiltChain(first: C.Expression, links: seq<Link>)
    requires links != []
    ensures var rest := ChainTree(links[0].operand, links[1..]);
            var comparison := C.Comparison(first, links[0].op, links[0].operand);
            Build(ChainTree(first, links)) == if |links| == 1 then comparison else C.And(comparison, Build(rest))
  {
    var rest := ChainTree(links[0].operand, links[1..]);
    var suffixes := [Compare(links[0].op, rest)];
    assert suffixes[1..] == [];
    assert BuildSuffixes(BuildSuffix(first, suffixes[0]), suffixes[1..]) == BuildSuffix(first, suffixes[0]);
    if |links| == 1 {
      assert links[1..] == [] && rest.suffixes == [];
      assert Build(rest) == links[0].operand;
    } else {
      assert rest.suffixes[0].Compare?;
    }
  }

  lemma EvalLink(m: L.Meaning, env: L.Env, group: seq<L.Env>, a: C.Expression, op: L.CmpOp, b: C.Expression)
    ensures var va, vb, v := C.Eval(m, a, env, group), C.Eval(m, b, env, group), C.Eval(m, C.Comparison(a, op, b), env, group);
            && (va.None? || vb.None? ==> v.None?)
            && (va.Some? && vb.Some? ==> v == Some(L.CompareV(m, op, va.value, vb.value)))
  {
    hide C.EvalAll, C.EvalPairs, C.EvalWhens, C.EvalRows, C.Comprehend, L.CompareV;
  }

  lemma EvalAnd(m: L.Meaning, env: L.Env, group: seq<L.Env>, a: C.Expression, b: C.Expression)
    ensures var va, vb, v := C.Eval(m, a, env, group), C.Eval(m, b, env, group), C.Eval(m, C.And(a, b), env, group);
            && (va.None? || vb.None? ==> v.None?)
            && (va.Some? && vb.Some? ==> v == L.AndV(va.value, vb.value))
  {
    hide C.EvalAll, C.EvalPairs, C.EvalWhens, C.EvalRows, C.Comprehend, L.AndV;
  }

  // A chain of any length has the value of the conjunction of its adjacent comparisons,
  // each inner operand being compared on both sides.
  lemma {:induction false} ChainMeaning(m: L.Meaning, env: L.Env, group: seq<L.Env>, first: C.Expression, links: seq<Link>, values: seq<L.Value>)
    returns (v: L.Value)
    requires links != [] && Values(m, env, group, first, links, values)
    ensures C.Eval(m, Build(ChainTree(first, links)), env, group) == Some(v)
    ensures IsConjunction(m, values, links, v)
    decreases links
  {
    hide C.Eval, Build;
    BuiltChain(first, links);
    assert Operand(first, links, 0) == first && Operand(first, links, 1) == links[0].operand;
    EvalLink(m, env, group, first, links[0].op, links[0].operand);
    if |links| == 1 {
      v := Adjacent(m, values, links, 0);
    } else {
      var rest, vals := links[1..], values[1..];
      assert forall i :: 0 <= i < |vals| ==> Operand(links[0].operand, rest, i) == Operand(first, links, i + 1);
      var w := ChainMeaning(m, env, group, links[0].operand, rest, vals);
      EvalAnd(m, env, group, C.Comparison(first, links[0].op, links[0].operand), Build(ChainTree(links[0].operand, rest)));
      v := L.AndV(Adjacent(m, values, links, 0), w).value;
      ConjunctionCons(m, values, links, w, v);
    }
  }

  lemma ConjunctionCons(m: L.Meaning, values: seq<L.Value>, links: seq<Link>, w: L.Value, v: L.Value)
    requires |links| > 1 && |values| == |links| + 1 && IsConjunction(m, values[1..], links[1..], w)
    requires L.AndV(Adjacent(m, values, links, 0), w) == Some(v)
    ensures IsConjunction(m, values, links, v)
  {
    var rest, vals := links[1..], values[1..];
    forall i | 0 < i < |links|
      ensures Adjacent(m, values, links, i) == Adjacent(m, vals, rest, i - 1)
    {
    }
    forall i | 0 <= i < |rest|
      ensures Adjacent(m, vals, rest, i) == Adjacent(m, values, links, i + 1)
    {
    }
  }

  // A chain fails exactly when one of its operands does.
  lemma {:induction false} ChainFails(m: L.Meaning, env: L.Env, group: seq<L.Env>, first: C.Expression, links: seq<Link>)
    requires links != []
    ensures C.Eval(m, Build(ChainTree(first, links)), env, group).None?
       <==> exists i :: 0 <= i <= |links| && C.Eval(m, Operand(first, links, i), env, group).None?
    decreases links
  {
    hide C.Eval, Build;
    if forall i :: 0 <= i <= |links| ==> C.Eval(m, Operand(first, links, i), env, group).Some? {
      var values := seq(|links| + 1, i requires 0 <= i <= |links| => C.Eval(m, Operand(first, links, i), env, group).value);
      var v := ChainMeaning(m, env, group, first, links, values);
    } else {
      var i :| 0 <= i <= |links| && C.Eval(m, Operand(first, links, i), env, group).None?;
      BuiltChain(first, links);
      assert Operand(first, links, 0) == first && Operand(first, links, 1) == links[0].operand;
      EvalLink(m, env, group, first, links[0].op, links[0].operand);
      if |links| > 1 {
        EvalAnd(m, env, group, C.Comparison(first, links[0].op, links[0].operand), Build(ChainTree(links[0].operand, links[1..])));
        if i >= 2 {
          ChainFails(m, env, group, links[0].operand, links[1..]);
          assert Operand(links[0].operand, links[1..], i - 1) == Operand(first, links, i);
        }
      }
    }
  }

  // ---------- All parse trees ----------

  // The comparison of two values, null or not; none where one of them is none.
  function Compared(m: L.Meaning, op: L.CmpOp, v: Option<L.Value>, w: Option<L.Value>): Option<L.Value> {
    if v.Some? && w.Some? then Some(L.CompareV(m, op, v.value, w.value)) else None
  }

  // The right side of a comparison is compared further on.
  predicate Continues(c: CompExpr) {
    exists s :: s in c.suffixes && s.Compare?
  }

  // The value of a parse tree: suffixes apply from left to right, each to the value of all
  // before it, and a comparison whose right side continues holds of the first operand there
  // and together with the rest.
  function ValueOf(m: L.Meaning, env: L.Env, group: seq<L.Env>, c: CompExpr): Option<L.Value>
    decreases c, 1
  {
    After(m, env, group, C.Eval(m, c.first, env, group), c.suffixes)
  }

  function After(m: L.Meaning, env: L.Env, group: seq<L.Env>, v: Option<L.Value>, suffixes: seq<Suffix>): Option<L.Value>
    decreases suffixes, 0
  {
    if suffixes == [] then v
    else
      assert suffixes decreases to suffixes[0];
      After(m, env, group, Applied(m, env, group, v, suffixes[0]), suffixes[1..])
  }

  function Applied(m: L.Meaning, env: L.Env, group: seq<L.Env>, v: Option<L.Value>, s: Suffix): Option<L.Value>
    decreases s, 2
  {
    match s
    case Compare(op, rhs) =>
      if Continues(rhs) then
        var here :- Compared(m, op, v, C.Eval(m, rhs.first, env, group));
        var rest :- ValueOf(m, env, group, rhs);
        L.AndV(here, rest)
      else Compared(m, op, v, ValueOf(m, env, group, rhs))
    case Keyword(op, e) => Compared(m, op, v, C.Eval(m, e, env, group))
    case NotIn(e) =>
      var here :- Compared(m, L.In, v, C.Eval(m, e, env, group));
      L.NotV(here)
    case IsNull =>
      var w :- v;
      Some(L.VBool(w == L.VNull))
    case IsNotNull =>
      var w :- v;
      Some(L.VBool(w != L.VNull))
  }

  // The expression built has the value of the parse tree, errors included, whatever
  // suffixes it mixes.
  lemma {:induction false} BuildMeans(m: L.Meaning, env: L.Env, group: seq<L.Env>, c: CompExpr)
    ensures C.Eval(m, Build(c), env, group) == ValueOf(m, env, group, c)
    decreases c, 1
  {
    hide C.Eval;
    SuffixesMean(m, env, group, c.first, c.suffixes);
  }

  lemma {:induction false} SuffixesMean(m: L.Meaning, env: L.Env, group: seq<L.Env>, lhs: C.Expression, suffixes: seq<Suffix>)
    ensures C.Eval(m, BuildSuffixes(lhs, suffixes), env, group) == After(m, env, group, C.Eval(m, lhs, env, group), suffixes)
    decreases suffixes, 0
  {
    hide C.Eval, BuildSuffix, Applied;
    if suffixes != [] {
      assert suffixes decreases to suffixes[0];
      SuffixMeans(m, env, group, lhs, suffixes[0]);
      SuffixesMean(m, env, group, BuildSuffix(lhs, suffixes[0]), suffixes[1..]);
    }
  }

  lemma {:induction false} SuffixMeans(m: L.Meaning, env: L.Env, group: seq<L.Env>, lhs: C.Expression, s: Suffix)
    ensures C.Eval(m, BuildSuffix(lhs, s), env, group) == Applied(m, env, group, C.Eval(m, lhs, env, group), s)
    decreases s, 2
  {
    hide C.Eval, Build, ValueOf;
    match s {
      case Compare(op, rhs) =>
        BuildMeans(m, env, group, rhs);
        ContinuesIff(rhs);
        if Continues(rhs) {
          EvalLink(m, env, group, lhs, op, rhs.first);
          EvalAnd(m, env, group, C.Comparison(lhs, op, rhs.first), Build(rhs));
        } else {
          EvalLink(m, env, group, lhs, op, Build(rhs));
        }
      case Keyword(op, e) => EvalLink(m, env, group, lhs, op, e);
      case NotIn(e) =>
        EvalLink(m, env, group, lhs, L.In, e);
        EvalNotC(m, env, group, C.Comparison(lhs, L.In, e));
      case _ => EvalNullTest(m, env, group, lhs);
    }
  }

  lemma ContinuesIff(c: CompExpr)
    ensures HasCompareSuffix(c) <==> Continues(c)
  {
    if i :| 0 <= i < |c.suffixes| && c.suffixes[i].Compare? {
      assert c.suffixes[i] in c.suffixes;
    }
  }

  lemma EvalNotC(m: L.Meaning, env: L.Env, group: seq<L.Env>, a: C.Expression)
    ensures C.Eval(m, C.Not(a), env, group) == var v := C.Eval(m, a, env, group); if v.None? then None else L.NotV(v.value)
  {
    hide C.EvalAll, C.EvalPairs, C.EvalWhens, C.EvalRows, C.Comprehend, L.NotV;
  }

  lemma EvalNullTest(m: L.Meaning, env: L.Env, group: seq<L.Env>, a: C.Expression)
    ensures var v := C.Eval(m, a, env, group);
            && C.Eval(m, C.IsNull(a), env, group) == (if v.None? then None else Some(L.VBool(v.value == L.VNull)))
            && C.Eval(m, C.IsNotNull(a), env, group) == (if v.None? then None else Some(L.VBool(v.value != L.VNull)))
  {
    hide C.EvalAll, C.EvalPairs, C.EvalWhens, C.EvalRows, C.Comprehend;
  }
}

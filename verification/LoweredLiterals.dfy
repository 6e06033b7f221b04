/** Integer literals of lowered expressions are i64, as those of the parsed ones are: negation
    and folded ranges do not leave the type. */
module LoweredLiterals {
  import opened Prelude
  import opened LowerExpr
  import L = Lqa
  import C = Cypher
  import Range

  predicate Fits(e: L.Expr) {
    match e
    case Variable(_) => true
    case Lit(l) => l.Integer? ==> FitsI64(l.n)
    case Arith(_, a, b) => Fits(a) && Fits(b)
    case Unary(_, a) => Fits(a)
    case Comparison(_, a, b) => Fits(a) && Fits(b)
    case IsNull(a) => Fits(a)
    case IsNotNull(a) => Fits(a)
    case And(a, b) => Fits(a) && Fits(b)
    case Or(a, b) => Fits(a) && Fits(b)
    case Xor(a, b) => Fits(a) && Fits(b)
    case Not(a) => Fits(a)
    case Property(a, _) => Fits(a)
    case Subscript(a, b) => Fits(a) && Fits(b)
    case List(es) => forall i :: 0 <= i < |es| ==> Fits(es[i])
    case Map(ps) => forall i :: 0 <= i < |ps| ==> Fits(ps[i].value)
    case FunctionCall(_, _, es) => forall i :: 0 <= i < |es| ==> Fits(es[i])
    case Aggregate(_, _, a) => a.Some? ==> Fits(a.value)
    case CaseSearched(bs, o) => AllFit(bs) && (o.Some? ==> Fits(o.value))
    case ListComprehension(_, l, f, p) => Fits(l) && (f.Some? ==> Fits(f.value)) && (p.Some? ==> Fits(p.value))
    case LabelCheck(a, _) => Fits(a)
  }

  predicate AllFit(bs: seq<L.Branch>) {
    bs != [] ==> (assert bs decreases to bs[0]; Fits(bs[0].cond) && Fits(bs[0].result)) && AllFit(bs[1..])
  }

  lemma NegationFits(n: int)
    ensures FitsI64(n) ==> FitsI64(NegateI64(n))
  {
  }

  lemma {:induction false} LoopFits(i: int, end: int, step: int)
    requires step != 0 && FitsI64(i) && Range.Loop(i, end, step).Some?
    ensures forall k :: 0 <= k < |Range.Loop(i, end, step).value| ==> FitsI64(Range.Loop(i, end, step).value[k])
    decreases if step > 0 then end - i else i - end
  {
    if Range.Going(i, end, step) {
      LoopFits(i + step, end, step);
    }
  }

  lemma {:induction false} LiteralsFit(e: C.Expression)
    requires C.WellFormed(e) && Lower(e).Ok?
    ensures Fits(Lower(e).value)
    decreases e, 1
  {
    hide FoldsRange, LowerWhens, LowerOpt, LowerAll, LowerPairs, NegateI64, Range.Loop;
    match e {
      case Variable(_) =>
      case Literal(_) =>
      case LabelCheck(_, _) =>
      case Arith(_, _, _) => OperandsFit(e);
      case Or(_, _) => OperandsFit(e);
      case Xor(_, _) => OperandsFit(e);
      case And(_, _) => OperandsFit(e);
      case Comparison(_, _, _) => ComparisonFits(e);
      case FunctionCall(_, _, _) => CallFits(e);
      case Aggregate(_, _, arg) => if arg.Some? { LiteralsFit(arg.value); }
      case List(es) => ElementsFit(es);
      case Map(ps) => EntriesFit(ps);
      case Subscript(_, _) => SubscriptFits(e);
      case CaseExpression(_, _, _) => CaseFits(e);
      case ListComprehension(_, _, _, _) => ComprehensionFits(e);
      case _ => OperandFits(e);
    }
  }

  lemma {:induction false} OperandFits(e: C.Expression)
    requires (e.Property? || e.Negate? || e.Not? || e.IsNull? || e.IsNotNull?) && C.WellFormed(e) && Lower(e).Ok?
    ensures Fits(Lower(e).value)
    decreases e, 0
  {
    hide FoldsRange, LowerWhens, LowerOpt, LowerAll, LowerPairs, NegateI64, Range.Loop;
    if e.Negate? && IsIntLit(e.e) {
      NegationFits(e.e.lit.n);
    } else {
      LiteralsFit(e.e);
    }
  }

  lemma {:induction false} OperandsFit(e: C.Expression)
    requires (e.Arith? || e.Or? || e.Xor? || e.And?) && C.WellFormed(e) && Lower(e).Ok?
    ensures Fits(Lower(e).value)
    decreases e, 0
  {
    hide FoldsRange, LowerWhens, LowerOpt, LowerAll, LowerPairs, NegateI64, Range.Loop;
    LiteralsFit(e.l);
    LiteralsFit(e.r);
    XorFits(Lower(e.l).value, Lower(e.r).value);
  }

  lemma XorFits(a: L.Expr, b: L.Expr)
    ensures Fits(L.And(L.Or(a, b), L.Not(L.And(a, b)))) <==> Fits(a) && Fits(b)
  {
    assert Fits(L.Or(a, b)) <==> Fits(a) && Fits(b);
    assert Fits(L.Not(L.And(a, b))) <==> Fits(L.And(a, b));
  }

  lemma ComparisonIs(a: C.Expression, op: L.CmpOp, b: C.Expression)
    requires Lower(C.Comparison(a, op, b)).Ok?
    ensures Lower(a).Ok? && Lower(b).Ok?
    ensures Lower(C.Comparison(a, op, b)).value
         == if IsStringOp(op) then L.FunctionCall(StringOpName(op), false, [Lower(a).value, Lower(b).value])
            else L.Comparison(op, Lower(a).value, Lower(b).value)
  {
    hide FoldsRange, LowerWhens, LowerOpt, LowerAll, LowerPairs, NegateI64, Range.Loop;
  }

  lemma {:induction false} ComparisonFits(e: C.Expression)
    requires e.Comparison? && C.WellFormed(e) && Lower(e).Ok?
    ensures Fits(Lower(e).value)
    decreases e, 0
  {
    hide Lower;
    ComparisonIs(e.l, e.cmp, e.r);
    LiteralsFit(e.l);
    LiteralsFit(e.r);
    if IsStringOp(e.cmp) {
      CallOfTwoFits(StringOpName(e.cmp), Lower(e.l).value, Lower(e.r).value);
    }
  }

  lemma CallOfTwoFits(name: string, a: L.Expr, b: L.Expr)
    ensures Fits(L.FunctionCall(name, false, [a, b])) <==> Fits(a) && Fits(b)
  {
    var es := [a, b];
    assert es[0] == a && es[1] == b;
    if Fits(L.FunctionCall(name, false, es)) {
      assert Fits(es[0]) && Fits(es[1]);
    }
  }

  lemma {:induction false} CallFits(e: C.Expression)
    requires e.FunctionCall? && C.WellFormed(e) && Lower(e).Ok?
    ensures Fits(Lower(e).value)
    decreases e, 0
  {
    hide LowerAll, Range.Loop;
    var es := e.args;
    if FoldsRange(e) {
      assert forall i :: 0 <= i < |es| ==> FitsI64(es[i].lit.n) by {
        assert forall i :: 0 <= i < |es| ==> C.WellFormed(es[i]);
      }
      LoopFits(es[0].lit.n, es[1].lit.n, if |es| == 3 then es[2].lit.n else 1);
    } else {
      ElementsFit(es);
    }
  }

  lemma {:induction false} SubscriptFits(e: C.Expression)
    requires e.Subscript? && C.WellFormed(e) && Lower(e).Ok?
    ensures Fits(Lower(e).value)
    decreases e, 0
  {
    hide LowerWhens, LowerOpt, LowerAll, LowerPairs, FoldsRange;
    var a, b := e.list, e.index;
    if FoldsSubscript(e) {
      var i := IndexOf(a.items, b.lit.n);
      if 0 <= i < |a.items| {
        assert C.WellFormed(a) && C.WellFormed(a.items[i]);
        LiteralsFit(a.items[i]);
      }
    } else {
      LiteralsFit(a);
      LiteralsFit(b);
    }
  }

  lemma {:induction false} CaseFits(e: C.Expression)
    requires e.CaseExpression? && C.WellFormed(e) && Lower(e).Ok?
    ensures Fits(Lower(e).value)
    decreases e, 0
  {
    hide LowerWhens, LowerAll, LowerPairs, FoldsRange, AllFit;
    var o, d := e.operand, e.otherwise;
    if o.Some? { LiteralsFit(o.value); }
    if d.Some? { LiteralsFit(d.value); }
    BranchesFit(LowerOpt(o).value, e.whens);
  }

  lemma {:induction false} ComprehensionFits(e: C.Expression)
    requires e.ListComprehension? && C.WellFormed(e) && Lower(e).Ok?
    ensures Fits(Lower(e).value)
    decreases e, 0
  {
    hide LowerWhens, LowerAll, LowerPairs, FoldsRange;
    LiteralsFit(e.list);
    if e.filter.Some? { LiteralsFit(e.filter.value); }
    if e.projection.Some? { LiteralsFit(e.projection.value); }
  }

  lemma {:induction false} ElementsFit(es: seq<C.Expression>)
    requires (forall i :: 0 <= i < |es| ==> C.WellFormed(es[i])) && LowerAll(es).Ok?
    ensures forall i :: 0 <= i < |es| ==> Fits(LowerAll(es).value[i])
    decreases es, 0
  {
    hide Lower, Fits, C.WellFormed;
    if es != [] {
      LiteralsFit(es[0]);
      ElementsFit(es[1..]);
    }
  }

  lemma {:induction false} EntriesFit(ps: seq<C.Entry>)
    requires (forall i :: 0 <= i < |ps| ==> C.WellFormed(ps[i].value)) && LowerPairs(ps).Ok?
    ensures forall i :: 0 <= i < |LowerPairs(ps).value| ==> Fits(LowerPairs(ps).value[i].value)
    decreases ps, 0
  {
    hide Lower, Fits, C.WellFormed;
    if ps != [] {
      LiteralsFit(ps[0].value);
      EntriesFit(ps[1..]);
    }
  }

  lemma {:induction false} BranchesFit(subject: Option<L.Expr>, ws: seq<C.Branch>)
    requires forall i :: 0 <= i < |ws| ==> C.WellFormed(ws[i].cond) && C.WellFormed(ws[i].result)
    requires LowerWhens(subject, ws).Ok? && (subject.Some? ==> Fits(subject.value))
    ensures AllFit(LowerWhens(subject, ws).value)
    decreases ws, 0
  {
    hide Lower, Fits, C.WellFormed;
    if ws != [] {
      assert ws decreases to ws[0];
      LiteralsFit(ws[0].cond);
      LiteralsFit(ws[0].result);
      BranchesFit(subject, ws[1..]);
      var bs := LowerWhens(subject, ws).value;
      assert bs[1..] == LowerWhens(subject, ws[1..]).value;
      if subject.Some? {
        EqualityFits(subject.value, Lower(ws[0].cond).value);
      }
    }
  }

  lemma EqualityFits(a: L.Expr, b: L.Expr)
    ensures Fits(L.Comparison(L.Eq, a, b)) <==> Fits(a) && Fits(b)
  {
  }
}
